# Project Scanner — a verified model of the scan and export core

The Project Scanner walks a project directory and records every source file it
recognises in a nested structure. A file is recognised by its extension, or by its
whole name when that name is a key of the table. Every whole-name key with a dot, such
as `package.json`, also has an extension in the table, so the whole-name test only adds
dot-free files named exactly like a key, such as `js` or `gitignore`
(`Classifier.DotlessKeyIsUnknown`). Each record holds the file's
name, a type label, its size and its whole text. The structure is then rendered as a
Markdown or plain-text document for an AI assistant to read. The document may be
split into several numbered parts.

This project models that core of `project_scanner.py`:

- the extension table and the classification of a file name (`Classifier`);
- reading a file, with its two error placeholders (`Scanner.ReadFileContent`);
- the directory walk with its pruned names (`FileSystem`);
- `scan_directory`, which builds the structure in place (`Scanner.ScanDirectory`), and
  `_get_or_create_dir`, which finds or creates the record for a relative path
  (`Structure.ProjectStructure.GetOrCreateDir`);
- `split_content` (`Splitter.SplitContent`);
- `format_size` (`SizeFormat.FormatSize`);
- the two renderers (`Renderers.GenerateMarkdown`, `Renderers.GenerateText`).

The program changes things step by step in these places:
- the root record that `scan_directory` fills in;
- the loops of `_get_or_create_dir`, `split_content` and `format_size`;
- the string accumulators of the renderers.

Each of these is a `class` or a `method` with loops here. Each method is proved
against a specification function, and the properties are proved as lemmas about those
functions.

The structure's records are nested Python dictionaries shared by reference. Here they
are the value `Tree.Dir`, held in the field `root` of `Structure.ProjectStructure`. A
reference to a record inside the tree is that record's position, a sequence of child
indices. An update reassigns `root` with the record at that position replaced
(`Tree.ReplaceAt`).

The directory on disk is an input value, `FileSystem.FsDir`. Each file in it carries:
- its name;
- the result of `os.path.getsize` (`None` when that call raises);
- the outcome of opening and decoding it.

The scan date is an input string.

Modules:
- `Wrappers`: `Option` and `Result`.
- `Strings`: decimal digits, `str.split` on one character and `sep.join`, `splitlines`,
  and ASCII lower-casing.
- `Classifier`: the table and the label.
- `SizeFormat`: `format_size`.
- `Splitter`: `split_content`.
- `Tree`: records as values, positions, and the path-insertion specification of
  `_get_or_create_dir`.
- `Structure`: the root record as a class.
- `FileSystem`: the input tree and the pruned walk.
- `Scanner`: `read_file_content` and `scan_directory`.
- `ScanProperties`: what a scan produces, stated on the input tree.
- `Renderers`: `generate_markdown` and `generate_text`.

## Model

| member | source | states |
|---|---|---|
| Classifier.IsKeyOfTable | project_scanner.py:17-36 | The table's keys are exactly the eighteen listed extensions and whole names. |
| Classifier.Extension | project_scanner.py:162 | The extension holds no '.'. It is empty when the name has no '.'. Otherwise the name is some stem, a '.', then the extension: it is the text after the last dot. |
| Classifier.FileType | project_scanner.py:168 | The label is "Unknown" or the value of a dot-free key of the table. No label ever comes from a whole-name key such as `package.json`. |
| Classifier.IsSupported | project_scanner.py:164 | A file is kept when its extension or its whole name is a key of the table. |
| Classifier.LabelsAreAscii | project_scanner.py:17-36 | "Unknown" and every label in the table are ASCII text. |
| Classifier.FileTypeIsAscii | project_scanner.py:168 | Every recorded label is ASCII text. |
| Classifier.ClassifyByExtension | project_scanner.py:162-168 | For `stem.ext`, the file is kept iff `ext` or the whole name is a key. The label is the table's value for `ext` when that is a key, and "Unknown" otherwise. |
| Classifier.DotlessKeyIsUnknown | project_scanner.py:164-168 | A dot-free whole-name key, such as `gitignore`, is kept and labelled "Unknown". |
| Classifier.LabelNeverFromExactName | project_scanner.py:164-168 | No file is ever labelled "Package JSON", "Next.js Config", "Tailwind Config" or "Three.js". |
| Classifier.PackageJsonIsJson | project_scanner.py:164-168 | `package.json` is kept and labelled "JSON", not "Package JSON". |
| Classifier.ThreeJsIsJavaScript | project_scanner.py:164-168 | `three.js` is kept and labelled "JavaScript". |
| Classifier.GitignoreIsGitIgnore | project_scanner.py:162-168 | `.gitignore` has the extension `gitignore`, so it is kept and labelled "Git Ignore". |
| Classifier.XyzIsSkipped | project_scanner.py:164 | A file with an extension outside the table, such as `file.xyz`, is skipped. |
| Scanner.ReadFileContent | project_scanner.py:128-136 | Decoded text is returned unchanged. A decode failure gives the binary placeholder. Any other failure gives "[Error reading file: <message>]". Both placeholders are bracketed. |
| Structure.Basename | project_scanner.py:141 | The root's name contains no '/'. It is the path itself when the path has none, and otherwise the text after the last '/'. |
| Structure.ProjectStructure.constructor | project_scanner.py:140-148 | A new root record has the given path and scan date, the path's basename as its name, and no directories or files. |
| Structure.ProjectStructure.GetOrCreateDir | project_scanner.py:175-197 | The tree becomes `InsertPath` of the old tree and the path's segments. The returned position is `InsertPos`, and the new tree locates the path at that position. |
| Structure.ProjectStructure.AppendFile | project_scanner.py:166-171 | The record at the position gains the file record at the end of its file list. Every record off the path to it is unchanged and where it was. |
| Structure.AddFile | project_scanner.py:166 | The directory keeps its name and subdirectories, and its files gain the record at the end. |
| Tree.FindChild | project_scanner.py:182-186 | Returns the index of the first child with the name, or the number of children when none has it. |
| Tree.ReplaceAt | project_scanner.py:184-195 | Replacing the record at a position puts the new record there. Below the root, the root keeps its name, its files and its child count. |
| Tree.ReplaceAtFrame | project_scanner.py:166 | Replacing the record at a position leaves every record neither above nor below it unchanged, at the same position. |
| Tree.ReplaceAtAncestors | project_scanner.py:194 | Every record above the replaced one keeps its name, its files and its number of children. |
| Tree.ReplaceSame | project_scanner.py:184-195 | Putting back the record already at a position changes nothing. |
| Tree.ReplaceTwice | project_scanner.py:184-195 | A second replacement at the same position overrides the first. |
| Tree.ReplaceCompose | project_scanner.py:184-195 | A position inside the record at another position is their concatenation. A replacement there is a replacement inside that record. |
| Tree.Locate | project_scanner.py:180-186 | A located path gives a valid position of the path's length, ending at a record with the path's last name. |
| Tree.InsertPath | project_scanner.py:180-197 | Path insertion keeps the root's name and files. |
| Tree.InsertPos | project_scanner.py:180-197 | The position reached has one index per path segment. |
| Tree.AddChild | project_scanner.py:194 | The new record goes at the end of the directory list, and nothing else changes. |
| Tree.AddChildAt | project_scanner.py:194 | The record at the position gains the new child at the end of its list. |
| Tree.AddChildAtFrame | project_scanner.py:194 | Appending a child leaves every record off the path to its parent unchanged, at the same position. |
| Tree.InsertOne | project_scanner.py:188-195 | When the parent has no child with the name, inserting one segment appends an empty record as its last child. |
| Tree.InsertPathLocates | project_scanner.py:175-197 | After insertion the path is found, at the position the insertion reached. |
| Tree.InsertPathExisting | project_scanner.py:180-186 | When the path already exists, the tree is unchanged and its existing position is returned. |
| Tree.InsertPathIdempotent | project_scanner.py:175-197 | Inserting the same path twice is the same as inserting it once, and reaches the same record. |
| Tree.InsertPathCreatesEmpty | project_scanner.py:188-195 | When a path did not exist, the record reached is new and empty, and carries the path's last name. |
| Tree.NoPathInEmpty | project_scanner.py:188-195 | An empty record contains no nonempty path. |
| Tree.ExtendsRefl | project_scanner.py:175-197 | Every tree extends itself. |
| Tree.ExtendsTrans | project_scanner.py:175-197 | The extension relation is transitive. |
| Tree.InsertPathExtends | project_scanner.py:175-197 | Insertion only appends records. Every existing record keeps its name, its files and its children at the same indices. |
| Tree.ExtendsLocate | project_scanner.py:175-197 | A path found in a tree is found at the same position in any tree extending it. |
| Tree.InsertPathUnique | project_scanner.py:180-195 | When sibling names are distinct before an insertion, they stay distinct after it. |
| Tree.InsertPathCount | project_scanner.py:188-195 | An insertion creates at most one record per path segment. |
| Tree.CountListAppend | project_scanner.py:194 | Appending a child adds its records to the count. |
| Tree.CountListUpdate | project_scanner.py:184-195 | Replacing a child changes the count by the difference between the new and old records. |
| FileSystem.WalkFrom | project_scanner.py:150 | The walk of a directory starts with that directory and its files. |
| FileSystem.Walk | project_scanner.py:150-152 | `os.walk` top-down from the scanned directory, with the excluded names pruned from every listing. |
| FileSystem.WalkList | project_scanner.py:150-152 | The walks of the non-excluded subdirectories, one after another, in listing order. |
| FileSystem.RelPath | project_scanner.py:154 | `os.path.relpath`: "." at the top, otherwise the names below the top joined by '/'. |
| FileSystem.RelPathSplit | project_scanner.py:154-158 | The relative path is "." exactly at the top. Otherwise, splitting it on the separator gives back the names below the top. |
| FileSystem.WalkFromPruned | project_scanner.py:150-152 | Every directory the walk visits lies below the start, and no name on its path is excluded, at any depth. |
| FileSystem.WalkListPruned | project_scanner.py:150-152 | The walks of subdirectories lie strictly below the parent, and no name on their paths is excluded. |
| Scanner.Record | project_scanner.py:166-171 | The record of a kept file: its name, its label, its content or placeholder, and its size. |
| Scanner.FirstMissingSize | project_scanner.py:164-171 | The name of the first kept file, in listing order, whose size cannot be read, if any. |
| Scanner.KeptRecords | project_scanner.py:160-171 | The records of the kept files of one listing, in listing order. |
| Scanner.ProcessEntry | project_scanner.py:154-171 | One turn of the walk loop: locate or create the directory's record, then append its kept files' records. |
| Scanner.ScanEntries | project_scanner.py:150-171 | The walk loop over its entries: the final tree, or the error of the first entry with a kept file of unknown size. |
| Scanner.ScanSpec | project_scanner.py:138-173 | `scan_directory`: the walk loop started from an empty root record named after the directory. |
| Scanner.FirstMissingSizeMeans | project_scanner.py:164-171 | All sizes are known iff every kept file has a size. A missing size names a kept file with no size, and every earlier kept file has one. |
| Scanner.FirstMissingSizePrefix | project_scanner.py:160-171 | A missing size found in a prefix of the listing is the one the whole listing reports. |
| Scanner.KeptRecordsAppend | project_scanner.py:160-171 | The records of two listings are the records of the first, followed by those of the second. |
| Scanner.KeptRecordsMembers | project_scanner.py:160-171 | Every kept file has a record, with its name, label, content and size. Every record comes from a kept file. |
| Scanner.AppendFiles | project_scanner.py:166 | Appending records keeps the directory's name and subdirectories and extends its files by exactly those records. |
| Scanner.ScanDirectory | project_scanner.py:138-173 | On success, a new root record holds the path, the date and the tree given by `ScanSpec`. On failure, it returns `ScanSpec`'s error. |
| Scanner.AddWalkEntries | project_scanner.py:150-171 | Processing the walk's entries in order gives `ScanEntries`: the final tree, or the first missing size. |
| Scanner.AddWalkEntry | project_scanner.py:154-171 | One walk entry locates or creates its record, then appends its kept files. It reports exactly the first missing size. |
| Scanner.AppendKeptFiles | project_scanner.py:160-171 | The record at the position gains exactly the kept files' records, in listing order, unless a kept file's size is missing. |
| Scanner.EntryStart | project_scanner.py:154-158 | Both branches on "." reach the record `InsertPath` gives for the entry's names. |
| ScanProperties.ScanCorrect | project_scanner.py:138-173 | On a well-formed tree, the scan succeeds iff every kept file has a size. It then yields the input tree itself, with its excluded directories dropped at every depth and only kept files in listing order. |
| ScanProperties.WalkFromScan | project_scanner.py:150-171 | Scanning a directory's walk under a parent without that name adds exactly the expected record as the parent's last child, or fails. |
| ScanProperties.WalkListScan | project_scanner.py:150-171 | Scanning the walks of sibling directories appends their expected records in listing order, or fails. |
| ScanProperties.ExpectedListPruned | project_scanner.py:152 | No record in the scanned tree carries an excluded name, at any depth. |
| ScanProperties.ExpectedListMembers | project_scanner.py:150-158 | Every non-excluded subdirectory has exactly its expected record in the result, and every record there comes from one. |
| ScanProperties.ScanPruned | project_scanner.py:150-152 | A successful scan's tree contains no excluded directory name. |
| ScanProperties.ScanEntriesError | project_scanner.py:160-171 | The scan fails iff some visited directory has a kept file without a size. The error names the first such file, in walk order. |
| SizeFormat.Pow1024 | project_scanner.py:249 | The divisors are positive. |
| SizeFormat.UnitIndex | project_scanner.py:246-250 | The unit is one of B, KB, MB and GB. |
| SizeFormat.RoundHalfEven | project_scanner.py:248 | The rounded tenth is the nearest, with ties going to the even neighbour. |
| SizeFormat.OneDecimal | project_scanner.py:248-250 | `:.1f` of an exact quotient: the rounded tenths, as digits, a '.', and one digit. |
| SizeFormat.SizeText | project_scanner.py:244-250 | The value in the chosen unit with one decimal, followed by the unit's name. |
| SizeFormat.FormatSize | project_scanner.py:244-250 | The loop's text equals `SizeText`. |
| SizeFormat.UnitIsLargestFit | project_scanner.py:246-250 | The unit chosen is the largest one at which the value is at least 1. Below GB, the value is under 1024. |
| SizeFormat.SmallSizeText | project_scanner.py:247-248 | Below 1024 bytes the text is the integer's digits followed by ".0B". |
| SizeFormat.SizeText1536 | project_scanner.py:244-250 | 1536 bytes is "1.5KB". |
| SizeFormat.SizeText1MiB | project_scanner.py:244-250 | 1048576 bytes is "1.0MB". |
| SizeFormat.SizeTextJustBelow1MiB | project_scanner.py:244-250 | 1048575 bytes is "1024.0KB": the value rounds up, but the unit was already chosen. |
| Splitter.SplitSpec | project_scanner.py:199-218 | `split_content`: the content alone for at most one part. Otherwise the headed chunks of ⌈L / n⌉ lines, or an error when that step is zero. |
| Splitter.Header | project_scanner.py:213-216 | The "# Part k of n" line and a blank line placed before part k. |
| Splitter.SplitContent | project_scanner.py:199-218 | The loop's result equals `SplitSpec`. |
| Splitter.SplitOutcome | project_scanner.py:199-218 | With at most one part, the content is returned whole. The split fails iff at least two parts are asked of empty content, where the range step is zero. |
| Splitter.PartCount | project_scanner.py:205-210 | There are ⌈L / lines_per_part⌉ parts, never more than the number asked for, and `lines_per_part` is at least 1. |
| Splitter.ChunkSizes | project_scanner.py:207-211 | Every chunk holds between 1 and `lines_per_part` lines. All but the last hold exactly `lines_per_part`. |
| Splitter.Chunks | project_scanner.py:210-211 | Every chunk is nonempty and holds at most `lines_per_part` lines. |
| Splitter.ChunkCount | project_scanner.py:210 | The number of chunks is the number of range starts. |
| Splitter.ChunkAt | project_scanner.py:210-211 | Chunk k is the slice of lines starting at k·lines_per_part. |
| Splitter.ChunksFlatten | project_scanner.py:210-211 | The chunks, concatenated, are exactly the lines. |
| Splitter.Parts | project_scanner.py:210-216 | There is one part per chunk. |
| Splitter.FirstHeader | project_scanner.py:212-213 | The first part's special-cased header is the general header for part 1. |
| Splitter.StepText | project_scanner.py:210-216 | The part built at range start i is header `i // lines_per_part + 1` followed by the joined chunk. |
| Splitter.FiveLinesInFourParts | project_scanner.py:205-216 | Five lines asked in four parts give two lines per part and only three parts. |
| Splitter.StripHeaders | project_scanner.py:212-216 | Each part is its "# Part k of n" header followed by the body returned. |
| Splitter.SplitReassembles | project_scanner.py:199-218 | Every part starts with its header. The bodies, joined by newlines, are `'\n'.join(content.splitlines())`: no line is lost, repeated or moved. |
| Strings.NatToString | project_scanner.py:248 | Decimal digits with no leading zero. |
| Strings.ParseNatToString | project_scanner.py:248 | Reading the digits back gives the number. |
| Strings.NatToStringInjective | project_scanner.py:248 | Different numbers give different texts. |
| Strings.Split | project_scanner.py:162 | `str.split` gives at least one piece, and no piece contains the separator. |
| Strings.JoinSplit | project_scanner.py:162 | Joining the pieces with the separator gives back the string. |
| Strings.SplitJoin | project_scanner.py:178 | Splitting a join of separator-free pieces gives back the pieces. |
| Strings.SplitLast | project_scanner.py:162 | The last piece is the text after the last separator. |
| Strings.SplitLines | project_scanner.py:205 | No line contains a newline. The lines are empty exactly for empty text. |
| Strings.JoinSplitLines | project_scanner.py:205-211 | Joining the lines with '\n' gives the text without a final newline. |
| Strings.AsciiLower | project_scanner.py:235 | Lower-casing keeps the length and maps each character on its own. |
| Renderers.Indent | project_scanner.py:223 | The indent is two spaces per level. |
| Renderers.MarkdownFile | project_scanner.py:233-235 | A file entry is only its bullet line exactly when its content is empty. |
| Renderers.ClosingFenceUnindented | project_scanner.py:235 | With content, the entry ends with a closing fence indented by two spaces whatever the level, then a blank line. |
| Renderers.Markdown | project_scanner.py:220-242 | `generate_markdown`: the title block at level 0, then the files' entries, then each subdirectory's line followed by its document one level deeper. |
| Renderers.GenerateMarkdown | project_scanner.py:220-242 | The accumulated Markdown equals the `Markdown` specification. |
| Renderers.AppendMarkdownFiles | project_scanner.py:232-235 | The files loop appends exactly the file entries, in order. |
| Renderers.AppendMarkdownDirs | project_scanner.py:238-240 | The directories loop appends each directory's line followed by its nested document. |
| Renderers.Text | project_scanner.py:252-271 | `generate_text`: the title block at level 0, then the files' entries, then each subdirectory's line followed by its document one level deeper. |
| Renderers.GenerateText | project_scanner.py:252-271 | The accumulated text equals the `Text` specification. |
| Renderers.AppendTextFiles | project_scanner.py:262-265 | The files loop appends exactly the file entries, in order. |
| Renderers.AppendTextDirs | project_scanner.py:267-269 | The directories loop appends each directory's line followed by its nested document. |
| Renderers.TextFile | project_scanner.py:263-265 | A file entry is only its `[FILE]` line exactly when its content is empty. |
| Renderers.Items | project_scanner.py:232-240 | The entries below a record are at its level or deeper. The first is at its level when it has any files or directories. Files come before directories at its level. |
| Renderers.DirItems | project_scanner.py:238-240 | The entries for subdirectories start with the first subdirectory's line. Entries at the level are directory lines. |
| Renderers.FileItems | project_scanner.py:232 | One entry per file, in order, at the level. |
| Renderers.RenderAppend | project_scanner.py:220-271 | Rendering is a concatenation: rendering two entry lists is rendering each in turn. |
| Renderers.MarkdownBodyItems | project_scanner.py:231-240 | The recursive Markdown body is the pre-order entry list, each rendered on its own. |
| Renderers.MarkdownDirsItems | project_scanner.py:238-240 | The same, for the directories part of the Markdown body. |
| Renderers.TextBodyItems | project_scanner.py:262-269 | The recursive text body is the same pre-order entry list, each rendered on its own. |
| Renderers.TextDirsItems | project_scanner.py:267-269 | The same, for the directories part of the text body. |
| Renderers.MarkdownFilesItems | project_scanner.py:232-235 | The Markdown files loop renders the file entries one by one. |
| Renderers.TextFilesItems | project_scanner.py:262-265 | The text files loop renders the file entries one by one. |
| Renderers.MarkdownItemIndented | project_scanner.py:233-239 | Every Markdown entry starts with its level's indent. |
| Renderers.TextItemIndented | project_scanner.py:263-268 | Every text entry starts with its level's indent. |
| Renderers.MarkdownHeaderOnlyAtTop | project_scanner.py:225-229 | The Markdown document starts with '#' exactly at level 0: a nested document does not start with the title. |
| Renderers.TextHeaderOnlyAtTop | project_scanner.py:257-260 | The text document starts with 'P' exactly at level 0. |
| Renderers.BodyIndented | project_scanner.py:238-240 | A nested document, in either format, is empty or starts with a space. |

## Left out

- The Tk window is not part of this model: the directory dialog, the part-count
  spinbox, its 1..10 check, the buttons, the status label and the progress bar.
- `scan_and_export` is not part of this model. That includes choosing the output
  file, writing the parts and the JSON dump.
- `datetime.now()` is not modelled: the scan date is an input string.
- The file system is an input value, `FileSystem.FsDir`. The model does not cover:
  - `os.walk` errors, which it silently ignores;
  - symbolic links;
  - a tree that changes during the scan.
- `os.walk` ordering: the order in which `os.walk` lists each directory is taken as
  the order of the input's sequences.
- `os.sep` is '/'. Directory names contain no '/', are not ".", and sibling directories
  have distinct names (`FileSystem.WellFormed`). A file system guarantees all three.
- Opening and decoding a file is an input outcome (`FileSystem.ReadOutcome`).
  UTF-8 decoding itself is not modelled.
- `str.splitlines` is modelled as splitting on '\n' only. Python also splits on
  "\r\n", "\r" and other line boundaries.
- `Strings.AsciiLower` lower-cases ASCII letters only. Every label in the table is
  ASCII (`Classifier.LabelsAreAscii`), so the rendered fence tags are exact.
- `SizeFormat.FormatSize` divides with exact rationals and rounds half to even. This
  matches Python's float division by 1024 and `:.1f` for sizes below 2^53 bytes.
- `ai_summary` is the constant `Structure.AiSummary`. It is not a field of the root
  record, because it is the same for every scan. Neither renderer writes it; it only
  feeds the JSON dump in `scan_and_export`, which is not part of this model.
- The loops of `scan_directory` and of the renderers sit in helper methods:
  - `Scanner.AddWalkEntries`, `Scanner.AddWalkEntry` and `Scanner.AppendKeptFiles`;
  - `Renderers.AppendMarkdownFiles`, `Renderers.AppendMarkdownDirs` and their text
    counterparts.

  The statements are those of the source.
- Python dictionaries shared by reference are modelled as positions in a tree value.
  Aliasing is therefore not modelled. In the source, `current_dir` in `scan_directory`
  and `current` and `new_dir` in `_get_or_create_dir` alias records of the structure.
  A new record is appended to its parent and then changed through `current`. Each
  update through such a name is a `Tree.ReplaceAt` at the record's position, and
  `Tree.ReplaceAtFrame` and `Tree.ReplaceAtAncestors` state that no other record
  changes.

Where the program's behaviour differs from its written description, the model follows
the program:

- The label comes from the extension alone (`supported_extensions.get(ext,
  "Unknown")`). Whole-name keys such as `package.json` only decide that a file is
  kept, so `package.json` is labelled "JSON", and `gitignore` without a dot is
  labelled "Unknown".
- The read error placeholder is "[Error reading file: <message>]".
- Each part of a split starts with "# Part k of n" and a blank line.
- Splitting empty content into two or more parts raises in the program, because
  `range` gets a step of zero. The model returns `Err(ZeroStep)`.
- When `os.path.getsize` fails for a kept file, the whole scan raises. The model
  returns `Err(SizeUnavailable(name))` for the first such file in walk order.
