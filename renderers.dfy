/**
 * `generate_markdown` and `generate_text`: the tree of records rendered top
 * down, each directory's file entries first and then its subdirectories,
 * each subdirectory's contents one level deeper.
 */
module Renderers {
  import opened Strings
  import opened Tree
  import opened SizeFormat

  /** U+1F4C4 PAGE FACING UP and U+1F4C1 FILE FOLDER, the Markdown markers of files and directories. */
  const FileIcon: string := "\U{1F4C4}"
  const DirIcon: string := "\U{1F4C1}"

  /** `"  " * level`: two spaces per level. */
  function Indent(level: nat): (s: string)
    ensures |s| == 2 * level
    ensures forall k :: 0 <= k < |s| ==> s[k] == ' '
  {
    if level == 0 then "" else "  " + Indent(level - 1)
  }

  // ---------------------------------------------------------------------------
  // Markdown
  // ---------------------------------------------------------------------------

  /** The block written before the entries at level 0 only. */
  function MarkdownHeader(name: string, scanDate: string): string
  {
    "# Project Structure: " + name + "\n\n"
    + "Scan Date: " + scanDate + "\n\n"
    + "## Directory Structure\n\n"
    + "This document contains the complete codebase structure and contents for AI analysis.\n\n"
  }

  /** The list item of a file, with its label and formatted size. */
  function MarkdownFileLine(indent: string, f: FileEntry, sizeText: string): (s: string)
  {
    indent + "- " + FileIcon + " **" + f.name + "** (" + f.fileType + ", " + sizeText + ")\n"
  }

  /** The fenced content: the fence tag is the lowercased label, the closing fence is not indented by level. */
  function MarkdownFence(indent: string, f: FileEntry): string
  {
    indent + "  ```" + AsciiLower(f.fileType) + "\n" + f.content + "\n  ```\n\n"
  }

  /**
   * Everything written for one file: its list item, and its fenced content
   * unless the content is empty.
   */
  function MarkdownFile(indent: string, f: FileEntry): (s: string)
    ensures s == MarkdownFileLine(indent, f, SizeText(f.size)) <==> f.content == ""
  {
    MarkdownFileLine(indent, f, SizeText(f.size)) + (if f.content != "" then MarkdownFence(indent, f) else "")
  }

  /** The closing fence of a content block is not indented, whatever the level. */
  lemma ClosingFenceUnindented(indent: string, f: FileEntry)
    requires f.content != ""
    ensures var s := MarkdownFile(indent, f);
      |s| >= 8 && s[|s| - 8..] == "\n  ```\n\n"
  {
    var closing := "\n  ```\n\n";
    var open := indent + "  ```" + AsciiLower(f.fileType) + "\n" + f.content;
    var line := MarkdownFileLine(indent, f, SizeText(f.size));
    assert MarkdownFile(indent, f) == line + (open + closing);
    Assoc(line, open, closing);
    DropPrefix(line + open, closing);
  }

  lemma DropPrefix(a: string, b: string)
    ensures (a + b)[|a|..] == b
  {
  }

  /** The entries of `files` at one indentation, in list order. */
  function MarkdownFiles(indent: string, files: seq<FileEntry>): string
  {
    if files == [] then ""
    else MarkdownFiles(indent, files[..|files| - 1]) + MarkdownFile(indent, files[|files| - 1])
  }

  /** The list item of a subdirectory. */
  function MarkdownDirLine(indent: string, name: string): (s: string)
  {
    indent + "- " + DirIcon + " **" + name + "/**\n"
  }

  /** What a call at `level` writes for the records of `d` below any header. */
  function MarkdownBody(d: Dir, level: nat): string
    decreases d, 1
  {
    MarkdownFiles(Indent(level), d.files) + MarkdownDirs(d.dirs, level)
  }

  /** The subdirectories `ds` at `level`: each one's list item, then its own records one level deeper. */
  function MarkdownDirs(ds: seq<Dir>, level: nat): string
    decreases ds, 0
  {
    if ds == [] then ""
    else
      var last := ds[|ds| - 1];
      MarkdownDirs(ds[..|ds| - 1], level) + (MarkdownDirLine(Indent(level), last.name) + MarkdownBody(last, level + 1))
  }

  /** `generate_markdown(structure, level)`; `scanDate` is read at level 0 only. */
  function Markdown(d: Dir, scanDate: string, level: nat): string
  {
    (if level == 0 then MarkdownHeader(d.name, scanDate) else "") + MarkdownBody(d, level)
  }

  /** `generate_markdown`: the header at level 0, then the loops over the files and the subdirectories. */
  method GenerateMarkdown(d: Dir, scanDate: string, level: nat) returns (md: string)
    ensures md == Markdown(d, scanDate, level)
    decreases d, 1
  {
    md := "";
    var indent := Indent(level);
    if level == 0 {
      md := md + MarkdownHeader(d.name, scanDate);
      assert md == MarkdownHeader(d.name, scanDate);
    }
    Assoc(md, MarkdownFiles(indent, d.files), MarkdownDirs(d.dirs, level));
    md := AppendMarkdownFiles(md, indent, d.files);
    md := AppendMarkdownDirs(md, d.dirs, scanDate, level);
  }

  /** The loop over the files: each one's entry appended to `md`, in list order. */
  method AppendMarkdownFiles(md0: string, indent: string, files: seq<FileEntry>) returns (md: string)
    ensures md == md0 + MarkdownFiles(indent, files)
  {
    md := md0;
    assert files[..0] == [];
    for i := 0 to |files|
      invariant md == md0 + MarkdownFiles(indent, files[..i])
    {
      var file := files[i];
      ghost var before := md;
      var sizeText := FormatSize(file.size);
      md := md + MarkdownFileLine(indent, file, sizeText);
      if file.content != "" {
        md := md + MarkdownFence(indent, file);
      }
      MarkdownFilesStep(md0, before, md, indent, files, i);
    }
    assert files[..|files|] == files;
  }

  /** The loop over the subdirectories: each one's entry, then its own rendering one level deeper. */
  method AppendMarkdownDirs(md0: string, ds: seq<Dir>, scanDate: string, level: nat) returns (md: string)
    ensures md == md0 + MarkdownDirs(ds, level)
    decreases ds, 0
  {
    md := md0;
    var indent := Indent(level);
    assert ds[..0] == [];
    for i := 0 to |ds|
      invariant md == md0 + MarkdownDirs(ds[..i], level)
    {
      var directory := ds[i];
      ghost var before := md;
      MarkdownDirsStep(md0, before, Markdown(directory, scanDate, level + 1), ds, i, scanDate, level);
      md := md + MarkdownDirLine(indent, directory.name);
      var sub := GenerateMarkdown(directory, scanDate, level + 1);
      md := md + sub;
    }
    assert ds[..|ds|] == ds;
  }
  /** One turn of the loop over the files: the file's entry extends what was written so far. */
  lemma MarkdownFilesStep(md0: string, before: string, after: string, indent: string, files: seq<FileEntry>, i: nat)
    requires i < |files| && before == md0 + MarkdownFiles(indent, files[..i])
    requires var f := files[i]; var line := MarkdownFileLine(indent, f, SizeText(f.size));
      after == if f.content != "" then (before + line) + MarkdownFence(indent, f) else before + line
    ensures after == md0 + MarkdownFiles(indent, files[..i + 1])
  {
    var f := files[i];
    var entry := MarkdownFile(indent, f);
    assert after == before + entry by {
      if f.content != "" {
        Assoc(before, MarkdownFileLine(indent, f, SizeText(f.size)), MarkdownFence(indent, f));
      }
    }
    MarkdownFilesSnoc(indent, files, i);
    Assoc(md0, MarkdownFiles(indent, files[..i]), entry);
  }

  lemma MarkdownFilesSnoc(indent: string, files: seq<FileEntry>, i: nat)
    requires i < |files|
    ensures MarkdownFiles(indent, files[..i + 1]) == MarkdownFiles(indent, files[..i]) + MarkdownFile(indent, files[i])
  {
    assert files[..i + 1][..i] == files[..i] && files[..i + 1][i] == files[i];
  }

  /** One turn of the loop over the subdirectories: the entry and the deeper rendering extend what was written. */
  lemma MarkdownDirsStep(md0: string, before: string, sub: string, ds: seq<Dir>, i: nat, scanDate: string, level: nat)
    requires i < |ds| && before == md0 + MarkdownDirs(ds[..i], level)
    requires sub == Markdown(ds[i], scanDate, level + 1)
    ensures (before + MarkdownDirLine(Indent(level), ds[i].name)) + sub == md0 + MarkdownDirs(ds[..i + 1], level)
  {
    var line := MarkdownDirLine(Indent(level), ds[i].name);
    assert sub == MarkdownBody(ds[i], level + 1);
    Assoc(before, line, sub);
    MarkdownDirsSnoc(ds, i, level);
    Assoc(md0, MarkdownDirs(ds[..i], level), line + sub);
  }

  lemma MarkdownDirsSnoc(ds: seq<Dir>, i: nat, level: nat)
    requires i < |ds|
    ensures MarkdownDirs(ds[..i + 1], level) == MarkdownDirs(ds[..i], level) + (MarkdownDirLine(Indent(level), ds[i].name) + MarkdownBody(ds[i], level + 1))
  {
    assert ds[..i + 1][..i] == ds[..i] && ds[..i + 1][i] == ds[i];
  }


  // ---------------------------------------------------------------------------
  // Plain text
  // ---------------------------------------------------------------------------

  function TextHeader(name: string, scanDate: string): string
  {
    "Project Structure: " + name + "\n"
    + "Scan Date: " + scanDate + "\n\n"
    + "Directory Structure:\n\n"
  }

  function TextFileLine(indent: string, f: FileEntry, sizeText: string): (s: string)
  {
    indent + "[FILE] " + f.name + " (" + f.fileType + ", " + sizeText + ")\n"
  }

  /** The content between two indented `---` lines. */
  function TextContent(indent: string, f: FileEntry): string
  {
    indent + "Content:\n" + indent + "---\n" + f.content + "\n" + indent + "---\n\n"
  }

  /** Everything written for one file: its line, and its content unless the content is empty. */
  function TextFile(indent: string, f: FileEntry): (s: string)
    ensures s == TextFileLine(indent, f, SizeText(f.size)) <==> f.content == ""
  {
    TextFileLine(indent, f, SizeText(f.size)) + (if f.content != "" then TextContent(indent, f) else "")
  }

  function TextFiles(indent: string, files: seq<FileEntry>): string
  {
    if files == [] then ""
    else TextFiles(indent, files[..|files| - 1]) + TextFile(indent, files[|files| - 1])
  }

  function TextDirLine(indent: string, name: string): (s: string)
  {
    indent + "[DIR] " + name + "/\n"
  }

  function TextBody(d: Dir, level: nat): string
    decreases d, 1
  {
    TextFiles(Indent(level), d.files) + TextDirs(d.dirs, level)
  }

  function TextDirs(ds: seq<Dir>, level: nat): string
    decreases ds, 0
  {
    if ds == [] then ""
    else
      var last := ds[|ds| - 1];
      TextDirs(ds[..|ds| - 1], level) + (TextDirLine(Indent(level), last.name) + TextBody(last, level + 1))
  }

  /** `generate_text(structure, level)`; `scanDate` is read at level 0 only. */
  function Text(d: Dir, scanDate: string, level: nat): string
  {
    (if level == 0 then TextHeader(d.name, scanDate) else "") + TextBody(d, level)
  }

  /** `generate_text`: the header at level 0, then the loops over the files and the subdirectories. */
  method GenerateText(d: Dir, scanDate: string, level: nat) returns (text: string)
    ensures text == Text(d, scanDate, level)
    decreases d, 1
  {
    text := "";
    var indent := Indent(level);
    if level == 0 {
      text := text + TextHeader(d.name, scanDate);
      assert text == TextHeader(d.name, scanDate);
    }
    Assoc(text, TextFiles(indent, d.files), TextDirs(d.dirs, level));
    text := AppendTextFiles(text, indent, d.files);
    text := AppendTextDirs(text, d.dirs, scanDate, level);
  }

  /** The loop over the files: each one's entry appended to `text`, in list order. */
  method AppendTextFiles(text0: string, indent: string, files: seq<FileEntry>) returns (text: string)
    ensures text == text0 + TextFiles(indent, files)
  {
    text := text0;
    assert files[..0] == [];
    for i := 0 to |files|
      invariant text == text0 + TextFiles(indent, files[..i])
    {
      var file := files[i];
      ghost var before := text;
      var sizeText := FormatSize(file.size);
      text := text + TextFileLine(indent, file, sizeText);
      if file.content != "" {
        text := text + TextContent(indent, file);
      }
      TextFilesStep(text0, before, text, indent, files, i);
    }
    assert files[..|files|] == files;
  }

  /** The loop over the subdirectories: each one's entry, then its own rendering one level deeper. */
  method AppendTextDirs(text0: string, ds: seq<Dir>, scanDate: string, level: nat) returns (text: string)
    ensures text == text0 + TextDirs(ds, level)
    decreases ds, 0
  {
    text := text0;
    var indent := Indent(level);
    assert ds[..0] == [];
    for i := 0 to |ds|
      invariant text == text0 + TextDirs(ds[..i], level)
    {
      var directory := ds[i];
      ghost var before := text;
      TextDirsStep(text0, before, Text(directory, scanDate, level + 1), ds, i, scanDate, level);
      text := text + TextDirLine(indent, directory.name);
      var sub := GenerateText(directory, scanDate, level + 1);
      text := text + sub;
    }
    assert ds[..|ds|] == ds;
  }
  /** One turn of the loop over the files: the file's entry extends what was written so far. */
  lemma TextFilesStep(text0: string, before: string, after: string, indent: string, files: seq<FileEntry>, i: nat)
    requires i < |files| && before == text0 + TextFiles(indent, files[..i])
    requires var f := files[i]; var line := TextFileLine(indent, f, SizeText(f.size));
      after == if f.content != "" then (before + line) + TextContent(indent, f) else before + line
    ensures after == text0 + TextFiles(indent, files[..i + 1])
  {
    var f := files[i];
    var entry := TextFile(indent, f);
    assert after == before + entry by {
      if f.content != "" {
        Assoc(before, TextFileLine(indent, f, SizeText(f.size)), TextContent(indent, f));
      }
    }
    TextFilesSnoc(indent, files, i);
    Assoc(text0, TextFiles(indent, files[..i]), entry);
  }

  lemma TextFilesSnoc(indent: string, files: seq<FileEntry>, i: nat)
    requires i < |files|
    ensures TextFiles(indent, files[..i + 1]) == TextFiles(indent, files[..i]) + TextFile(indent, files[i])
  {
    assert files[..i + 1][..i] == files[..i] && files[..i + 1][i] == files[i];
  }

  /** One turn of the loop over the subdirectories: the entry and the deeper rendering extend what was written. */
  lemma TextDirsStep(text0: string, before: string, sub: string, ds: seq<Dir>, i: nat, scanDate: string, level: nat)
    requires i < |ds| && before == text0 + TextDirs(ds[..i], level)
    requires sub == Text(ds[i], scanDate, level + 1)
    ensures (before + TextDirLine(Indent(level), ds[i].name)) + sub == text0 + TextDirs(ds[..i + 1], level)
  {
    var line := TextDirLine(Indent(level), ds[i].name);
    assert sub == TextBody(ds[i], level + 1);
    Assoc(before, line, sub);
    TextDirsSnoc(ds, i, level);
    Assoc(text0, TextDirs(ds[..i], level), line + sub);
  }

  lemma TextDirsSnoc(ds: seq<Dir>, i: nat, level: nat)
    requires i < |ds|
    ensures TextDirs(ds[..i + 1], level) == TextDirs(ds[..i], level) + (TextDirLine(Indent(level), ds[i].name) + TextBody(ds[i], level + 1))
  {
    assert ds[..i + 1][..i] == ds[..i] && ds[..i + 1][i] == ds[i];
  }


  // ---------------------------------------------------------------------------
  // The entries both renderers write, in order
  // ---------------------------------------------------------------------------

  /** One entry a renderer writes: a file or a subdirectory, at its level. */
  datatype Item = FileItem(level: nat, file: FileEntry) | DirItem(level: nat, name: string)

  /** The entries of `files`, all at `level`, in list order. */
  function FileItems(files: seq<FileEntry>, level: nat): (items: seq<Item>)
    ensures |items| == |files|
    ensures forall k :: 0 <= k < |items| ==> items[k] == FileItem(level, files[k])
  {
    if files == [] then [] else FileItems(files[..|files| - 1], level) + [FileItem(level, files[|files| - 1])]
  }

  /**
   * The entries written for `d` at `level`, in order: its files, then each
   * subdirectory followed by that subdirectory's own entries one level
   * deeper.  None is above `level`, the first (if any) is at `level`, and at
   * `level` itself no file comes after a subdirectory.
   */
  function Items(d: Dir, level: nat): (items: seq<Item>)
    ensures forall k :: 0 <= k < |items| ==> items[k].level >= level
    ensures |d.files| + |d.dirs| > 0 ==> |items| > 0 && items[0].level == level
    ensures forall i, j :: 0 <= i < j < |items| && items[i].DirItem? && items[j].level == level ==> items[j].DirItem?
    decreases d, 1
  {
    FileItems(d.files, level) + DirItems(d.dirs, level)
  }

  /** The entries of the subdirectories `ds` at `level`: each one's own, then those below it. */
  function DirItems(ds: seq<Dir>, level: nat): (items: seq<Item>)
    ensures forall k :: 0 <= k < |items| ==> items[k].level >= level && (items[k].level == level ==> items[k].DirItem?)
    ensures ds != [] ==> |items| > 0 && items[0] == DirItem(level, ds[0].name)
    decreases ds, 0
  {
    if ds == [] then []
    else
      var last := ds[|ds| - 1];
      DirItems(ds[..|ds| - 1], level) + ([DirItem(level, last.name)] + Items(last, level + 1))
  }

  function MarkdownItem(item: Item): string
  {
    match item
    case FileItem(level, f) => MarkdownFile(Indent(level), f)
    case DirItem(level, name) => MarkdownDirLine(Indent(level), name)
  }

  function TextItem(item: Item): string
  {
    match item
    case FileItem(level, f) => TextFile(Indent(level), f)
    case DirItem(level, name) => TextDirLine(Indent(level), name)
  }

  /** The renderings of `items` one after another. */
  function Render(items: seq<Item>, render: Item -> string): string
  {
    if items == [] then "" else Render(items[..|items| - 1], render) + render(items[|items| - 1])
  }

  lemma {:induction false} RenderAppend(a: seq<Item>, b: seq<Item>, render: Item -> string)
    ensures Render(a + b, render) == Render(a, render) + Render(b, render)
    decreases |b|
  {
    if b == [] {
      assert a + b == a;
    } else {
      var init := b[..|b| - 1];
      assert (a + b)[..|a + b| - 1] == a + init && (a + b)[|a + b| - 1] == b[|b| - 1];
      RenderAppend(a, init, render);
      Assoc(Render(a, render), Render(init, render), render(b[|b| - 1]));
    }
  }

  /** A non-empty list of entries is rendered starting with its first entry. */
  lemma RenderFirst(items: seq<Item>, render: Item -> string)
    requires items != []
    ensures Render(items, render) == render(items[0]) + Render(items[1..], render)
  {
    assert items == [items[0]] + items[1..];
    RenderAppend([items[0]], items[1..], render);
    assert [items[0]][..0] == [];
  }

  lemma {:induction false} MarkdownFilesItems(files: seq<FileEntry>, level: nat)
    ensures MarkdownFiles(Indent(level), files) == Render(FileItems(files, level), MarkdownItem)
  {
    if files != [] {
      MarkdownFilesItems(files[..|files| - 1], level);
    }
  }

  lemma {:induction false} TextFilesItems(files: seq<FileEntry>, level: nat)
    ensures TextFiles(Indent(level), files) == Render(FileItems(files, level), TextItem)
  {
    if files != [] {
      TextFilesItems(files[..|files| - 1], level);
    }
  }

  /** `generate_markdown` below the header writes exactly the entries `Items`, in order. */
  lemma {:induction false} MarkdownBodyItems(d: Dir, level: nat)
    ensures MarkdownBody(d, level) == Render(Items(d, level), MarkdownItem)
    decreases d, 1
  {
    MarkdownFilesItems(d.files, level);
    MarkdownDirsItems(d.dirs, level);
    RenderAppend(FileItems(d.files, level), DirItems(d.dirs, level), MarkdownItem);
  }

  lemma {:induction false} MarkdownDirsItems(ds: seq<Dir>, level: nat)
    ensures MarkdownDirs(ds, level) == Render(DirItems(ds, level), MarkdownItem)
    decreases ds, 0
  {
    if ds != [] {
      var init, last := ds[..|ds| - 1], ds[|ds| - 1];
      MarkdownDirsItems(init, level);
      MarkdownBodyItems(last, level + 1);
      MarkdownDirEntryItems(DirItems(init, level), last, level);
    }
  }

  /** A subdirectory's entry, then its own entries, appended after earlier entries. */
  lemma MarkdownDirEntryItems(earlier: seq<Item>, last: Dir, level: nat)
    ensures var below := Items(last, level + 1);
      Render(earlier + ([DirItem(level, last.name)] + below), MarkdownItem)
      == Render(earlier, MarkdownItem) + (MarkdownDirLine(Indent(level), last.name) + Render(below, MarkdownItem))
  {
    var own := [DirItem(level, last.name)];
    RenderAppend(earlier, own + Items(last, level + 1), MarkdownItem);
    RenderAppend(own, Items(last, level + 1), MarkdownItem);
    assert Render(own, MarkdownItem) == MarkdownDirLine(Indent(level), last.name) by {
      assert own[..0] == [];
    }
  }

  /** `generate_text` below the header writes exactly the same entries, in the same order. */
  lemma {:induction false} TextBodyItems(d: Dir, level: nat)
    ensures TextBody(d, level) == Render(Items(d, level), TextItem)
    decreases d, 1
  {
    TextFilesItems(d.files, level);
    TextDirsItems(d.dirs, level);
    RenderAppend(FileItems(d.files, level), DirItems(d.dirs, level), TextItem);
  }

  lemma {:induction false} TextDirsItems(ds: seq<Dir>, level: nat)
    ensures TextDirs(ds, level) == Render(DirItems(ds, level), TextItem)
    decreases ds, 0
  {
    if ds != [] {
      var init, last := ds[..|ds| - 1], ds[|ds| - 1];
      TextDirsItems(init, level);
      TextBodyItems(last, level + 1);
      TextDirEntryItems(DirItems(init, level), last, level);
    }
  }

  /** A subdirectory's entry, then its own entries, appended after earlier entries. */
  lemma TextDirEntryItems(earlier: seq<Item>, last: Dir, level: nat)
    ensures var below := Items(last, level + 1);
      Render(earlier + ([DirItem(level, last.name)] + below), TextItem)
      == Render(earlier, TextItem) + (TextDirLine(Indent(level), last.name) + Render(below, TextItem))
  {
    var own := [DirItem(level, last.name)];
    RenderAppend(earlier, own + Items(last, level + 1), TextItem);
    RenderAppend(own, Items(last, level + 1), TextItem);
    assert Render(own, TextItem) == TextDirLine(Indent(level), last.name) by {
      assert own[..0] == [];
    }
  }

  /** Every Markdown entry starts with two spaces per level of its depth. */
  lemma MarkdownItemIndented(item: Item)
    ensures Indent(item.level) <= MarkdownItem(item)
  {
  }

  /** Every text entry starts with two spaces per level of its depth. */
  lemma TextItemIndented(item: Item)
    ensures Indent(item.level) <= TextItem(item)
  {
  }

  /** The Markdown starts with the "# Project Structure" header exactly at level 0. */
  lemma MarkdownHeaderOnlyAtTop(d: Dir, scanDate: string, level: nat)
    ensures var s := Markdown(d, scanDate, level); (|s| > 0 && s[0] == '#') <==> level == 0
  {
    if level > 0 {
      BodyIndented(d, level, MarkdownItem);
      MarkdownBodyItems(d, level);
    }
  }

  /** The text starts with the "Project Structure" header exactly at level 0. */
  lemma TextHeaderOnlyAtTop(d: Dir, scanDate: string, level: nat)
    ensures var s := Text(d, scanDate, level); (|s| > 0 && s[0] == 'P') <==> level == 0
  {
    if level > 0 {
      BodyIndented(d, level, TextItem);
      TextBodyItems(d, level);
    }
  }

  /** Below the top, the entries of `d` start with a space or are empty. */
  lemma BodyIndented(d: Dir, level: nat, render: Item -> string)
    requires level > 0
    requires render == MarkdownItem || render == TextItem
    ensures var s := Render(Items(d, level), render); s == "" || s[0] == ' '
  {
    var items := Items(d, level);
    if items != [] {
      RenderFirst(items, render);
      if render == MarkdownItem {
        MarkdownItemIndented(items[0]);
      } else {
        TextItemIndented(items[0]);
      }
      assert Indent(level)[0] == ' ';
    } else {
      assert Render(items, render) == "";
    }
  }

  lemma Assoc(a: string, b: string, c: string)
    ensures (a + b) + c == a + (b + c)
  {
  }
}
