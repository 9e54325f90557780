/**
 * `scan_directory` and `read_file_content`: the walk over the input tree is
 * folded into the root record, creating a directory record per directory
 * visited and a file record per kept file.
 */
module Scanner {
  import opened Wrappers
  import opened Strings
  import opened Classifier
  import opened Tree
  import opened FileSystem
  import opened Structure

  // ---------------------------------------------------------------------------
  // Reading a file
  // ---------------------------------------------------------------------------

  const BinaryPlaceholder: string := "[Binary file or encoding not supported]"

  /**
   * `read_file_content`: the text of the file, or a bracketed placeholder when
   * reading fails, so a failed read never leaves the content empty.
   */
  function ReadFileContent(outcome: ReadOutcome): (content: string)
    ensures outcome.Text? ==> content == outcome.text
    ensures outcome.DecodeError? ==> content == BinaryPlaceholder
    ensures outcome.OtherError? ==> content == "[Error reading file: " + outcome.message + "]"
    ensures !outcome.Text? ==> |content| > 0 && content[0] == '[' && content[|content| - 1] == ']'
  {
    match outcome
    case Text(text) => text
    case DecodeError => BinaryPlaceholder
    case OtherError(message) => "[Error reading file: " + message + "]"
  }

  // ---------------------------------------------------------------------------
  // The files of one directory
  // ---------------------------------------------------------------------------

  /** `os.path.getsize` raised for a kept file: the scan stops there. */
  datatype ScanError = SizeUnavailable(name: string)

  /** The record for a kept file of known size. */
  function Record(f: FsFile, size: nat): FileEntry
  {
    FileEntry(f.name, FileType(f.name), ReadFileContent(f.read), size)
  }

  /** The first kept file, in listing order, whose size is unavailable. */
  function FirstMissingSize(files: seq<FsFile>): Option<string>
  {
    if files == [] then None
    else
      var init, f := files[..|files| - 1], files[|files| - 1];
      match FirstMissingSize(init)
      case Some(name) => Some(name)
      case None => if IsSupported(f.name) && f.size.None? then Some(f.name) else None
  }

  /** Every kept file among `files` has a size. */
  predicate SizesKnown(files: seq<FsFile>)
  {
    FirstMissingSize(files).None?
  }

  /**
   * No size is missing exactly when every kept file has one; a reported name
   * is that of a kept file without a size, all kept files before it having one.
   */
  lemma {:induction false} FirstMissingSizeMeans(files: seq<FsFile>)
    ensures SizesKnown(files) <==> forall i :: 0 <= i < |files| && IsSupported(files[i].name) ==> files[i].size.Some?
    ensures FirstMissingSize(files).Some? ==>
      exists i :: 0 <= i < |files| && IsSupported(files[i].name) && files[i].size.None? &&
        FirstMissingSize(files).value == files[i].name && SizesKnown(files[..i])
  {
    if files != [] {
      var init := files[..|files| - 1];
      assert forall i :: 0 <= i < |init| ==> init[i] == files[i];
      FirstMissingSizeMeans(init);
      if FirstMissingSize(init).Some? {
        var i :| 0 <= i < |init| && IsSupported(init[i].name) && init[i].size.None? &&
          FirstMissingSize(init).value == init[i].name && SizesKnown(init[..i]);
        assert init[..i] == files[..i];
      } else {
        assert init == files[..|files| - 1];
      }
    }
  }

  /** Once a missing size is found, later files do not change which one is reported. */
  lemma {:induction false} FirstMissingSizePrefix(files: seq<FsFile>, k: nat)
    requires k <= |files| && FirstMissingSize(files[..k]).Some?
    ensures FirstMissingSize(files) == FirstMissingSize(files[..k])
    decreases |files| - k
  {
    if k < |files| {
      assert files[..k + 1][..k] == files[..k];
      FirstMissingSizePrefix(files, k + 1);
    } else {
      assert files[..k] == files;
    }
  }

  /** The records of the kept files, in listing order. */
  function KeptRecords(files: seq<FsFile>): seq<FileEntry>
    requires SizesKnown(files)
  {
    if files == [] then []
    else
      var init, f := files[..|files| - 1], files[|files| - 1];
      KeptRecords(init) + (if IsSupported(f.name) then [Record(f, f.size.value)] else [])
  }

  /** Recording two listings one after the other is recording their concatenation. */
  lemma {:induction false} KeptRecordsAppend(a: seq<FsFile>, b: seq<FsFile>)
    requires SizesKnown(a + b)
    ensures SizesKnown(a) && SizesKnown(b)
    ensures KeptRecords(a + b) == KeptRecords(a) + KeptRecords(b)
    decreases |b|
  {
    if b != [] {
      var init := b[..|b| - 1];
      assert (a + b)[..|a + b| - 1] == a + init;
      KeptRecordsAppend(a, init);
    } else {
      assert a + b == a;
    }
  }

  /**
   * A file has a record exactly when it is kept, and the record holds its
   * name, its label, its content or read-failure placeholder, and its size.
   */
  lemma {:induction false} KeptRecordsMembers(files: seq<FsFile>)
    requires SizesKnown(files)
    ensures forall i :: 0 <= i < |files| && IsSupported(files[i].name) ==> files[i].size.Some?
    ensures forall i :: 0 <= i < |files| && IsSupported(files[i].name) ==>
      Record(files[i], files[i].size.value) in KeptRecords(files)
    ensures forall r :: r in KeptRecords(files) ==>
      exists i :: 0 <= i < |files| && IsSupported(files[i].name) && r == Record(files[i], files[i].size.value)
  {
    FirstMissingSizeMeans(files);
    if files != [] {
      var init := files[..|files| - 1];
      assert forall i :: 0 <= i < |init| ==> init[i] == files[i];
      KeptRecordsMembers(init);
    }
  }

  /** A directory record with `recs` appended to its file records. */
  function AppendFiles(d: Dir, recs: seq<FileEntry>): (r: Dir)
    ensures r.name == d.name && r.dirs == d.dirs && r.files == d.files + recs
  {
    d.(files := d.files + recs)
  }

  // ---------------------------------------------------------------------------
  // The fold over the walk
  // ---------------------------------------------------------------------------

  /** The path segments `_get_or_create_dir` is given for a walk entry, or none at the top. */
  function PathParts(segs: seq<string>): seq<string>
  {
    var rel := RelPath(segs);
    if rel == "." then [] else Split(rel, '/')
  }

  /** One turn of the outer loop: find or create the record, then append the kept files' records. */
  function ProcessEntry(t: Dir, e: WalkEntry): Dir
    requires SizesKnown(e.files)
  {
    var parts := PathParts(e.segs);
    var t1, pos := InsertPath(t, parts), InsertPos(t, parts);
    InsertPathLocates(t, parts);
    ReplaceAt(t1, pos, AppendFiles(NodeAt(t1, pos), KeptRecords(e.files)))
  }

  /** The loop of `scan_directory` over the walk entries `es`, from the tree `t`. */
  function ScanEntries(t: Dir, es: seq<WalkEntry>): Result<Dir, ScanError>
    decreases |es|
  {
    if es == [] then Ok(t)
    else
      match FirstMissingSize(es[0].files)
      case Some(name) => Err(SizeUnavailable(name))
      case None => ScanEntries(ProcessEntry(t, es[0]), es[1..])
  }

  /** What `scan_directory(directory)` produces from the tree `fs` found there. */
  function ScanSpec(fs: FsDir, directory: string): Result<Dir, ScanError>
  {
    ScanEntries(EmptyDir(Basename(directory)), Walk(fs))
  }

  /**
   * `scan_directory`: a fresh root record, then for each directory of the
   * walk its record (the root itself for ".") and the records of its kept
   * files.  The scan date is an input; a size lookup that fails aborts.
   */
  method ScanDirectory(fs: FsDir, directory: string, scanDate: string)
    returns (r: Result<ProjectStructure, ScanError>)
    ensures r.Ok? ==> fresh(r.value) && ScanSpec(fs, directory) == Ok(r.value.root)
    ensures r.Ok? ==> r.value.path == directory && r.value.scanDate == scanDate
    ensures r.Err? ==> ScanSpec(fs, directory) == Err(r.error)
  {
    var s := new ProjectStructure(directory, scanDate);
    var error := AddWalkEntries(s, Walk(fs));
    if error.Some? {
      return Err(error.value);
    }
    return Ok(s);
  }

  /** The outer loop of `scan_directory` over the entries of the walk, in walk order. */
  method AddWalkEntries(s: ProjectStructure, entries: seq<WalkEntry>) returns (error: Option<ScanError>)
    modifies s
    ensures error.None? ==> ScanEntries(old(s.root), entries) == Ok(s.root)
    ensures error.Some? ==> ScanEntries(old(s.root), entries) == Err(error.value)
  {
    ghost var spec := ScanEntries(s.root, entries);
    assert entries[0..] == entries;
    var n := 0;
    while n < |entries|
      invariant 0 <= n <= |entries|
      invariant spec == ScanEntries(s.root, entries[n..])
    {
      ghost var t := s.root;
      var missing := AddWalkEntry(s, entries[n]);
      if missing.Some? {
        EntryError(t, entries, n, missing.value);
        return Some(SizeUnavailable(missing.value));
      }
      EntryDone(t, entries, n);
      n := n + 1;
    }
    assert entries[n..] == [];
    return None;
  }

  /**
   * One turn of the outer loop of `scan_directory`: the record of the
   * directory (the root for "."), then its kept files' records.
   */
  method AddWalkEntry(s: ProjectStructure, e: WalkEntry) returns (missing: Option<string>)
    modifies s
    ensures missing == FirstMissingSize(e.files)
    ensures missing.None? ==> s.root == ProcessEntry(old(s.root), e)
  {
    var relPath := RelPath(e.segs);
    var currentDir: seq<nat>;
    if relPath == "." {
      currentDir := [];
    } else {
      currentDir := s.GetOrCreateDir(relPath);
    }
    EntryStart(old(s.root), e.segs, relPath, s.root, currentDir);
    missing := AppendKeptFiles(s, currentDir, e.files);
  }

  /**
   * The inner loop of `scan_directory` over the files of one directory: the
   * record of each kept file is appended, in listing order, to the record at
   * `pos`, until a kept file's size is unavailable.
   */
  method AppendKeptFiles(s: ProjectStructure, pos: seq<nat>, files: seq<FsFile>) returns (missing: Option<string>)
    requires ValidPos(s.root, pos)
    modifies s
    ensures missing == FirstMissingSize(files)
    ensures missing.None? ==> s.root == ReplaceAt(old(s.root), pos, AppendFiles(NodeAt(old(s.root), pos), KeptRecords(files)))
  {
    ghost var t := s.root;
    ghost var kept: seq<FileEntry> := [];
    ReplaceSame(t, pos);
    assert AppendFiles(NodeAt(t, pos), []) == NodeAt(t, pos);
    var m := 0;
    while m < |files|
      invariant 0 <= m <= |files|
      invariant ValidPos(t, pos)
      invariant SizesKnown(files[..m]) && kept == KeptRecords(files[..m])
      invariant s.root == ReplaceAt(t, pos, AppendFiles(NodeAt(t, pos), kept))
    {
      var file := files[m];
      if IsSupported(file.name) {
        var content := ReadFileContent(file.read);
        if file.size.None? {
          MissingStep(files, m);
          return Some(file.name);
        }
        var record := FileEntry(file.name, FileType(file.name), content, file.size.value);
        ghost var before := s.root;
        s.AppendFile(pos, record);
        AppendStep(t, pos, kept, record, before, s.root);
        KeepStep(files, m, record);
        kept := kept + [record];
        assert kept == KeptRecords(files[..m + 1]);
      } else {
        SkipStep(files, m);
        assert kept == KeptRecords(files[..m + 1]);
      }
      m := m + 1;
    }
    assert files[..m] == files;
    return None;
  }

  /** A file that is not kept leaves the records as they were. */
  lemma SkipStep(files: seq<FsFile>, m: nat)
    requires m < |files| && SizesKnown(files[..m]) && !IsSupported(files[m].name)
    ensures SizesKnown(files[..m + 1])
    ensures KeptRecords(files[..m + 1]) == KeptRecords(files[..m])
  {
    assert files[..m + 1][..m] == files[..m] && files[..m + 1][m] == files[m];
  }

  /** A kept file without a size is the first one missing, all earlier ones having sizes. */
  lemma MissingStep(files: seq<FsFile>, m: nat)
    requires m < |files| && SizesKnown(files[..m])
    requires IsSupported(files[m].name) && files[m].size.None?
    ensures FirstMissingSize(files) == Some(files[m].name)
  {
    assert files[..m + 1][..m] == files[..m] && files[..m + 1][m] == files[m];
    FirstMissingSizePrefix(files, m + 1);
  }

  /** A kept file with a size adds its record after those of the files before it. */
  lemma KeepStep(files: seq<FsFile>, m: nat, record: FileEntry)
    requires m < |files| && SizesKnown(files[..m])
    requires IsSupported(files[m].name) && files[m].size.Some?
    requires record == FileEntry(files[m].name, FileType(files[m].name), ReadFileContent(files[m].read), files[m].size.value)
    ensures SizesKnown(files[..m + 1])
    ensures KeptRecords(files[..m + 1]) == KeptRecords(files[..m]) + [record]
  {
    assert files[..m + 1][..m] == files[..m] && files[..m + 1][m] == files[m];
  }

  /** Appending one record at `pos`, after the records `recs` appended there before. */
  lemma AppendStep(t: Dir, pos: seq<nat>, recs: seq<FileEntry>, rec: FileEntry, before: Dir, after: Dir)
    requires ValidPos(t, pos)
    requires before == ReplaceAt(t, pos, AppendFiles(NodeAt(t, pos), recs))
    requires after == ReplaceAt(before, pos, AddFile(NodeAt(before, pos), rec))
    ensures after == ReplaceAt(t, pos, AppendFiles(NodeAt(t, pos), recs + [rec]))
  {
    var x := AppendFiles(NodeAt(t, pos), recs);
    ReplaceTwice(t, pos, x, AddFile(x, rec));
    AppendFilesSnoc(NodeAt(t, pos), recs, rec);
  }

  lemma AppendFilesSnoc(d: Dir, recs: seq<FileEntry>, rec: FileEntry)
    ensures AddFile(AppendFiles(d, recs), rec) == AppendFiles(d, recs + [rec])
  {
    assert (d.files + recs) + [rec] == d.files + (recs + [rec]);
  }

  /** The record `_get_or_create_dir` reached for an entry is the one `ProcessEntry` fills. */
  lemma EntryStart(t0: Dir, segs: seq<string>, relPath: string, t1: Dir, pos: seq<nat>)
    requires relPath == RelPath(segs)
    requires relPath == "." ==> t1 == t0 && pos == []
    requires relPath != "." ==> t1 == InsertPath(t0, Split(relPath, '/')) && pos == InsertPos(t0, Split(relPath, '/'))
    ensures t1 == InsertPath(t0, PathParts(segs)) && pos == InsertPos(t0, PathParts(segs))
    ensures ValidPos(t1, pos)
  {
    InsertPathLocates(t0, PathParts(segs));
  }

  /** A kept file without a size in the first entry ends the fold with that error. */
  lemma EntryError(t: Dir, es: seq<WalkEntry>, n: nat, name: string)
    requires n < |es| && FirstMissingSize(es[n].files) == Some(name)
    ensures ScanEntries(t, es[n..]) == Err(SizeUnavailable(name))
  {
    assert es[n..][0] == es[n];
  }

  /** Once entry `n` is processed without error, the fold continues from the next entry. */
  lemma EntryDone(t: Dir, es: seq<WalkEntry>, n: nat)
    requires n < |es| && SizesKnown(es[n].files)
    ensures ScanEntries(t, es[n..]) == ScanEntries(ProcessEntry(t, es[n]), es[n + 1..])
  {
    assert es[n..][0] == es[n] && es[n..][1..] == es[n + 1..];
  }
}
