/**
 * The directory tree being scanned, as an input value, and the order in which
 * `os.walk` visits it top-down once `scan_directory` has pruned the excluded
 * directory names from each listing.
 */
module FileSystem {
  import opened Wrappers
  import opened Strings

  /** What `open(path, 'r', encoding='utf-8').read()` does. */
  datatype ReadOutcome =
    | Text(text: string)        // the whole file, decoded
    | DecodeError               // UnicodeDecodeError
    | OtherError(message: string)  // any other exception, with `str(e)`

  /** A file: its name, `os.path.getsize` (None when it raises) and how reading it goes. */
  datatype FsFile = FsFile(name: string, size: Option<nat>, read: ReadOutcome)

  /** A directory with its subdirectories and files, each in listing order. */
  datatype FsDir = FsDir(name: string, subdirs: seq<FsDir>, files: seq<FsFile>)

  /** The directory names removed from every listing before the walk descends. */
  const ExcludedDirs: seq<string> := ["node_modules", ".git", ".next", "dist", "build"]

  /** One tuple produced by the walk: the directory as a list of names below the top, and its files. */
  datatype WalkEntry = WalkEntry(segs: seq<string>, files: seq<FsFile>)

  /**
   * The walk of `d`, reached by the names `segs`: `d` itself, then each
   * non-excluded subdirectory's walk in listing order.
   */
  function WalkFrom(d: FsDir, segs: seq<string>): (es: seq<WalkEntry>)
    ensures |es| >= 1 && es[0] == WalkEntry(segs, d.files)
  {
    [WalkEntry(segs, d.files)] + WalkList(d.subdirs, segs)
  }

  /** The walks of the directories `ds` kept by the pruning, one after another. */
  function WalkList(ds: seq<FsDir>, segs: seq<string>): seq<WalkEntry>
  {
    if ds == [] then []
    else if ds[0].name in ExcludedDirs then WalkList(ds[1..], segs)
    else WalkFrom(ds[0], segs + [ds[0].name]) + WalkList(ds[1..], segs)
  }

  /** `os.walk(directory)` with the pruning of `scan_directory`. */
  function Walk(top: FsDir): seq<WalkEntry>
  {
    WalkFrom(top, [])
  }

  /** `os.path.relpath(root, directory)` for the directory reached by `segs`. */
  function RelPath(segs: seq<string>): string
  {
    if segs == [] then "." else Join(segs, '/')
  }

  /** A name a directory can have: no separator, and not ".". */
  predicate NameOk(name: string)
  {
    '/' !in name && name != "."
  }

  /** Every directory name below `d` is possible, and sibling directories have distinct names. */
  predicate WellFormed(d: FsDir)
  {
    (forall i :: 0 <= i < |d.subdirs| ==> NameOk(d.subdirs[i].name) && WellFormed(d.subdirs[i])) &&
    (forall i, j :: 0 <= i < j < |d.subdirs| ==> d.subdirs[i].name != d.subdirs[j].name)
  }

  /**
   * The relative path is "." exactly at the top, and splitting it on the
   * separator gives back the names below the top.
   */
  lemma RelPathSplit(segs: seq<string>)
    requires forall k :: 0 <= k < |segs| ==> NameOk(segs[k])
    ensures RelPath(segs) == "." <==> segs == []
    ensures segs != [] ==> Split(RelPath(segs), '/') == segs
  {
    if segs != [] {
      SplitJoin(segs, '/');
      if |segs| > 1 {
        var s := Join(segs, '/');
        assert s == segs[0] + ['/'] + Join(segs[1..], '/');
        assert s[|segs[0]|] == '/';
        assert '/' !in ".";
      }
    }
  }

  /**
   * Every directory the walk reaches from `d` lies below `segs`, and none of
   * the names it goes through is excluded: pruning applies at every depth.
   */
  lemma {:induction false} WalkFromPruned(d: FsDir, segs: seq<string>)
    ensures forall e :: e in WalkFrom(d, segs) ==>
      segs <= e.segs && forall k :: |segs| <= k < |e.segs| ==> e.segs[k] !in ExcludedDirs
    decreases d, 1
  {
    WalkListPruned(d.subdirs, segs);
  }

  lemma {:induction false} WalkListPruned(ds: seq<FsDir>, segs: seq<string>)
    ensures forall e :: e in WalkList(ds, segs) ==>
      segs < e.segs && forall k :: |segs| <= k < |e.segs| ==> e.segs[k] !in ExcludedDirs
    decreases ds, 0
  {
    if ds != [] {
      WalkListPruned(ds[1..], segs);
      if ds[0].name !in ExcludedDirs {
        var segs' := segs + [ds[0].name];
        WalkFromPruned(ds[0], segs');
        forall e | e in WalkFrom(ds[0], segs')
          ensures segs < e.segs && forall k :: |segs| <= k < |e.segs| ==> e.segs[k] !in ExcludedDirs
        {
          assert e.segs[|segs|] == segs'[|segs|];
        }
      }
    }
  }
}
