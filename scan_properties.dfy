/**
 * What `scan_directory` builds, stated without the walk: every directory
 * below the top whose name is not excluded gets a record, with its
 * subdirectories' records in listing order and its kept files' records in
 * listing order, and the scan fails exactly when a kept file somewhere in
 * that part of the tree has no size.
 */
module ScanProperties {
  import opened Wrappers
  import opened Strings
  import opened Classifier
  import opened Tree
  import opened FileSystem
  import opened Structure
  import opened Scanner

  /** Every kept file of `d`, and of every directory the pruned walk reaches below it, has a size. */
  predicate AllSizesKnown(d: FsDir)
    decreases d, 1
  {
    SizesKnown(d.files) && AllSizesKnownList(d.subdirs)
  }

  predicate AllSizesKnownList(ds: seq<FsDir>)
    decreases ds, 0
  {
    ds != [] ==> (ds[0].name in ExcludedDirs || AllSizesKnown(ds[0])) && AllSizesKnownList(ds[1..])
  }

  /** The record a directory reached by the walk ends up with. */
  function ExpectedDir(d: FsDir): Dir
    requires AllSizesKnown(d)
    decreases d, 1
  {
    Dir(d.name, ExpectedList(d.subdirs), KeptRecords(d.files))
  }

  /** The records of the directories `ds` that are not excluded, in listing order. */
  function ExpectedList(ds: seq<FsDir>): seq<Dir>
    requires AllSizesKnownList(ds)
    decreases ds, 0
  {
    if ds == [] then []
    else if ds[0].name in ExcludedDirs then ExpectedList(ds[1..])
    else [ExpectedDir(ds[0])] + ExpectedList(ds[1..])
  }

  /** The root record: named after the scanned path, holding the top directory's subdirectories and kept files. */
  function ExpectedRoot(fs: FsDir, directory: string): Dir
    requires AllSizesKnown(fs)
  {
    Dir(Basename(directory), ExpectedList(fs.subdirs), KeptRecords(fs.files))
  }

  /**
   * `scan_directory` over a well-formed tree succeeds exactly when every kept
   * file it visits has a size, and then yields the expected root record.
   */
  lemma ScanCorrect(fs: FsDir, directory: string)
    requires WellFormed(fs)
    ensures ScanSpec(fs, directory).Ok? <==> AllSizesKnown(fs)
    ensures AllSizesKnown(fs) ==> ScanSpec(fs, directory) == Ok(ExpectedRoot(fs, directory))
  {
    var t0 := EmptyDir(Basename(directory));
    var e0 := WalkEntry([], fs.files);
    var tail := WalkList(fs.subdirs, []);
    assert Walk(fs) == [e0] + tail;
    assert ([e0] + tail)[0] == e0 && ([e0] + tail)[1..] == tail;
    if SizesKnown(fs.files) {
      var t1 := ProcessEntry(t0, e0);
      assert PathParts([]) == [];
      assert t1 == Dir(Basename(directory), [], KeptRecords(fs.files));
      assert tail + [] == tail;
      assert SegsOk([]) && SiblingsFree(fs.subdirs, t1.dirs);
      WalkListScan(fs.subdirs, [], t1, [], []);
      if AllSizesKnownList(fs.subdirs) {
        assert ReplaceAt(t1, [], t1.(dirs := t1.dirs + ExpectedList(fs.subdirs))) == ExpectedRoot(fs, directory);
      }
    }
  }

  /** Every name in `segs` is a possible directory name. */
  predicate SegsOk(segs: seq<string>)
  {
    forall k :: 0 <= k < |segs| ==> NameOk(segs[k])
  }

  /** No record among `ds` is named `name`. */
  predicate NoneNamed(ds: seq<Dir>, name: string)
  {
    forall j :: 0 <= j < |ds| ==> ds[j].name != name
  }

  /** No record among `ds` has the name of one of the directories `cs`. */
  predicate SiblingsFree(cs: seq<FsDir>, ds: seq<Dir>)
  {
    forall i :: 0 <= i < |cs| ==> NoneNamed(ds, cs[i].name)
  }

  /**
   * The walk of a directory `c` that is new below the record at `p` (reached
   * by `segs`), followed by any `rest`: either some kept file in it has no
   * size and the fold fails, or the fold goes on with `c`'s expected record
   * appended to the children at `p`.
   */
  lemma {:induction false} WalkFromScan(c: FsDir, segs: seq<string>, t: Dir, p: seq<nat>, rest: seq<WalkEntry>)
    requires WellFormed(c) && NameOk(c.name) && SegsOk(segs)
    requires Locate(t, segs) == Some(p) && NoneNamed(NodeAt(t, p).dirs, c.name)
    ensures AllSizesKnown(c) ==>
      ScanEntries(t, WalkFrom(c, segs + [c.name]) + rest) == ScanEntries(AddChildAt(t, p, ExpectedDir(c)), rest)
    ensures !AllSizesKnown(c) ==> ScanEntries(t, WalkFrom(c, segs + [c.name]) + rest).Err?
    decreases c, 2
  {
    var segs' := segs + [c.name];
    WalkFromRest(c, segs', rest);
    ScanStep(t, WalkEntry(segs', c.files), WalkList(c.subdirs, segs') + rest);
    if SizesKnown(c.files) {
      var created := Dir(c.name, [], KeptRecords(c.files));
      EnteredNew(t, segs, p, c, created);
      NewDirScan(c, segs, t, p, rest);
    }
  }

  /** The walk below a new directory whose own kept files all have sizes, from the tree holding its record. */
  lemma {:induction false} NewDirScan(c: FsDir, segs: seq<string>, t: Dir, p: seq<nat>, rest: seq<WalkEntry>)
    requires WellFormed(c) && NameOk(c.name) && SegsOk(segs) && SizesKnown(c.files)
    requires Locate(t, segs) == Some(p) && NoneNamed(NodeAt(t, p).dirs, c.name)
    ensures var t1, segs' := AddChildAt(t, p, Dir(c.name, [], KeptRecords(c.files))), segs + [c.name];
      (AllSizesKnown(c) ==>
        ScanEntries(t1, WalkList(c.subdirs, segs') + rest) == ScanEntries(AddChildAt(t, p, ExpectedDir(c)), rest)) &&
      (!AllSizesKnown(c) ==> ScanEntries(t1, WalkList(c.subdirs, segs') + rest).Err?)
    decreases c, 1
  {
    var created := Dir(c.name, [], KeptRecords(c.files));
    var segs' := segs + [c.name];
    NewChildLocated(t, segs, p, created);
    assert SegsOk(segs');
    WalkListScan(c.subdirs, segs', AddChildAt(t, p, created), p + [|NodeAt(t, p).dirs|], rest);
    if AllSizesKnownList(c.subdirs) {
      assert created.(dirs := created.dirs + ExpectedList(c.subdirs)) == ExpectedDir(c);
      ReplaceInAdded(t, p, created, ExpectedDir(c));
    }
  }

  /** The fold over one entry followed by more: the entry's error, or the rest from the updated tree. */
  lemma ScanStep(t: Dir, e: WalkEntry, es: seq<WalkEntry>)
    ensures SizesKnown(e.files) ==> ScanEntries(t, [e] + es) == ScanEntries(ProcessEntry(t, e), es)
    ensures !SizesKnown(e.files) ==> ScanEntries(t, [e] + es).Err?
  {
    assert ([e] + es)[0] == e && ([e] + es)[1..] == es;
  }

  lemma WalkFromRest(c: FsDir, segs: seq<string>, rest: seq<WalkEntry>)
    ensures WalkFrom(c, segs) + rest == [WalkEntry(segs, c.files)] + (WalkList(c.subdirs, segs) + rest)
  {
  }

  lemma WalkListRest(cs: seq<FsDir>, segs: seq<string>, rest: seq<WalkEntry>)
    requires cs != [] && cs[0].name !in ExcludedDirs
    ensures WalkList(cs, segs) + rest == WalkFrom(cs[0], segs + [cs[0].name]) + (WalkList(cs[1..], segs) + rest)
  {
  }

  /** The first entry of a new directory's walk appends its record, holding its kept files. */
  lemma EnteredNew(t: Dir, segs: seq<string>, p: seq<nat>, c: FsDir, created: Dir)
    requires NameOk(c.name) && SegsOk(segs)
    requires Locate(t, segs) == Some(p) && NoneNamed(NodeAt(t, p).dirs, c.name)
    requires SizesKnown(c.files) && created == Dir(c.name, [], KeptRecords(c.files))
    ensures ProcessEntry(t, WalkEntry(segs + [c.name], c.files)) == AddChildAt(t, p, created)
  {
    var segs' := segs + [c.name];
    RelPathSplit(segs');
    assert PathParts(segs') == segs';
    InsertOne(t, segs, p, c.name);
    ReplaceInAdded(t, p, EmptyDir(c.name), created);
    var kept := KeptRecords(c.files);
    assert AppendFiles(EmptyDir(c.name), kept) == created by {
      assert [] + kept == kept;
    }
  }

  /** The appended child is found by its name below `segs`, and the path to its parent still leads there. */
  lemma NewChildLocated(t: Dir, segs: seq<string>, p: seq<nat>, x: Dir)
    requires Locate(t, segs) == Some(p) && NoneNamed(NodeAt(t, p).dirs, x.name)
    ensures var n, t1 := |NodeAt(t, p).dirs|, AddChildAt(t, p, x);
      Locate(t1, segs) == Some(p) && Locate(t1, segs + [x.name]) == Some(p + [n]) &&
      ValidPos(t1, p + [n]) && NodeAt(t1, p + [n]) == x
  {
    var node := NodeAt(t, p);
    var n := |node.dirs|;
    var t1 := AddChildAt(t, p, x);
    LocateReplace(t, segs, p, AddChild(node, x));
    FindChildIs(AddChild(node, x).dirs, x.name, n);
    LocateChild(t1, segs, p, x.name, n);
    ReplaceInAdded(t, p, x, x);
  }

  /**
   * The walks of the siblings `cs`, new below the record at `p`, followed by
   * any `rest`: the fold fails if a kept file somewhere in them has no size,
   * and otherwise goes on with their expected records appended at `p`.
   */
  lemma {:induction false} WalkListScan(cs: seq<FsDir>, segs: seq<string>, t: Dir, p: seq<nat>, rest: seq<WalkEntry>)
    requires forall i :: 0 <= i < |cs| ==> NameOk(cs[i].name) && WellFormed(cs[i])
    requires forall i, j :: 0 <= i < j < |cs| ==> cs[i].name != cs[j].name
    requires SegsOk(segs) && Locate(t, segs) == Some(p) && SiblingsFree(cs, NodeAt(t, p).dirs)
    ensures AllSizesKnownList(cs) ==>
      var node := NodeAt(t, p);
      ScanEntries(t, WalkList(cs, segs) + rest) == ScanEntries(ReplaceAt(t, p, node.(dirs := node.dirs + ExpectedList(cs))), rest)
    ensures !AllSizesKnownList(cs) ==> ScanEntries(t, WalkList(cs, segs) + rest).Err?
    decreases cs, 0
  {
    var node := NodeAt(t, p);
    if cs == [] {
      assert [] + rest == rest && node.(dirs := node.dirs + []) == node;
      ReplaceSame(t, p);
    } else if cs[0].name in ExcludedDirs {
      WalkListScan(cs[1..], segs, t, p, rest);
    } else {
      var c := cs[0];
      WalkListRest(cs, segs, rest);
      WalkFromScan(c, segs, t, p, WalkList(cs[1..], segs) + rest);
      if AllSizesKnown(c) {
        var added := AddChild(node, ExpectedDir(c));
        var t1 := AddChildAt(t, p, ExpectedDir(c));
        SiblingAdded(t, segs, p, cs, ExpectedDir(c));
        WalkListScan(cs[1..], segs, t1, p, rest);
        if AllSizesKnownList(cs[1..]) {
          assert ExpectedList(cs) == [ExpectedDir(c)] + ExpectedList(cs[1..]);
          AddChildThenMore(node, ExpectedDir(c), ExpectedList(cs[1..]));
          ReplaceTwice(t, p, added, node.(dirs := node.dirs + ExpectedList(cs)));
        }
      }
    }
  }

  /** After the first sibling's record is appended, the others still find no record of their name. */
  lemma SiblingAdded(t: Dir, segs: seq<string>, p: seq<nat>, cs: seq<FsDir>, d: Dir)
    requires Locate(t, segs) == Some(p) && cs != [] && SiblingsFree(cs, NodeAt(t, p).dirs)
    requires forall i, j :: 0 <= i < j < |cs| ==> cs[i].name != cs[j].name
    requires d.name == cs[0].name
    ensures var t1 := AddChildAt(t, p, d);
      Locate(t1, segs) == Some(p) && SiblingsFree(cs[1..], NodeAt(t1, p).dirs)
  {
    var node := NodeAt(t, p);
    LocateReplace(t, segs, p, AddChild(node, d));
    var dirs := node.dirs + [d];
    forall i | 0 <= i < |cs[1..]|
      ensures NoneNamed(dirs, cs[1..][i].name)
    {
      assert cs[1..][i] == cs[i + 1];
      assert NoneNamed(node.dirs, cs[i + 1].name);
    }
  }

  /** Appending one child and then more is appending them all at once. */
  lemma AddChildThenMore(node: Dir, d: Dir, ds: seq<Dir>)
    ensures var added := AddChild(node, d);
      added.(dirs := added.dirs + ds) == node.(dirs := node.dirs + ([d] + ds))
  {
    assert (node.dirs + [d]) + ds == node.dirs + ([d] + ds);
  }

  // ---------------------------------------------------------------------------
  // What the expected tree holds
  // ---------------------------------------------------------------------------

  /** No record below `d`, at any depth, carries an excluded name. */
  predicate Pruned(d: Dir)
  {
    forall i :: 0 <= i < |d.dirs| ==> d.dirs[i].name !in ExcludedDirs && Pruned(d.dirs[i])
  }

  /** The records the scan makes for the subdirectories `ds` carry no excluded name, at any depth. */
  lemma {:induction false} ExpectedListPruned(ds: seq<FsDir>)
    requires AllSizesKnownList(ds)
    ensures forall i :: 0 <= i < |ExpectedList(ds)| ==>
      ExpectedList(ds)[i].name !in ExcludedDirs && Pruned(ExpectedList(ds)[i])
    decreases ds, 0
  {
    if ds != [] {
      ExpectedListPruned(ds[1..]);
      if ds[0].name !in ExcludedDirs {
        ExpectedListPruned(ds[0].subdirs);
        assert Pruned(ExpectedDir(ds[0]));
        var r := ExpectedList(ds);
        assert r == [ExpectedDir(ds[0])] + ExpectedList(ds[1..]);
        forall i | 0 <= i < |r|
          ensures r[i].name !in ExcludedDirs && Pruned(r[i])
        {
          if i > 0 {
            assert r[i] == ExpectedList(ds[1..])[i - 1];
          }
        }
      }
    }
  }

  /**
   * Every subdirectory that is not excluded has its record among the
   * records made for `ds`, even one without kept files, and every record
   * made is that of a subdirectory that is not excluded.
   */
  lemma {:induction false} ExpectedListMembers(ds: seq<FsDir>)
    requires AllSizesKnownList(ds)
    ensures forall i :: 0 <= i < |ds| && ds[i].name !in ExcludedDirs ==>
      AllSizesKnown(ds[i]) && ExpectedDir(ds[i]) in ExpectedList(ds)
    ensures forall r :: r in ExpectedList(ds) ==>
      exists i :: 0 <= i < |ds| && ds[i].name !in ExcludedDirs && AllSizesKnown(ds[i]) && r == ExpectedDir(ds[i])
    decreases ds
  {
    if ds != [] {
      ExpectedListMembers(ds[1..]);
      forall i | 0 <= i < |ds| && ds[i].name !in ExcludedDirs
        ensures AllSizesKnown(ds[i]) && ExpectedDir(ds[i]) in ExpectedList(ds)
      {
        if i > 0 {
          assert ds[i] == ds[1..][i - 1];
        }
      }
      forall r | r in ExpectedList(ds)
        ensures exists i :: 0 <= i < |ds| && ds[i].name !in ExcludedDirs && AllSizesKnown(ds[i]) && r == ExpectedDir(ds[i])
      {
        if r in ExpectedList(ds[1..]) {
          var i :| 0 <= i < |ds[1..]| && ds[1..][i].name !in ExcludedDirs && AllSizesKnown(ds[1..][i]) && r == ExpectedDir(ds[1..][i]);
          assert ds[i + 1] == ds[1..][i];
        } else {
          assert r == ExpectedDir(ds[0]);
        }
      }
    }
  }

  /** A successful scan of a well-formed tree has no record of an excluded name anywhere. */
  lemma ScanPruned(fs: FsDir, directory: string)
    requires WellFormed(fs) && ScanSpec(fs, directory).Ok?
    ensures Pruned(ScanSpec(fs, directory).value)
  {
    ScanCorrect(fs, directory);
    ExpectedListPruned(fs.subdirs);
  }

  // ---------------------------------------------------------------------------
  // Which error is reported
  // ---------------------------------------------------------------------------

  /**
   * The fold fails exactly when some entry has a kept file without a size,
   * and it reports the first such file of the first such entry.
   */
  lemma {:induction false} ScanEntriesError(t: Dir, es: seq<WalkEntry>)
    ensures ScanEntries(t, es).Err? <==> exists i :: 0 <= i < |es| && !SizesKnown(es[i].files)
    ensures ScanEntries(t, es).Err? ==>
      exists i :: 0 <= i < |es| && FirstMissingSize(es[i].files).Some? &&
        ScanEntries(t, es).error == SizeUnavailable(FirstMissingSize(es[i].files).value) &&
        forall j :: 0 <= j < i ==> SizesKnown(es[j].files)
    decreases |es|
  {
    if es != [] && SizesKnown(es[0].files) {
      var t1 := ProcessEntry(t, es[0]);
      ScanEntriesError(t1, es[1..]);
      assert forall i :: 0 <= i < |es[1..]| ==> es[1..][i] == es[i + 1];
      if ScanEntries(t1, es[1..]).Err? {
        var i :| 0 <= i < |es[1..]| && FirstMissingSize(es[1..][i].files).Some? &&
          ScanEntries(t1, es[1..]).error == SizeUnavailable(FirstMissingSize(es[1..][i].files).value) &&
          forall j :: 0 <= j < i ==> SizesKnown(es[1..][j].files);
        assert forall j :: 0 <= j < i + 1 ==> SizesKnown(es[j].files);
      } else {
        assert forall i :: 0 <= i < |es| ==> SizesKnown(es[i].files);
      }
    }
  }
}
