/**
 * The scanned project as a value: directory records holding their
 * subdirectory records and their file records, both in insertion order.
 * Paths are lists of directory names; a position is the list of child indices
 * that leads to a record from the root.  `InsertPath` and `InsertPos` say what
 * `_get_or_create_dir` does to the tree and which record it hands back.
 */
module Tree {
  import opened Wrappers

  /** A file record: `{"name", "type", "content", "size"}`. */
  datatype FileEntry = FileEntry(name: string, fileType: string, content: string, size: nat)

  /** A directory record: `{"name", "directories", "files"}`. */
  datatype Dir = Dir(name: string, dirs: seq<Dir>, files: seq<FileEntry>)

  /** The record `_get_or_create_dir` creates for a missing path segment. */
  function EmptyDir(name: string): Dir
  {
    Dir(name, [], [])
  }

  /** Index of the first record in `ds` called `name`, or `|ds|` when there is none. */
  function FindChild(ds: seq<Dir>, name: string): (i: nat)
    ensures i <= |ds|
    ensures i < |ds| ==> ds[i].name == name
    ensures forall j :: 0 <= j < i ==> ds[j].name != name
  {
    if ds == [] then 0 else if ds[0].name == name then 0 else 1 + FindChild(ds[1..], name)
  }

  /** The first match is the only index with the name and none before it. */
  lemma FindChildIs(ds: seq<Dir>, name: string, i: nat)
    requires i <= |ds|
    requires i < |ds| ==> ds[i].name == name
    requires forall j :: 0 <= j < i ==> ds[j].name != name
    ensures FindChild(ds, name) == i
  {
  }

  // ---------------------------------------------------------------------------
  // Positions
  // ---------------------------------------------------------------------------

  /** `pos` leads from `d` to a record: each index is in range at its level. */
  predicate ValidPos(d: Dir, pos: seq<nat>)
    decreases pos
  {
    pos == [] || (pos[0] < |d.dirs| && ValidPos(d.dirs[pos[0]], pos[1..]))
  }

  /** The record at `pos`. */
  function NodeAt(d: Dir, pos: seq<nat>): Dir
    requires ValidPos(d, pos)
    decreases pos
  {
    if pos == [] then d else NodeAt(d.dirs[pos[0]], pos[1..])
  }

  /**
   * `d` with the record at `pos` replaced by `x`: an update through a
   * reference to that record.  `ReplaceAtFrame` and `ReplaceAtAncestors`
   * state that every other record stays as it was.
   */
  function ReplaceAt(d: Dir, pos: seq<nat>, x: Dir): (r: Dir)
    requires ValidPos(d, pos)
    ensures ValidPos(r, pos) && NodeAt(r, pos) == x
    ensures pos != [] ==> r.name == d.name && r.files == d.files && |r.dirs| == |d.dirs|
    decreases pos
  {
    if pos == [] then x
    else d.(dirs := d.dirs[pos[0] := ReplaceAt(d.dirs[pos[0]], pos[1..], x)])
  }

  /** Putting back the record that is already there changes nothing. */
  lemma {:induction false} ReplaceSame(d: Dir, pos: seq<nat>)
    requires ValidPos(d, pos)
    ensures ReplaceAt(d, pos, NodeAt(d, pos)) == d
    decreases pos
  {
    if pos != [] {
      ReplaceSame(d.dirs[pos[0]], pos[1..]);
      assert d.dirs[pos[0] := d.dirs[pos[0]]] == d.dirs;
    }
  }

  /** Only the last replacement at a position is visible. */
  lemma {:induction false} ReplaceTwice(d: Dir, pos: seq<nat>, x: Dir, y: Dir)
    requires ValidPos(d, pos)
    ensures ReplaceAt(ReplaceAt(d, pos, x), pos, y) == ReplaceAt(d, pos, y)
    decreases pos
  {
    if pos != [] {
      ReplaceTwice(d.dirs[pos[0]], pos[1..], x, y);
    }
  }

  /** A position below `p` is `p` followed by a position inside the record at `p`. */
  lemma {:induction false} ReplaceCompose(d: Dir, p: seq<nat>, q: seq<nat>, y: Dir)
    requires ValidPos(d, p) && ValidPos(NodeAt(d, p), q)
    ensures ValidPos(d, p + q) && NodeAt(d, p + q) == NodeAt(NodeAt(d, p), q)
    ensures ReplaceAt(d, p + q, y) == ReplaceAt(d, p, ReplaceAt(NodeAt(d, p), q, y))
    decreases p
  {
    if p == [] {
      assert p + q == q;
    } else {
      assert (p + q)[0] == p[0] && (p + q)[1..] == p[1..] + q;
      ReplaceCompose(d.dirs[p[0]], p[1..], q, y);
    }
  }

  /** A child of the record at `p` sits at `p + [i]`. */
  lemma ChildAt(d: Dir, p: seq<nat>, i: nat)
    requires ValidPos(d, p) && i < |NodeAt(d, p).dirs|
    ensures ValidPos(d, p + [i]) && NodeAt(d, p + [i]) == NodeAt(d, p).dirs[i]
  {
    ReplaceCompose(d, p, [i], NodeAt(d, p).dirs[i]);
  }

  /** A record off the path to `pos` (neither above nor below it) is where it was and unchanged. */
  lemma {:induction false} ReplaceAtFrame(d: Dir, pos: seq<nat>, x: Dir, q: seq<nat>)
    requires ValidPos(d, pos) && ValidPos(d, q)
    requires !(q <= pos) && !(pos <= q)
    ensures ValidPos(ReplaceAt(d, pos, x), q) && NodeAt(ReplaceAt(d, pos, x), q) == NodeAt(d, q)
    decreases pos
  {
    if q[0] == pos[0] {
      assert !(q[1..] <= pos[1..]) && !(pos[1..] <= q[1..]);
      ReplaceAtFrame(d.dirs[pos[0]], pos[1..], x, q[1..]);
    }
  }

  /** Each record above `pos` keeps its name, its files and its number of children. */
  lemma {:induction false} ReplaceAtAncestors(d: Dir, pos: seq<nat>, x: Dir, k: nat)
    requires ValidPos(d, pos) && k < |pos|
    ensures ValidPos(d, pos[..k]) && ValidPos(ReplaceAt(d, pos, x), pos[..k])
    ensures var a, b := NodeAt(d, pos[..k]), NodeAt(ReplaceAt(d, pos, x), pos[..k]);
      b.name == a.name && b.files == a.files && |b.dirs| == |a.dirs|
    decreases pos
  {
    if k == 0 {
      assert pos[..k] == [];
    } else {
      assert pos[..k][0] == pos[0] && pos[..k][1..] == pos[1..][..k - 1];
      ReplaceAtAncestors(d.dirs[pos[0]], pos[1..], x, k - 1);
    }
  }

  // ---------------------------------------------------------------------------
  // Looking up and inserting paths
  // ---------------------------------------------------------------------------

  /**
   * Following `ps` from `d`, each segment to the FIRST child with that name:
   * the position reached, or None when some segment has no such child.
   */
  function Locate(d: Dir, ps: seq<string>): (r: Option<seq<nat>>)
    ensures r.Some? ==> |r.value| == |ps| && ValidPos(d, r.value)
    ensures r.Some? && ps != [] ==> NodeAt(d, r.value).name == ps[|ps| - 1]
    decreases ps
  {
    if ps == [] then Some([])
    else
      var i := FindChild(d.dirs, ps[0]);
      if i == |d.dirs| then None
      else
        match Locate(d.dirs[i], ps[1..])
        case None => None
        case Some(q) =>
          assert ([i] + q)[0] == i && ([i] + q)[1..] == q;
          Some([i] + q)
  }

  /**
   * The tree after `_get_or_create_dir(d, "/".join(ps))`: each segment goes to
   * the first child with its name, and a missing one is appended as a new
   * empty record after the existing children.
   */
  function InsertPath(d: Dir, ps: seq<string>): (r: Dir)
    ensures r.name == d.name && r.files == d.files
    decreases ps
  {
    if ps == [] then d
    else
      var i := FindChild(d.dirs, ps[0]);
      if i < |d.dirs| then d.(dirs := d.dirs[i := InsertPath(d.dirs[i], ps[1..])])
      else d.(dirs := d.dirs + [InsertPath(EmptyDir(ps[0]), ps[1..])])
  }

  /** The position of the record `_get_or_create_dir` returns. */
  function InsertPos(d: Dir, ps: seq<string>): (pos: seq<nat>)
    ensures |pos| == |ps|
    decreases ps
  {
    if ps == [] then []
    else
      var i := FindChild(d.dirs, ps[0]);
      if i < |d.dirs| then [i] + InsertPos(d.dirs[i], ps[1..])
      else [i] + InsertPos(EmptyDir(ps[0]), ps[1..])
  }

  /** A directory record with one more child record at the end of its list. */
  function AddChild(d: Dir, x: Dir): (r: Dir)
    ensures r.name == d.name && r.files == d.files && r.dirs == d.dirs + [x]
  {
    d.(dirs := d.dirs + [x])
  }

  /**
   * One segment of the walk in `_get_or_create_dir` when the record at `pos`
   * has a child named `ps[0]` at index `j`: moving to `pos + [j]` leaves the
   * rest of the insertion, and the rest of the returned position, to be done
   * from there.
   */
  lemma InsertStepFound(root: Dir, pos: seq<nat>, ps: seq<string>, j: nat)
    requires ValidPos(root, pos) && ps != []
    requires j < |NodeAt(root, pos).dirs| && FindChild(NodeAt(root, pos).dirs, ps[0]) == j
    ensures ValidPos(root, pos + [j])
    ensures ReplaceAt(root, pos, InsertPath(NodeAt(root, pos), ps))
      == ReplaceAt(root, pos + [j], InsertPath(NodeAt(root, pos + [j]), ps[1..]))
    ensures pos + InsertPos(NodeAt(root, pos), ps) == (pos + [j]) + InsertPos(NodeAt(root, pos + [j]), ps[1..])
  {
    var current := NodeAt(root, pos);
    var y := InsertPath(current.dirs[j], ps[1..]);
    ChildAt(root, pos, j);
    InsertPosStep(pos, current, ps, j);
    assert ReplaceAt(root, pos + [j], y) == ReplaceAt(root, pos, InsertPath(current, ps)) by {
      ReplaceCompose(root, pos, [j], y);
      ReplaceChild(current, j, y);
      assert InsertPath(current, ps) == current.(dirs := current.dirs[j := y]);
    }
  }

  /** The returned position grows by the index of the child the walk moves to. */
  lemma InsertPosStep(pos: seq<nat>, current: Dir, ps: seq<string>, j: nat)
    requires ps != [] && FindChild(current.dirs, ps[0]) == j
    ensures var next := if j < |current.dirs| then current.dirs[j] else EmptyDir(ps[0]);
      pos + InsertPos(current, ps) == (pos + [j]) + InsertPos(next, ps[1..])
  {
    var next := if j < |current.dirs| then current.dirs[j] else EmptyDir(ps[0]);
    var tail := InsertPos(next, ps[1..]);
    assert InsertPos(current, ps) == [j] + tail;
    assert pos + ([j] + tail) == (pos + [j]) + tail;
  }

  /** Replacing the record at `[j]` is updating child `j`. */
  lemma ReplaceChild(d: Dir, j: nat, y: Dir)
    requires j < |d.dirs|
    ensures ValidPos(d, [j]) && ReplaceAt(d, [j], y) == d.(dirs := d.dirs[j := y])
  {
    assert [j][0] == j && [j][1..] == [];
  }

  /**
   * One segment of the walk in `_get_or_create_dir` when the record at `pos`
   * has no child named `ps[0]`: an empty record is appended to its children
   * and the walk moves to it.
   */
  lemma InsertStepCreate(root: Dir, pos: seq<nat>, ps: seq<string>)
    requires ValidPos(root, pos) && ps != []
    requires FindChild(NodeAt(root, pos).dirs, ps[0]) == |NodeAt(root, pos).dirs|
    ensures var current := NodeAt(root, pos);
      var grown := ReplaceAt(root, pos, AddChild(current, EmptyDir(ps[0])));
      var next := pos + [|current.dirs|];
      ValidPos(grown, next) && NodeAt(grown, next) == EmptyDir(ps[0]) &&
      ReplaceAt(root, pos, InsertPath(current, ps)) == ReplaceAt(grown, next, InsertPath(EmptyDir(ps[0]), ps[1..])) &&
      pos + InsertPos(current, ps) == next + InsertPos(EmptyDir(ps[0]), ps[1..])
  {
    var current := NodeAt(root, pos);
    var y := InsertPath(EmptyDir(ps[0]), ps[1..]);
    assert InsertPath(current, ps) == AddChild(current, y);
    InsertPosStep(pos, current, ps, |current.dirs|);
    ReplaceInAdded(root, pos, EmptyDir(ps[0]), y);
  }

  /** `d` with `x` appended to the children of the record at `p`. */
  function AddChildAt(d: Dir, p: seq<nat>, x: Dir): (r: Dir)
    requires ValidPos(d, p)
    ensures ValidPos(r, p) && NodeAt(r, p) == AddChild(NodeAt(d, p), x)
  {
    ReplaceAt(d, p, AddChild(NodeAt(d, p), x))
  }

  /** Appending a child at `p` leaves every record off the path to `p` unchanged. */
  lemma AddChildAtFrame(d: Dir, p: seq<nat>, x: Dir, q: seq<nat>)
    requires ValidPos(d, p) && ValidPos(d, q)
    requires !(q <= p) && !(p <= q)
    ensures ValidPos(AddChildAt(d, p, x), q) && NodeAt(AddChildAt(d, p, x), q) == NodeAt(d, q)
  {
    ReplaceAtFrame(d, p, AddChild(NodeAt(d, p), x), q);
  }

  /** The appended child sits at `p + [n]`, and replacing it is appending something else. */
  lemma ReplaceInAdded(d: Dir, p: seq<nat>, x: Dir, y: Dir)
    requires ValidPos(d, p)
    ensures var n, added := |NodeAt(d, p).dirs|, AddChildAt(d, p, x);
      ValidPos(added, p + [n]) && NodeAt(added, p + [n]) == x &&
      ReplaceAt(added, p + [n], y) == AddChildAt(d, p, y)
  {
    var node := NodeAt(d, p);
    var n := |node.dirs|;
    var added := AddChildAt(d, p, x);
    ChildAt(added, p, n);
    ReplaceCompose(added, p, [n], y);
    assert ReplaceAt(AddChild(node, x), [n], y) == AddChild(node, y) by {
      ReplaceChild(AddChild(node, x), n, y);
      assert AddChild(node, x).dirs[n := y] == node.dirs + [y];
    }
    ReplaceTwice(d, p, AddChild(node, x), AddChild(node, y));
  }

  /**
   * Inserting one more segment `x` below an existing path whose record has no
   * child `x` appends one empty record there.
   */
  lemma {:induction false} InsertOne(t: Dir, segs: seq<string>, p: seq<nat>, x: string)
    requires Locate(t, segs) == Some(p)
    requires forall j :: 0 <= j < |NodeAt(t, p).dirs| ==> NodeAt(t, p).dirs[j].name != x
    ensures InsertPath(t, segs + [x]) == AddChildAt(t, p, EmptyDir(x))
    ensures InsertPos(t, segs + [x]) == p + [|NodeAt(t, p).dirs|]
    decreases segs
  {
    if segs == [] {
      assert p == [] && NodeAt(t, p) == t && segs + [x] == [x];
      FindChildIs(t.dirs, x, |t.dirs|);
      assert [x][0] == x && [x][1..] == [];
    } else {
      var i := FindChild(t.dirs, segs[0]);
      var q := Locate(t.dirs[i], segs[1..]).value;
      assert p == [i] + q;
      assert (segs + [x])[0] == segs[0] && (segs + [x])[1..] == segs[1..] + [x];
      assert p[0] == i && p[1..] == q;
      InsertOne(t.dirs[i], segs[1..], q, x);
      assert ([i] + q) + [|NodeAt(t, p).dirs|] == [i] + (q + [|NodeAt(t, p).dirs|]);
    }
  }

  /** Replacing the record at a located position by one of the same name keeps the path. */
  lemma {:induction false} LocateReplace(t: Dir, segs: seq<string>, p: seq<nat>, x: Dir)
    requires Locate(t, segs) == Some(p)
    requires x.name == NodeAt(t, p).name
    ensures Locate(ReplaceAt(t, p, x), segs) == Some(p)
    decreases segs
  {
    if segs != [] {
      var i := FindChild(t.dirs, segs[0]);
      var q := Locate(t.dirs[i], segs[1..]).value;
      assert p == [i] + q;
      assert p[0] == i && p[1..] == q;
      var t' := ReplaceAt(t, p, x);
      LocateReplace(t.dirs[i], segs[1..], q, x);
      FindChildIs(t'.dirs, segs[0], i);
    }
  }

  /** From a located record, a child found by name extends the path by its index. */
  lemma {:induction false} LocateChild(t: Dir, segs: seq<string>, p: seq<nat>, x: string, j: nat)
    requires Locate(t, segs) == Some(p)
    requires j < |NodeAt(t, p).dirs| && FindChild(NodeAt(t, p).dirs, x) == j
    ensures Locate(t, segs + [x]) == Some(p + [j])
    decreases segs
  {
    if segs == [] {
      assert p == [] && NodeAt(t, p) == t && segs + [x] == [x];
      assert [x][0] == x && [x][1..] == [];
      assert Locate(t.dirs[j], []) == Some([]);
      assert [j] + [] == p + [j];
    } else {
      var i := FindChild(t.dirs, segs[0]);
      var q := Locate(t.dirs[i], segs[1..]).value;
      assert p == [i] + q;
      assert p[0] == i && p[1..] == q;
      assert (segs + [x])[0] == segs[0] && (segs + [x])[1..] == segs[1..] + [x];
      LocateChild(t.dirs[i], segs[1..], q, x, j);
      assert [i] + (q + [j]) == p + [j];
    }
  }

  /**
   * After the insertion the path leads, first match by first match, to the
   * returned position: the record handed back is the one named by the path.
   */
  lemma {:induction false} InsertPathLocates(d: Dir, ps: seq<string>)
    ensures Locate(InsertPath(d, ps), ps) == Some(InsertPos(d, ps))
    decreases ps
  {
    if ps != [] {
      var i := FindChild(d.dirs, ps[0]);
      var r := InsertPath(d, ps);
      if i < |d.dirs| {
        InsertPathLocates(d.dirs[i], ps[1..]);
        FindChildIs(r.dirs, ps[0], i);
      } else {
        InsertPathLocates(EmptyDir(ps[0]), ps[1..]);
        FindChildIs(r.dirs, ps[0], i);
      }
    }
  }

  /** When the path already exists the tree is unchanged and its record is returned. */
  lemma {:induction false} InsertPathExisting(d: Dir, ps: seq<string>)
    requires Locate(d, ps).Some?
    ensures InsertPath(d, ps) == d
    ensures InsertPos(d, ps) == Locate(d, ps).value
    decreases ps
  {
    if ps != [] {
      var i := FindChild(d.dirs, ps[0]);
      InsertPathExisting(d.dirs[i], ps[1..]);
      assert d.dirs[i := d.dirs[i]] == d.dirs;
    }
  }

  /** A second call with the same path adds nothing and returns the same record. */
  lemma InsertPathIdempotent(d: Dir, ps: seq<string>)
    ensures InsertPath(InsertPath(d, ps), ps) == InsertPath(d, ps)
    ensures InsertPos(InsertPath(d, ps), ps) == InsertPos(d, ps)
  {
    InsertPathLocates(d, ps);
    InsertPathExisting(InsertPath(d, ps), ps);
  }

  /** A path that did not exist ends in a newly created, empty record. */
  lemma {:induction false} InsertPathCreatesEmpty(d: Dir, ps: seq<string>)
    requires ps != [] && Locate(d, ps).None?
    ensures var r, pos := InsertPath(d, ps), InsertPos(d, ps);
      ValidPos(r, pos) && NodeAt(r, pos) == EmptyDir(ps[|ps| - 1])
    decreases ps
  {
    InsertPathLocates(d, ps);
    var i := FindChild(d.dirs, ps[0]);
    var rest := ps[1..];
    var pos := InsertPos(d, ps);
    assert pos[0] == i && pos[1..] == InsertPos(if i < |d.dirs| then d.dirs[i] else EmptyDir(ps[0]), rest);
    if i < |d.dirs| {
      InsertPathCreatesEmpty(d.dirs[i], rest);
    } else if rest != [] {
      NoPathInEmpty(ps[0], rest);
      InsertPathCreatesEmpty(EmptyDir(ps[0]), rest);
    }
  }

  /** Nothing is found below a record without children. */
  lemma NoPathInEmpty(name: string, ps: seq<string>)
    requires ps != []
    ensures Locate(EmptyDir(name), ps).None?
  {
  }

  // ---------------------------------------------------------------------------
  // What an insertion leaves alone
  // ---------------------------------------------------------------------------

  /**
   * `b` grows `a` only by appending: every record of `a` is in `b` at the same
   * position, with the same name and files, its children a prefix of `b`'s.
   */
  predicate Extends(a: Dir, b: Dir)
  {
    a.name == b.name && a.files == b.files && |a.dirs| <= |b.dirs| &&
    forall i :: 0 <= i < |a.dirs| ==> Extends(a.dirs[i], b.dirs[i])
  }

  lemma {:induction false} ExtendsRefl(a: Dir)
    ensures Extends(a, a)
  {
    forall i | 0 <= i < |a.dirs| {
      ExtendsRefl(a.dirs[i]);
    }
  }

  lemma {:induction false} ExtendsTrans(a: Dir, b: Dir, c: Dir)
    requires Extends(a, b) && Extends(b, c)
    ensures Extends(a, c)
  {
    forall i | 0 <= i < |a.dirs| {
      ExtendsTrans(a.dirs[i], b.dirs[i], c.dirs[i]);
    }
  }

  /** Existing records, their children and the order of those children are unchanged. */
  lemma {:induction false} InsertPathExtends(d: Dir, ps: seq<string>)
    ensures Extends(d, InsertPath(d, ps))
    decreases ps
  {
    ExtendsRefl(d);
    if ps != [] {
      var i := FindChild(d.dirs, ps[0]);
      if i < |d.dirs| {
        InsertPathExtends(d.dirs[i], ps[1..]);
      }
    }
  }

  /** Every path that led somewhere before still leads to the same position. */
  lemma {:induction false} ExtendsLocate(a: Dir, b: Dir, ps: seq<string>)
    requires Extends(a, b) && Locate(a, ps).Some?
    ensures Locate(b, ps) == Locate(a, ps)
    decreases ps
  {
    if ps != [] {
      var i := FindChild(a.dirs, ps[0]);
      FindChildIs(b.dirs, ps[0], i);
      ExtendsLocate(a.dirs[i], b.dirs[i], ps[1..]);
    }
  }

  /** No two children of any record share a name. */
  predicate UniqueNames(d: Dir)
  {
    (forall i, j :: 0 <= i < j < |d.dirs| ==> d.dirs[i].name != d.dirs[j].name) &&
    forall i :: 0 <= i < |d.dirs| ==> UniqueNames(d.dirs[i])
  }

  /** Sibling names that were unique stay unique. */
  lemma {:induction false} InsertPathUnique(d: Dir, ps: seq<string>)
    requires UniqueNames(d)
    ensures UniqueNames(InsertPath(d, ps))
    decreases ps
  {
    if ps != [] {
      var i := FindChild(d.dirs, ps[0]);
      if i < |d.dirs| {
        InsertPathUnique(d.dirs[i], ps[1..]);
      } else {
        InsertPathUnique(EmptyDir(ps[0]), ps[1..]);
      }
    }
  }

  // ---------------------------------------------------------------------------
  // How many records an insertion adds
  // ---------------------------------------------------------------------------

  /** The number of directory records in `d`, `d` included. */
  function Count(d: Dir): nat
  {
    1 + CountList(d.dirs)
  }

  function CountList(ds: seq<Dir>): nat
  {
    if ds == [] then 0 else Count(ds[0]) + CountList(ds[1..])
  }

  lemma {:induction false} CountListAppend(ds: seq<Dir>, x: Dir)
    ensures CountList(ds + [x]) == CountList(ds) + Count(x)
  {
    if ds != [] {
      assert (ds + [x])[1..] == ds[1..] + [x];
      CountListAppend(ds[1..], x);
    } else {
      assert [x][1..] == [];
    }
  }

  lemma {:induction false} CountListUpdate(ds: seq<Dir>, i: nat, x: Dir)
    requires i < |ds|
    ensures CountList(ds[i := x]) + Count(ds[i]) == CountList(ds) + Count(x)
  {
    if i > 0 {
      assert ds[i := x][1..] == ds[1..][i - 1 := x];
      CountListUpdate(ds[1..], i - 1, x);
    } else {
      assert ds[i := x][1..] == ds[1..];
    }
  }

  /** At most one record is created per path segment. */
  lemma {:induction false} InsertPathCount(d: Dir, ps: seq<string>)
    ensures Count(d) <= Count(InsertPath(d, ps)) <= Count(d) + |ps|
    decreases ps
  {
    if ps != [] {
      var i := FindChild(d.dirs, ps[0]);
      if i < |d.dirs| {
        var c := InsertPath(d.dirs[i], ps[1..]);
        InsertPathCount(d.dirs[i], ps[1..]);
        CountListUpdate(d.dirs, i, c);
      } else {
        var c := InsertPath(EmptyDir(ps[0]), ps[1..]);
        InsertPathCount(EmptyDir(ps[0]), ps[1..]);
        CountListAppend(d.dirs, c);
      }
    }
  }
}
