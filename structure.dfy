/**
 * The root record `scan_directory` builds and then fills in place.  Python's
 * dictionaries are shared references; here the tree of records is the value
 * `root`, reassigned on every update, and a reference to a record inside it
 * is that record's position (see module Tree).
 */
module Structure {
  import opened Wrappers
  import opened Strings
  import opened Tree

  /** The `ai_summary` text, the same for every root record, so not stored per record here. */
  const AiSummary: string :=
    "This is a project structure document created for AI analysis. "
    + "The content is organized hierarchically with full file contents included."

  /** POSIX `os.path.basename`: the text after the last '/'. */
  function Basename(path: string): (base: string)
    ensures '/' !in base
    ensures '/' !in path ==> base == path
    ensures '/' in path ==> exists dir :: path == dir + "/" + base
  {
    var parts := Split(path, '/');
    SplitLast(path, '/');
    if |parts| > 1 then
      var dir := Join(parts[..|parts| - 1], '/');
      assert path == dir + "/" + parts[|parts| - 1];
      parts[|parts| - 1]
    else
      parts[|parts| - 1]
  }

  /** The root record: `name`, `path`, `scan_date`, `directories`, `files` (and the fixed `AiSummary`). */
  class ProjectStructure {
    const path: string
    const scanDate: string
    /** The root's `name`, `directories` and `files`, and through them every record below. */
    var root: Dir

    /** The record as created on entry to `scan_directory`, before the walk. */
    constructor (directory: string, scanDate: string)
      ensures path == directory && this.scanDate == scanDate
      ensures root == EmptyDir(Basename(directory))
    {
      path := directory;
      this.scanDate := scanDate;
      root := EmptyDir(Basename(directory));
    }

    /**
     * `_get_or_create_dir(structure, path)`: follows the segments of `path`
     * from the root, each to the first child with that name, appending an
     * empty record where there is none, and returns the record reached.
     */
    method GetOrCreateDir(path: string) returns (pos: seq<nat>)
      modifies this
      ensures root == InsertPath(old(root), Split(path, '/'))
      ensures pos == InsertPos(old(root), Split(path, '/'))
      ensures Locate(root, Split(path, '/')) == Some(pos)
    {
      var parts := Split(path, '/');
      pos := [];
      var k := 0;
      ReplaceSame(root, pos);
      while k < |parts|
        invariant 0 <= k <= |parts|
        invariant ValidPos(root, pos)
        invariant InsertPath(old(root), parts) == ReplaceAt(root, pos, InsertPath(NodeAt(root, pos), parts[k..]))
        invariant InsertPos(old(root), parts) == pos + InsertPos(NodeAt(root, pos), parts[k..])
      {
        var part := parts[k];
        var current := NodeAt(root, pos);
        assert parts[k..][0] == part && parts[k..][1..] == parts[k + 1..];
        var found := false;
        var j := 0;
        while j < |current.dirs|
          invariant 0 <= j <= |current.dirs|
          invariant forall m :: 0 <= m < j ==> current.dirs[m].name != part
        {
          if current.dirs[j].name == part {
            found := true;
            break;
          }
          j := j + 1;
        }
        if found {
          FindChildIs(current.dirs, part, j);
          InsertStepFound(root, pos, parts[k..], j);
          pos := pos + [j];
        } else {
          FindChildIs(current.dirs, part, |current.dirs|);
          InsertStepCreate(root, pos, parts[k..]);
          root := ReplaceAt(root, pos, AddChild(current, EmptyDir(part)));
          pos := pos + [|current.dirs|];
        }
        k := k + 1;
      }
      assert parts[k..] == [];
      ReplaceSame(root, pos);
      InsertPathLocates(old(root), parts);
    }

    /** `current_dir["files"].append(record)` for the record at `pos`. */
    method AppendFile(pos: seq<nat>, f: FileEntry)
      requires ValidPos(root, pos)
      modifies this
      ensures root == ReplaceAt(old(root), pos, AddFile(NodeAt(old(root), pos), f))
      ensures forall q :: ValidPos(old(root), q) && !(q <= pos) && !(pos <= q) ==>
        ValidPos(root, q) && NodeAt(root, q) == NodeAt(old(root), q)
    {
      var before := root;
      root := ReplaceAt(root, pos, AddFile(NodeAt(root, pos), f));
      forall q | ValidPos(before, q) && !(q <= pos) && !(pos <= q)
        ensures ValidPos(root, q) && NodeAt(root, q) == NodeAt(before, q)
      {
        ReplaceAtFrame(before, pos, AddFile(NodeAt(before, pos), f), q);
      }
    }
  }

  /** A directory record with one more file record at the end of its list. */
  function AddFile(d: Dir, f: FileEntry): (r: Dir)
    ensures r.name == d.name && r.dirs == d.dirs && r.files == d.files + [f]
  {
    d.(files := d.files + [f])
  }
}
