/**
 * The snapshot engine: a working directory, one copy of it per snapshot id,
 * and the history ledger, with the operations that create, restore and
 * compare snapshots. Directories are maps from relative path to file text.
 */
module Snapshots {
  import opened Wrappers
  import Text
  import Html
  import opened Ledger

  /** A file's path relative to the root of its tree (`os.path.relpath`). */
  type Path = string
  type Id = string

  /** A directory tree: every regular file under it, by relative path, with its text. */
  type Tree = map<Path, string>

  /** `difflib.unified_diff(a, b, fromfile, tofile)`, whose code is not part of this model. */
  type UnifiedDiff = (seq<string>, seq<string>, string, string) -> seq<string>

  /** The exception a failed `json.load` of the history file raises. */
  datatype Error = ParseError

  /** A directory the engine copies from or to: the working tree or a snapshot slot. */
  datatype Location = Current | Slot(id: Id)

  predicate Distinct(files: seq<Path>)
  {
    forall i, j :: 0 <= i < j < |files| ==> files[i] != files[j]
  }

  /** A path not yet listed can be appended without repeating one. */
  lemma DistinctAppend(files: seq<Path>, p: Path)
    requires Distinct(files) && p !in files
    ensures Distinct(files + [p])
  {
    forall i | 0 <= i < |files|
      ensures (files + [p])[i] == files[i] != p
    {
    }
  }

  /** `files` lists every path of `paths`, each exactly once, and nothing else. */
  predicate Enumerates(files: seq<Path>, paths: set<Path>)
  {
    && (forall p :: p in files ==> p in paths)
    && (forall p :: p in paths ==> p in files)
    && Distinct(files)
  }

  /** An enumeration is as long as the tree has files. */
  lemma {:induction false} EnumerationSize(files: seq<Path>, paths: set<Path>)
    requires Enumerates(files, paths)
    ensures |files| == |paths|
  {
    if files == [] {
      assert paths == {};
    } else {
      var p := files[0];
      forall q
        ensures q in files[1..] <==> q in paths - {p}
      {
        if q in files[1..] {
          var k :| 0 <= k < |files[1..]| && files[1..][k] == q;
          assert files[k + 1] == q;
        }
        if q in files && q != p {
          var k :| 0 <= k < |files| && files[k] == q;
          assert files[1..][k - 1] == q;
        }
      }
      EnumerationSize(files[1..], paths - {p});
    }
  }

  /** `os.path.join(dir, name)` on POSIX. */
  function PathJoin(dir: string, name: string): (r: string)
    ensures |name| <= |r| && r[|r| - |name|..] == name
    ensures !(|name| > 0 && name[0] == '/') ==> dir <= r
  {
    if |name| > 0 && name[0] == '/' then name
    else if dir == [] || dir[|dir| - 1] == '/' then dir + name
    else dir + "/" + name
  }

  /** `os.getenv('USER', 'unknown')`, given the variable's value if it is set. */
  function UserName(env: Option<string>): (r: string)
    ensures env.None? ==> r == "unknown"
    ensures env.Some? ==> r == env.value
  {
    env.GetOr("unknown")
  }

  /**
   * The diff lines of one snapshot file: `unified_diff` of its lines against
   * the current file's lines, or against no lines when the file is gone.
   */
  function FileDiff(path: Path, slot: Tree, current: Tree, unifiedDiff: UnifiedDiff): (r: seq<string>)
    requires path in slot
    ensures (path !in current || current[path] == []) ==>
      r == unifiedDiff(Text.ReadLines(slot[path]), [], "snapshot/" + path, "current/" + path)
    ensures path in current && current[path] == slot[path] && (forall a, f, t :: unifiedDiff(a, a, f, t) == []) ==> r == []
  {
    var textA := Text.ReadLines(slot[path]);
    var textB := if path in current then Text.ReadLines(current[path]) else [];
    unifiedDiff(textA, textB, "snapshot/" + path, "current/" + path)
  }

  /** The diff lines of the snapshot files `paths`, in that order. */
  function DiffText(paths: seq<Path>, slot: Tree, current: Tree, unifiedDiff: UnifiedDiff): (r: seq<string>)
    requires forall p :: p in paths ==> p in slot
    ensures paths == [] ==> r == []
    ensures |paths| == 1 ==> r == FileDiff(paths[0], slot, current, unifiedDiff)
  {
    if paths == [] then []
    else DiffText(paths[..|paths| - 1], slot, current, unifiedDiff)
         + FileDiff(paths[|paths| - 1], slot, current, unifiedDiff)
  }

  /** A file deleted from the working tree is compared exactly as if it had been emptied. */
  lemma MissingFileDiffsAsEmpty(path: Path, slot: Tree, current: Tree, unifiedDiff: UnifiedDiff)
    requires path in slot && path !in current
    ensures FileDiff(path, slot, current, unifiedDiff) == FileDiff(path, slot, current[path := []], unifiedDiff)
  {
  }

  /**
   * Only the snapshot side is walked: two working trees that agree on the
   * snapshot's paths give the same diff, whatever else they hold.
   */
  lemma {:induction false} DiffIgnoresCurrentOnlyFiles(paths: seq<Path>, slot: Tree, current: Tree, other: Tree, unifiedDiff: UnifiedDiff)
    requires forall p :: p in paths ==> p in slot
    requires forall p :: p in slot ==> (p in current <==> p in other)
    requires forall p :: p in slot && p in current ==> current[p] == other[p]
    ensures DiffText(paths, slot, current, unifiedDiff) == DiffText(paths, slot, other, unifiedDiff)
  {
    if paths != [] {
      DiffIgnoresCurrentOnlyFiles(paths[..|paths| - 1], slot, current, other, unifiedDiff);
    }
  }

  /** A working tree identical to the snapshot gives no diff lines, when identical files give none. */
  lemma {:induction false} DiffOfIdenticalTrees(paths: seq<Path>, slot: Tree, unifiedDiff: UnifiedDiff)
    requires forall p :: p in paths ==> p in slot
    requires forall a: seq<string>, f: string, t: string :: unifiedDiff(a, a, f, t) == []
    ensures DiffText(paths, slot, slot, unifiedDiff) == []
  {
    if paths != [] {
      DiffOfIdenticalTrees(paths[..|paths| - 1], slot, unifiedDiff);
      var p := paths[|paths| - 1];
      assert p in paths;
      var lines := Text.ReadLines(slot[p]);
      assert unifiedDiff(lines, lines, "snapshot/" + p, "current/" + p) == [];
      assert FileDiff(p, slot, slot, unifiedDiff) == [];
    }
  }

  /**
   * The engine's state: the working directory (`CURRENT_DIR`), the snapshot
   * slots under `SNAPSHOT_DIR` keyed by id, and the history file.
   */
  class Store {
    /** The directory that holds the snapshot slots. */
    const snapshotDir: string
    var current: Tree
    var snapshots: map<Id, Tree>
    var ledger: LedgerFile

    constructor (snapshotDir: string, current: Tree, snapshots: map<Id, Tree>, ledger: LedgerFile)
      ensures this.snapshotDir == snapshotDir && this.current == current
      ensures this.snapshots == snapshots && this.ledger == ledger
    {
      this.snapshotDir := snapshotDir;
      this.current := current;
      this.snapshots := snapshots;
      this.ledger := ledger;
    }

    /** The tree at `loc`, or `None` when that directory does not exist. */
    function TreeAt(loc: Location): (r: Option<Tree>)
      reads this
      ensures r.Some? <==> (loc.Current? || loc.id in snapshots)
      ensures loc.Current? ==> r == Some(current)
      ensures loc.Slot? && loc.id in snapshots ==> r == Some(snapshots[loc.id])
    {
      match loc
      case Current => Some(current)
      case Slot(id) => if id in snapshots then Some(snapshots[id]) else None
    }

    /** `os.path.join(SNAPSHOT_DIR, id)`: the slot directory of `id`. */
    function SlotPath(id: Id): (r: string)
      reads this
      ensures !(|id| > 0 && id[0] == '/') ==> snapshotDir <= r
    {
      PathJoin(snapshotDir, id)
    }

    /** `load_history`: a missing file is an empty history; an unparseable one raises. */
    function LoadHistory(): (r: Result<seq<Entry>, Error>)
      reads this
      ensures r.Failure? <==> ledger.Unparseable?
      ensures ledger.Missing? ==> r == Success([])
      ensures ledger.Saved? ==> r == Success(ledger.entries)
    {
      match ledger
      case Missing => Success([])
      case Saved(history) => Success(history)
      case Unparseable => Failure(ParseError)
    }

    /** `save_history`: rewrites the whole file; loading it again gives back `history`. */
    method SaveHistory(history: seq<Entry>)
      modifies this`ledger
      ensures ledger == Saved(history)
      ensures LoadHistory() == Success(history)
    {
      ledger := Saved(history);
    }

    /**
     * `copy_folder(src, dst)`: removes `dst` if it exists, then copies `src`
     * to it, so that `dst` mirrors `src` with nothing of its old content left.
     */
    method CopyFolder(src: Location, dst: Location)
      requires TreeAt(src).Some? && src != dst
      modifies this`current, this`snapshots
      ensures TreeAt(dst) == old(TreeAt(src))
      ensures dst.Current? ==> snapshots == old(snapshots)
      ensures dst.Slot? ==> current == old(current) && snapshots == old(snapshots)[dst.id := old(TreeAt(src)).value]
    {
      var tree := TreeAt(src).value;
      // shutil.rmtree(dst)
      if TreeAt(dst).Some? {
        match dst
        case Current => current := map[];
        case Slot(id) => snapshots := snapshots - {id};
      }
      // shutil.copytree(src, dst)
      match dst
      case Current => current := tree;
      case Slot(id) => snapshots := snapshots[id := tree];
    }

    /**
     * `get_files(folder)`: the relative path of every file under `folder`,
     * each once, in walk order; nothing when `folder` does not exist.
     */
    method GetFiles(folder: Location) returns (files: seq<Path>)
      ensures TreeAt(folder).None? ==> files == []
      ensures TreeAt(folder).Some? ==> Enumerates(files, TreeAt(folder).value.Keys)
    {
      files := [];
      if TreeAt(folder).None? {
        return;
      }
      var tree := TreeAt(folder).value;
      var pending := tree.Keys;
      while pending != {}
        invariant pending <= tree.Keys
        invariant forall p :: p in files <==> p in tree.Keys - pending
        invariant Distinct(files)
        decreases pending
      {
        var p :| p in pending;
        DistinctAppend(files, p);
        files := files + [p];
        pending := pending - {p};
      }
    }

    /**
     * `create_snapshot`: copies the working tree into the slot of `id` (an
     * existing slot of that id is replaced), lists the slot's files, then
     * appends one entry to the history. When the history file cannot be
     * parsed the copy has already happened and no entry is written.
     */
    method CreateSnapshot(message: string, id: Id, now: string, userEnv: Option<string>)
      returns (r: Result<Entry, Error>)
      modifies this`current, this`snapshots, this`ledger
      ensures current == old(current)
      ensures snapshots == old(snapshots)[id := old(current)]
      ensures r.Failure? <==> old(ledger).Unparseable?
      ensures r.Failure? ==> ledger == old(ledger)
      ensures r.Success? ==>
        && r.value.id == id && r.value.timestamp == now && r.value.message == message
        && r.value.user == UserName(userEnv) && r.value.snapshotPath == SlotPath(id)
        && Enumerates(r.value.files, old(current).Keys)
      ensures r.Success? ==> ledger == Saved(old(LoadHistory()).value + [r.value])
    {
      var dst := Slot(id);
      CopyFolder(Current, dst);
      var files := GetFiles(dst);
      var entry := Entry(id, now, UserName(userEnv), message, SlotPath(id), files);
      var history := LoadHistory();
      if history.Failure? {
        return Failure(history.error);
      }
      SaveHistory(history.value + [entry]);
      r := Success(entry);
    }

    /**
     * `restore_snapshot`: when the slot of `id` exists, the working tree
     * becomes a copy of it; otherwise nothing happens. The ledger is never
     * consulted.
     */
    method RestoreSnapshot(id: Id)
      modifies this`current, this`snapshots
      ensures id in old(snapshots) ==> current == old(snapshots[id])
      ensures id !in old(snapshots) ==> current == old(current)
      ensures snapshots == old(snapshots) && ledger == old(ledger)
    {
      var src := Slot(id);
      if TreeAt(src).Some? {
        CopyFolder(src, Current);
      }
    }

    /**
     * `diff_snapshot`: walks the files of the slot of `id` (`visited`, in
     * walk order), collects each one's diff against the working tree, and
     * renders the lines escaped and joined with `<br>`.
     */
    method DiffSnapshot(id: Id, unifiedDiff: UnifiedDiff)
      returns (visited: seq<Path>, diffText: seq<string>, html: string)
      ensures id !in snapshots ==> visited == [] && diffText == [] && html == []
      ensures id in snapshots ==> Enumerates(visited, snapshots[id].Keys)
      ensures id in snapshots ==> diffText == DiffText(visited, snapshots[id], current, unifiedDiff)
      ensures html == Html.DiffHtml(diffText)
    {
      var slot := if id in snapshots then snapshots[id] else map[];
      visited := GetFiles(Slot(id));
      diffText := [];
      var i := 0;
      while i < |visited|
        invariant 0 <= i <= |visited|
        invariant diffText == DiffText(visited[..i], slot, current, unifiedDiff)
      {
        var path := visited[i];
        var textA := Text.ReadLines(slot[path]);
        var diff;
        if path !in current {
          diff := unifiedDiff(textA, [], "snapshot/" + path, "current/" + path);
        } else {
          var textB := Text.ReadLines(current[path]);
          diff := unifiedDiff(textA, textB, "snapshot/" + path, "current/" + path);
        }
        assert visited[..i + 1][..i] == visited[..i];
        diffText := diffText + diff;
        i := i + 1;
      }
      assert visited[..i] == visited;
      html := Html.DiffHtml(diffText);
    }

    /**
     * The listing of the index page: the stored history, newest first, with
     * ties in ledger order; fails when the history file cannot be parsed.
     */
    method ListNewestFirst() returns (r: Result<seq<Entry>, Error>)
      ensures r.Failure? <==> ledger.Unparseable?
      ensures r.Success? ==> NewestFirst(r.value)
      ensures r.Success? ==> multiset(r.value) == multiset(LoadHistory().value)
      ensures r.Success? ==> forall t :: WithTimestamp(r.value, t) == WithTimestamp(LoadHistory().value, t)
    {
      var loaded := LoadHistory();
      if loaded.Failure? {
        return Failure(loaded.error);
      }
      var history := loaded.value;
      var a := new Entry[|history|](k requires 0 <= k < |history| => history[k]);
      assert a[..] == history;
      SortNewestFirst(a);
      r := Success(a[..]);
    }

    /** Restoring a snapshot right after creating it gives back the working tree it copied. */
    method CreateThenRestore(message: string, id: Id, now: string, userEnv: Option<string>)
      returns (r: Result<Entry, Error>)
      modifies this`current, this`snapshots, this`ledger
      ensures current == old(current)
    {
      r := CreateSnapshot(message, id, now, userEnv);
      RestoreSnapshot(id);
    }

    /** A diff taken right after a snapshot is created is empty, when identical files give no diff lines. */
    method CreateThenDiff(message: string, id: Id, now: string, userEnv: Option<string>, unifiedDiff: UnifiedDiff)
      returns (diffText: seq<string>, html: string)
      requires forall a: seq<string>, f: string, t: string :: unifiedDiff(a, a, f, t) == []
      modifies this`current, this`snapshots, this`ledger
      ensures diffText == [] && html == []
    {
      var _ := CreateSnapshot(message, id, now, userEnv);
      var visited;
      visited, diffText, html := DiffSnapshot(id, unifiedDiff);
      DiffOfIdenticalTrees(visited, current, unifiedDiff);
    }
  }
}
