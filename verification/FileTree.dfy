/** File trees as they lie in a layer directory or a build context, and the flat file system that
    the copies write into. */
module FileTree {

  type Path = seq<string>
  type Bytes = seq<bv8>

  /** A directory as os.ReadDir and filepath.Walk see it. */
  datatype Tree = File(content: Bytes) | Link(target: string) | Dir(entries: seq<Entry>)
  datatype Entry = Entry(name: string, node: Tree)

  /** What lies at one path of a file system. */
  datatype Node = FileNode(content: Bytes) | LinkNode(target: string) | DirNode

  /** A file system, path by path, relative to the directory that a copy has as destination. */
  type Files = map<Path, Node>

  /** The names in a directory are distinct, at every level. */
  predicate ValidTree(t: Tree)
    decreases t
  {
    t.Dir? ==> ValidEntries(t.entries)
  }

  predicate ValidEntries(es: seq<Entry>)
    decreases es
  {
    && (forall i, j | 0 <= i < j < |es| :: es[i].name != es[j].name)
    && (forall i | 0 <= i < |es| :: ValidTree(es[i].node))
  }

  /** The tree laid out as a file system below `at`. */
  function Flatten(t: Tree, at: Path): Files
    decreases t, 0
  {
    match t
    case File(content) => map[at := FileNode(content)]
    case Link(target) => map[at := LinkNode(target)]
    case Dir(entries) => map[at := DirNode] + FlattenEntries(entries, at)
  }

  function FlattenEntries(es: seq<Entry>, at: Path): Files
    decreases es, 0
  {
    if es == [] then map[]
    else
      var n := |es| - 1;
      FlattenEntries(es[..n], at) + Flatten(es[n].node, at + [es[n].name])
  }

  predicate Below(at: Path, p: Path) {
    at <= p
  }

  lemma {:induction false} FlattenIsBelow(t: Tree, at: Path)
    ensures at in Flatten(t, at)
    ensures forall p | p in Flatten(t, at) :: Below(at, p)
    decreases t, 0
  {
    if t.Dir? {
      EntriesAreBelow(t.entries, at);
    }
  }

  lemma {:induction false} EntriesAreBelow(es: seq<Entry>, at: Path)
    ensures forall p | p in FlattenEntries(es, at) :: Below(at, p) && |at| < |p|
    ensures forall p | p in FlattenEntries(es, at) :: exists i :: 0 <= i < |es| && es[i].name == p[|at|]
    decreases es, 0
  {
    if es != [] {
      var n := |es| - 1;
      EntriesAreBelow(es[..n], at);
      FlattenIsBelow(es[n].node, at + [es[n].name]);
      forall p | p in FlattenEntries(es, at)
        ensures Below(at, p) && |at| < |p| && exists i :: 0 <= i < |es| && es[i].name == p[|at|]
      {
        if p in Flatten(es[n].node, at + [es[n].name]) {
          assert Below(at + [es[n].name], p);
          assert p[|at|] == es[n].name;
        } else {
          var i :| 0 <= i < n && es[..n][i].name == p[|at|];
          assert es[i].name == p[|at|];
        }
      }
    }
  }

  /** Entries with different names occupy different paths. */
  lemma SiblingsApart(es: seq<Entry>, n: nat, at: Path)
    requires ValidEntries(es) && n < |es|
    ensures forall p | p in FlattenEntries(es[..n], at) :: p !in Flatten(es[n].node, at + [es[n].name])
    ensures at !in FlattenEntries(es[..n], at)
  {
    EntriesAreBelow(es[..n], at);
    FlattenIsBelow(es[n].node, at + [es[n].name]);
    assert forall p | Below(at + [es[n].name], p) :: p[|at|] == es[n].name;
    forall p | p in FlattenEntries(es[..n], at) ensures p !in Flatten(es[n].node, at + [es[n].name]) {
      var i :| 0 <= i < n && es[..n][i].name == p[|at|];
      assert es[i].name != es[n].name;
    }
  }
}
