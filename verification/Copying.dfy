/** The two ways in which poqman copies a tree: the recursive merge of the builder
    (copyDirContents) and the walk of the container store (copyDir). They share no code and treat
    errors differently; this module proves what each of them computes. */
module Copying {
  import opened FileTree

  /** Why a call on the destination fails. The model does not follow symbolic links: a call that
      would go through one yields ThroughLink, where the real call would act on the link's target. */
  datatype Error = NotFound | NotADirectory | IsADirectory | AlreadyExists | ThroughLink

  datatype Result = Ok(files: Files) | Err(error: Error) {
    /** The caller drops the error. */
    function OrKeep(before: Files): Files {
      if Ok? then files else before
    }
  }

  function Parent(p: Path): Path
    requires p != []
  {
    p[..|p| - 1]
  }

  predicate IsDir(fs: Files, p: Path) {
    p in fs && fs[p].DirNode?
  }

  predicate InDir(fs: Files, p: Path) {
    p == [] || IsDir(fs, Parent(p))
  }

  function MkdirAll(fs: Files, p: Path): Result
    decreases |p|
  {
    if p in fs then
      match fs[p]
      case DirNode => Ok(fs)
      case FileNode(_) => Err(NotADirectory)
      case LinkNode(_) => Err(ThroughLink)
    else if p == [] then Ok(fs[p := DirNode])
    else
      match MkdirAll(fs, Parent(p))
      case Ok(made) => Ok(made[p := DirNode])
      case Err(e) => Err(e)
  }

  /** Opening with create and truncate, and writing: copyFileContents, copyFile. */
  function OverwriteFile(fs: Files, p: Path, content: Bytes): Result {
    if p !in fs then Ok(fs[p := FileNode(content)])
    else
      match fs[p]
      case FileNode(_) => Ok(fs[p := FileNode(content)])
      case DirNode => Err(IsADirectory)
      case LinkNode(_) => Err(ThroughLink)
  }

  function WriteFile(fs: Files, p: Path, content: Bytes): Result {
    if p == [] then OverwriteFile(fs, p, content)
    else
      match MkdirAll(fs, Parent(p))
      case Ok(made) => OverwriteFile(made, p, content)
      case Err(e) => Err(e)
  }

  function MakeLink(fs: Files, p: Path, target: string): Result {
    if p in fs then Err(AlreadyExists)
    else if !InDir(fs, p) then Err(NotADirectory)
    else Ok(fs[p := LinkNode(target)])
  }

  /** copyDirContents: the recursive merge, which ignores every error below the top. */
  function Merge(fs: Files, at: Path, es: seq<Entry>): Files
    decreases es, 1
  {
    MergeEntries(MkdirAll(fs, at).OrKeep(fs), at, es)
  }

  function MergeEntries(fs: Files, at: Path, es: seq<Entry>): Files
    decreases es, 0
  {
    if es == [] then fs
    else
      var n := |es| - 1;
      MergeNode(MergeEntries(fs, at, es[..n]), at + [es[n].name], es[n].node)
  }

  function MergeNode(fs: Files, p: Path, node: Tree): Files
    decreases node, 2
  {
    match node
    case Link(target) => MakeLink(fs, p, target).OrKeep(fs)
    case Dir(entries) => Merge(fs, p, entries)
    case File(content) => WriteFile(fs, p, content).OrKeep(fs)
  }

  /** One call of the function that filepath.Walk is given. */
  datatype Visit = Visit(path: Path, node: Node)

  /** filepath.Walk: a directory before its entries, the entries in order. */
  function Visits(t: Tree, at: Path): seq<Visit>
    decreases t, 0
  {
    match t
    case File(content) => [Visit(at, FileNode(content))]
    case Link(target) => [Visit(at, LinkNode(target))]
    case Dir(entries) => [Visit(at, DirNode)] + VisitsOfEntries(entries, at)
  }

  function VisitsOfEntries(es: seq<Entry>, at: Path): seq<Visit>
    decreases es, 0
  {
    if es == [] then []
    else
      var n := |es| - 1;
      VisitsOfEntries(es[..n], at) + Visits(es[n].node, at + [es[n].name])
  }

  function ApplyVisit(fs: Files, v: Visit): Result {
    match v.node
    case DirNode => MkdirAll(fs, v.path)
    case LinkNode(target) => MakeLink(fs, v.path, target)
    case FileNode(content) => WriteFile(fs, v.path, content)
  }

  /** The walk ends at the first error. */
  function ApplyVisits(fs: Files, vs: seq<Visit>): Result {
    if vs == [] then Ok(fs)
    else
      match ApplyVisits(fs, vs[..|vs| - 1])
      case Ok(done) => ApplyVisit(done, vs[|vs| - 1])
      case Err(e) => Err(e)
  }

  /** Two directories, or two files. */
  predicate SameKind(a: Node, b: Node) {
    (a.DirNode? && b.DirNode?) || (a.FileNode? && b.FileNode?)
  }

  /** Where both have something, both have a directory or both have a file. */
  predicate Compatible(fs: Files, flat: Files) {
    forall p | p in fs && p in flat :: SameKind(fs[p], flat[p])
  }

  /** No directory and no file comes where there is a symbolic link already: the real calls would follow
      that link. */
  predicate LinksApart(fs: Files, flat: Files) {
    forall p | p in fs && p in flat && fs[p].LinkNode? :: flat[p].LinkNode?
  }

  /** A subtree keeps its compatibility while its earlier siblings are copied. */
  lemma CompatibleBesideSiblings(fs: Files, es: seq<Entry>, n: nat, at: Path)
    requires ValidEntries(es) && n < |es|
    ensures var done := fs + FlattenEntries(es[..n], at);
            var flat := Flatten(es[n].node, at + [es[n].name]);
            && (Compatible(done, flat) <==> Compatible(fs, flat))
            && (IsDir(done, at) <==> IsDir(fs, at))
  {
    SiblingsApart(es, n, at);
  }

  lemma CompatibleEntries(fs: Files, es: seq<Entry>, at: Path)
    requires ValidEntries(es) && es != []
    ensures var n := |es| - 1;
            Compatible(fs, FlattenEntries(es, at)) <==>
            Compatible(fs, FlattenEntries(es[..n], at)) && Compatible(fs, Flatten(es[n].node, at + [es[n].name]))
  {
    SiblingsApart(es, |es| - 1, at);
  }

  /** Inside an existing directory, MkdirAll has at most one directory to make. */
  lemma MkdirInDir(fs: Files, p: Path)
    requires InDir(fs, p)
    ensures p !in fs || fs[p].DirNode? ==> MkdirAll(fs, p) == Ok(fs[p := DirNode])
    ensures p in fs && !fs[p].DirNode? ==> MkdirAll(fs, p).Err?
  {
    if p in fs && fs[p].DirNode? {
      assert fs[p := DirNode] == fs;
    }
  }

  /** A directory is its own node and, apart from it, its entries. */
  lemma DirSplits(fs: Files, es: seq<Entry>, at: Path)
    ensures at !in FlattenEntries(es, at)
    ensures Compatible(fs, Flatten(Dir(es), at)) <==>
              (at !in fs || fs[at].DirNode?) && Compatible(fs[at := DirNode], FlattenEntries(es, at))
    ensures fs + Flatten(Dir(es), at) == fs[at := DirNode] + FlattenEntries(es, at)
  {
    EntriesAreBelow(es, at);
    RootAndRest(fs, at, FlattenEntries(es, at));
  }

  lemma RootAndRest(fs: Files, at: Path, rest: Files)
    requires at !in rest
    ensures Compatible(fs, map[at := DirNode] + rest) <==>
              (at !in fs || fs[at].DirNode?) && Compatible(fs[at := DirNode], rest)
    ensures fs + (map[at := DirNode] + rest) == fs[at := DirNode] + rest
  {
    var flat: Files := map[at := DirNode] + rest;
    assert at in flat && flat[at] == DirNode;
    assert forall p | p in rest :: p in flat && flat[p] == rest[p];
  }

  lemma OverrideOneByOne(fs: Files, es: seq<Entry>, at: Path)
    requires es != []
    ensures var n := |es| - 1;
            fs + FlattenEntries(es, at) ==
            fs + FlattenEntries(es[..n], at) + Flatten(es[n].node, at + [es[n].name])
  {
  }

  /** The recursive merge of a compatible tree is map override. */
  lemma {:induction false} MergeIsOverride(fs: Files, at: Path, es: seq<Entry>)
    requires ValidEntries(es) && InDir(fs, at) && Compatible(fs, Flatten(Dir(es), at))
    ensures Merge(fs, at, es) == fs + Flatten(Dir(es), at)
    decreases es, 1
  {
    DirSplits(fs, es, at);
    MkdirInDir(fs, at);
    MergeEntriesIsOverride(fs[at := DirNode], at, es);
  }

  lemma {:induction false} MergeEntriesIsOverride(fs: Files, at: Path, es: seq<Entry>)
    requires ValidEntries(es) && IsDir(fs, at) && Compatible(fs, FlattenEntries(es, at))
    ensures MergeEntries(fs, at, es) == fs + FlattenEntries(es, at)
    decreases es, 0
  {
    if es != [] {
      var n := |es| - 1;
      var front, last := FlattenEntries(es[..n], at), Flatten(es[n].node, at + [es[n].name]);
      CompatibleEntries(fs, es, at);
      MergeEntriesIsOverride(fs, at, es[..n]);
      CompatibleBesideSiblings(fs, es, n, at);
      MergeNodeIsOverride(fs + front, at + [es[n].name], es[n].node);
      OverrideTwice(fs, front, last);
    }
  }

  lemma {:induction false} MergeNodeIsOverride(fs: Files, p: Path, node: Tree)
    requires ValidTree(node) && p != [] && IsDir(fs, Parent(p)) && Compatible(fs, Flatten(node, p))
    ensures MergeNode(fs, p, node) == fs + Flatten(node, p)
    decreases node, 2
  {
    if node.Dir? {
      MergeIsOverride(fs, p, node.entries);
    } else {
      FlattenIsBelow(node, p);
    }
  }

  lemma {:induction false} ApplyConcat(fs: Files, a: seq<Visit>, b: seq<Visit>)
    ensures ApplyVisits(fs, a + b)
         == match ApplyVisits(fs, a) case Ok(done) => ApplyVisits(done, b) case Err(e) => Err(e)
  {
    if b == [] {
      assert a + b == a;
    } else {
      var n := |b| - 1;
      assert (a + b)[..|a| + n] == a + b[..n];
      ApplyConcat(fs, a, b[..n]);
    }
  }

  /** The walk succeeds exactly on a compatible tree, and then it is map override as well. */
  lemma {:induction false} WalkIsOverride(fs: Files, t: Tree, at: Path)
    requires ValidTree(t) && InDir(fs, at) && LinksApart(fs, Flatten(t, at))
    ensures ApplyVisits(fs, Visits(t, at)).Ok? <==> Compatible(fs, Flatten(t, at))
    ensures Compatible(fs, Flatten(t, at)) ==> ApplyVisits(fs, Visits(t, at)) == Ok(fs + Flatten(t, at))
    decreases t, 0
  {
    match t
    case Dir(es) =>
      ApplyConcat(fs, [Visit(at, DirNode)], VisitsOfEntries(es, at));
      ApplyOne(fs, Visit(at, DirNode));
      MkdirInDir(fs, at);
      DirSplits(fs, es, at);
      assert forall p | p in FlattenEntries(es, at) ::
          p in Flatten(t, at) && Flatten(t, at)[p] == FlattenEntries(es, at)[p];
      WalkEntriesIsOverride(fs[at := DirNode], es, at);
    case File(content) =>
      ApplyOne(fs, Visit(at, FileNode(content)));
      LeafIsOverride(fs, at, FileNode(content));
    case Link(target) =>
      ApplyOne(fs, Visit(at, LinkNode(target)));
      LeafIsOverride(fs, at, LinkNode(target));
  }

  lemma ApplyOne(fs: Files, v: Visit)
    ensures ApplyVisits(fs, [v]) == ApplyVisit(fs, v)
  {
    assert [v][..0] == [];
  }

  lemma LeafIsOverride(fs: Files, p: Path, node: Node)
    requires InDir(fs, p) && !node.DirNode? && LinksApart(fs, map[p := node])
    ensures ApplyVisit(fs, Visit(p, node)).Ok? <==> Compatible(fs, map[p := node])
    ensures Compatible(fs, map[p := node]) ==> ApplyVisit(fs, Visit(p, node)) == Ok(fs + map[p := node])
  {
    if p != [] {
      MkdirInDir(fs, p);
      assert MkdirAll(fs, Parent(p)) == Ok(fs);
    }
    assert fs + map[p := node] == fs[p := node];
  }

  lemma {:induction false} WalkEntriesIsOverride(fs: Files, es: seq<Entry>, at: Path)
    requires ValidEntries(es) && IsDir(fs, at) && LinksApart(fs, FlattenEntries(es, at))
    ensures ApplyVisits(fs, VisitsOfEntries(es, at)).Ok? <==> Compatible(fs, FlattenEntries(es, at))
    ensures Compatible(fs, FlattenEntries(es, at)) ==>
              ApplyVisits(fs, VisitsOfEntries(es, at)) == Ok(fs + FlattenEntries(es, at))
    decreases es, 0
  {
    if es != [] {
      var n := |es| - 1;
      var p := at + [es[n].name];
      var front := FlattenEntries(es[..n], at);
      CompatibleEntries(fs, es, at);
      SiblingsApart(es, n, at);
      WalkEntriesIsOverride(fs, es[..n], at);
      ApplyConcat(fs, VisitsOfEntries(es[..n], at), Visits(es[n].node, p));
      CompatibleBesideSiblings(fs, es, n, at);
      assert Parent(p) == at;
      if Compatible(fs, front) {
        WalkIsOverride(fs + front, es[n].node, p);
        OverrideOneByOne(fs, es, at);
      }
    }
  }

  lemma {:induction false} MkdirAllOnlyAdds(fs: Files, p: Path)
    ensures MkdirAll(fs, p).Ok? ==>
              && IsDir(MkdirAll(fs, p).files, p)
              && (forall q | q in fs :: q in MkdirAll(fs, p).files && MkdirAll(fs, p).files[q] == fs[q])
              && (forall q | q in MkdirAll(fs, p).files && q !in fs :: q <= p && MkdirAll(fs, p).files[q].DirNode?)
    decreases |p|
  {
    if p !in fs && p != [] {
      MkdirAllOnlyAdds(fs, Parent(p));
    }
  }

  /** As in any real file system, whatever exists lies in an existing directory. */
  predicate Rooted(fs: Files) {
    forall p | p in fs :: InDir(fs, p)
  }

  lemma {:induction false} AncestorsAreDirs(fs: Files, p: Path, q: Path)
    requires Rooted(fs) && p in fs && q <= p && q != p
    ensures IsDir(fs, q)
    decreases |p|
  {
    assert InDir(fs, p);
    if q != Parent(p) {
      AncestorsAreDirs(fs, Parent(p), q);
    }
  }

  /** Something that is not a directory lies on the way to p. */
  predicate Blocks(fs: Files, q: Path, p: Path) {
    q <= p && q in fs && !fs[q].DirNode?
  }

  /** No symbolic link lies at the path or on the way to it. */
  predicate LinkFree(fs: Files, p: Path) {
    forall q | q in fs && q <= p :: !fs[q].LinkNode?
  }

  /** MkdirAll fails exactly when something blocks it, on paths that meet no link. */
  lemma {:induction false} MkdirAllFailsExactly(fs: Files, p: Path)
    requires Rooted(fs) && LinkFree(fs, p)
    ensures MkdirAll(fs, p).Err? <==> exists q :: Blocks(fs, q, p)
    decreases |p|
  {
    if p in fs {
      if !fs[p].DirNode? {
        assert Blocks(fs, p, p);
      } else if q :| Blocks(fs, q, p) {
        AncestorsAreDirs(fs, p, q);
      }
    } else if p != [] {
      assert forall q | q in fs && q <= Parent(p) :: q <= p;
      MkdirAllFailsExactly(fs, Parent(p));
      forall q ensures Blocks(fs, q, p) <==> Blocks(fs, q, Parent(p)) {
        assert p[..|p|] == p;
        assert q <= p && |q| == |p| ==> q == p;
        assert q <= p && |q| < |p| ==> q <= Parent(p);
        assert q <= Parent(p) ==> q <= p;
      }
    }
  }

  /** What a merge leaves out: whatever meets something of another kind, and all that lies below. */
  function Unclashed(fs: Files, flat: Files): Files {
    Keep(flat, p => Unhindered(fs, flat, p))
  }

  function Keep(flat: Files, keep: Path -> bool): Files {
    map p | p in flat && keep(p) :: flat[p]
  }

  lemma KeepUnion(a: Files, b: Files, keep: Path -> bool, keepA: Path -> bool, keepB: Path -> bool)
    requires forall p | p in a :: p !in b && keep(p) == keepA(p)
    requires forall p | p in b :: keep(p) == keepB(p)
    ensures Keep(a + b, keep) == Keep(a, keepA) + Keep(b, keepB)
  {
  }

  lemma KeepSame(flat: Files, keep: Path -> bool, other: Path -> bool)
    requires forall p | p in flat :: keep(p) == other(p)
    ensures Keep(flat, keep) == Keep(flat, other)
  {
  }

  predicate Unhindered(fs: Files, flat: Files, p: Path) {
    forall q | q in flat && Below(q, p) && q in fs :: SameKind(fs[q], flat[q])
  }

  /** Below `at`, nothing lies below a file. */
  predicate FilesAreLeaves(fs: Files, at: Path) {
    forall q, r | q in fs && r in fs && at <= q && q < r :: !fs[q].FileNode?
  }

  lemma {:induction false} MkdirUnderFile(fs: Files, q: Path, p: Path)
    requires q in fs && fs[q].FileNode? && FilesAreLeaves(fs, q) && q <= p
    ensures MkdirAll(fs, p).Err?
    decreases |p|
  {
    if p != q {
      assert q < p && p !in fs;
      MkdirUnderFile(fs, q, Parent(p));
    }
  }

  /** At a file and below it the merge writes nothing. */
  lemma {:induction false} MergeUnderFile(fs: Files, q: Path, at: Path, es: seq<Entry>)
    requires q in fs && fs[q].FileNode? && FilesAreLeaves(fs, q) && q <= at
    ensures Merge(fs, at, es) == fs
    decreases es, 1
  {
    MkdirUnderFile(fs, q, at);
    MergeEntriesUnderFile(fs, q, at, es);
  }

  lemma {:induction false} MergeEntriesUnderFile(fs: Files, q: Path, at: Path, es: seq<Entry>)
    requires q in fs && fs[q].FileNode? && FilesAreLeaves(fs, q) && q <= at
    ensures MergeEntries(fs, at, es) == fs
    decreases es, 0
  {
    if es != [] {
      var n := |es| - 1;
      var p := at + [es[n].name];
      MergeEntriesUnderFile(fs, q, at, es[..n]);
      assert q < p && Parent(p) == at;
      match es[n].node
      case Dir(entries) => MergeUnderFile(fs, q, p, entries);
      case File(_) => MkdirUnderFile(fs, q, at);
      case Link(_) =>
        assert at == q || at !in fs;
    }
  }

  lemma SameHindrance(fs: Files, flat: Files, fs2: Files, flat2: Files, p: Path)
    requires forall q | Below(q, p) :: q in flat && q in fs <==> q in flat2 && q in fs2
    requires forall q | Below(q, p) && q in flat && q in fs :: flat[q] == flat2[q] && fs[q] == fs2[q]
    ensures Unhindered(fs, flat, p) <==> Unhindered(fs2, flat2, p)
  {
  }

  predicate Unrelated(p: Path, q: Path) {
    !Below(p, q) && !Below(q, p)
  }

  lemma UnrelatedDoesNotHinder(fs: Files, flat: Files, part: Files, p: Path)
    requires forall q | Below(q, p) :: q in flat <==> q in part
    requires forall q | Below(q, p) && q in part :: flat[q] == part[q]
    ensures Unhindered(fs, flat, p) <==> Unhindered(fs, part, p)
  {
    SameHindrance(fs, flat, fs, part, p);
  }

  lemma UnclashedUnion(fs: Files, a: Files, b: Files)
    requires forall p, q | p in a && q in b :: Unrelated(p, q)
    ensures Unclashed(fs, a + b) == Unclashed(fs, a) + Unclashed(fs, b)
  {
    forall p | p in a ensures p !in b && (Unhindered(fs, a + b, p) <==> Unhindered(fs, a, p)) {
      UnrelatedDoesNotHinder(fs, a + b, a, p);
    }
    forall p | p in b ensures Unhindered(fs, a + b, p) <==> Unhindered(fs, b, p) {
      UnrelatedDoesNotHinder(fs, a + b, b, p);
    }
    KeepUnion(a, b, p => Unhindered(fs, a + b, p), p => Unhindered(fs, a, p), p => Unhindered(fs, b, p));
  }

  lemma UnclashedRoot(fs: Files, at: Path, rest: Files)
    requires forall p | p in rest :: Below(at, p) && p != at
    requires at in fs ==> fs[at].DirNode? || fs[at].FileNode?
    ensures var flat: Files := map[at := DirNode] + rest;
            fs + Unclashed(fs, flat)
              == if at in fs && fs[at].FileNode? then fs else fs[at := DirNode] + Unclashed(fs[at := DirNode], rest)
  {
    if at in fs && fs[at].FileNode? {
      FileHindersAll(fs, at, map[at := DirNode] + rest);
      assert fs + map[] == fs;
    } else {
      RootDoesNotHinder(fs, at, rest);
    }
  }

  lemma FileHindersAll(fs: Files, at: Path, flat: Files)
    requires at in fs && fs[at].FileNode? && at in flat && flat[at].DirNode?
    requires forall p | p in flat :: Below(at, p)
    ensures Unclashed(fs, flat) == map[]
  {
    assert forall p | p in flat :: Below(at, p) && !Unhindered(fs, flat, p);
    KeepSame(flat, p => Unhindered(fs, flat, p), p => false);
  }

  lemma RootDoesNotHinder(fs: Files, at: Path, rest: Files)
    requires forall p | p in rest :: Below(at, p) && p != at
    requires at in fs ==> fs[at].DirNode?
    ensures var flat: Files := map[at := DirNode] + rest;
            fs + Unclashed(fs, flat) == fs[at := DirNode] + Unclashed(fs[at := DirNode], rest)
  {
    var flat: Files := map[at := DirNode] + rest;
    var made := fs[at := DirNode];
    forall p | p in rest ensures Unhindered(fs, flat, p) <==> Unhindered(made, rest, p) {
      RootAddsNoHindrance(fs, at, rest, p);
    }
    Antisymmetric(at);
    var root: Files := map[at := DirNode];
    assert Unhindered(fs, flat, at);
    KeepUnion(root, rest, p => Unhindered(fs, flat, p), p => true, p => Unhindered(made, rest, p));
    RootFirst(fs, at, Unclashed(made, rest));
  }

  lemma RootFirst(fs: Files, at: Path, rest: Files)
    ensures fs + (Keep(map[at := DirNode], p => true) + rest) == fs[at := DirNode] + rest
  {
  }

  lemma Antisymmetric(at: Path)
    ensures forall q | Below(q, at) && Below(at, q) :: q == at
  {
  }

  lemma RootAddsNoHindrance(fs: Files, at: Path, rest: Files, p: Path)
    requires at !in rest && (at in fs ==> fs[at].DirNode?)
    ensures var flat: Files := map[at := DirNode] + rest;
            Unhindered(fs, flat, p) <==> Unhindered(fs[at := DirNode], rest, p)
  {
    var flat: Files := map[at := DirNode] + rest;
    assert flat[at] == DirNode;
    assert forall q | q in rest :: q in flat && flat[q] == rest[q] && q != at;
    assert forall q | q in flat && q != at :: q in rest;
  }

  lemma SiblingsUnrelated(es: seq<Entry>, at: Path)
    requires ValidEntries(es) && es != []
    ensures var n := |es| - 1;
            forall p, q | p in FlattenEntries(es[..n], at) && q in Flatten(es[n].node, at + [es[n].name]) ::
              Unrelated(p, q)
  {
    var n := |es| - 1;
    EntriesAreBelow(es[..n], at);
    FlattenIsBelow(es[n].node, at + [es[n].name]);
    forall p, q | p in FlattenEntries(es[..n], at) && q in Flatten(es[n].node, at + [es[n].name])
      ensures Unrelated(p, q)
    {
      var i :| 0 <= i < n && es[..n][i].name == p[|at|];
      assert es[i].name != es[n].name && (at + [es[n].name])[|at|] == q[|at|];
    }
  }

  /** The exact result of copyDirContents, clashes or not: every entry arrives that meets nothing of
      another kind at its own path or above. */
  lemma {:induction false} MergeSkipsClashes(fs: Files, at: Path, es: seq<Entry>)
    requires ValidEntries(es) && InDir(fs, at) && FilesAreLeaves(fs, at) && LinksApart(fs, Flatten(Dir(es), at))
    ensures Merge(fs, at, es) == fs + Unclashed(fs, Flatten(Dir(es), at))
    decreases es, 1
  {
    var rest := FlattenEntries(es, at);
    EntriesAreBelow(es, at);
    ApartBelow(fs, at, rest);
    UnclashedRoot(fs, at, rest);
    if at in fs && fs[at].FileNode? {
      MergeUnderFile(fs, at, at, es);
    } else {
      MkdirInDir(fs, at);
      MergeEntriesSkipClashes(fs[at := DirNode], at, es);
    }
  }

  lemma ApartBelow(fs: Files, at: Path, rest: Files)
    requires at !in rest && FilesAreLeaves(fs, at) && LinksApart(fs, map[at := DirNode] + rest)
    ensures at in fs ==> fs[at].DirNode? || fs[at].FileNode?
    ensures !(at in fs && fs[at].FileNode?) ==>
              FilesAreLeaves(fs[at := DirNode], at) && LinksApart(fs[at := DirNode], rest)
  {
    var flat: Files := map[at := DirNode] + rest;
    assert at in flat && flat[at] == DirNode;
    assert forall p | p in rest :: p in flat && flat[p] == rest[p];
  }

  lemma {:induction false} MergeEntriesSkipClashes(fs: Files, at: Path, es: seq<Entry>)
    requires ValidEntries(es) && IsDir(fs, at) && FilesAreLeaves(fs, at) && LinksApart(fs, FlattenEntries(es, at))
    ensures MergeEntries(fs, at, es) == fs + Unclashed(fs, FlattenEntries(es, at))
    decreases es, 0
  {
    if es != [] {
      var n := |es| - 1;
      var p := at + [es[n].name];
      var front, last := FlattenEntries(es[..n], at), Flatten(es[n].node, p);
      SiblingsApart(es, n, at);
      SiblingsUnrelated(es, at);
      FlattenIsBelow(es[n].node, p);
      LeavesFurtherDown(fs, at, p);
      NextSubtree(fs, front, last, p);
      MergeEntriesSkipClashes(fs, at, es[..n]);
      MergeNodeSkipsClashes(fs + Unclashed(fs, front), p, es[n].node);
    }
  }

  lemma NextSubtree(fs: Files, front: Files, last: Files, p: Path)
    requires p in last && (forall q | q in last :: Below(p, q)) && FilesAreLeaves(fs, p)
    requires LinksApart(fs, front + last)
    requires forall q, r | q in front && r in last :: Unrelated(q, r)
    ensures var done := fs + Unclashed(fs, front);
            && LinksApart(fs, front) && LinksApart(done, last) && FilesAreLeaves(done, p)
            && fs + Unclashed(fs, front + last) == done + Unclashed(done, last)
  {
    UnclashedUnion(fs, front, last);
    SubtreeUntouched(fs, front, last, p);
    PartsApart(fs, front, last);
    OverrideTwice(fs, Unclashed(fs, front), Unclashed(fs, last));
  }

  lemma PartsApart(fs: Files, front: Files, last: Files)
    requires LinksApart(fs, front + last) && forall q, r | q in front && r in last :: Unrelated(q, r)
    ensures LinksApart(fs, front) && LinksApart(fs, last)
  {
    assert forall q | q in front :: q in front + last && q !in last && (front + last)[q] == front[q] by {
      assert forall q: Path :: Below(q, q);
    }
    assert forall q | q in last :: q in front + last && (front + last)[q] == last[q];
  }

  lemma OverrideTwice(fs: Files, a: Files, b: Files)
    ensures fs + (a + b) == fs + a + b
  {
  }

  lemma LeavesFurtherDown(fs: Files, at: Path, p: Path)
    requires FilesAreLeaves(fs, at) && at <= p
    ensures FilesAreLeaves(fs, p)
  {
  }

  lemma SubtreeUntouched(fs: Files, front: Files, last: Files, p: Path)
    requires p in last && (forall q | q in last :: Below(p, q)) && FilesAreLeaves(fs, p)
    requires forall q, r | q in front && r in last :: Unrelated(q, r)
    ensures var done := fs + Unclashed(fs, front);
            && FilesAreLeaves(done, p)
            && Unclashed(done, last) == Unclashed(fs, last)
            && (LinksApart(fs, last) ==> LinksApart(done, last))
  {
    var done := fs + Unclashed(fs, front);
    assert forall q | Below(p, q) :: q !in front;
    assert forall q | Below(p, q) && q in done :: q in fs && done[q] == fs[q];
    SameSubtree(fs, done, p);
    assert forall q | q in last :: (q in done <==> q in fs) && (q in fs ==> done[q] == fs[q]);
    SameUnclashed(fs, done, last);
  }

  lemma SameSubtree(fs: Files, done: Files, p: Path)
    requires FilesAreLeaves(fs, p) && forall q | Below(p, q) && q in done :: q in fs && done[q] == fs[q]
    ensures FilesAreLeaves(done, p)
  {
    forall q, r | q in done && r in done && p <= q && q < r ensures !done[q].FileNode? {
      assert Below(p, q) && Below(p, r);
    }
  }

  lemma SameUnclashed(fs: Files, done: Files, last: Files)
    requires forall q | q in last :: (q in done <==> q in fs) && (q in fs ==> done[q] == fs[q])
    ensures Unclashed(done, last) == Unclashed(fs, last)
  {
    forall q | q in last ensures Unhindered(done, last, q) <==> Unhindered(fs, last, q) {
      SameHindrance(done, last, fs, last, q);
    }
    KeepSame(last, p => Unhindered(done, last, p), p => Unhindered(fs, last, p));
  }

  lemma {:induction false} MergeNodeSkipsClashes(fs: Files, p: Path, node: Tree)
    requires ValidTree(node) && p != [] && IsDir(fs, Parent(p))
    requires FilesAreLeaves(fs, p) && LinksApart(fs, Flatten(node, p))
    ensures MergeNode(fs, p, node) == fs + Unclashed(fs, Flatten(node, p))
    decreases node, 2
  {
    match node
    case Dir(entries) => MergeSkipsClashes(fs, p, entries);
    case File(content) => MergeLeaf(fs, p, node);
    case Link(target) => MergeLeaf(fs, p, node);
  }

  lemma MergeLeaf(fs: Files, p: Path, node: Tree)
    requires p != [] && IsDir(fs, Parent(p)) && !node.Dir? && LinksApart(fs, Flatten(node, p))
    ensures MergeNode(fs, p, node) == fs + Unclashed(fs, Flatten(node, p))
  {
    var flat := Flatten(node, p);
    assert MkdirAll(fs, Parent(p)) == Ok(fs);
    assert Unhindered(fs, flat, p) <==> p !in fs || SameKind(fs[p], flat[p]);
    assert Unclashed(fs, flat) == if Unhindered(fs, flat, p) then flat else map[];
  }

  lemma {:induction false} MkdirAllRooted(fs: Files, p: Path)
    requires Rooted(fs) && MkdirAll(fs, p).Ok?
    ensures Rooted(MkdirAll(fs, p).files)
    decreases |p|
  {
    if p !in fs && p != [] {
      MkdirAllRooted(fs, Parent(p));
      MkdirAllOnlyAdds(fs, Parent(p));
    }
  }

  /** A way for a file: only directories above it, and a file or nothing in its place. */
  predicate Writable(fs: Files, p: Path) {
    && (forall q | q in fs && q < p :: fs[q].DirNode?)
    && (p in fs ==> fs[p].FileNode?)
  }

  /** Writing a file fails exactly when there is no way for it, where it meets no symbolic link. */
  lemma WriteExactly(fs: Files, p: Path, content: Bytes)
    requires Rooted(fs) && LinkFree(fs, p) && p != []
    ensures WriteFile(fs, p, content).Ok? <==> Writable(fs, p)
  {
    var dir := Parent(p);
    assert p == dir + [p[|p| - 1]];
    assert forall q | q in fs :: (q < p <==> q <= dir) && (q <= dir ==> q <= p);
    MkdirAllFailsExactly(fs, dir);
    MkdirAllOnlyAdds(fs, dir);
    if MkdirAll(fs, dir).Ok? {
      assert forall q | q in fs && q <= dir :: !Blocks(fs, q, dir);
    } else {
      var q :| Blocks(fs, q, dir);
    }
  }

  /** The file is there, all else is as before, and new are only directories above it. */
  predicate Written(fs: Files, done: Files, p: Path, content: Bytes) {
    && p in done && done[p] == FileNode(content)
    && (forall q | q in fs && q != p :: q in done && done[q] == fs[q])
    && (forall q | q in done && q !in fs && q != p :: done[q].DirNode? && q < p)
  }

  lemma WriteChanges(fs: Files, p: Path, content: Bytes)
    requires p != [] && WriteFile(fs, p, content).Ok?
    ensures Written(fs, WriteFile(fs, p, content).files, p, content)
  {
    MkdirAllOnlyAdds(fs, Parent(p));
    assert forall q | q <= Parent(p) :: |q| < |p| && q < p by {
      assert p == Parent(p) + [p[|p| - 1]];
    }
  }

  lemma WriteRooted(fs: Files, p: Path, content: Bytes)
    requires Rooted(fs) && p != [] && WriteFile(fs, p, content).Ok?
    ensures Rooted(WriteFile(fs, p, content).files)
  {
    MkdirAllRooted(fs, Parent(p));
    MkdirAllOnlyAdds(fs, Parent(p));
    var made := MkdirAll(fs, Parent(p)).files;
    var done := WriteFile(fs, p, content).files;
    assert p in made ==> made[p].FileNode?;
    forall q | q in done ensures InDir(done, q) {
      if q != [] && q != p {
        assert InDir(made, q);
      }
    }
  }

  /** Writing one file leaves the way of another one alone, if neither is to lie below the other. */
  lemma OtherWayStays(fs: Files, done: Files, p: Path, content: Bytes, other: Path)
    requires Written(fs, done, p, content) && !(p <= other) && !(other <= p)
    ensures LinkFree(fs, other) ==> LinkFree(done, other)
    ensures Writable(done, other) <==> Writable(fs, other)
  {
    assert forall q | q in done && q <= other :: q != p;
    assert forall q | q in fs && q < other :: q != p && q in done;
  }

  /** Making a directory above a file beforehand changes nothing about the writing of the file. */
  lemma MadeBeforehand(fs: Files, d: Path, p: Path)
    requires Rooted(fs) && LinkFree(fs, p) && d < p
    ensures MkdirAll(fs, d).Err? ==> !Writable(fs, p)
    ensures MkdirAll(fs, d).Ok? ==>
              var made := MkdirAll(fs, d).files;
              Rooted(made) && LinkFree(made, p) && (Writable(made, p) <==> Writable(fs, p))
  {
    assert forall q | q <= d :: |q| < |p| && q < p;
    if MkdirAll(fs, d).Ok? {
      MkdirAllOnlyAdds(fs, d);
      MkdirAllRooted(fs, d);
    } else {
      MkdirAllFailsExactly(fs, d);
    }
  }

  lemma WrittenBehind(fs: Files, d: Path, p: Path, done: Files, content: Bytes)
    requires d < p && MkdirAll(fs, d).Ok? && Written(MkdirAll(fs, d).files, done, p, content)
    ensures Written(fs, done, p, content)
  {
    assert forall q | q <= d :: |q| < |p| && q < p;
    MkdirAllOnlyAdds(fs, d);
  }

  /** In a rooted file system nothing lies below a file. */
  lemma RootedFiles(fs: Files)
    requires Rooted(fs)
    ensures FilesAreLeaves(fs, [])
  {
    forall q, r | q in fs && r in fs && q < r ensures !fs[q].FileNode? {
      AncestorsAreDirs(fs, r, q);
    }
  }

  /** In a laid-out tree everything but the root lies in a directory of the tree. */
  lemma {:induction false} FlattenRooted(t: Tree, at: Path, p: Path)
    requires ValidTree(t) && p in Flatten(t, at) && p != at
    ensures p != [] && IsDir(Flatten(t, at), Parent(p))
    decreases t, 0
  {
    if t.Dir? {
      EntriesAreBelow(t.entries, at);
      EntriesRooted(t.entries, at, p);
    }
  }

  lemma {:induction false} EntriesRooted(es: seq<Entry>, at: Path, p: Path)
    requires ValidEntries(es) && p in FlattenEntries(es, at)
    ensures p != [] && (Parent(p) == at || IsDir(FlattenEntries(es, at), Parent(p)))
    decreases es, 0
  {
    if es != [] {
      var n := |es| - 1;
      var q := at + [es[n].name];
      SiblingsApart(es, n, at);
      if p in FlattenEntries(es[..n], at) {
        EntriesRooted(es[..n], at, p);
      } else if p != q {
        FlattenRooted(es[n].node, q, p);
      }
    }
  }

  lemma UnclashedRooted(fs: Files, t: Tree)
    requires Rooted(fs) && IsDir(fs, []) && t.Dir? && ValidTree(t)
    ensures Rooted(fs + Unclashed(fs, Flatten(t, []))) && IsDir(fs + Unclashed(fs, Flatten(t, [])), [])
  {
    var flat := Flatten(t, []);
    forall p | p in flat && p != [] ensures IsDir(flat, Parent(p)) {
      FlattenRooted(t, [], p);
    }
    DirSplits(fs, t.entries, []);
    var some := Unclashed(fs, flat);
    assert flat[[]] == DirNode && Unhindered(fs, flat, []);
    forall p | p in some && p != [] ensures IsDir(some, Parent(p)) {
      UnhinderedAbove(fs, flat, p);
    }
    forall p | p in some && p in fs && fs[p].DirNode? ensures some[p].DirNode? {
      assert Unhindered(fs, flat, p) && Below(p, p);
    }
    OverlayRooted(fs, some);
  }

  lemma UnhinderedAbove(fs: Files, flat: Files, p: Path)
    requires p != [] && Unhindered(fs, flat, p)
    ensures Unhindered(fs, flat, Parent(p))
  {
    assert forall q | Below(q, Parent(p)) :: Below(q, p);
  }

  lemma OverlayRooted(fs: Files, some: Files)
    requires Rooted(fs) && forall p | p in some && p != [] :: IsDir(some, Parent(p))
    requires forall p | p in some && p in fs && fs[p].DirNode? :: some[p].DirNode?
    ensures Rooted(fs + some)
  {
    forall p | p in fs + some ensures InDir(fs + some, p) {
      if p !in some {
        assert InDir(fs, p);
      }
    }
  }
}
