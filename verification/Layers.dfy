/** Stacking the layers of an image: the FROM step of the builder and AssembleRootfs of the
    container store, the commit of a build, and the injection of init and agent. */
module Layers {
  import opened FileTree
  import opened Copying

  /** Names in the order of sort.Slice and os.ReadDir: first difference decides, prefixes come first. */
  predicate NameLess(a: string, b: string) {
    b != "" && (a == "" || a[0] < b[0] || (a[0] == b[0] && NameLess(a[1..], b[1..])))
  }

  /** The order itself: a name is before another one that it is a proper prefix of, or that has a greater
      character where the two first differ. */
  ghost predicate NameBefore(a: string, b: string) {
    a != b && (a <= b || exists i :: DiffersAt(a, b, i) && a[i] < b[i])
  }

  ghost predicate DiffersAt(a: string, b: string, i: int) {
    0 <= i < |a| && i < |b| && a[..i] == b[..i] && a[i] != b[i]
  }

  lemma TakesFirst(a: string, i: int)
    ensures 0 < i <= |a| ==> a[..i][0] == a[0]
  {
  }

  lemma {:induction false} NameOrder(a: string, b: string)
    ensures NameLess(a, b) <==> NameBefore(a, b)
  {
    if a != "" && b != "" {
      if a[0] == b[0] {
        NameOrder(a[1..], b[1..]);
        SameFirst(a, b);
      } else {
        assert a[0] < b[0] ==> DiffersAt(a, b, 0);
        forall i ensures DiffersAt(a, b, i) ==> i == 0 {
          TakesFirst(a, i);
          TakesFirst(b, i);
        }
      }
    }
  }

  lemma SameFirst(a: string, b: string)
    requires a != "" && b != "" && a[0] == b[0]
    ensures NameBefore(a, b) <==> NameBefore(a[1..], b[1..])
  {
    assert a == [a[0]] + a[1..] && b == [b[0]] + b[1..];
    forall i | DiffersAt(a, b, i) ensures DiffersAt(a[1..], b[1..], i - 1) {
      assert i > 0;
      assert a[1..][..i - 1] == a[..i][1..] && b[1..][..i - 1] == b[..i][1..];
    }
    forall i | DiffersAt(a[1..], b[1..], i) ensures DiffersAt(a, b, i + 1) {
      assert a[..i + 1] == [a[0]] + a[1..][..i] && b[..i + 1] == [b[0]] + b[1..][..i];
    }
  }

  predicate InNameOrder(es: seq<Entry>) {
    forall i, j | 0 <= i < j < |es| :: NameLess(es[i].name, es[j].name)
  }

  function Insert(e: Entry, es: seq<Entry>): seq<Entry> {
    if es == [] || NameLess(e.name, es[0].name) then [e] + es else [es[0]] + Insert(e, es[1..])
  }

  /** sort.Slice by name. */
  function SortByName(es: seq<Entry>): seq<Entry> {
    if es == [] then [] else Insert(es[0], SortByName(es[1..]))
  }

  predicate DistinctNames(es: seq<Entry>) {
    forall i, j | 0 <= i < j < |es| :: es[i].name != es[j].name
  }

  lemma {:induction false} OneIsLess(a: string, b: string)
    ensures a != b <==> NameLess(a, b) || NameLess(b, a)
    ensures !(NameLess(a, b) && NameLess(b, a))
  {
    if a != "" && b != "" {
      OneIsLess(a[1..], b[1..]);
      assert a == [a[0]] + a[1..] && b == [b[0]] + b[1..];
    }
  }

  lemma {:induction false} LessIsTransitive(a: string, b: string, c: string)
    requires NameLess(a, b) && NameLess(b, c)
    ensures NameLess(a, c)
  {
    if a != "" && a[0] == b[0] == c[0] {
      LessIsTransitive(a[1..], b[1..], c[1..]);
    }
  }

  lemma {:induction false} InsertSorts(e: Entry, es: seq<Entry>)
    requires InNameOrder(es) && forall i | 0 <= i < |es| :: es[i].name != e.name
    ensures InNameOrder(Insert(e, es)) && multiset(Insert(e, es)) == multiset([e] + es)
  {
    if es != [] {
      var first, rest := es[0], es[1..];
      assert es == [first] + rest;
      OneIsLess(e.name, first.name);
      if NameLess(e.name, first.name) {
        forall i | 0 <= i < |es| ensures NameLess(e.name, es[i].name) {
          if i > 0 {
            LessIsTransitive(e.name, first.name, es[i].name);
          }
        }
      } else {
        InsertSorts(e, rest);
        FirstStays(first, e, rest);
      }
    }
  }

  lemma FirstStays(first: Entry, e: Entry, rest: seq<Entry>)
    requires NameLess(first.name, e.name) && forall i | 0 <= i < |rest| :: NameLess(first.name, rest[i].name)
    requires InNameOrder(Insert(e, rest)) && multiset(Insert(e, rest)) == multiset([e] + rest)
    ensures InNameOrder([first] + Insert(e, rest))
  {
    forall i | 0 <= i < |Insert(e, rest)| ensures NameLess(first.name, Insert(e, rest)[i].name) {
      assert Insert(e, rest)[i] in multiset([e] + rest);
    }
  }

  /** Sorting keeps the entries and puts them in order of their names. */
  lemma {:induction false} SortingSorts(es: seq<Entry>)
    requires DistinctNames(es)
    ensures InNameOrder(SortByName(es)) && multiset(SortByName(es)) == multiset(es)
  {
    if es != [] {
      SortingSorts(es[1..]);
      assert es == [es[0]] + es[1..];
      forall i | 0 <= i < |SortByName(es[1..])| ensures SortByName(es[1..])[i].name != es[0].name {
        assert SortByName(es[1..])[i] in multiset(es[1..]);
      }
      InsertSorts(es[0], SortByName(es[1..]));
    }
  }

  /** os.ReadDir lists a directory in name order already, so sorting again changes nothing. */
  lemma {:induction false} SortingSorted(es: seq<Entry>)
    requires InNameOrder(es)
    ensures SortByName(es) == es
  {
    if es != [] {
      SortingSorted(es[1..]);
    }
  }

  /** The copies go on top of what earlier layers left. Entries that are not directories are skipped. */
  function Stack(es: seq<Entry>): Files {
    if es == [] then map[[] := DirNode]
    else
      var n := |es| - 1;
      if es[n].node.Dir? then Stack(es[..n]) + Flatten(es[n].node, []) else Stack(es[..n])
  }

  /** The loop of handleFrom: merge each layer directory into the build root. */
  function MergeLayers(fs: Files, es: seq<Entry>): Files {
    if es == [] then fs
    else
      var n := |es| - 1;
      var below := MergeLayers(fs, es[..n]);
      if es[n].node.Dir? then Merge(below, [], es[n].node.entries) else below
  }

  /** The loop of AssembleRootfs: walk each layer directory, stop at the first error. */
  function WalkLayers(fs: Files, es: seq<Entry>): Result {
    if es == [] then Ok(fs)
    else
      var n := |es| - 1;
      match WalkLayers(fs, es[..n])
      case Err(e) => Err(e)
      case Ok(below) => if es[n].node.Dir? then ApplyVisits(below, Visits(es[n].node, [])) else Ok(below)
  }

  predicate ValidLayers(es: seq<Entry>) {
    forall i | 0 <= i < |es| :: ValidTree(es[i].node)
  }

  /** No two layers disagree on what is a directory and what a file, and a symbolic link of one layer
      lies at no path of another. */
  predicate LayersAgree(es: seq<Entry>) {
    forall i, j | 0 <= i < j < |es| && es[i].node.Dir? && es[j].node.Dir? ::
      Compatible(Flatten(es[i].node, []), Flatten(es[j].node, []))
  }

  /** No layer has a directory or a file where a layer below it has a symbolic link. */
  predicate LayerLinksApart(es: seq<Entry>) {
    forall i, j | 0 <= i < j < |es| && es[i].node.Dir? && es[j].node.Dir? ::
      LinksApart(Flatten(es[i].node, []), Flatten(es[j].node, []))
  }

  /** Layer i is the last one that has something at path p. */
  ghost predicate LastWith(es: seq<Entry>, i: int, p: Path) {
    && 0 <= i < |es| && es[i].node.Dir? && p in Flatten(es[i].node, [])
    && forall j | i < j < |es| && es[j].node.Dir? :: p !in Flatten(es[j].node, [])
  }

  lemma LastStays(es: seq<Entry>, p: Path)
    requires es != []
    ensures var n := |es| - 1;
            forall i :: LastWith(es, i, p) <==>
              if es[n].node.Dir? && p in Flatten(es[n].node, []) then i == n else LastWith(es[..n], i, p)
  {
  }

  /** What the stack holds at a path is what the last layer with that path holds, and nothing else is
      there, apart from the root directory. */
  lemma {:induction false} StackHoldsLast(es: seq<Entry>, p: Path)
    ensures p in Stack(es) && p != [] ==> exists i :: LastWith(es, i, p)
    ensures forall i | LastWith(es, i, p) :: p in Stack(es) && Stack(es)[p] == Flatten(es[i].node, [])[p]
    ensures [] in Stack(es) && Stack(es)[[]].DirNode?
  {
    if es != [] {
      var n := |es| - 1;
      StackHoldsLast(es[..n], p);
      if es[n].node.Dir? {
        FlattenIsBelow(es[n].node, []);
        DirSplits(map[], es[n].node.entries, []);
      }
      if es[n].node.Dir? && p in Flatten(es[n].node, []) {
        assert LastWith(es, n, p);
      }
      LastStays(es, p);
    }
  }

  /** Of the layers with something at the path, this one has the greatest name. */
  ghost predicate GreatestWith(es: seq<Entry>, e: Entry, p: Path) {
    && e in es && e.node.Dir? && p in Flatten(e.node, [])
    && forall other | other in es && other != e && other.node.Dir? && p in Flatten(other.node, []) ::
         NameBefore(other.name, e.name)
  }

  /** At each path lies what the layer with the greatest name has there, and nothing else is there, apart from
      the root directory. */
  ghost predicate HoldsGreatest(es: seq<Entry>, files: Files) {
    && (forall e, p | GreatestWith(es, e, p) :: p in files && files[p] == Flatten(e.node, [])[p])
    && (forall p | p in files && p != [] :: exists e :: GreatestWith(es, e, p))
  }

  lemma SortedGreatest(es: seq<Entry>, sorted: seq<Entry>, i: int, p: Path)
    requires InNameOrder(sorted) && multiset(sorted) == multiset(es) && 0 <= i < |sorted|
    ensures LastWith(sorted, i, p) <==> GreatestWith(es, sorted[i], p)
  {
    assert sorted[i] in multiset(es);
    if LastWith(sorted, i, p) {
      forall other | other in es && other != sorted[i] && other.node.Dir? && p in Flatten(other.node, [])
        ensures NameBefore(other.name, sorted[i].name)
      {
        assert other in multiset(sorted);
        var j :| 0 <= j < |sorted| && sorted[j] == other;
        NameOrder(other.name, sorted[i].name);
      }
    }
    if GreatestWith(es, sorted[i], p) {
      forall j | i < j < |sorted| && sorted[j].node.Dir? ensures p !in Flatten(sorted[j].node, []) {
        assert sorted[j] in multiset(es);
        NameOrder(sorted[j].name, sorted[i].name);
        OneIsLess(sorted[j].name, sorted[i].name);
      }
    }
  }

  /** In whatever order the layers are listed, their stack in name order holds the greatest at each path. */
  lemma StackHoldsGreatest(es: seq<Entry>)
    requires DistinctNames(es)
    ensures HoldsGreatest(es, Stack(SortByName(es)))
  {
    var sorted := SortByName(es);
    SortingSorts(es);
    forall e, p | GreatestWith(es, e, p) ensures p in Stack(sorted) && Stack(sorted)[p] == Flatten(e.node, [])[p] {
      assert e in multiset(sorted);
      var i :| 0 <= i < |sorted| && sorted[i] == e;
      SortedGreatest(es, sorted, i, p);
      StackHoldsLast(sorted, p);
    }
    forall p | p in Stack(sorted) && p != [] ensures exists e :: GreatestWith(es, e, p) {
      StackHoldsLast(sorted, p);
      var i :| LastWith(sorted, i, p);
      SortedGreatest(es, sorted, i, p);
    }
  }

  /** A further layer fits on the stack exactly when it fits with every layer of the stack. */
  lemma FitsOnStack(es: seq<Entry>, t: Tree)
    requires LayersAgree(es) && t.Dir?
    ensures Compatible(Stack(es), Flatten(t, [])) <==>
              forall i | 0 <= i < |es| && es[i].node.Dir? :: Compatible(Flatten(es[i].node, []), Flatten(t, []))
  {
    var flat := Flatten(t, []);
    DirSplits(map[], t.entries, []);
    if forall i | 0 <= i < |es| && es[i].node.Dir? :: Compatible(Flatten(es[i].node, []), flat) {
      forall p | p in Stack(es) && p in flat
        ensures (Stack(es)[p].DirNode? && flat[p].DirNode?) || (Stack(es)[p].FileNode? && flat[p].FileNode?)
      {
        StackHoldsLast(es, p);
        if p != [] {
          var i :| LastWith(es, i, p);
          assert Compatible(Flatten(es[i].node, []), flat);
        }
      }
    }
    if Compatible(Stack(es), flat) {
      forall i | 0 <= i < |es| && es[i].node.Dir? ensures Compatible(Flatten(es[i].node, []), flat) {
        forall p | p in Flatten(es[i].node, []) && p in flat
          ensures var have := Flatten(es[i].node, [])[p];
                  (have.DirNode? && flat[p].DirNode?) || (have.FileNode? && flat[p].FileNode?)
        {
          var j := LastFrom(es, i, p);
          StackHoldsLast(es, p);
          assert i < j ==> Compatible(Flatten(es[i].node, []), Flatten(es[j].node, []));
        }
      }
    }
  }

  lemma {:induction false} LastFrom(es: seq<Entry>, i: nat, p: Path) returns (j: nat)
    requires i < |es| && es[i].node.Dir? && p in Flatten(es[i].node, [])
    ensures i <= j && LastWith(es, j, p)
    decreases |es| - i
  {
    if k :| i < k < |es| && es[k].node.Dir? && p in Flatten(es[k].node, []) {
      j := LastFrom(es, k, p);
    } else {
      j := i;
    }
  }

  lemma StackLinksApart(es: seq<Entry>)
    requires es != [] && LayerLinksApart(es) && es[|es| - 1].node.Dir?
    ensures LinksApart(Stack(es[..|es| - 1]), Flatten(es[|es| - 1].node, []))
  {
    var n := |es| - 1;
    forall p | p in Stack(es[..n]) && p in Flatten(es[n].node, []) && Stack(es[..n])[p].LinkNode?
      ensures Flatten(es[n].node, [])[p].LinkNode?
    {
      StackHoldsLast(es[..n], p);
      if p != [] {
        var i :| LastWith(es[..n], i, p);
        assert LinksApart(Flatten(es[i].node, []), Flatten(es[n].node, []));
      }
    }
  }

  /** AssembleRootfs succeeds on an empty root exactly when the layers agree; it then yields the stack. */
  lemma {:induction false} AssembleIsStack(es: seq<Entry>)
    requires ValidLayers(es) && LayerLinksApart(es)
    ensures WalkLayers(map[[] := DirNode], es).Ok? <==> LayersAgree(es)
    ensures LayersAgree(es) ==> WalkLayers(map[[] := DirNode], es) == Ok(Stack(es))
  {
    if es != [] {
      var n := |es| - 1;
      AssembleIsStack(es[..n]);
      AgreeSplits(es);
      if es[n].node.Dir? && LayersAgree(es[..n]) {
        FitsOnStack(es[..n], es[n].node);
        StackLinksApart(es);
        WalkIsOverride(Stack(es[..n]), es[n].node, []);
      }
    }
  }

  lemma AgreeSplits(es: seq<Entry>)
    requires es != []
    ensures var n := |es| - 1;
            LayersAgree(es) <==>
            && LayersAgree(es[..n])
            && (es[n].node.Dir? ==> forall i | 0 <= i < n && es[..n][i].node.Dir? ::
                  Compatible(Flatten(es[..n][i].node, []), Flatten(es[n].node, [])))
  {
    var n := |es| - 1;
    assert forall i | 0 <= i < n :: es[..n][i] == es[i];
  }

  /** In whatever order the layers are listed: the root that AssembleRootfs makes holds at each path what the
      layer with the greatest name has there. */
  lemma AssembledHoldsGreatest(es: seq<Entry>)
    requires DistinctNames(es) && ValidLayers(es) && LayerLinksApart(SortByName(es))
    ensures var result := WalkLayers(map[[] := DirNode], SortByName(es));
            && (result.Ok? <==> LayersAgree(SortByName(es)))
            && (result.Ok? ==> HoldsGreatest(es, result.files))
  {
    var sorted := SortByName(es);
    SortingSorts(es);
    forall i | 0 <= i < |sorted| ensures ValidTree(sorted[i].node) {
      assert sorted[i] in multiset(es);
    }
    AssembleIsStack(sorted);
    StackHoldsGreatest(es);
  }

  /** The FROM step yields the same stack when the layers agree. */
  lemma {:induction false} FromIsStack(es: seq<Entry>)
    requires ValidLayers(es) && LayersAgree(es)
    ensures MergeLayers(map[[] := DirNode], es) == Stack(es)
  {
    if es != [] {
      var n := |es| - 1;
      AgreeSplits(es);
      FromIsStack(es[..n]);
      if es[n].node.Dir? {
        FitsOnStack(es[..n], es[n].node);
        MergeIsOverride(Stack(es[..n]), [], es[n].node.entries);
      }
    }
  }

  /** The build root after a first FROM and the root of a container of the same image are the same
      tree, although one side sorts, walks and stops at errors and the other recurses and ignores them. */
  lemma BuildRootIsContainerRoot(es: seq<Entry>)
    requires ValidLayers(es) && InNameOrder(es) && LayersAgree(es) && LayerLinksApart(es)
    ensures WalkLayers(map[[] := DirNode], SortByName(es)) == Ok(MergeLayers(map[[] := DirNode], es))
  {
    SortingSorted(es);
    AssembleIsStack(es);
    FromIsStack(es);
  }

  /** What the FROM step makes of any layers: each one without what clashes with the layers below it. */
  function Heap(es: seq<Entry>): Files {
    if es == [] then map[[] := DirNode]
    else
      var n := |es| - 1;
      if es[n].node.Dir? then Heap(es[..n]) + Unclashed(Heap(es[..n]), Flatten(es[n].node, [])) else Heap(es[..n])
  }

  lemma {:induction false} HeapComesFromLayers(es: seq<Entry>, p: Path)
    requires p in Heap(es) && p != []
    ensures exists i :: 0 <= i < |es| && es[i].node.Dir? && p in Flatten(es[i].node, [])
                        && Heap(es)[p] == Flatten(es[i].node, [])[p]
  {
    var n := |es| - 1;
    if es[n].node.Dir? && p in Unclashed(Heap(es[..n]), Flatten(es[n].node, [])) {
      assert p in Flatten(es[n].node, []);
    } else {
      HeapComesFromLayers(es[..n], p);
      var i :| 0 <= i < n && es[..n][i].node.Dir? && p in Flatten(es[..n][i].node, [])
               && Heap(es[..n])[p] == Flatten(es[..n][i].node, [])[p];
      assert es[i] == es[..n][i];
    }
  }

  lemma HeapLinksApart(es: seq<Entry>)
    requires es != [] && LayerLinksApart(es) && es[|es| - 1].node.Dir?
    requires [] in Heap(es[..|es| - 1]) && Heap(es[..|es| - 1])[[]].DirNode?
    ensures LinksApart(Heap(es[..|es| - 1]), Flatten(es[|es| - 1].node, []))
  {
    var n := |es| - 1;
    forall p | p in Heap(es[..n]) && p in Flatten(es[n].node, []) && Heap(es[..n])[p].LinkNode?
      ensures Flatten(es[n].node, [])[p].LinkNode?
    {
      HeapComesFromLayers(es[..n], p);
      var i :| 0 <= i < n && es[..n][i].node.Dir? && p in Flatten(es[..n][i].node, [])
               && Heap(es[..n])[p] == Flatten(es[..n][i].node, [])[p];
      assert LinksApart(Flatten(es[i].node, []), Flatten(es[n].node, []));
    }
  }

  /** The exact result of the FROM step, clashes or not. */
  lemma {:induction false} FromKeepsUnclashed(es: seq<Entry>)
    requires ValidLayers(es) && LayerLinksApart(es)
    ensures MergeLayers(map[[] := DirNode], es) == Heap(es)
    ensures Rooted(Heap(es)) && [] in Heap(es) && Heap(es)[[]].DirNode?
  {
    if es != [] {
      var n := |es| - 1;
      FromKeepsUnclashed(es[..n]);
      if es[n].node.Dir? {
        HeapLinksApart(es);
        RootedFiles(Heap(es[..n]));
        MergeSkipsClashes(Heap(es[..n]), [], es[n].node.entries);
        UnclashedRooted(Heap(es[..n]), es[n].node);
      }
    }
  }

  /** On the same image the two sides differ exactly where layers clash: the container store reports an
      error, and the builder goes on with what is left. */
  lemma FromIgnoresClash(es: seq<Entry>)
    requires ValidLayers(es) && InNameOrder(es) && LayerLinksApart(es)
    ensures MergeLayers(map[[] := DirNode], es) == Heap(es)
    ensures WalkLayers(map[[] := DirNode], SortByName(es)).Err? <==> !LayersAgree(es)
    ensures LayersAgree(es) ==> WalkLayers(map[[] := DirNode], SortByName(es)) == Ok(Heap(es))
  {
    SortingSorted(es);
    FromKeepsUnclashed(es);
    AssembleIsStack(es);
    if LayersAgree(es) {
      FromIsStack(es);
    }
  }

  /** commit copies the finished build root into the only layer of the new image; assembling a
      container from that image gives back the build root, path for path. */
  lemma CommitThenAssemble(root: seq<Entry>, stored: Tree, layer: string)
    requires ValidEntries(root)
    requires ValidTree(stored) && stored.Dir? && Flatten(stored, []) == Merge(map[], [], root)
    ensures WalkLayers(map[[] := DirNode], SortByName([Entry(layer, stored)])) == Ok(Flatten(Dir(root), []))
  {
    MergeIsOverride(map[], [], root);
    assert map[] + Flatten(Dir(root), []) == Flatten(Dir(root), []);
    var es := [Entry(layer, stored)];
    AssembleIsStack(es);
    DirSplits(map[], stored.entries, []);
    assert es[..0] == [] && Stack(es) == map[[] := DirNode] + Flatten(stored, []);
  }

  /** InjectInit and InjectAgent: make the directory, then write the binary into it. */
  function Inject(fs: Files, dir: Path, name: string, binary: Bytes): Result {
    match MkdirAll(fs, dir)
    case Ok(made) => OverwriteFile(made, dir + [name], binary)
    case Err(e) => Err(e)
  }

  lemma InjectIsWrite(fs: Files, dir: Path, name: string, binary: Bytes)
    ensures Inject(fs, dir, name, binary) == WriteFile(fs, dir + [name], binary)
  {
    assert Parent(dir + [name]) == dir;
  }

  const INIT_PATH := ["sbin"] + ["init"]
  const AGENT_PATH := ["usr", "bin"] + ["poqman-agent"]

  /** Both injections succeed exactly when both ways are open. Then the two binaries are in place, and
      everything else is as it was, except that missing directories on the way to them exist now. */
  lemma InjectionChangesTwoFiles(fs: Files, init: Bytes, agent: Bytes)
    requires Rooted(fs) && LinkFree(fs, INIT_PATH) && LinkFree(fs, AGENT_PATH)
    ensures Inject(fs, ["sbin"], "init", init).Ok? <==> Writable(fs, INIT_PATH)
    ensures Writable(fs, INIT_PATH) ==>
              var first := Inject(fs, ["sbin"], "init", init).files;
              var second := Inject(first, ["usr", "bin"], "poqman-agent", agent);
              && (second.Ok? <==> Writable(fs, AGENT_PATH))
              && (second.Ok? ==> OnlyBinariesChange(fs, second.files, init, agent))
  {
    InjectIsWrite(fs, ["sbin"], "init", init);
    WriteExactly(fs, INIT_PATH, init);
    if Writable(fs, INIT_PATH) {
      var first := WriteFile(fs, INIT_PATH, init).files;
      InjectIsWrite(first, ["usr", "bin"], "poqman-agent", agent);
      WriteChanges(fs, INIT_PATH, init);
      WriteRooted(fs, INIT_PATH, init);
      PathsApart();
      OtherWayStays(fs, first, INIT_PATH, init, AGENT_PATH);
      WriteExactly(first, AGENT_PATH, agent);
      if Writable(fs, AGENT_PATH) {
        WriteChanges(first, AGENT_PATH, agent);
      }
    }
  }

  lemma PathsApart()
    ensures !(INIT_PATH <= AGENT_PATH) && !(AGENT_PATH <= INIT_PATH)
  {
    assert "usr"[0] != "sbin"[0];
    assert INIT_PATH[0] == "sbin" && AGENT_PATH[0] == "usr";
  }

  /** The two binaries are there, and else only directories above them are new. */
  predicate OnlyBinariesChange(fs: Files, done: Files, init: Bytes, agent: Bytes) {
    && INIT_PATH in done && done[INIT_PATH] == FileNode(init)
    && AGENT_PATH in done && done[AGENT_PATH] == FileNode(agent)
    && (forall p | p in fs && p != INIT_PATH && p != AGENT_PATH :: p in done && done[p] == fs[p])
    && (forall p | p in done && p !in fs && p != INIT_PATH && p != AGENT_PATH ::
          done[p].DirNode? && (p < INIT_PATH || p < AGENT_PATH))
  }
}
