/** What COPY does where the build root already holds something of another kind. */
module CopyClashes {
  import opened FileTree
  import opened Copying
  import opened DockerIgnore

  predicate OnlyDirs(flat: Files) {
    forall p | p in flat :: flat[p].DirNode?
  }

  /** Everything but directories gets through: it meets nothing of another kind at its path or above. */
  predicate FilesArrive(fs: Files, flat: Files) {
    FilesIn(flat, Unclashed(fs, flat))
  }

  /** One subtree, rooted at `p`, beside other paths. */
  predicate Beside(front: Files, last: Files, p: Path) {
    && p in last && (forall q | q in last :: Below(p, q))
    && (forall q, r | q in front && r in last :: Unrelated(q, r))
    && forall q | q in front :: q !in last
  }

  /** A copy of `flat` fails exactly when a link is left in it or a file does not get through; else whatever
      meets nothing of another kind arrives. */
  predicate Arrives(fs: Files, flat: Files, result: Result) {
    && (result.Ok? <==> NoLinkIn(flat) && FilesArrive(fs, flat))
    && (result.Ok? ==> result == Ok(fs + Unclashed(fs, flat)))
  }

  predicate FilesIn(flat: Files, some: Files) {
    forall p | p in flat && !flat[p].DirNode? :: p in some
  }

  lemma DirsOfUnion(a: Files, b: Files)
    requires forall p | p in a :: p !in b
    ensures OnlyDirs(a + b) <==> OnlyDirs(a) && OnlyDirs(b)
  {
    assert forall p | p in a :: p in a + b && (a + b)[p] == a[p];
    assert forall p | p in b :: p in a + b && (a + b)[p] == b[p];
  }

  /** A copy of `flat` fails exactly when it has more to write than directories, and writes nothing. */
  predicate WritesNothing(fs: Files, flat: Files, result: Result) {
    (result.Ok? <==> OnlyDirs(flat)) && (result.Ok? ==> result == Ok(fs))
  }

  lemma ThenNothing(fs: Files, front: Files, last: Files, first: Result, second: Result)
    requires forall p | p in front :: p !in last
    requires WritesNothing(fs, front, first) && WritesNothing(fs, last, second)
    ensures WritesNothing(fs, front + last, if first.Ok? then second else first)
  {
    DirsOfUnion(front, last);
  }

  lemma KeptDisjoint(rules: Rules, es: seq<Entry>, from: Path, to: Path)
    requires ValidEntries(es) && es != []
    ensures var n := |es| - 1;
            forall p | p in Kept(rules, es[..n], from, to) ::
              p !in KeptNode(rules, es[n].node, from + [es[n].name], to + [es[n].name])
  {
    SiblingsApart(es, |es| - 1, to);
    KeptNodeIsPart(rules, es[|es| - 1].node, from + [es[|es| - 1].name], to + [es[|es| - 1].name]);
  }

  /** At a file and below it a copy writes nothing, and fails exactly if it has more to write than
      directories. */
  lemma {:induction false} CopiesUnderFile(rules: Rules, fs: Files, q: Path, es: seq<Entry>, from: Path, to: Path)
    requires ValidEntries(es) && AllFollowed(rules, es, from)
    requires q in fs && fs[q].FileNode? && FilesAreLeaves(fs, q) && q <= to
    ensures WritesNothing(fs, Kept(rules, es, from, to), CopyEntries(rules, fs, es, from, to))
    decreases es, 0
  {
    if es != [] {
      var n := |es| - 1;
      var p := to + [es[n].name];
      KeptSplits(rules, es, from, to);
      KeptDisjoint(rules, es, from, to);
      CopiesUnderFile(rules, fs, q, es[..n], from, to);
      CopiesNodeUnderFile(rules, fs, q, es[n].node, from + [es[n].name], p);
      ThenNothing(fs, Kept(rules, es[..n], from, to), KeptNode(rules, es[n].node, from + [es[n].name], p),
                  CopyEntries(rules, fs, es[..n], from, to), CopyEntry(rules, fs, es[n].node, from + [es[n].name], p));
    }
  }

  lemma {:induction false} CopiesNodeUnderFile(rules: Rules, fs: Files, q: Path, node: Tree, from: Path, to: Path)
    requires to != [] && ValidTree(node) && Followed(rules, node, from)
    requires q in fs && fs[q].FileNode? && FilesAreLeaves(fs, q) && q <= Parent(to)
    ensures WritesNothing(fs, KeptNode(rules, node, from, to), CopyEntry(rules, fs, node, from, to))
    decreases node, 1
  {
    if !Ignored(rules, from) {
      match node
      case Dir(entries) =>
        assert q <= to;
        MkdirUnderFile(fs, q, to);
        EntriesAreBelow(entries, to);
        DirsOfUnion(map[to := DirNode], Kept(rules, entries, from, to));
        CopiesUnderFile(rules, fs, q, entries, from, to);
      case File(content) =>
        MkdirUnderFile(fs, q, Parent(to));
        assert KeptNode(rules, node, from, to)[to] == FileNode(content);
      case Link(target) => assert KeptNode(rules, node, from, to)[to] == LinkNode(target);
    }
  }

  lemma FilesInUnion(front: Files, last: Files, a: Files, b: Files)
    requires forall p | p in front :: p !in last
    requires a.Keys <= front.Keys && b.Keys <= last.Keys
    ensures FilesIn(front + last, a + b) <==> FilesIn(front, a) && FilesIn(last, b)
  {
    assert forall p | p in front :: (front + last)[p] == front[p] && (p in a + b <==> p in a);
    assert forall p | p in last :: (front + last)[p] == last[p] && (p in a + b <==> p in b);
  }

  lemma LinksOfUnion(a: Files, b: Files)
    requires forall p | p in a :: p !in b
    ensures NoLinkIn(a + b) <==> NoLinkIn(a) && NoLinkIn(b)
  {
    assert forall p | p in a :: p in a + b && (a + b)[p] == a[p];
    assert forall p | p in b :: p in a + b && (a + b)[p] == b[p];
  }

  lemma ArriveBeside(fs: Files, front: Files, last: Files, p: Path)
    requires Beside(front, last, p) && FilesAreLeaves(fs, p)
    ensures FilesArrive(fs, front + last)
       <==> FilesArrive(fs, front) && FilesArrive(fs + Unclashed(fs, front), last)
  {
    UnclashedUnion(fs, front, last);
    SubtreeUntouched(fs, front, last, p);
    FilesInUnion(front, last, Unclashed(fs, front), Unclashed(fs, last));
  }

  lemma StillDir(fs: Files, front: Files, to: Path)
    requires IsDir(fs, to) && to !in front
    ensures IsDir(fs + Unclashed(fs, front), to)
  {
  }

  /** A further subtree finds what it needs beside what has been copied. */
  lemma BothApart(fs: Files, front: Files, last: Files, p: Path, to: Path)
    requires Beside(front, last, p) && FilesAreLeaves(fs, p) && to !in front
    requires LinksApart(fs, front + last) && IsDir(fs, to)
    ensures var done := fs + Unclashed(fs, front);
            LinksApart(fs, front) && LinksApart(done, last) && FilesAreLeaves(done, p) && IsDir(done, to)
  {
    NextSubtree(fs, front, last, p);
    StillDir(fs, front, to);
  }

  lemma ThenArrives(fs: Files, front: Files, last: Files, p: Path, first: Result, second: Result)
    requires Beside(front, last, p) && FilesAreLeaves(fs, p) && LinksApart(fs, front + last)
    requires Arrives(fs, front, first) && (first.Ok? ==> Arrives(first.files, last, second))
    ensures Arrives(fs, front + last, if first.Ok? then second else first)
  {
    NextSubtree(fs, front, last, p);
    ArriveBeside(fs, front, last, p);
    LinksOfUnion(front, last);
  }

  lemma RootKept(rules: Rules, node: Tree, from: Path, to: Path)
    requires !Ignored(rules, from)
    ensures to in KeptNode(rules, node, from, to)
  {
    FlattenIsBelow(node, to);
  }

  /** The kept part of an entry lies beside those of the entries before it. */
  lemma KeptBeside(rules: Rules, es: seq<Entry>, from: Path, to: Path)
    requires ValidEntries(es) && es != [] && !Ignored(rules, from + [es[|es| - 1].name])
    ensures var n := |es| - 1;
            var front := Kept(rules, es[..n], from, to);
            to !in front
            && Beside(front, KeptNode(rules, es[n].node, from + [es[n].name], to + [es[n].name]), to + [es[n].name])
  {
    var n := |es| - 1;
    var p := to + [es[n].name];
    SiblingsUnrelated(es, to);
    KeptDisjoint(rules, es, from, to);
    EntriesAreBelow(es[..n], to);
    FlattenIsBelow(es[n].node, p);
    KeptNodeIsPart(rules, es[n].node, from + [es[n].name], p);
    RootKept(rules, es[n].node, from + [es[n].name], p);
  }

  lemma NextReady(rules: Rules, fs: Files, es: seq<Entry>, from: Path, to: Path, front: Files, last: Files, p: Path)
    requires ValidEntries(es) && es != [] && !Ignored(rules, from + [es[|es| - 1].name])
    requires IsDir(fs, to) && FilesAreLeaves(fs, to) && LinksApart(fs, Kept(rules, es, from, to))
    requires p == to + [es[|es| - 1].name] && front == Kept(rules, es[..|es| - 1], from, to)
    requires last == KeptNode(rules, es[|es| - 1].node, from + [es[|es| - 1].name], p)
    ensures Kept(rules, es, from, to) == front + last && Beside(front, last, p) && FilesAreLeaves(fs, p)
    ensures var done := fs + Unclashed(fs, front);
            LinksApart(fs, front) && LinksApart(done, last) && FilesAreLeaves(done, p) && IsDir(done, Parent(p))
  {
    KeptSplits(rules, es, from, to);
    KeptBeside(rules, es, from, to);
    LeavesFurtherDown(fs, to, p);
    BothApart(fs, front, last, p, to);
    assert Parent(p) == to;
  }

  lemma {:induction false} SeenArrives(rules: Rules, fs: Files, es: seq<Entry>, from: Path, to: Path)
    requires ValidEntries(es) && AllFollowed(rules, es, from) && IsDir(fs, to) && FilesAreLeaves(fs, to)
    requires LinksApart(fs, Kept(rules, es, from, to))
    ensures Arrives(fs, Kept(rules, es, from, to), CopyEntries(rules, fs, es, from, to))
    decreases es, 0
  {
    if es == [] {
      assert Kept(rules, es, from, to) == map[];
      assert fs + Unclashed(fs, map[]) == fs;
    } else {
      var n := |es| - 1;
      var p := to + [es[n].name];
      var front, last := Kept(rules, es[..n], from, to), KeptNode(rules, es[n].node, from + [es[n].name], p);
      if Ignored(rules, from + [es[n].name]) {
        KeptSplits(rules, es, from, to);
        assert front + last == front;
        SeenArrives(rules, fs, es[..n], from, to);
      } else {
        NextReady(rules, fs, es, from, to, front, last, p);
        SeenArrives(rules, fs, es[..n], from, to);
        var done := fs + Unclashed(fs, front);
        NodeArrives(rules, done, es[n].node, from + [es[n].name], p);
        ThenArrives(fs, front, last, p, CopyEntries(rules, fs, es[..n], from, to),
                    CopyEntry(rules, done, es[n].node, from + [es[n].name], p));
      }
    }
  }

  lemma {:induction false} NodeArrives(rules: Rules, fs: Files, node: Tree, from: Path, to: Path)
    requires to != [] && ValidTree(node) && Followed(rules, node, from) && !Ignored(rules, from)
    requires IsDir(fs, Parent(to)) && FilesAreLeaves(fs, to) && LinksApart(fs, KeptNode(rules, node, from, to))
    ensures Arrives(fs, KeptNode(rules, node, from, to), CopyEntry(rules, fs, node, from, to))
    decreases node, 1
  {
    match node
    case Dir(entries) =>
      var rest := Kept(rules, entries, from, to);
      EntriesAreBelow(entries, to);
      ApartBelow(fs, to, rest);
      UnclashedRoot(fs, to, rest);
      LinksBelowRoot(to, rest);
      MkdirInDir(fs, to);
      if to in fs && fs[to].FileNode? {
        CopiesUnderFile(rules, fs, to, entries, from, to);
        NoneArrives(fs, to, rest);
      } else {
        SeenArrives(rules, fs[to := DirNode], entries, from, to);
        SameArrive(fs, to, rest);
      }
    case File(content) => FileArrives(rules, fs, content, to);
    case Link(target) => assert KeptNode(rules, node, from, to)[to] == LinkNode(target);
  }

  lemma NoneArrives(fs: Files, to: Path, rest: Files)
    requires to in fs && fs[to].FileNode? && forall p | p in rest :: Below(to, p) && p != to
    ensures var flat: Files := map[to := DirNode] + rest;
            && (FilesArrive(fs, flat) <==> OnlyDirs(rest)) && (OnlyDirs(rest) ==> NoLinkIn(flat))
  {
    var flat: Files := map[to := DirNode] + rest;
    FileHindersAll(fs, to, flat);
    assert forall p | p in rest :: p in flat && flat[p] == rest[p];
  }

  lemma SameArrive(fs: Files, to: Path, rest: Files)
    requires (to in fs ==> fs[to].DirNode?) && forall p | p in rest :: Below(to, p) && p != to
    ensures FilesArrive(fs, map[to := DirNode] + rest) <==> FilesArrive(fs[to := DirNode], rest)
  {
    var flat: Files := map[to := DirNode] + rest;
    var made := fs[to := DirNode];
    forall p | p in rest ensures p in Unclashed(fs, flat) <==> p in Unclashed(made, rest) {
      RootAddsNoHindrance(fs, to, rest, p);
      InUnclashed(fs, flat, p);
      InUnclashed(made, rest, p);
    }
    RootIsNoFile(to, rest, Unclashed(fs, flat), Unclashed(made, rest));
  }

  lemma InUnclashed(fs: Files, flat: Files, p: Path)
    ensures p in Unclashed(fs, flat) <==> p in flat && Unhindered(fs, flat, p)
  {
  }

  lemma RootIsNoFile(to: Path, rest: Files, a: Files, b: Files)
    requires to !in rest && forall p | p in rest :: p in a <==> p in b
    ensures FilesIn(map[to := DirNode] + rest, a) <==> FilesIn(rest, b)
  {
    var flat: Files := map[to := DirNode] + rest;
    assert forall p | p in rest :: p in flat && flat[p] == rest[p];
  }

  lemma FileArrives(rules: Rules, fs: Files, content: Bytes, to: Path)
    requires to != [] && IsDir(fs, Parent(to)) && LinksApart(fs, map[to := FileNode(content)])
    ensures Arrives(fs, map[to := FileNode(content)], WriteTarget(fs, to, Readable(content)))
  {
    var flat: Files := map[to := FileNode(content)];
    assert MkdirAll(fs, Parent(to)) == Ok(fs);
    assert Unhindered(fs, flat, to) <==> to !in fs || SameKind(fs[to], flat[to]);
    assert Unclashed(fs, flat) == if Unhindered(fs, flat, to) then flat else map[];
  }

  /** The exact result of copying a directory with rules into a directory that may hold anything but links
      in the way: the copy fails exactly when a kept link cannot be read or a kept file meets something of
      another kind at its path or above; else whatever meets nothing of another kind arrives. */
  lemma CopiesExactly(rules: Rules, fs: Files, es: seq<Entry>, from: Path, to: Path)
    requires ValidEntries(es) && Rooted(fs) && IsDir(fs, to)
    requires LinksApart(fs, Kept(rules, FollowEntries(rules, es, from), from, to))
    ensures Arrives(fs, Kept(rules, FollowEntries(rules, es, from), from, to), CopyEntries(rules, fs, es, from, to))
  {
    CopyFollows(rules, fs, es, from, to);
    FollowEntriesValid(rules, es, from);
    FollowTwice(rules, es, from);
    RootedFiles(fs);
    SeenArrives(rules, fs, FollowEntries(rules, es, from), from, to);
  }

  /** And where the destination is a file or lies below one: it fails exactly when something else than
      directories is kept, and writes nothing. */
  lemma CopiesOntoFile(rules: Rules, fs: Files, q: Path, es: seq<Entry>, from: Path, to: Path)
    requires ValidEntries(es) && Rooted(fs) && q in fs && fs[q].FileNode? && q <= to
    ensures WritesNothing(fs, Kept(rules, FollowEntries(rules, es, from), from, to),
                          CopyEntries(rules, fs, es, from, to))
  {
    CopyFollows(rules, fs, es, from, to);
    FollowEntriesValid(rules, es, from);
    FollowTwice(rules, es, from);
    RootedFiles(fs);
    CopiesUnderFile(rules, fs, q, FollowEntries(rules, es, from), from, to);
  }
}
