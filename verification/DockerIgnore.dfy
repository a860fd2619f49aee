/** .dockerignore: which paths are ignored, and which part of a context directory COPY and ADD copy. */
module DockerIgnore {
  import opened Text
  import opened FileTree
  import opened Copying

  datatype IgnorePattern = IgnorePattern(pattern: string, negate: bool)

  /** filepath.Match is not part of this model: any relation between patterns and names will do. */
  type Glob = (string, string) -> bool

  /** What opening a symbolic link of the context and reading it to the end yields. */
  datatype Target = Unreadable | Readable(content: Bytes)

  /** The pattern list of a build, together with the meaning of its globs and of the links of its context. */
  datatype Rules = Rules(patterns: seq<IgnorePattern>, glob: Glob, follow: Path -> Target)

  function TrimSlashes(path: string): string {
    if path != "" && path[|path| - 1] == '/' then TrimSlashes(path[..|path| - 1]) else path
  }

  function AfterLastSlash(path: string): string {
    if '/' in path then AfterLastSlash(path[1..]) else path
  }

  /** filepath.Base. */
  function Base(path: string): string {
    if path == "" then "."
    else if TrimSlashes(path) == "" then "/"
    else AfterLastSlash(TrimSlashes(path))
  }

  function TrimSlash(pattern: string): string {
    if HasSuffix(pattern, "/") then pattern[..|pattern| - 1] else pattern
  }

  predicate MatchPattern(glob: Glob, pattern: string, path: string) {
    if '/' in pattern then path == TrimSlash(pattern) || HasPrefix(path, TrimSlash(pattern) + "/")
    else glob(pattern, path) || glob(pattern, Base(path))
  }

  predicate Matches(rules: Rules, i: nat, path: string)
    requires i < |rules.patterns|
  {
    MatchPattern(rules.glob, rules.patterns[i].pattern, path)
  }

  /** Of the numbers below `n` that are hits, the last one is not negated. */
  ghost predicate LastHitCounts(hit: nat -> bool, negated: nat -> bool, n: nat) {
    exists i: nat :: i < n && hit(i) && !negated(i) && forall j | i < j < n :: !hit(j)
  }

  lemma NextHit(hit: nat -> bool, negated: nat -> bool, n: nat)
    ensures LastHitCounts(hit, negated, n + 1)
       <==> if hit(n) then !negated(n) else LastHitCounts(hit, negated, n)
  {
    if !hit(n) && LastHitCounts(hit, negated, n) {
      var i: nat :| i < n && hit(i) && !negated(i) && forall j | i < j < n :: !hit(j);
      assert forall j | i < j < n + 1 :: !hit(j);
    }
  }

  function Hits(rules: Rules, path: string): nat -> bool {
    (i: nat) => i < |rules.patterns| && Matches(rules, i, path)
  }

  function Negated(rules: Rules): nat -> bool {
    (i: nat) => i < |rules.patterns| && rules.patterns[i].negate
  }

  /** The last pattern that matches the path decides; without one the path is not ignored. */
  ghost predicate ShouldIgnore(rules: Rules, path: string) {
    LastHitCounts(Hits(rules, path), Negated(rules), |rules.patterns|)
  }

  lemma LastMatchDecides(rules: Rules, path: string)
    ensures ShouldIgnore(rules, path) <==>
              exists i :: 0 <= i < |rules.patterns| && Matches(rules, i, path) && !rules.patterns[i].negate
                          && forall j | i < j < |rules.patterns| :: !Matches(rules, j, path)
  {
    var hit, negated := Hits(rules, path), Negated(rules);
    assert forall i: nat | i < |rules.patterns| ::
        hit(i) == Matches(rules, i, path) && negated(i) == rules.patterns[i].negate;
  }

  method ComputeShouldIgnore(rules: Rules, path: string) returns (ignored: bool)
    ensures ignored == ShouldIgnore(rules, path)
  {
    ignored := false;
    for n := 0 to |rules.patterns|
      invariant ignored == LastHitCounts(Hits(rules, path), Negated(rules), n)
    {
      NextHit(Hits(rules, path), Negated(rules), n);
      var p := rules.patterns[n];
      var matched := MatchPattern(rules.glob, p.pattern, path);
      if !matched {
        continue;
      }
      if p.negate {
        ignored := false;
      } else {
        ignored := true;
      }
    }
  }

  /** The entry at `path`, relative to the build context, is skipped. */
  ghost predicate Ignored(rules: Rules, path: Path) {
    ShouldIgnore(rules, Join(path, "/"))
  }

  /** copyWithIgnore on a directory whose context path is `from`, into `to`: entry by entry, an ignored
      directory is not entered, and the first file that cannot be written ends the copy. */
  ghost function CopyEntries(rules: Rules, fs: Files, es: seq<Entry>, from: Path, to: Path): Result
    decreases es, 0
  {
    if es == [] then Ok(fs)
    else
      var n := |es| - 1;
      match CopyEntries(rules, fs, es[..n], from, to)
      case Err(e) => Err(e)
      case Ok(done) => CopyEntry(rules, done, es[n].node, from + [es[n].name], to + [es[n].name])
  }

  ghost function CopyEntry(rules: Rules, fs: Files, node: Tree, from: Path, to: Path): Result
    requires to != []
    decreases node, 1
  {
    if Ignored(rules, from) then Ok(fs)
    else
      match node
      case Dir(entries) => CopyEntries(rules, MkdirAll(fs, to).OrKeep(fs), entries, from, to)
      case File(content) => WriteTarget(fs, to, Readable(content))
      case Link(_) => WriteTarget(fs, to, rules.follow(from))
  }

  /** copyFileContents below a directory that is made if need be. */
  function WriteTarget(fs: Files, to: Path, source: Target): Result
    requires to != []
  {
    match source
    case Readable(content) => WriteFile(MkdirAll(fs, Parent(to)).OrKeep(fs), to, content)
    case Unreadable => Err(NotFound)
  }

  /** The tree as opening its entries shows it: a readable link is the file it leads to. */
  function FollowNode(rules: Rules, t: Tree, at: Path): Tree
    decreases t, 0
  {
    match t
    case File(_) => t
    case Link(_) => if rules.follow(at).Readable? then File(rules.follow(at).content) else t
    case Dir(es) => Dir(FollowEntries(rules, es, at))
  }

  function FollowEntries(rules: Rules, es: seq<Entry>, at: Path): (seen: seq<Entry>)
    ensures |seen| == |es| && forall i | 0 <= i < |es| :: seen[i].name == es[i].name
    decreases es, 0
  {
    if es == [] then []
    else
      var n := |es| - 1;
      FollowEntries(rules, es[..n], at) + [Entry(es[n].name, FollowNode(rules, es[n].node, at + [es[n].name]))]
  }

  lemma {:induction false} FollowValid(rules: Rules, t: Tree, at: Path)
    requires ValidTree(t)
    ensures ValidTree(FollowNode(rules, t, at))
    decreases t, 0
  {
    if t.Dir? {
      FollowEntriesValid(rules, t.entries, at);
    }
  }

  lemma {:induction false} FollowEntriesValid(rules: Rules, es: seq<Entry>, at: Path)
    requires ValidEntries(es)
    ensures ValidEntries(FollowEntries(rules, es, at))
    decreases es, 0
  {
    if es != [] {
      var n := |es| - 1;
      FollowEntriesValid(rules, es[..n], at);
      FollowValid(rules, es[n].node, at + [es[n].name]);
      var seen, front := FollowEntries(rules, es, at), FollowEntries(rules, es[..n], at);
      assert forall i | 0 <= i < n :: seen[i] == front[i];
    }
  }

  /** The copy takes the tree as opening its entries shows it. */
  lemma {:induction false} CopyFollows(rules: Rules, fs: Files, es: seq<Entry>, from: Path, to: Path)
    ensures CopyEntries(rules, fs, es, from, to) == CopyEntries(rules, fs, FollowEntries(rules, es, from), from, to)
    decreases es, 0
  {
    if es != [] {
      var n := |es| - 1;
      CopyFollows(rules, fs, es[..n], from, to);
      var seen := FollowEntries(rules, es, from);
      assert seen[..n] == FollowEntries(rules, es[..n], from);
      if CopyEntries(rules, fs, es[..n], from, to).Ok? {
        var done := CopyEntries(rules, fs, es[..n], from, to).files;
        CopyNodeFollows(rules, done, es[n].node, from + [es[n].name], to + [es[n].name]);
      }
    }
  }

  lemma {:induction false} CopyNodeFollows(rules: Rules, fs: Files, node: Tree, from: Path, to: Path)
    requires to != []
    ensures CopyEntry(rules, fs, node, from, to) == CopyEntry(rules, fs, FollowNode(rules, node, from), from, to)
    decreases node, 1
  {
    if node.Dir? {
      CopyFollows(rules, MkdirAll(fs, to).OrKeep(fs), node.entries, from, to);
    }
  }

  /** Nothing from below `from` down to the path is ignored. */
  ghost predicate Clear(rules: Rules, from: Path, below: Path) {
    forall k | 1 <= k <= |below| :: !Ignored(rules, from + below[..k])
  }

  /** The part of a directory, laid out below `to`, that no rule takes away at any level. This is the
      filter that looks at each path on its own. */
  ghost function Kept(rules: Rules, es: seq<Entry>, from: Path, to: Path): Files {
    Filter(rules, FlattenEntries(es, to), from, to)
  }

  ghost function Filter(rules: Rules, flat: Files, from: Path, to: Path): Files {
    map p | p in flat && Below(to, p) && Clear(rules, from, p[|to|..]) :: flat[p]
  }

  /** The same for one entry of a directory. */
  ghost function KeptNode(rules: Rules, node: Tree, from: Path, to: Path): Files {
    if Ignored(rules, from) then map[]
    else if node.Dir? then map[to := DirNode] + Kept(rules, node.entries, from, to)
    else Flatten(node, to)
  }

  predicate NoLinkIn(flat: Files) {
    forall p | p in flat :: !flat[p].LinkNode?
  }

  lemma ClearStep(rules: Rules, from: Path, name: string, rest: Path)
    ensures Clear(rules, from, [name] + rest) <==>
              !Ignored(rules, from + [name]) && Clear(rules, from + [name], rest)
  {
    var below := [name] + rest;
    assert forall k | 1 <= k <= |rest| :: from + [name] + rest[..k] == from + below[..k + 1];
    assert from + below[..1] == from + [name];
    if !Ignored(rules, from + [name]) && Clear(rules, from + [name], rest) {
      forall k | 1 <= k <= |below| ensures !Ignored(rules, from + below[..k]) {
        if k > 1 {
          assert from + [name] + rest[..k - 1] == from + below[..k];
        }
      }
    }
  }

  /** The filter works entry by entry. */
  lemma KeptSplits(rules: Rules, es: seq<Entry>, from: Path, to: Path)
    requires es != []
    ensures var n := |es| - 1;
            Kept(rules, es, from, to) ==
            Kept(rules, es[..n], from, to) + KeptNode(rules, es[n].node, from + [es[n].name], to + [es[n].name])
  {
    var n := |es| - 1;
    FilterNode(rules, es[n].node, from, es[n].name, to);
    FilterUnion(rules, FlattenEntries(es[..n], to), Flatten(es[n].node, to + [es[n].name]), from, to);
  }

  lemma FilterUnion(rules: Rules, a: Files, b: Files, from: Path, to: Path)
    ensures Filter(rules, a + b, from, to) == Filter(rules, a, from, to) + Filter(rules, b, from, to)
  {
  }

  /** One level down: either the whole subtree is ignored or the rest of each path decides. */
  lemma FilterStep(rules: Rules, flat: Files, from: Path, name: string, to: Path)
    requires forall p | p in flat :: Below(to + [name], p)
    ensures Filter(rules, flat, from, to)
         == if Ignored(rules, from + [name]) then map[] else Filter(rules, flat, from + [name], to + [name])
  {
    forall p | p in flat
      ensures Below(to, p)
      ensures Clear(rules, from, p[|to|..]) <==>
                !Ignored(rules, from + [name]) && Clear(rules, from + [name], p[|to + [name]|..])
    {
      var rest := p[|to + [name]|..];
      assert p[|to|..] == [name] + rest;
      ClearStep(rules, from, name, rest);
    }
  }

  lemma FilterNode(rules: Rules, node: Tree, from: Path, name: string, to: Path)
    ensures Filter(rules, Flatten(node, to + [name]), from, to) == KeptNode(rules, node, from + [name], to + [name])
  {
    var q := to + [name];
    FlattenIsBelow(node, q);
    FilterStep(rules, Flatten(node, q), from, name, to);
    match node
    case Dir(es) =>
      FilterRoot(rules, DirNode, from + [name], q);
      FilterUnion(rules, map[q := DirNode], FlattenEntries(es, q), from + [name], q);
    case File(content) => FilterRoot(rules, FileNode(content), from + [name], q);
    case Link(target) => FilterRoot(rules, LinkNode(target), from + [name], q);
  }

  lemma FilterRoot(rules: Rules, node: Node, from: Path, to: Path)
    ensures Filter(rules, map[to := node], from, to) == map[to := node]
  {
    assert to[|to|..] == [];
  }

  lemma KeptNodeIsPart(rules: Rules, node: Tree, from: Path, to: Path)
    ensures forall p | p in KeptNode(rules, node, from, to) ::
              p in Flatten(node, to) && Flatten(node, to)[p] == KeptNode(rules, node, from, to)[p]
  {
    if node.Dir? {
      EntriesAreBelow(node.entries, to);
    }
  }

  /** Copying a directory with rules writes exactly the kept part of it, as opening its entries shows it: a
      file is copied if and only if no path from below the source down to the file itself is ignored.
      The copy fails exactly when a link that is not ignored cannot be read. */
  lemma CopiesWhatIsKept(rules: Rules, fs: Files, es: seq<Entry>, from: Path, to: Path)
    requires ValidEntries(es) && IsDir(fs, to)
    requires Compatible(fs, Kept(rules, FollowEntries(rules, es, from), from, to))
    ensures var kept := Kept(rules, FollowEntries(rules, es, from), from, to);
            && (CopyEntries(rules, fs, es, from, to).Ok? <==> NoLinkIn(kept))
            && (NoLinkIn(kept) ==> CopyEntries(rules, fs, es, from, to) == Ok(fs + kept))
  {
    CopyFollows(rules, fs, es, from, to);
    FollowEntriesValid(rules, es, from);
    FollowTwice(rules, es, from);
    CopiesSeen(rules, fs, FollowEntries(rules, es, from), from, to);
  }

  /** Links that are left after following are the unreadable ones. */
  predicate Followed(rules: Rules, t: Tree, at: Path)
    decreases t, 0
  {
    match t
    case File(_) => true
    case Link(_) => rules.follow(at).Unreadable?
    case Dir(es) => AllFollowed(rules, es, at)
  }

  predicate AllFollowed(rules: Rules, es: seq<Entry>, at: Path)
    decreases es, 1
  {
    forall i | 0 <= i < |es| :: Followed(rules, es[i].node, at + [es[i].name])
  }

  lemma {:induction false} FollowTwice(rules: Rules, es: seq<Entry>, at: Path)
    ensures AllFollowed(rules, FollowEntries(rules, es, at), at)
    decreases es, 0
  {
    if es != [] {
      var n := |es| - 1;
      FollowTwice(rules, es[..n], at);
      FollowNodeTwice(rules, es[n].node, at + [es[n].name]);
      var seen, front := FollowEntries(rules, es, at), FollowEntries(rules, es[..n], at);
      assert forall i | 0 <= i < n :: seen[i] == front[i];
    }
  }

  lemma {:induction false} FollowNodeTwice(rules: Rules, t: Tree, at: Path)
    ensures Followed(rules, FollowNode(rules, t, at), at)
    decreases t, 1
  {
    if t.Dir? {
      FollowTwice(rules, t.entries, at);
    }
  }

  lemma {:induction false} CopiesSeen(rules: Rules, fs: Files, es: seq<Entry>, from: Path, to: Path)
    requires ValidEntries(es) && AllFollowed(rules, es, from)
    requires IsDir(fs, to) && Compatible(fs, Kept(rules, es, from, to))
    ensures var kept := Kept(rules, es, from, to);
            && (CopyEntries(rules, fs, es, from, to).Ok? <==> NoLinkIn(kept))
            && (NoLinkIn(kept) ==> CopyEntries(rules, fs, es, from, to) == Ok(fs + kept))
    decreases es, 0
  {
    if es != [] {
      var n := |es| - 1;
      var front := Kept(rules, es[..n], from, to);
      var p := to + [es[n].name];
      var last := KeptNode(rules, es[n].node, from + [es[n].name], p);
      KeptSplits(rules, es, from, to);
      SiblingsApart(es, n, to);
      KeptNodeIsPart(rules, es[n].node, from + [es[n].name], p);
      CompatibleParts(fs, front, last);
      CopiesSeen(rules, fs, es[..n], from, to);
      assert Parent(p) == to && IsDir(fs + front, to);
      CopiesNode(rules, fs + front, es[n].node, from + [es[n].name], p);
    } else {
      assert fs + Kept(rules, es, from, to) == fs;
    }
  }

  lemma CompatibleParts(fs: Files, a: Files, b: Files)
    requires a.Keys !! b.Keys && Compatible(fs, a + b)
    ensures Compatible(fs, a) && Compatible(fs + a, b) && fs + (a + b) == fs + a + b
    ensures NoLinkIn(a + b) <==> NoLinkIn(a) && NoLinkIn(b)
  {
    assert forall p | p in a :: p in a + b && (a + b)[p] == a[p];
    assert forall p | p in b :: p in a + b && (a + b)[p] == b[p];
  }

  lemma {:induction false} CopiesNode(rules: Rules, fs: Files, node: Tree, from: Path, to: Path)
    requires to != [] && ValidTree(node) && Followed(rules, node, from) && IsDir(fs, Parent(to))
    requires Compatible(fs, KeptNode(rules, node, from, to))
    ensures var kept := KeptNode(rules, node, from, to);
            && (CopyEntry(rules, fs, node, from, to).Ok? <==> NoLinkIn(kept))
            && (NoLinkIn(kept) ==> CopyEntry(rules, fs, node, from, to) == Ok(fs + kept))
    decreases node, 1
  {
    if Ignored(rules, from) {
      assert fs + map[] == fs;
    } else {
      match node
      case Dir(entries) =>
        var rest := Kept(rules, entries, from, to);
        MkdirInDir(fs, to);
        EntriesAreBelow(entries, to);
        RootAndRest(fs, to, rest);
        LinksBelowRoot(to, rest);
        CopiesSeen(rules, fs[to := DirNode], entries, from, to);
      case File(content) => LeafIsOverride(fs, to, FileNode(content));
      case Link(target) => assert KeptNode(rules, node, from, to)[to] == LinkNode(target);
    }
  }

  lemma LinksBelowRoot(to: Path, rest: Files)
    requires to !in rest
    ensures NoLinkIn(map[to := DirNode] + rest) <==> NoLinkIn(rest)
  {
    var flat: Files := map[to := DirNode] + rest;
    assert forall p | p in rest :: p in flat && flat[p] == rest[p];
  }

  /** A missing destination: making one of its entries makes the destination first. */
  lemma MkdirBelowMissing(fs: Files, to: Path, name: string)
    requires Rooted(fs) && to !in fs && MkdirAll(fs, to).Ok?
    ensures var made := MkdirAll(fs, to).files;
            && IsDir(made, to)
            && MkdirAll(fs, to + [name]) == MkdirAll(made, to + [name]) == Ok(made[to + [name] := DirNode])
            && MkdirAll(made, to) == Ok(made)
  {
    var made, p := MkdirAll(fs, to).files, to + [name];
    assert Parent(p) == to;
    MkdirAllOnlyAdds(fs, to);
    assert p !in fs by {
      assert p in fs ==> InDir(fs, p);
    }
    assert p !in made;
    MkdirInDir(made, p);
  }

  /** The first entry that is not ignored finds the destination as if MkdirAll had been called. */
  lemma FirstCopyMakes(rules: Rules, fs: Files, node: Tree, from: Path, to: Path, name: string)
    requires Rooted(fs) && to !in fs && MkdirAll(fs, to).Ok? && !Ignored(rules, from)
    ensures CopyEntry(rules, fs, node, from, to + [name])
         == CopyEntry(rules, MkdirAll(fs, to).files, node, from, to + [name])
  {
    MkdirBelowMissing(fs, to, name);
    assert Parent(to + [name]) == to;
  }

  lemma KeptNodeEmpty(rules: Rules, node: Tree, from: Path, to: Path)
    ensures KeptNode(rules, node, from, to) == map[] <==> Ignored(rules, from)
  {
    FlattenIsBelow(node, to);
    if !Ignored(rules, from) {
      assert to in KeptNode(rules, node, from, to);
    }
  }

  /** A destination that does not exist yet is made on the way to the first copied entry, and only then. */
  lemma CopiesIntoMissing(rules: Rules, fs: Files, es: seq<Entry>, from: Path, to: Path)
    requires ValidEntries(es) && Rooted(fs) && to !in fs && MkdirAll(fs, to).Ok?
    ensures var kept := Kept(rules, FollowEntries(rules, es, from), from, to);
            && (CopyEntries(rules, fs, es, from, to).Ok? <==> NoLinkIn(kept))
            && (NoLinkIn(kept) ==> CopyEntries(rules, fs, es, from, to) == Ok(MadeWith(fs, to, kept)))
  {
    CopyFollows(rules, fs, es, from, to);
    FollowEntriesValid(rules, es, from);
    FollowTwice(rules, es, from);
    NothingInTheWay(rules, fs, FollowEntries(rules, es, from), from, to);
    CopiesSeenIntoMissing(rules, fs, FollowEntries(rules, es, from), from, to);
  }

  /** Nothing lies below a destination that is not there. */
  lemma NothingInTheWay(rules: Rules, fs: Files, es: seq<Entry>, from: Path, to: Path)
    requires ValidEntries(es) && Rooted(fs) && to !in fs && MkdirAll(fs, to).Ok?
    ensures Compatible(MkdirAll(fs, to).files, Kept(rules, es, from, to))
  {
    EntriesAreBelow(es, to);
    MkdirAllOnlyAdds(fs, to);
    forall p | p in FlattenEntries(es, to) ensures p !in MkdirAll(fs, to).files {
      if p in fs {
        AncestorsAreDirs(fs, p, to);
      }
    }
  }

  lemma {:induction false} CopiesSeenIntoMissing(rules: Rules, fs: Files, es: seq<Entry>, from: Path, to: Path)
    requires ValidEntries(es) && AllFollowed(rules, es, from) && Rooted(fs) && to !in fs && MkdirAll(fs, to).Ok?
    requires Compatible(MkdirAll(fs, to).files, Kept(rules, es, from, to))
    ensures var kept := Kept(rules, es, from, to);
            && (CopyEntries(rules, fs, es, from, to).Ok? <==> NoLinkIn(kept))
            && (NoLinkIn(kept) ==> CopyEntries(rules, fs, es, from, to) == Ok(MadeWith(fs, to, kept)))
    decreases es, 0
  {
    if es != [] {
      var n := |es| - 1;
      var name := es[n].name;
      var front, last := Kept(rules, es[..n], from, to), KeptNode(rules, es[n].node, from + [name], to + [name]);
      KeptSplits(rules, es, from, to);
      SiblingsApart(es, n, to);
      KeptNodeIsPart(rules, es[n].node, from + [name], to + [name]);
      CompatibleParts(MkdirAll(fs, to).files, front, last);
      CopiesSeenIntoMissing(rules, fs, es[..n], from, to);
      CopiesNext(rules, fs, front, es[n].node, from + [name], to, name);
    }
  }

  /** Nothing happens for an empty copy; any other one begins with making the destination. */
  function MadeWith(fs: Files, to: Path, kept: Files): Files
    requires MkdirAll(fs, to).Ok?
  {
    if kept == map[] then fs else MkdirAll(fs, to).files + kept
  }

  lemma CopiesNext(rules: Rules, fs: Files, front: Files, node: Tree, from: Path, to: Path, name: string)
    requires Rooted(fs) && to !in fs && MkdirAll(fs, to).Ok? && to !in front
    requires ValidTree(node) && Followed(rules, node, from)
    requires Compatible(MkdirAll(fs, to).files + front, KeptNode(rules, node, from, to + [name]))
    ensures var last := KeptNode(rules, node, from, to + [name]);
            var result := CopyEntry(rules, MadeWith(fs, to, front), node, from, to + [name]);
            && (result.Ok? <==> NoLinkIn(last))
            && (NoLinkIn(last) ==> result == Ok(MadeWith(fs, to, front + last)))
  {
    var made, last := MkdirAll(fs, to).files, KeptNode(rules, node, from, to + [name]);
    KeptNodeEmpty(rules, node, from, to + [name]);
    if Ignored(rules, from) {
      assert front + last == front;
    } else {
      MkdirBelowMissing(fs, to, name);
      assert Parent(to + [name]) == to && IsDir(made + front, to);
      CopiesNode(rules, made + front, node, from, to + [name]);
      if front == map[] {
        FirstCopyMakes(rules, fs, node, from, to, name);
      }
      MadeTogether(fs, to, front, last);
    }
  }

  lemma MadeTogether(fs: Files, to: Path, front: Files, last: Files)
    requires MkdirAll(fs, to).Ok? && last != map[]
    ensures MadeWith(fs, to, front + last) == MkdirAll(fs, to).files + front + last
    ensures front == map[] ==> MkdirAll(fs, to).files + front == MkdirAll(fs, to).files
  {
    var p :| p in last;
    assert p in front + last;
  }

  /** The lists for which skipping a directory never hides a file that the rules would let through. */
  predicate SeparatorsOnly(rules: Rules) {
    forall i | 0 <= i < |rules.patterns| :: !rules.patterns[i].negate && '/' in rules.patterns[i].pattern
  }

  lemma {:induction false} JoinParts(a: Path, b: Path, sep: string)
    requires a != [] && b != []
    ensures Join(a + b, sep) == Join(a, sep) + sep + Join(b, sep)
    decreases |b|
  {
    var n := |b| - 1;
    if n == 0 {
      assert (a + b)[..|a|] == a;
    } else {
      assert (a + b)[..|a| + n] == a + b[..n];
      JoinParts(a, b[..n], sep);
      Associates(Join(a, sep), sep, Join(b[..n], sep), b[n]);
    }
  }

  lemma Associates(x: string, sep: string, y: string, z: string)
    ensures x + sep + (y + sep + z) == x + sep + y + sep + z
  {
  }

  lemma JoinConcat(a: Path, b: Path)
    requires a != [] && b != []
    ensures Join(a + b, "/") == Join(a, "/") + "/" + Join(b, "/")
  {
    JoinParts(a, b, "/");
  }

  /** A separator pattern that matches a directory matches everything inside it. */
  lemma MatchReachesDown(glob: Glob, pattern: string, dir: Path, below: Path)
    requires '/' in pattern && dir != []
    requires MatchPattern(glob, pattern, Join(dir, "/"))
    ensures MatchPattern(glob, pattern, Join(dir + below, "/"))
  {
    if below == [] {
      assert dir + below == dir;
    } else {
      JoinConcat(dir, below);
      var t := TrimSlash(pattern);
      var d := Join(dir, "/");
      if d == t {
        assert t + "/" <= d + "/" + Join(below, "/");
      } else {
        assert t + "/" <= d;
      }
    }
  }

  lemma LastMatch(rules: Rules, path: string) returns (i: nat)
    requires ShouldIgnore(rules, path)
    ensures i < |rules.patterns| && Matches(rules, i, path)
  {
    i :| 0 <= i < |rules.patterns| && Matches(rules, i, path);
  }

  lemma {:induction false} AnyMatchIgnores(rules: Rules, path: string, i: nat)
    requires SeparatorsOnly(rules) && i < |rules.patterns| && Matches(rules, i, path)
    ensures ShouldIgnore(rules, path)
    decreases |rules.patterns| - i
  {
    LastMatchDecides(rules, path);
    if j :| i < j < |rules.patterns| && Matches(rules, j, path) {
      AnyMatchIgnores(rules, path, j);
    }
  }

  predicate Separators(rules: Rules) {
    forall i | 0 <= i < |rules.patterns| :: '/' in rules.patterns[i].pattern
  }

  lemma MatchFurtherDown(rules: Rules, i: nat, p: Path, m: nat)
    requires Separators(rules) && i < |rules.patterns| && 1 <= m <= |p|
    requires Matches(rules, i, Join(p[..m], "/"))
    ensures Matches(rules, i, Join(p, "/"))
  {
    MatchReachesDown(rules.glob, rules.patterns[i].pattern, p[..m], p[m..]);
    assert p[..m] + p[m..] == p;
  }

  lemma PlainReachesDown(rules: Rules, p: Path, m: nat)
    requires SeparatorsOnly(rules) && 1 <= m <= |p| && Ignored(rules, p[..m])
    ensures Ignored(rules, p)
  {
    var i := LastMatch(rules, Join(p[..m], "/"));
    MatchFurtherDown(rules, i, p, m);
    AnyMatchIgnores(rules, Join(p, "/"), i);
  }

  /** For a list of separator patterns without negation, pruning whole directories is the same as asking
      the rules about every single path. */
  lemma PruningIsFiltering(rules: Rules, from: Path, below: Path)
    requires SeparatorsOnly(rules) && below != []
    ensures Clear(rules, from, below) <==> !Ignored(rules, from + below)
  {
    assert below[..|below|] == below;
    forall k | 1 <= k <= |below| && Ignored(rules, from + below[..k]) ensures Ignored(rules, from + below) {
      assert (from + below)[..|from| + k] == from + below[..k];
      PlainReachesDown(rules, from + below, |from| + k);
    }
  }

  /** A path as the file system has them. */
  predicate RealPath(p: Path) {
    p != [] && forall i | 0 <= i < |p| :: p[i] != "" && '/' !in p[i]
  }

  /** The negated pattern number `i` names a path that is ignored, like a directory above it. */
  ghost predicate TooLate(rules: Rules, i: nat, named: Path, k: nat)
    requires i < |rules.patterns| && k <= |named|
  {
    && rules.patterns[i].negate && Join(named, "/") == TrimSlash(rules.patterns[i].pattern)
    && Ignored(rules, named[..k]) && !Ignored(rules, named)
  }

  /** No negated pattern comes too late: if a directory above the path that it names is ignored, so is that
      path itself. */
  ghost predicate NegationsReach(rules: Rules) {
    forall i: nat, named: Path, k: nat | i < |rules.patterns| && RealPath(named) && 1 <= k < |named| ::
      !TooLate(rules, i, named, k)
  }

  ghost predicate PruningFilters(rules: Rules) {
    forall from: Path, below: Path | below != [] && RealPath(from + below) ::
      Clear(rules, from, below) <==> !Ignored(rules, from + below)
  }

  /** For a list of separator patterns, with or without negations, pruning whole directories is the same as
      asking the rules about every single path if and only if no negated pattern comes too late. */
  lemma PruningExactly(rules: Rules)
    requires Separators(rules)
    ensures PruningFilters(rules) <==> NegationsReach(rules)
  {
    if PruningFilters(rules) {
      forall i: nat, named: Path, k: nat | i < |rules.patterns| && RealPath(named) && 1 <= k < |named|
        ensures !TooLate(rules, i, named, k)
      {
        assert [] + named == named;
        assert Clear(rules, [], named) <==> !Ignored(rules, [] + named);
        ClearAbove(rules, named, k);
      }
    }
    if NegationsReach(rules) {
      forall from: Path, below: Path | below != [] && RealPath(from + below)
        ensures Clear(rules, from, below) <==> !Ignored(rules, from + below)
      {
        ClearUnlessIgnored(rules, from, below);
      }
    }
  }

  lemma ClearAbove(rules: Rules, named: Path, k: nat)
    requires 1 <= k < |named|
    ensures Clear(rules, [], named) ==> !Ignored(rules, named[..k])
  {
    assert [] + named[..k] == named[..k];
  }

  lemma ClearUnlessIgnored(rules: Rules, from: Path, below: Path)
    requires Separators(rules) && NegationsReach(rules) && below != [] && RealPath(from + below)
    ensures Clear(rules, from, below) <==> !Ignored(rules, from + below)
  {
    assert below[..|below|] == below;
    forall k | 1 <= k < |below| && Ignored(rules, from + below[..k]) ensures Ignored(rules, from + below) {
      assert (from + below)[..|from| + k] == from + below[..k];
      IgnoredReachesDown(rules, from + below, |from| + k);
    }
  }

  ghost predicate IsLastMatch(rules: Rules, i: nat, path: string) {
    && i < |rules.patterns| && Matches(rules, i, path)
    && forall j | i < j < |rules.patterns| :: !Matches(rules, j, path)
  }

  lemma {:induction false} FindLastMatch(rules: Rules, path: string, i: nat) returns (last: nat)
    requires i < |rules.patterns| && Matches(rules, i, path)
    ensures i <= last && IsLastMatch(rules, last, path)
    ensures ShouldIgnore(rules, path) <==> !rules.patterns[last].negate
    decreases |rules.patterns| - i
  {
    LastMatchDecides(rules, path);
    if j :| i < j < |rules.patterns| && Matches(rules, j, path) {
      last := FindLastMatch(rules, path, j);
    } else {
      last := i;
    }
  }

  /** Under this condition what lies below an ignored directory is ignored. */
  lemma IgnoredReachesDown(rules: Rules, p: Path, m: nat)
    requires Separators(rules) && NegationsReach(rules)
    requires RealPath(p) && 1 <= m < |p| && Ignored(rules, p[..m])
    ensures Ignored(rules, p)
  {
    var some := LastMatch(rules, Join(p[..m], "/"));
    var i := FindLastMatch(rules, Join(p[..m], "/"), some);
    MatchFurtherDown(rules, i, p, m);
    var j := FindLastMatch(rules, Join(p, "/"), i);
    if rules.patterns[j].negate {
      var l := NegationIsOverruled(rules, p, m, j);
      assert false;
    }
  }

  /** A negated pattern that reaches a path but not an ignored directory above it is followed by another
      pattern that reaches the path. */
  lemma NegationIsOverruled(rules: Rules, p: Path, m: nat, j: nat) returns (l: nat)
    requires Separators(rules) && NegationsReach(rules)
    requires RealPath(p) && 1 <= m < |p| && Ignored(rules, p[..m])
    requires j < |rules.patterns| && rules.patterns[j].negate
    requires Matches(rules, j, Join(p, "/")) && !Matches(rules, j, Join(p[..m], "/"))
    ensures j < l < |rules.patterns| && Matches(rules, l, Join(p, "/"))
  {
    var r := NamedAbove(rules, j, p);
    NotNamedAbove(rules, j, p, m, r);
    assert p[..r][..m] == p[..m];
    l := NamedIsIgnored(rules, p[..r], m, j);
    MatchFurtherDown(rules, l, p, r);
  }

  /** A negated pattern that matches an ignored path is followed by another one that matches it. */
  lemma OverruledLater(rules: Rules, path: string, j: nat) returns (l: nat)
    requires j < |rules.patterns| && rules.patterns[j].negate && Matches(rules, j, path) && ShouldIgnore(rules, path)
    ensures j < l < |rules.patterns| && Matches(rules, l, path)
  {
    l := FindLastMatch(rules, path, j);
  }

  lemma NotTooLate(rules: Rules, named: Path, m: nat, j: nat)
    requires NegationsReach(rules) && RealPath(named) && 1 <= m < |named| && Ignored(rules, named[..m])
    requires j < |rules.patterns| && rules.patterns[j].negate
    requires Join(named, "/") == TrimSlash(rules.patterns[j].pattern)
    ensures Ignored(rules, named)
  {
    assert !TooLate(rules, j, named, m);
  }

  lemma NamedIsIgnored(rules: Rules, named: Path, m: nat, j: nat) returns (l: nat)
    requires Separators(rules) && NegationsReach(rules)
    requires RealPath(named) && 1 <= m < |named| && Ignored(rules, named[..m])
    requires j < |rules.patterns| && rules.patterns[j].negate
    requires Join(named, "/") == TrimSlash(rules.patterns[j].pattern)
    ensures j < l < |rules.patterns| && Matches(rules, l, Join(named, "/"))
  {
    NotTooLate(rules, named, m, j);
    NamedMatchesItself(rules, j, named);
    l := OverruledLater(rules, Join(named, "/"), j);
  }

  lemma NamedMatchesItself(rules: Rules, i: nat, p: Path)
    requires Separators(rules) && i < |rules.patterns|
    requires Join(p, "/") == TrimSlash(rules.patterns[i].pattern)
    ensures Matches(rules, i, Join(p, "/"))
  {
  }

  lemma NotNamedAbove(rules: Rules, j: nat, p: Path, m: nat, r: nat)
    requires Separators(rules) && j < |rules.patterns| && 1 <= m < |p| && 1 <= r <= |p|
    requires Join(p[..r], "/") == TrimSlash(rules.patterns[j].pattern)
    requires !Matches(rules, j, Join(p[..m], "/"))
    ensures m < r
  {
    if r <= m {
      assert p[..m][..r] == p[..r];
      NamedMatches(rules, j, p[..m], r);
    }
  }

  /** A separator pattern that matches a real path names it or a directory above it. */
  lemma NamedAbove(rules: Rules, i: nat, p: Path) returns (r: nat)
    requires Separators(rules) && RealPath(p) && i < |rules.patterns| && Matches(rules, i, Join(p, "/"))
    ensures 1 <= r <= |p| && Join(p[..r], "/") == TrimSlash(rules.patterns[i].pattern)
  {
    r := PrefixOfPath(p, TrimSlash(rules.patterns[i].pattern), "/");
  }

  lemma NamedMatches(rules: Rules, i: nat, p: Path, r: nat)
    requires Separators(rules) && i < |rules.patterns| && 1 <= r <= |p|
    requires Join(p[..r], "/") == TrimSlash(rules.patterns[i].pattern)
    ensures Matches(rules, i, Join(p, "/"))
  {
    MatchFurtherDown(rules, i, p, r);
  }

  lemma ShorterPrefix(front: string, sep: string, last: string, t: string)
    requires sep == ['/'] && '/' !in last && t + sep <= front + sep + last
    ensures front == t || t + sep <= front
  {
    var all := front + sep + last;
    assert all[|t|] == '/';
    assert forall k | |front| < k < |all| :: all[k] == last[k - |front| - 1];
    assert t == all[..|t|] && front == all[..|front|];
    assert |t| < |front| ==> t + sep == all[..|t| + 1] == front[..|t| + 1];
  }

  lemma {:induction false} PrefixOfPath(p: Path, t: string, sep: string) returns (r: nat)
    requires sep == ['/'] && RealPath(p)
    requires Join(p, sep) == t || t + sep <= Join(p, sep)
    ensures 1 <= r <= |p| && Join(p[..r], sep) == t
    decreases |p|
  {
    if Join(p, sep) == t {
      r := |p|;
      assert p[..r] == p;
    } else {
      var n := |p| - 1;
      assert Join(p, sep)[|t|] == '/';
      assert n > 0;
      ShorterPrefix(Join(p[..n], sep), sep, p[n], t);
      r := PrefixOfPath(p[..n], t, sep);
      assert p[..n][..r] == p[..r];
    }
  }

  lemma {:induction false} NameBehindSlash(front: string, last: string)
    requires '/' !in last
    ensures AfterLastSlash(front + "/" + last) == last
    decreases front
  {
    var path := front + "/" + last;
    assert path[|front|] == '/';
    if front == "" {
      assert path[1..] == last;
    } else {
      assert path[1..] == front[1..] + "/" + last;
      NameBehindSlash(front[1..], last);
    }
  }

  lemma BaseIsLastName(p: Path)
    requires RealPath(p)
    ensures Base(Join(p, "/")) == p[|p| - 1]
    ensures Join(p, "/") != "" && !HasSuffix(Join(p, "/"), "/")
  {
    var n := |p| - 1;
    var path := Join(p, "/");
    if n > 0 {
      assert path == Join(p[..n], "/") + "/" + p[n];
      NameBehindSlash(Join(p[..n], "/"), p[n]);
    }
    assert path[|path| - 1] == p[n][|p[n]| - 1] != '/';
    assert TrimSlashes(path) == path;
  }

  /** The pattern is this text, with or without a separator behind it. */
  predicate Spells(pattern: string, text: string) {
    pattern == text || pattern == text + "/"
  }

  lemma SpelledPath(pattern: string, p: Path)
    requires RealPath(p)
    ensures TrimSlash(pattern) == Join(p, "/") <==> Spells(pattern, Join(p, "/"))
  {
    BaseIsLastName(p);
    assert HasSuffix(pattern, "/") ==> pattern == pattern[..|pattern| - 1] + "/";
  }

  lemma MatchedIsSpelled(glob: Glob, pattern: string, p: Path) returns (k: nat)
    requires RealPath(p) && '/' in pattern && MatchPattern(glob, pattern, Join(p, "/"))
    ensures 1 <= k <= |p| && Spells(pattern, Join(p[..k], "/"))
  {
    k := PrefixOfPath(p, TrimSlash(pattern), "/");
    SpelledPath(pattern, p[..k]);
  }

  lemma SpelledIsMatched(glob: Glob, pattern: string, p: Path, k: nat)
    requires RealPath(p) && '/' in pattern && 1 <= k <= |p| && Spells(pattern, Join(p[..k], "/"))
    ensures MatchPattern(glob, pattern, Join(p, "/"))
  {
    SpelledPath(pattern, p[..k]);
    MatchReachesDown(glob, pattern, p[..k], p[k..]);
    assert p[..k] + p[k..] == p;
  }

  /** A pattern with a separator matches the path that it spells, and everything below it. */
  lemma SeparatorPatternsMean(glob: Glob, pattern: string, p: Path)
    requires RealPath(p) && '/' in pattern
    ensures MatchPattern(glob, pattern, Join(p, "/")) <==>
              exists k :: 1 <= k <= |p| && Spells(pattern, Join(p[..k], "/"))
  {
    if MatchPattern(glob, pattern, Join(p, "/")) {
      var k := MatchedIsSpelled(glob, pattern, p);
    }
    if k :| 1 <= k <= |p| && Spells(pattern, Join(p[..k], "/")) {
      SpelledIsMatched(glob, pattern, p, k);
    }
  }

  /** Any other pattern is a glob for the whole path or for its last name. */
  lemma OtherPatternsMean(glob: Glob, pattern: string, p: Path)
    requires RealPath(p) && '/' !in pattern
    ensures MatchPattern(glob, pattern, Join(p, "/")) <==> glob(pattern, Join(p, "/")) || glob(pattern, p[|p| - 1])
  {
    BaseIsLastName(p);
  }

  lemma OneThenNegation(rules: Rules, path: string)
    requires |rules.patterns| == 2 && !rules.patterns[0].negate && rules.patterns[1].negate
    ensures ShouldIgnore(rules, path) <==> Matches(rules, 0, path) && !Matches(rules, 1, path)
  {
    var hit, negated := Hits(rules, path), Negated(rules);
    NextHit(hit, negated, 0);
    NextHit(hit, negated, 1);
    assert hit(0) == Matches(rules, 0, path) && hit(1) == Matches(rules, 1, path);
  }

  lemma DirectoryMatches(glob: Glob, dir: string)
    ensures MatchPattern(glob, dir + "/", dir)
  {
    assert (dir + "/")[|dir|] == '/';
    assert TrimSlash(dir + "/") == dir;
  }

  lemma LongerDoesNotMatch(glob: Glob, dir: string, name: string)
    requires name != ""
    ensures !MatchPattern(glob, dir + "/" + name, dir)
  {
    assert (dir + "/" + name)[|dir|] == '/';
    assert |TrimSlash(dir + "/" + name)| > |dir|;
  }

  /** With a negation the two differ. A list that ignores a directory and lets one of its files through
      says that the file is not ignored, and still the file is not copied. */
  lemma NegationComesTooLate(glob: Glob, follow: Path -> Target, dir: string, name: string)
    requires dir != "" && name != ""
    ensures var rules := Rules([IgnorePattern(dir + "/", false), IgnorePattern(dir + "/" + name, true)],
                               glob, follow);
            && !Ignored(rules, [dir, name])
            && !Clear(rules, [], [dir, name])
  {
    var rules := Rules([IgnorePattern(dir + "/", false), IgnorePattern(dir + "/" + name, true)],
                               glob, follow);
    JoinConcat([dir], [name]);
    assert [dir] + [name] == [dir, name] && [dir, name][..1] == [dir] && [] + [dir] == [dir];
    DirectoryMatches(glob, dir);
    LongerDoesNotMatch(glob, dir, name);
    OneThenNegation(rules, dir);
    assert Ignored(rules, [] + [dir, name][..1]);
    assert (dir + "/" + name)[|dir|] == '/';
    NegatedMatches(dir + "/" + name);
    OneThenNegation(rules, dir + "/" + name);
  }

  lemma NegatedMatches(path: string)
    ensures path == TrimSlash(path) || HasPrefix(path, TrimSlash(path) + "/")
  {
    if HasSuffix(path, "/") {
      assert path == TrimSlash(path) + "/";
    }
  }
}
