/** What a RUN step records: the snapshot before the command, the difference after it, the layer made
    from the difference and its extraction. Directories and regular files only. */
module DiffLayer {
  import opened FileTree
  import opened Copying
  import opened Sets

  /** What filepath.Walk reports: of a file its modification time and, by opening it, its content. */
  datatype Info = DirInfo | FileInfo(mtime: int, content: Bytes)
  datatype Found = Found(path: Path, info: Info)

  /** A tar archive, entry by entry. */
  datatype TarEntry = TarEntry(name: Path, content: Bytes)

  predicate DistinctPaths(walk: seq<Found>) {
    forall i, j | 0 <= i < j < |walk| :: walk[i].path != walk[j].path
  }

  ghost predicate FileAt(walk: seq<Found>, p: Path, mtime: int, content: Bytes) {
    exists i :: 0 <= i < |walk| && walk[i] == Found(p, FileInfo(mtime, content))
  }

  predicate Exists(walk: seq<Found>, p: Path) {
    exists i :: 0 <= i < |walk| && walk[i].path == p
  }

  /** The two files that the build machine itself leaves behind. */
  predicate Artefact(p: Path) {
    p == ["tmp", "poqman-exit-code"] || p == ["tmp", "poqman-build.sh"]
  }

  /** New since the snapshot, or with another modification time. */
  predicate Changed(before: map<Path, int>, f: Found) {
    f.info.FileInfo? && (f.path in before ==> before[f.path] != f.info.mtime)
  }

  /** The modification time of every file, and nothing else. */
  ghost predicate IsSnapshot(snapshot: map<Path, int>, walk: seq<Found>) {
    && (forall p :: p in snapshot <==> exists t, c :: FileAt(walk, p, t, c))
    && (forall p, t, c | FileAt(walk, p, t, c) :: snapshot[p] == t)
  }

  method TakeSnapshot(walk: seq<Found>) returns (snapshot: map<Path, int>)
    requires DistinctPaths(walk)
    ensures IsSnapshot(snapshot, walk)
  {
    snapshot := map[];
    for i := 0 to |walk|
      invariant forall p | p in snapshot :: exists j :: 0 <= j < i && walk[j].path == p && walk[j].info.FileInfo?
      invariant forall j | 0 <= j < i && walk[j].info.FileInfo? ::
                  walk[j].path in snapshot && snapshot[walk[j].path] == walk[j].info.mtime
    {
      var f := walk[i];
      if f.info.DirInfo? {
        continue;
      }
      snapshot := snapshot[f.path := f.info.mtime];
    }
    forall p | p in snapshot ensures exists t, c :: FileAt(walk, p, t, c) {
      var j :| 0 <= j < |walk| && walk[j].path == p && walk[j].info.FileInfo?;
      assert walk[j] == Found(p, FileInfo(walk[j].info.mtime, walk[j].info.content));
      assert FileAt(walk, p, walk[j].info.mtime, walk[j].info.content);
    }
  }

  /** The bytes of all changed files, artefacts included. */
  function ChangedBytes(before: map<Path, int>, walk: seq<Found>): nat {
    if walk == [] then 0
    else
      var f := walk[|walk| - 1];
      ChangedBytes(before, walk[..|walk| - 1]) + if Changed(before, f) then |f.info.content| else 0
  }

  function ArtefactBytes(before: map<Path, int>, walk: seq<Found>): nat {
    if walk == [] then 0
    else
      var f := walk[|walk| - 1];
      ArtefactBytes(before, walk[..|walk| - 1])
      + if Changed(before, f) && Artefact(f.path) then |f.info.content| else 0
  }

  /** The old files that are gone. */
  function Deleted(before: map<Path, int>, walk: seq<Found>): set<Path> {
    set p | p in before && !Exists(walk, p)
  }

  /** A file of the walk lies above the path. */
  predicate UnderFile(walk: seq<Found>, p: Path) {
    exists i :: 0 <= i < |walk| && walk[i].info.FileInfo? && walk[i].path < p
  }

  /** os.Stat finds nothing at the path, and says so: below a file it fails with another error. */
  predicate StatNotExist(walk: seq<Found>, p: Path) {
    !Exists(walk, p) && !UnderFile(walk, p)
  }

  function CountedDeleted(before: map<Path, int>, walk: seq<Found>): set<Path> {
    set p | p in before && StatNotExist(walk, p)
  }

  /** computeDiff: the changed bytes, and one more for every old file that os.Stat reports as missing. */
  function DiffSize(before: map<Path, int>, walk: seq<Found>): nat {
    ChangedBytes(before, walk) + |CountedDeleted(before, walk)|
  }

  method ComputeDiff(before: map<Path, int>, walk: seq<Found>) returns (changed: nat)
    ensures changed == DiffSize(before, walk)
  {
    changed := 0;
    for i := 0 to |walk|
      invariant changed == ChangedBytes(before, walk[..i])
    {
      assert walk[..i + 1][..i] == walk[..i];
      if walk[i].info.DirInfo? {
        continue;
      }
      var existed := walk[i].path in before;
      if !existed || before[walk[i].path] != walk[i].info.mtime {
        changed := changed + |walk[i].info.content|;
      }
    }
    assert walk[..|walk|] == walk;
    var rest := before.Keys;
    ghost var gone: set<Path> := {};
    while rest != {}
      invariant rest <= before.Keys
      invariant gone == set p | p in before && p !in rest && StatNotExist(walk, p)
      invariant changed == ChangedBytes(before, walk) + |gone|
      decreases rest
    {
      var path :| path in rest;
      rest := rest - {path};
      if StatNotExist(walk, path) {
        changed := changed + 1;
        gone := gone + {path};
      }
    }
    assert gone == CountedDeleted(before, walk);
  }

  predicate Shipped(before: map<Path, int>, f: Found) {
    Changed(before, f) && !Artefact(f.path)
  }

  /** The entries that createDiffLayer writes, in walk order. */
  function DiffEntries(before: map<Path, int>, walk: seq<Found>): seq<TarEntry> {
    if walk == [] then []
    else
      var f := walk[|walk| - 1];
      DiffEntries(before, walk[..|walk| - 1])
      + if Shipped(before, f) then [TarEntry(f.path, f.info.content)] else []
  }

  /** The layer holds every file that is new or has another modification time, with its content, except the
      exit code and the script that the build machine leaves in /tmp; and it holds nothing else. */
  lemma {:induction false} ShipsExactly(before: map<Path, int>, walk: seq<Found>, e: TarEntry)
    ensures e in DiffEntries(before, walk) <==>
              exists i :: 0 <= i < |walk| && walk[i].path == e.name && walk[i].info.FileInfo?
                          && walk[i].info.content == e.content
                          && (e.name in before ==> before[e.name] != walk[i].info.mtime)
                          && e.name != ["tmp", "poqman-exit-code"] && e.name != ["tmp", "poqman-build.sh"]
  {
    if walk != [] {
      var n := |walk| - 1;
      ShipsExactly(before, walk[..n], e);
      assert forall i | 0 <= i < n :: walk[..n][i] == walk[i];
      assert Shipped(before, walk[n]) && e == TarEntry(walk[n].path, walk[n].info.content) <==>
             walk[n].path == e.name && walk[n].info.FileInfo? && walk[n].info.content == e.content
             && (e.name in before ==> before[e.name] != walk[n].info.mtime)
             && e.name != ["tmp", "poqman-exit-code"] && e.name != ["tmp", "poqman-build.sh"];
    }
  }

  function TotalSize(layer: seq<TarEntry>): nat {
    if layer == [] then 0 else TotalSize(layer[..|layer| - 1]) + |layer[|layer| - 1].content|
  }

  lemma NextEntry(before: map<Path, int>, walk: seq<Found>, n: nat)
    requires n < |walk|
    ensures Shipped(before, walk[n]) ==>
              DiffEntries(before, walk[..n + 1])
                == DiffEntries(before, walk[..n]) + [TarEntry(walk[n].path, walk[n].info.content)]
    ensures !Shipped(before, walk[n]) ==> DiffEntries(before, walk[..n + 1]) == DiffEntries(before, walk[..n])
  {
    assert walk[..n + 1][..n] == walk[..n];
  }

  lemma LargerLayer(layer: seq<TarEntry>, entry: TarEntry)
    ensures TotalSize([]) == 0 && TotalSize(layer + [entry]) == TotalSize(layer) + |entry.content|
  {
    assert (layer + [entry])[..|layer|] == layer;
  }

  method CreateDiffLayer(before: map<Path, int>, walk: seq<Found>)
    returns (layer: seq<TarEntry>, totalSize: nat)
    ensures layer == DiffEntries(before, walk) && totalSize == TotalSize(layer)
  {
    layer, totalSize := [], 0;
    for i := 0 to |walk|
      invariant layer == DiffEntries(before, walk[..i]) && totalSize == TotalSize(layer)
    {
      NextEntry(before, walk, i);
      var f := walk[i];
      if f.info.DirInfo? {
        continue;
      }
      if Artefact(f.path) {
        continue;
      }
      if f.path in before && before[f.path] == f.info.mtime {
        continue;
      }
      LargerLayer(layer, TarEntry(f.path, f.info.content));
      layer := layer + [TarEntry(f.path, f.info.content)];
      totalSize := totalSize + |f.info.content|;
    }
    assert walk[..|walk|] == walk;
  }

  /** extractLayerFile: entry after entry, up to the first file that cannot be created. */
  function Extract(fs: Files, layer: seq<TarEntry>): Result {
    if layer == [] then Ok(fs)
    else
      match Extract(fs, layer[..|layer| - 1])
      case Ok(done) => WriteFile(done, layer[|layer| - 1].name, layer[|layer| - 1].content)
      case Err(e) => Err(e)
  }

  method ExtractLayerFile(fs: Files, layer: seq<TarEntry>) returns (ok: bool, files: Files)
    ensures ok == Extract(fs, layer).Ok?
    ensures ok ==> files == Extract(fs, layer).files
  {
    files := fs;
    for i := 0 to |layer|
      invariant Extract(fs, layer[..i]) == Ok(files)
    {
      assert layer[..i + 1][..i] == layer[..i];
      var result := WriteFile(files, layer[i].name, layer[i].content);
      if result.Err? {
        ExtractStops(fs, layer, i + 1);
        return false, files;
      }
      files := result.files;
    }
    assert layer[..|layer|] == layer;
    return true, files;
  }

  lemma {:induction false} ExtractStops(fs: Files, layer: seq<TarEntry>, n: nat)
    requires n <= |layer| && Extract(fs, layer[..n]).Err?
    ensures Extract(fs, layer).Err?
    decreases |layer|
  {
    if n < |layer| {
      assert layer[..|layer| - 1][..n] == layer[..n];
      ExtractStops(fs, layer[..|layer| - 1], n);
    } else {
      assert layer[..n] == layer;
    }
  }

  /** What the difference counts: the bytes of each file that is new or has another time, and the old paths at
      which the walk finds nothing, above which no file lies. */
  lemma DifferenceCounts(before: map<Path, int>, walk: seq<Found>, f: Found, p: Path)
    ensures ChangedBytes(before, []) == 0
    ensures ChangedBytes(before, walk + [f])
         == ChangedBytes(before, walk)
            + if f.info.FileInfo? && (f.path !in before || before[f.path] != f.info.mtime) then |f.info.content| else 0
    ensures p in CountedDeleted(before, walk) <==>
              p in before && forall g | g in walk :: g.path != p && !(g.info.FileInfo? && g.path < p)
    ensures p in Deleted(before, walk) <==> p in before && forall g | g in walk :: g.path != p
  {
    assert (walk + [f])[..|walk|] == walk;
    assert forall i | 0 <= i < |walk| :: walk[i] in walk;
  }

  lemma {:induction false} SizeIsChangedBytes(before: map<Path, int>, walk: seq<Found>)
    ensures TotalSize(DiffEntries(before, walk)) == ChangedBytes(before, walk) - ArtefactBytes(before, walk)
  {
    if walk != [] {
      var n := |walk| - 1;
      SizeIsChangedBytes(before, walk[..n]);
      var front := DiffEntries(before, walk[..n]);
      if Shipped(before, walk[n]) {
        var e := TarEntry(walk[n].path, walk[n].info.content);
        assert (front + [e])[..|front|] == front;
      } else {
        assert front + [] == front;
      }
    }
  }

  /** The reported layer size is the computed difference less one for each deleted file, which no layer
      records, and without the artefacts, which no layer carries. That holds for the deletions that are
      counted; for all deletions, exactly when no old file has given way to a file above it. */
  lemma SizeIsDifference(before: map<Path, int>, walk: seq<Found>)
    ensures var size := TotalSize(DiffEntries(before, walk));
            var net := DiffSize(before, walk) - ArtefactBytes(before, walk);
            && size == net - |CountedDeleted(before, walk)|
            && (size == net - |Deleted(before, walk)| <==>
                  forall p | p in before && !Exists(walk, p) :: !UnderFile(walk, p))
  {
    SizeIsChangedBytes(before, walk);
    SubsetSize(CountedDeleted(before, walk), Deleted(before, walk));
    if CountedDeleted(before, walk) == Deleted(before, walk) {
      forall p | p in before && !Exists(walk, p) ensures !UnderFile(walk, p) {
        assert p in Deleted(before, walk);
      }
    }
  }

  /** A directory a with a file b becomes a file: that file is gone, and nothing counts it. */
  lemma FileInPlaceOfDirectory(time: int, later: int, content: Bytes)
    ensures var before := map[["a", "b"] := time];
            var walk := [Found([], DirInfo), Found(["a"], FileInfo(later, content))];
            DiffSize(before, walk) == |content| && Deleted(before, walk) == {["a", "b"]}
  {
    var before := map[["a", "b"] := time];
    var walk := [Found([], DirInfo), Found(["a"], FileInfo(later, content))];
    assert walk[1].path < ["a", "b"];
    assert CountedDeleted(before, walk) == {};
    assert Changed(before, walk[1]);
    assert walk[..1][..0] == [] && walk[..1] == [walk[0]];
    assert ChangedBytes(before, walk[..1]) == 0;
    assert Deleted(before, walk) == {["a", "b"]};
  }

  /** There is a regular file with this content at p. */
  predicate HasFile(fs: Files, p: Path, content: Bytes) {
    p in fs && fs[p] == FileNode(content)
  }

  lemma WriteChangesOneFile(fs: Files, p: Path, content: Bytes)
    requires WriteFile(fs, p, content).Ok?
    ensures forall q, c :: HasFile(WriteFile(fs, p, content).files, q, c)
                      <==> if q == p then c == content else HasFile(fs, q, c)
  {
    if p != [] {
      WriteChanges(fs, p, content);
    }
  }

  ghost predicate ShippedFrom(before: map<Path, int>, walk: seq<Found>, p: Path) {
    exists i :: 0 <= i < |walk| && walk[i].path == p && Shipped(before, walk[i])
  }

  ghost predicate ShippedWith(before: map<Path, int>, walk: seq<Found>, p: Path, content: Bytes) {
    exists i :: 0 <= i < |walk| && walk[i].path == p && Shipped(before, walk[i]) && walk[i].info.content == content
  }

  lemma ShippedByLast(before: map<Path, int>, walk: seq<Found>, q: Path, c: Bytes)
    requires walk != []
    ensures var n := |walk| - 1;
            var last := walk[n].path == q && Shipped(before, walk[n]);
            && (ShippedFrom(before, walk, q) <==> ShippedFrom(before, walk[..n], q) || last)
            && (ShippedWith(before, walk, q, c) <==>
                  ShippedWith(before, walk[..n], q, c) || (last && walk[n].info.content == c))
  {
    var n := |walk| - 1;
    assert forall i | 0 <= i < n :: walk[..n][i] == walk[i];
  }

  lemma ShippedOnce(before: map<Path, int>, walk: seq<Found>)
    requires walk != [] && DistinctPaths(walk)
    ensures var n := |walk| - 1; !ShippedFrom(before, walk[..n], walk[n].path)
  {
    var n := |walk| - 1;
    assert forall i | 0 <= i < n :: walk[..n][i].path == walk[i].path != walk[n].path;
  }

  /** Extraction replaces exactly the shipped files and leaves all others alone. */
  lemma {:induction false} ExtractedFiles(fs: Files, before: map<Path, int>, walk: seq<Found>, q: Path, c: Bytes)
    requires DistinctPaths(walk)
    ensures var result := Extract(fs, DiffEntries(before, walk));
            result.Ok? ==>
              (HasFile(result.files, q, c)
               <==> if ShippedFrom(before, walk, q) then ShippedWith(before, walk, q, c) else HasFile(fs, q, c))
  {
    if walk != [] {
      var n := |walk| - 1;
      var front := DiffEntries(before, walk[..n]);
      ShippedByLast(before, walk, q, c);
      ExtractedFiles(fs, before, walk[..n], q, c);
      if Shipped(before, walk[n]) {
        var e := TarEntry(walk[n].path, walk[n].info.content);
        assert (front + [e])[..|front|] == front;
        if Extract(fs, front + [e]).Ok? {
          WriteChangesOneFile(Extract(fs, front).files, e.name, e.content);
          ShippedOnce(before, walk);
        }
      } else {
        assert front + [] == front;
      }
    }
  }

  /** A walk of a tree whose root is a directory: nothing lies below a file. */
  predicate TreeWalk(walk: seq<Found>) {
    && DistinctPaths(walk)
    && (forall i, j | 0 <= i < |walk| && 0 <= j < |walk| && walk[i].path < walk[j].path :: walk[i].info.DirInfo?)
    && (forall i | 0 <= i < |walk| && walk[i].path == [] :: walk[i].info.DirInfo?)
  }

  predicate AllLinkFree(fs: Files, before: map<Path, int>, walk: seq<Found>) {
    forall i | 0 <= i < |walk| && Shipped(before, walk[i]) :: LinkFree(fs, walk[i].path)
  }

  /** Every shipped file has a way: where it comes from a directory, or where a directory above it was a
      file, it has none. */
  predicate AllWritable(fs: Files, before: map<Path, int>, walk: seq<Found>) {
    forall i | 0 <= i < |walk| && Shipped(before, walk[i]) :: Writable(fs, walk[i].path)
  }

  lemma {:induction false} ExtractKeepsWay(fs: Files, before: map<Path, int>, walk: seq<Found>, p: Path)
    requires Extract(fs, DiffEntries(before, walk)).Ok?
    requires forall i | 0 <= i < |walk| && Shipped(before, walk[i]) ::
               walk[i].path != [] && !(walk[i].path <= p) && !(p <= walk[i].path)
    ensures var done := Extract(fs, DiffEntries(before, walk)).files;
            && (LinkFree(fs, p) ==> LinkFree(done, p))
            && (Writable(done, p) <==> Writable(fs, p))
  {
    if walk != [] {
      var n := |walk| - 1;
      var front := DiffEntries(before, walk[..n]);
      if Shipped(before, walk[n]) {
        var e := TarEntry(walk[n].path, walk[n].info.content);
        assert (front + [e])[..|front|] == front;
        ExtractKeepsWay(fs, before, walk[..n], p);
        var done := Extract(fs, front).files;
        WriteChanges(done, e.name, e.content);
        OtherWayStays(done, WriteFile(done, e.name, e.content).files, e.name, e.content, p);
      } else {
        assert front + [] == front;
        ExtractKeepsWay(fs, before, walk[..n], p);
      }
    }
  }

  lemma ShippedUnrelated(before: map<Path, int>, walk: seq<Found>)
    requires TreeWalk(walk) && walk != [] && Shipped(before, walk[|walk| - 1])
    ensures var n := |walk| - 1;
            && walk[n].path != []
            && forall i | 0 <= i < n && Shipped(before, walk[..n][i]) ::
                 walk[..n][i].path != [] && !(walk[..n][i].path <= walk[n].path) && !(walk[n].path <= walk[..n][i].path)
  {
    var n := |walk| - 1;
    forall i | 0 <= i < n && Shipped(before, walk[..n][i])
      ensures walk[i].path != [] && !(walk[i].path <= walk[n].path) && !(walk[n].path <= walk[i].path)
    {
      assert walk[..n][i] == walk[i] && walk[i].path != walk[n].path;
    }
  }

  lemma WalkSplits(fs: Files, before: map<Path, int>, walk: seq<Found>)
    requires TreeWalk(walk) && walk != [] && AllLinkFree(fs, before, walk)
    ensures var n := |walk| - 1;
            && TreeWalk(walk[..n]) && AllLinkFree(fs, before, walk[..n])
            && (Shipped(before, walk[n]) ==> LinkFree(fs, walk[n].path))
            && (AllWritable(fs, before, walk) <==>
                  AllWritable(fs, before, walk[..n]) && (Shipped(before, walk[n]) ==> Writable(fs, walk[n].path)))
  {
    var n := |walk| - 1;
    assert forall i | 0 <= i < n :: walk[..n][i] == walk[i];
  }

  /** Extraction succeeds exactly when every shipped file has a way. */
  lemma {:induction false} ExtractExactly(fs: Files, before: map<Path, int>, walk: seq<Found>)
    requires Rooted(fs) && TreeWalk(walk) && AllLinkFree(fs, before, walk)
    ensures var result := Extract(fs, DiffEntries(before, walk));
            (result.Ok? <==> AllWritable(fs, before, walk)) && (result.Ok? ==> Rooted(result.files))
  {
    if walk != [] {
      var n := |walk| - 1;
      var front := DiffEntries(before, walk[..n]);
      WalkSplits(fs, before, walk);
      ExtractExactly(fs, before, walk[..n]);
      if Shipped(before, walk[n]) {
        ShippedUnrelated(before, walk);
        ExtractNext(fs, before, walk[..n], TarEntry(walk[n].path, walk[n].info.content));
      } else {
        assert front + [] == front;
      }
    }
  }

  lemma ExtractNext(fs: Files, before: map<Path, int>, walk: seq<Found>, e: TarEntry)
    requires LinkFree(fs, e.name) && e.name != []
    requires forall i | 0 <= i < |walk| && Shipped(before, walk[i]) ::
               walk[i].path != [] && !(walk[i].path <= e.name) && !(e.name <= walk[i].path)
    requires Extract(fs, DiffEntries(before, walk)).Ok? ==> Rooted(Extract(fs, DiffEntries(before, walk)).files)
    ensures var front := DiffEntries(before, walk);
            var result := Extract(fs, front + [e]);
            && (result.Ok? <==> Extract(fs, front).Ok? && Writable(fs, e.name))
            && (result.Ok? ==> Rooted(result.files))
  {
    var front := DiffEntries(before, walk);
    assert (front + [e])[..|front|] == front;
    if Extract(fs, front).Ok? {
      var done := Extract(fs, front).files;
      ExtractKeepsWay(fs, before, walk, e.name);
      WriteExactly(done, e.name, e.content);
      if WriteFile(done, e.name, e.content).Ok? {
        WriteRooted(done, e.name, e.content);
      }
    }
  }

  /** Into a fresh directory extraction always succeeds, and the directory then holds the shipped files
      and no others. */
  lemma FreshExtraction(before: map<Path, int>, walk: seq<Found>)
    requires TreeWalk(walk)
    ensures var result := Extract(map[[] := DirNode], DiffEntries(before, walk));
            result.Ok? && forall q, c :: HasFile(result.files, q, c) <==> ShippedWith(before, walk, q, c)
  {
    ExtractExactly(map[[] := DirNode], before, walk);
    forall q, c ensures var files := Extract(map[[] := DirNode], DiffEntries(before, walk)).files;
                        HasFile(files, q, c) <==> ShippedWith(before, walk, q, c)
    {
      ExtractedFiles(map[[] := DirNode], before, walk, q, c);
    }
  }

  ghost predicate SameFiles(fs: Files, walk: seq<Found>) {
    forall p, c :: HasFile(fs, p, c) <==> exists t :: FileAt(walk, p, t, c)
  }

  /** A file whose modification time is the same before and after has the same content. */
  ghost predicate TimesTell(before: seq<Found>, after: seq<Found>) {
    forall p, t, c, d | FileAt(before, p, t, c) && FileAt(after, p, t, d) && !Artefact(p) :: c == d
  }

  ghost predicate Reproduces(result: Files, walk: seq<Found>) {
    forall p, t, c | FileAt(walk, p, t, c) && !Artefact(p) :: HasFile(result, p, c)
  }

  /** Extracting the layer of a RUN step over the root from before the step. It fails exactly when a
      shipped file comes where the old root has a directory, or below one of its files. Otherwise, where
      the new root has no file, and at the artefacts, the old files stay: a layer records no deletion.
      Everywhere else the result has the new root's files, exactly if no command changed a file behind
      its time stamp. */
  lemma LayerReproducesRun(fs: Files, before: seq<Found>, after: seq<Found>, snapshot: map<Path, int>)
    requires DistinctPaths(before) && SameFiles(fs, before) && IsSnapshot(snapshot, before)
    requires Rooted(fs) && TreeWalk(after) && AllLinkFree(fs, snapshot, after)
    ensures var result := Extract(fs, DiffEntries(snapshot, after));
            && (result.Ok? <==> AllWritable(fs, snapshot, after))
            && (result.Ok? ==> (Reproduces(result.files, after) <==> TimesTell(before, after)))
            && (result.Ok? ==> forall p, c | Artefact(p) || !(exists t, d :: FileAt(after, p, t, d)) ::
                  HasFile(result.files, p, c) <==> HasFile(fs, p, c))
  {
    ExtractExactly(fs, snapshot, after);
    if Extract(fs, DiffEntries(snapshot, after)).Ok? {
      OldFilesStay(fs, snapshot, after);
      NewFilesArrive(fs, before, after, snapshot);
    }
  }

  lemma OldFilesStay(fs: Files, snapshot: map<Path, int>, after: seq<Found>)
    requires DistinctPaths(after) && Extract(fs, DiffEntries(snapshot, after)).Ok?
    ensures var result := Extract(fs, DiffEntries(snapshot, after)).files;
            forall p, c | Artefact(p) || !(exists t, d :: FileAt(after, p, t, d)) ::
              HasFile(result, p, c) <==> HasFile(fs, p, c)
  {
    var result := Extract(fs, DiffEntries(snapshot, after)).files;
    forall p, c | Artefact(p) || !(exists t, d :: FileAt(after, p, t, d))
      ensures HasFile(result, p, c) <==> HasFile(fs, p, c)
    {
      ExtractedFiles(fs, snapshot, after, p, c);
      if ShippedFrom(snapshot, after, p) {
        var i :| 0 <= i < |after| && after[i].path == p && Shipped(snapshot, after[i]);
        assert FileAt(after, p, after[i].info.mtime, after[i].info.content);
      }
    }
  }

  lemma NewFilesArrive(fs: Files, before: seq<Found>, after: seq<Found>, snapshot: map<Path, int>)
    requires DistinctPaths(before) && DistinctPaths(after)
    requires SameFiles(fs, before) && IsSnapshot(snapshot, before)
    requires Extract(fs, DiffEntries(snapshot, after)).Ok?
    ensures Reproduces(Extract(fs, DiffEntries(snapshot, after)).files, after) <==> TimesTell(before, after)
  {
    var result := Extract(fs, DiffEntries(snapshot, after)).files;
    forall p, t, c | FileAt(after, p, t, c) && !Artefact(p)
      ensures HasFile(result, p, c) <==> !FileAtTime(before, p, t) || FileAt(before, p, t, c)
    {
      ExtractedFiles(fs, snapshot, after, p, c);
      NewFileShipped(before, after, snapshot, p, t, c);
      assert HasFile(fs, p, c) <==> exists u :: FileAt(before, p, u, c);
      assert forall u | FileAt(before, p, u, c) :: snapshot[p] == u;
    }
    if TimesTell(before, after) {
      forall p, t, c | FileAt(after, p, t, c) && !Artefact(p) ensures HasFile(result, p, c) {
        if FileAtTime(before, p, t) {
          var d :| FileAt(before, p, t, d);
        }
      }
    }
    if Reproduces(result, after) {
      forall p, t, c, d | FileAt(before, p, t, c) && FileAt(after, p, t, d) && !Artefact(p) ensures c == d {
        assert HasFile(result, p, d) && FileAtTime(before, p, t);
        OneFilePerPath(before, p, t, c, d);
      }
    }
  }

  ghost predicate FileAtTime(walk: seq<Found>, p: Path, t: int) {
    exists c :: FileAt(walk, p, t, c)
  }

  lemma OneFilePerPath(walk: seq<Found>, p: Path, t: int, c: Bytes, d: Bytes)
    requires DistinctPaths(walk) && FileAt(walk, p, t, c) && FileAt(walk, p, t, d)
    ensures c == d
  {
  }

  lemma NewFileShipped(before: seq<Found>, after: seq<Found>, snapshot: map<Path, int>, p: Path, t: int, c: Bytes)
    requires DistinctPaths(before) && DistinctPaths(after) && IsSnapshot(snapshot, before)
    requires FileAt(after, p, t, c) && !Artefact(p)
    ensures ShippedFrom(snapshot, after, p) <==> !FileAtTime(before, p, t)
    ensures ShippedWith(snapshot, after, p, c) <==> ShippedFrom(snapshot, after, p)
  {
    var i :| 0 <= i < |after| && after[i] == Found(p, FileInfo(t, c));
    assert forall j | 0 <= j < |after| && after[j].path == p :: j == i;
    assert Shipped(snapshot, after[i]) <==> (p in snapshot ==> snapshot[p] != t);
    if p in snapshot {
      var u, d :| FileAt(before, p, u, d);
      assert snapshot[p] == u;
      assert u == t ==> FileAtTime(before, p, t);
    }
  }
}
