/** The copies as they run: loops and recursion that write into one destination directory. Each
    method is tied to the function of Copying and Layers that specifies it. */
module Rootfs {
  import opened FileTree
  import opened Copying
  import opened Layers

  /** What os.ReadDir reports for the layers directory of an image. */
  datatype Listing = Missing | Listed(entries: seq<Entry>)

  /** A destination directory on disk; paths are relative to it. */
  class Directory {
    var files: Files

    /** A directory that MkdirAll has just made. */
    constructor ()
      ensures files == map[[] := DirNode]
    {
      files := map[[] := DirNode];
    }

    /** copyDirContents of the builder: recursive, errors of single entries are dropped. */
    method CopyDirContents(es: seq<Entry>, at: Path)
      modifies this
      ensures files == Merge(old(files), at, es)
      decreases es
    {
      files := MkdirAll(files, at).OrKeep(files);
      ghost var made := files;
      for i := 0 to |es|
        invariant files == MergeEntries(made, at, es[..i])
      {
        assert es[..i + 1][..i] == es[..i];
        var dstPath := at + [es[i].name];
        match es[i].node {
          case Link(target) =>
            files := MakeLink(files, dstPath, target).OrKeep(files);
          case Dir(entries) =>
            CopyDirContents(entries, dstPath);
          case File(content) =>
            files := WriteFile(files, dstPath, content).OrKeep(files);
        }
      }
      assert es[..|es|] == es;
    }

    /** copyDir of the container store: the visits of filepath.Walk, up to the first error. */
    method CopyDir(src: Tree) returns (ok: bool)
      modifies this
      ensures ok == ApplyVisits(old(files), Visits(src, [])).Ok?
      ensures ok ==> files == ApplyVisits(old(files), Visits(src, [])).files
    {
      var visits := Visits(src, []);
      for i := 0 to |visits|
        invariant ApplyVisits(old(files), visits[..i]) == Ok(files)
      {
        var result := ApplyVisit(files, visits[i]);
        assert visits[..i + 1][..i] == visits[..i];
        if result.Err? {
          assert ApplyVisits(old(files), visits[..i + 1]).Err?;
          ApplyConcat(old(files), visits[..i + 1], visits[i + 1..]);
          assert visits[..i + 1] + visits[i + 1..] == visits;
          return false;
        }
        files := result.files;
      }
      assert visits[..|visits|] == visits;
      return true;
    }

    /** AssembleRootfs: an image without a layers directory leaves the root empty. */
    method AssembleRootfs(layers: Listing) returns (ok: bool)
      modifies this
      ensures layers.Missing? ==> ok && files == old(files)
      ensures layers.Listed? ==> ok == WalkLayers(old(files), SortByName(layers.entries)).Ok?
      ensures layers.Listed? && ok ==> files == WalkLayers(old(files), SortByName(layers.entries)).files
      ensures layers.Listed? && ok && old(files) == map[[] := DirNode]
              && DistinctNames(layers.entries) && ValidLayers(layers.entries)
              && LayerLinksApart(SortByName(layers.entries)) ==>
                HoldsGreatest(layers.entries, files)
    {
      if layers.Missing? {
        return true;
      }
      var es := SortByName(layers.entries);
      for i := 0 to |es|
        invariant WalkLayers(old(files), es[..i]) == Ok(files)
      {
        assert es[..i + 1][..i] == es[..i];
        if !es[i].node.Dir? {
          continue;
        }
        var copied := CopyDir(es[i].node);
        if !copied {
          WalkLayersStops(old(files), es, i + 1);
          return false;
        }
      }
      assert es[..|es|] == es;
      if old(files) == map[[] := DirNode] && DistinctNames(layers.entries) && ValidLayers(layers.entries)
         && LayerLinksApart(es) {
        AssembledHoldsGreatest(layers.entries);
      }
      return true;
    }

    /** The loop of handleFrom over the layer directories, in the order of os.ReadDir. */
    method MergeLayerDirs(es: seq<Entry>)
      modifies this
      ensures files == MergeLayers(old(files), es)
    {
      for i := 0 to |es|
        invariant files == MergeLayers(old(files), es[..i])
      {
        assert es[..i + 1][..i] == es[..i];
        if !es[i].node.Dir? {
          continue;
        }
        CopyDirContents(es[i].node.entries, []);
      }
      assert es[..|es|] == es;
    }

    /** InjectInit (into sbin) and InjectAgent (into usr/bin). */
    method InjectBinary(dir: Path, name: string, binary: Bytes) returns (ok: bool)
      modifies this
      ensures ok == Inject(old(files), dir, name, binary).Ok?
      ensures ok ==> files == Inject(old(files), dir, name, binary).files
    {
      var made := MkdirAll(files, dir);
      if made.Err? {
        return false;
      }
      files := made.files;
      var written := OverwriteFile(files, dir + [name], binary);
      if written.Err? {
        return false;
      }
      files := written.files;
      return true;
    }
  }

  lemma {:induction false} WalkLayersStops(fs: Files, es: seq<Entry>, n: nat)
    requires n <= |es| && WalkLayers(fs, es[..n]).Err?
    ensures WalkLayers(fs, es).Err?
    decreases |es|
  {
    if n < |es| {
      assert es[..|es| - 1][..n] == es[..n];
      WalkLayersStops(fs, es[..|es| - 1], n);
    } else {
      assert es[..n] == es;
    }
  }
}
