/** Images and the name index in memory: pkg/image/image.go. */
module Images {
  datatype Option<T> = None | Some(value: T)

  datatype Layer = Layer(digest: string, size: int)

  datatype Image = Image(id: string, repoTags: seq<string>, layers: seq<Layer>, created: int, size: int)

  /** The names of the index, each with the ID of its image. */
  type Index = map<string, string>

  class ImageIndex {
    var images: Index

    constructor ()
      ensures images == map[]
    {
      images := map[];
    }

    method Add(name: string, id: string)
      modifies this
      ensures images == old(images)[name := id]
    {
      images := images[name := id];
    }

    method Remove(name: string)
      modifies this
      ensures images == old(images) - {name}
    {
      images := images - {name};
    }

    method Lookup(name: string) returns (id: Option<string>)
      ensures id.None? <==> name !in images
      ensures id.Some? ==> id.value == images[name]
    {
      if name in images {
        return Some(images[name]);
      }
      return None;
    }
  }
}

/** The image store of pkg/image/store.go: one index file and one configuration file per image. */
module ImageStore {
  import opened Images
  import opened ImageRef
  import opened Sorting

  /** The ID that Resolve looks for: that of the full name, else that of the latest tag. */
  function ResolvedID(index: Index, ref: Ref): Option<string> {
    if FullName(ref) in index then Some(index[FullName(ref)])
    else if LatestName(ref) in index then Some(index[LatestName(ref)])
    else None
  }

  function Stored(images: map<string, Image>, id: string): Option<Image> {
    if id in images then Some(images[id]) else None
  }

  function Resolved(index: Index, images: map<string, Image>, ref: Ref): Option<Image> {
    var id := ResolvedID(index, ref);
    if id.None? then None else Stored(images, id.value)
  }

  function Without(index: Index, id: string): Index {
    map name | name in index && index[name] != id :: index[name]
  }

  /** Adding the tags of an image one after the other. */
  function AddNames(index: Index, names: seq<string>, id: string): Index {
    if names == [] then index else AddNames(index, names[..|names| - 1], id)[names[|names| - 1] := id]
  }

  lemma {:induction false} AddedNames(index: Index, names: seq<string>, id: string)
    ensures AddNames(index, names, id).Keys == index.Keys + set name | name in names
    ensures forall name | name in names :: AddNames(index, names, id)[name] == id
    ensures forall name | name in index && name !in names :: AddNames(index, names, id)[name] == index[name]
  {
    if names != [] {
      var n := |names| - 1;
      AddedNames(index, names[..n], id);
      assert names == names[..n] + [names[n]];
    }
  }

  /** The files of the store. A missing index file reads like an empty index. */
  class Store {
    var index: Index
    var images: map<string, Image>

    constructor ()
      ensures index == map[] && images == map[]
    {
      index, images := map[], map[];
    }

    method LoadIndex() returns (idx: ImageIndex)
      ensures fresh(idx) && idx.images == index
    {
      idx := new ImageIndex();
      idx.images := index;
    }

    method SaveIndex(idx: ImageIndex)
      modifies this`index
      ensures index == idx.images
    {
      index := idx.images;
    }

    method Get(id: string) returns (image: Option<Image>)
      ensures image == Stored(images, id)
      ensures image.Some? <==> id in images
      ensures image.Some? ==> image.value == images[id]
    {
      if id !in images {
        return None;
      }
      return Some(images[id]);
    }

    method Save(image: Image)
      modifies this`images
      ensures images == old(images)[image.id := image]
    {
      images := images[image.id := image];
    }

    /** All names of the image go before its directory does. */
    method Remove(id: string)
      modifies this
      ensures index == Without(old(index), id) && images == old(images) - {id}
      ensures forall name :: name in index <==> name in old(index) && old(index)[name] != id
      ensures forall name | name in index :: index[name] == old(index)[name]
    {
      var idx := LoadIndex();
      var rest := idx.images.Keys;
      while rest != {}
        invariant fresh(idx) && index == old(index) && images == old(images) && rest <= index.Keys
        invariant idx.images == map name | name in index && (index[name] != id || name in rest) :: index[name]
        decreases rest
      {
        var name :| name in rest;
        rest := rest - {name};
        if idx.images[name] == id {
          idx.Remove(name);
        }
      }
      SaveIndex(idx);
      images := images - {id};
    }

    method Resolve(ref: Ref) returns (image: Option<Image>)
      ensures image == Resolved(index, images, ref)
      ensures FullName(ref) in index ==> image == Stored(images, index[FullName(ref)])
      ensures var latest := ref.registry + "/" + ref.repository + ":latest";
              FullName(ref) !in index ==>
                image == if latest in index then Stored(images, index[latest]) else None
    {
      var idx := LoadIndex();
      var id := idx.Lookup(FullName(ref));
      if id.None? {
        var taglessID := idx.Lookup(LatestName(ref));
        if taglessID.Some? {
          image := Get(taglessID.value);
          return;
        }
        return None;
      }
      image := Get(id.value);
    }

    /** Every stored image that has a name, once, however many names it has, newest first. */
    method List() returns (listed: seq<Image>)
      ensures forall image :: image in listed <==>
                exists name :: name in index && index[name] in images && images[index[name]] == image
      ensures (forall id | id in images :: images[id].id == id) ==>
                forall i, j | 0 <= i < j < |listed| :: listed[i].id != listed[j].id
      ensures forall i, j | 0 <= i < j < |listed| :: listed[i].created >= listed[j].created
    {
      var idx := LoadIndex();
      var seen: set<string> := {};
      var rest := idx.images.Keys;
      listed := [];
      while rest != {}
        invariant rest <= index.Keys && idx.images == index
        invariant seen == set name | name in index && name !in rest :: index[name]
        invariant forall image :: image in listed <==> exists id :: id in seen && id in images && images[id] == image
        invariant (forall id | id in images :: images[id].id == id) ==>
                    && (forall i | 0 <= i < |listed| :: listed[i].id in seen)
                    && (forall i, j | 0 <= i < j < |listed| :: listed[i].id != listed[j].id)
        decreases rest
      {
        var name :| name in rest;
        rest := rest - {name};
        var id := idx.images[name];
        if id in seen {
          continue;
        }
        seen := seen + {id};
        var image := Get(id);
        if image.None? {
          continue;
        }
        listed := listed + [image.value];
      }
      ghost var found := listed;
      listed := SortFalling(listed, (image: Image) => image.created);
      SameElements(found, listed);
      if forall id | id in images :: images[id].id == id {
        assert Distinct(found);
        forall i, j | 0 <= i < j < |listed| ensures listed[i].id != listed[j].id {
          assert listed[i] in found && listed[j] in found;
          assert images[listed[i].id] == listed[i] && images[listed[j].id] == listed[j];
        }
      }
    }
  }
}
