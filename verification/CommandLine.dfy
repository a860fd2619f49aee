/** The commands as they are written: calls of the two stores, one after the other. */
module CommandLine {
  import opened Images
  import opened ImageRef
  import ImageStore
  import ContainerStore
  import opened Commands

  predicate Uses(c: ContainerStore.Container, imageID: string) {
    c.imageID == imageID && c.status != ContainerStore.Stopped
  }

  /** Going through the list finds out whether an image is in use. */
  lemma GuardByList(disk: Disk, listed: seq<ContainerStore.Container>, imageID: string)
    requires ContainerStore.Lists(listed, disk.configs, disk.states, disk.configs.Keys)
    ensures InUse(disk, imageID) <==> exists i :: 0 <= i < |listed| && Uses(listed[i], imageID)
  {
    if InUse(disk, imageID) {
      var id :| id in disk.configs && Load(disk, id).value.imageID == imageID
                && Load(disk, id).value.status != ContainerStore.Stopped;
      assert id in disk.configs.Keys && Load(disk, id).value in listed;
      var i :| 0 <= i < |listed| && listed[i] == Load(disk, id).value;
      assert Uses(listed[i], imageID);
    }
    if i :| 0 <= i < |listed| && Uses(listed[i], imageID) {
      assert listed[i] in listed;
    }
  }

  class Cli {
    const images: ImageStore.Store
    const containers: ContainerStore.Store

    constructor (images: ImageStore.Store, containers: ContainerStore.Store)
      ensures this.images == images && this.containers == containers
    {
      this.images, this.containers := images, containers;
    }

    function Files(): Disk
      reads images, containers
    {
      Disk(images.index, images.images, containers.configs, containers.states)
    }

    /** Puller.Pull. */
    method PullImage(request: Request) returns (image: Option<Image>)
      modifies images
      ensures image == PulledImage(old(Files()), request)
      ensures Files() == PulledDisk(old(Files()), request)
      ensures var found, remote := old(ImageStore.Resolved(images.index, images.images, request.ref)), request.remote;
              && (found.Some? ==>
                    image == found && images.index == old(images.index) && images.images == old(images.images))
              && (found.None? && remote.Offered? && remote.id in old(images.images) ==>
                    && image == Some(old(images.images)[remote.id]) && images.images == old(images.images)
                    && images.index == old(images.index)[FullName(request.ref) := remote.id])
              && (found.None? && (remote.Unreachable?
                                  || (remote.id !in old(images.images) && remote.arriving < |remote.layers|)) ==>
                    image.None? && images.index == old(images.index) && images.images == old(images.images))
              && (found.None? && remote.Offered? && remote.id !in old(images.images)
                  && remote.arriving >= |remote.layers| ==>
                    && image.Some? && image.value.id == remote.id && image.value.layers == remote.layers
                    && image.value.repoTags == [FullName(request.ref)] && image.value.created == remote.now
                    && image.value.size == SumSizes(remote.layers)
                    && images.images == old(images.images)[remote.id := image.value]
                    && images.index == old(images.index)[FullName(request.ref) := remote.id])
    {
      image := images.Resolve(request.ref);
      if image.Some? {
        return;
      }
      if request.remote.Unreachable? {
        return None;
      }
      var imageID := request.remote.id;
      image := images.Get(imageID);
      if image.Some? {
        var cached := images.LoadIndex();
        cached.Add(FullName(request.ref), imageID);
        images.SaveIndex(cached);
        return;
      }
      var layers: seq<Layer> := [];
      var totalSize := 0;
      var i := 0;
      while i < |request.remote.layers|
        invariant 0 <= i <= |request.remote.layers| && i <= request.remote.arriving
        invariant layers == request.remote.layers[..i] && totalSize == SumSizes(layers)
        invariant Files() == old(Files())
      {
        if i == request.remote.arriving {
          return None;
        }
        var layer := request.remote.layers[i];
        layers := layers + [layer];
        totalSize := totalSize + layer.size;
        assert layers[..i] == request.remote.layers[..i];
        i := i + 1;
      }
      assert layers == request.remote.layers;
      var img := Image(imageID, [FullName(request.ref)], layers, request.remote.now, totalSize);
      images.Save(img);
      var idx := images.LoadIndex();
      idx.Add(FullName(request.ref), imageID);
      images.SaveIndex(idx);
      return Some(img);
    }

    method Pull(request: Request)
      modifies images
      ensures Files() == Finish(old(Files()), Begin(Commands.Pull(request)))
    {
      PullRefines(Files(), request, Return);
      var _ := PullImage(request);
    }

    /** Save an image and add its names: the end of load, and with one name that of a build. */
    method Register(image: Image)
      modifies images
      ensures Files() == old(Files()).(index := ImageStore.AddNames(old(images.index), image.repoTags, image.id),
                                       images := old(images.images)[image.id := image])
    {
      images.Save(image);
      var idx := images.LoadIndex();
      for i := 0 to |image.repoTags|
        invariant fresh(idx)
        invariant idx.images == ImageStore.AddNames(old(images.index), image.repoTags[..i], image.id)
        invariant images.images == old(images.images)[image.id := image] && images.index == old(images.index)
        invariant unchanged(containers)
      {
        idx.Add(image.repoTags[i], image.id);
        assert image.repoTags[..i + 1][..i] == image.repoTags[..i];
      }
      assert image.repoTags[..|image.repoTags|] == image.repoTags;
      images.SaveIndex(idx);
    }

    method LoadArchive(image: Image)
      modifies images
      ensures Files() == Finish(old(Files()), Begin(Commands.LoadArchive(image)))
    {
      LoadRefines(Files(), image);
      if image.repoTags != [] {
        Register(image);
      }
    }

    /** A build pulls what its Dockerfile names, and commits its image. */
    method Build(bases: seq<Request>, image: Image) returns (ok: bool)
      modifies images
      ensures Files() == Finish(old(Files()), Begin(Commands.Build(bases, image)))
      ensures ok == BasesArrive(old(Files()), bases)
      ensures ok ==> && image.id in images.images && images.images[image.id] == image
                     && forall tag | tag in image.repoTags :: tag in images.index && images.index[tag] == image.id
    {
      ghost var before := Files();
      var i := 0;
      while i < |bases|
        invariant 0 <= i <= |bases|
        invariant Finish(Files(), After(image, Commit(bases[i..], image)))
               == Finish(old(Files()), Begin(Commands.Build(bases, image)))
        invariant BasesArrive(Files(), bases[i..]) == BasesArrive(before, bases)
      {
        PullRefines(Files(), bases[i], Commit(bases[i..][1..], image));
        assert bases[i..][1..] == bases[i + 1..];
        var base := PullImage(bases[i]);
        if base.None? {
          return false;
        }
        i := i + 1;
      }
      SavingRefines(Files(), image, Return);
      BuildStores(before, bases, image);
      Register(image);
      return true;
    }

    /** The guard of rmi. */
    method HasUser(imageID: string) returns (used: bool)
      ensures used == InUse(Files(), imageID)
      ensures used <==> exists id :: id in containers.configs
                                     && Load(Files(), id).value.imageID == imageID
                                     && Load(Files(), id).value.status != ContainerStore.Stopped
    {
      var listed := containers.List();
      GuardByList(Files(), listed, imageID);
      for i := 0 to |listed|
        invariant forall j | 0 <= j < i :: !Uses(listed[j], imageID)
      {
        if Uses(listed[i], imageID) {
          return true;
        }
      }
      return false;
    }

    method Rmi(ref: Ref)
      modifies images
      ensures Files() == Finish(old(Files()), Begin(Commands.Rmi(ref)))
      ensures var found := old(ImageStore.Resolved(images.index, images.images, ref));
              if found.None? || InUse(old(Files()), found.value.id)
              then images.index == old(images.index) && images.images == old(images.images)
              else && images.images == old(images.images) - {found.value.id}
                   && (forall name :: name in images.index <==>
                         name in old(images.index) && old(images.index)[name] != found.value.id)
                   && forall name | name in images.index :: images.index[name] == old(images.index)[name]
    {
      RmiRefines(Files(), ref);
      var img := images.Resolve(ref);
      if img.None? {
        return;
      }
      var used := HasUser(img.value.id);
      if used {
        return;
      }
      images.Remove(img.value.id);
    }

    /** The record that run writes, with the status the caller has set for it. */
    method Run(request: Request, launch: Launch)
      modifies images, containers
      ensures Files() == Finish(old(Files()), Begin(Commands.Run(request, launch)))
      ensures var image := PulledImage(old(Files()), request);
              var status := if launch.attached then ContainerStore.Stopped else ContainerStore.Created;
              if image.None? || !launch.booted
              then containers.configs == old(containers.configs) && containers.states == old(containers.states)
              else if launch.removed
              then && containers.configs == old(containers.configs) - {launch.id}
                   && containers.states == old(containers.states) - {launch.id}
              else && containers.configs == old(containers.configs)[launch.id :=
                        ContainerStore.Container(launch.id, image.value.id, status, launch.pid, launch.ip, launch.now)]
                   && containers.states == old(containers.states)[launch.id :=
                        ContainerStore.StateFile(status, launch.pid, launch.ip)]
    {
      RunWritesOneRecord(Files(), request, launch);
      var img := PullImage(request);
      if img.None? || !launch.booted {
        return;
      }
      Record(img.value.id, launch);
    }

    /** The writes of run, with the status that it has set itself before the record is created. */
    method Record(imageID: string, launch: Launch)
      modifies containers
      ensures var status := if launch.attached then ContainerStore.Stopped else ContainerStore.Created;
              if launch.removed
              then && containers.configs == old(containers.configs) - {launch.id}
                   && containers.states == old(containers.states) - {launch.id}
              else && containers.configs == old(containers.configs)[launch.id :=
                        ContainerStore.Container(launch.id, imageID, status, launch.pid, launch.ip, launch.now)]
                   && containers.states == old(containers.states)[launch.id :=
                        ContainerStore.StateFile(status, launch.pid, launch.ip)]
    {
      var c := ContainerStore.Container(launch.id, imageID, ContainerStore.Running, launch.pid, launch.ip, launch.now);
      c := containers.Create(c);
      if launch.attached {
        c := c.(status := ContainerStore.Stopped);
        containers.Save(c);
      }
      if launch.removed {
        containers.Remove(launch.id);
      }
    }

    method Start(launch: Launch)
      modifies containers
      ensures Files() == Finish(old(Files()), Begin(Commands.Start(launch)))
      ensures var c := old(Load(Files(), launch.id));
              var status := if launch.attached then ContainerStore.Stopped else ContainerStore.Running;
              if c.None? || (c.value.status != ContainerStore.Stopped && c.value.status != ContainerStore.Failed)
                 || c.value.imageID !in images.images || !launch.booted
              then containers.configs == old(containers.configs) && containers.states == old(containers.states)
              else && containers.configs == old(containers.configs)[c.value.id := ContainerStore.Container(
                        c.value.id, c.value.imageID, status, launch.pid, launch.ip, c.value.created)]
                   && containers.states == old(containers.states)[c.value.id :=
                        ContainerStore.StateFile(status, launch.pid, launch.ip)]
    {
      StartWritesOneRecord(Files(), launch);
      var loaded := containers.Load(launch.id);
      if loaded.None? {
        return;
      }
      var c := loaded.value;
      if c.status != ContainerStore.Stopped && c.status != ContainerStore.Failed {
        return;
      }
      var img := images.Get(c.imageID);
      if img.None? || !launch.booted {
        return;
      }
      c := c.(status := ContainerStore.Running);
      c := c.(pid := launch.pid);
      c := c.(ip := launch.ip);
      containers.Save(c);
      if launch.attached {
        c := c.(status := ContainerStore.Stopped);
        containers.Save(c);
      }
    }

    method Stop(id: string)
      modifies containers
      ensures Files() == Finish(old(Files()), Begin(Commands.Stop(id)))
      ensures var c := old(Load(Files(), id));
              if c.None? || c.value.status != ContainerStore.Running
              then containers.configs == old(containers.configs) && containers.states == old(containers.states)
              else && containers.configs == old(containers.configs)[c.value.id :=
                        c.value.(status := ContainerStore.Stopped)]
                   && containers.states == old(containers.states)[c.value.id :=
                        ContainerStore.StateFile(ContainerStore.Stopped, c.value.pid, c.value.ip)]
    {
      StopRefines(Files(), id);
      var loaded := containers.Load(id);
      if loaded.None? || loaded.value.status != ContainerStore.Running {
        return;
      }
      var c := loaded.value.(status := ContainerStore.Stopped);
      containers.Save(c);
    }

    method Rm(id: string, force: bool, ghost stateFirst: bool)
      modifies containers
      ensures Files() == Finish(old(Files()), Begin(Commands.Rm(id, force, stateFirst)))
      ensures var c := old(Load(Files(), id));
              if c.None? || (c.value.status == ContainerStore.Running && !force)
              then containers.configs == old(containers.configs) && containers.states == old(containers.states)
              else && containers.configs == old(containers.configs) - {c.value.id}
                   && containers.states == old(containers.states) - {c.value.id}
    {
      RmRemovesOneRecord(Files(), id, force, stateFirst);
      var loaded := containers.Load(id);
      if loaded.None? {
        return;
      }
      var c := loaded.value;
      if c.status == ContainerStore.Running {
        if !force {
          return;
        }
        c := c.(status := ContainerStore.Stopped);
        containers.Save(c);
      }
      containers.Remove(c.id);
    }
  }
}
