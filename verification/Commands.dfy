/** The commands of pkg/cli, pkg/registry/pull.go and the commit of pkg/dockerfile/builder.go as programs
    over files. One step of a process reads or writes one file, so that a crash or another process can
    come between any two steps. */
module Commands {
  import opened Images
  import opened ImageRef
  import opened ImageStore
  import opened ContainerStore

  datatype Disk = Disk(index: Index, images: map<string, Image>,
                       configs: map<string, Container>, states: map<string, StateFile>)

  /** A reference to pull, with what the registry will answer: nothing, or a configuration with this ID and
      a list of layers, the first `arriving` of which can be downloaded and extracted by the time `now`. */
  datatype Remote = Unreachable | Offered(id: string, layers: seq<Layer>, arriving: nat, now: int)
  datatype Request = Request(ref: Ref, remote: Remote)

  /** The options of run and start, and what the machine will do: `booted` stands for all checks and
      effects between reading the image and the first write of the record. */
  datatype Launch = Launch(id: string, pid: int, ip: string, booted: bool, attached: bool, removed: bool,
                           stateFirst: bool, now: int)

  datatype Command =
    | Pull(request: Request)
    | Build(bases: seq<Request>, image: Image)
    | LoadArchive(image: Image)
    | Rmi(ref: Ref)
    | Run(request: Request, launch: Launch)
    | Start(launch: Launch)
    | Stop(id: string)
    | Rm(id: string, force: bool, stateFirst: bool)

  datatype RecordAction =
    | PutConfig(c: Container)
    | PutState(c: Container)
    | DropConfig(id: string)
    | DropState(id: string)

  /** What a process does once it has its image. */
  datatype Rest =
    | Return
    | Commit(bases: seq<Request>, image: Image)
    | Boot(launch: Launch)

  /** A process, named by its next step. */
  datatype Process =
    | Done
    | Resolving(request: Request, rest: Rest)
    | Getting(id: string, request: Request, rest: Rest)
    | Fetching(request: Request, rest: Rest)
    | Saving(image: Image, rest: Rest)
    | Reading(id: string, names: seq<string>, image: Image, rest: Rest)
    | Writing(index: Index, image: Image, rest: Rest)
    | RmiResolving(ref: Ref)
    | RmiGetting(id: string)
    | RmiGuarding(id: string)
    | RmiReading(id: string)
    | RmiWriting(index: Index, id: string)
    | RmiUnlinking(id: string)
    | Starting(launch: Launch)
    | StartGetting(c: Container, launch: Launch)
    | Stopping(id: string)
    | Removing(id: string, force: bool, stateFirst: bool)
    | Recording(actions: seq<RecordAction>)

  function SaveActions(c: Container): seq<RecordAction> {
    [PutConfig(c), PutState(c)]
  }

  /** RemoveAll unlinks the two files in the order in which the directory lists them. */
  function RemoveActions(id: string, stateFirst: bool): seq<RecordAction> {
    if stateFirst then [DropState(id), DropConfig(id)] else [DropConfig(id), DropState(id)]
  }

  /** The record of a new container. */
  function NewContainer(imageID: string, launch: Launch): Container {
    Container(launch.id, imageID, Created, launch.pid, launch.ip, launch.now)
  }

  /** The writes of run: the record says created; an attached run later saves it as stopped. */
  function RunActions(imageID: string, launch: Launch): seq<RecordAction> {
    var c := NewContainer(imageID, launch);
    SaveActions(c)
    + (if launch.attached then SaveActions(c.(status := Stopped)) else [])
    + (if launch.removed then RemoveActions(launch.id, launch.stateFirst) else [])
  }

  function StartActions(c: Container, launch: Launch): seq<RecordAction> {
    var running := c.(status := Running, pid := launch.pid, ip := launch.ip);
    SaveActions(running) + (if launch.attached then SaveActions(running.(status := Stopped)) else [])
  }

  function RmActions(c: Container, stateFirst: bool): seq<RecordAction> {
    (if c.status == Running then SaveActions(c.(status := Stopped)) else []) + RemoveActions(c.id, stateFirst)
  }

  function Act(disk: Disk, action: RecordAction): Disk {
    match action
    case PutConfig(c) => disk.(configs := disk.configs[c.id := c])
    case PutState(c) => disk.(states := disk.states[c.id := StateOf(c)])
    case DropConfig(id) => disk.(configs := disk.configs - {id})
    case DropState(id) => disk.(states := disk.states - {id})
  }

  function Begin(command: Command): Process {
    match command
    case Pull(request) => Resolving(request, Return)
    case Build(bases, image) => After(image, Commit(bases, image))
    case LoadArchive(image) => if image.repoTags == [] then Done else Saving(image, Return)
    case Rmi(ref) => RmiResolving(ref)
    case Run(request, launch) => Resolving(request, Boot(launch))
    case Start(launch) => Starting(launch)
    case Stop(id) => Stopping(id)
    case Rm(id, force, stateFirst) => Removing(id, force, stateFirst)
  }

  function After(image: Image, rest: Rest): Process {
    match rest
    case Return => Done
    case Commit(bases, built) =>
      if bases == [] then Saving(built, Return) else Resolving(bases[0], Commit(bases[1..], built))
    case Boot(launch) => if launch.booted then Recording(RunActions(image.id, launch)) else Done
  }

  function Load(disk: Disk, id: string): Option<Container> {
    Loaded(disk.configs, disk.states, id)
  }

  function SumSizes(layers: seq<Layer>): int {
    if layers == [] then 0 else SumSizes(layers[..|layers| - 1]) + layers[|layers| - 1].size
  }

  function NewImage(ref: Ref, remote: Remote): Image
    requires remote.Offered?
  {
    Image(remote.id, [FullName(ref)], remote.layers, remote.now, SumSizes(remote.layers))
  }

  /** Some container that is not stopped was made from the image. */
  predicate InUse(disk: Disk, imageID: string) {
    exists id :: id in disk.configs && Load(disk, id).value.imageID == imageID && Load(disk, id).value.status != Stopped
  }

  /** One step of a process. */
  function Advance(disk: Disk, p: Process): (Disk, Process) {
    match p
    case Done => (disk, Done)
    case Resolving(request, rest) =>
      var id := ResolvedID(disk.index, request.ref);
      if id.Some? then (disk, Getting(id.value, request, rest)) else (disk, Fetching(request, rest))
    case Getting(id, request, rest) =>
      if id in disk.images then (disk, After(disk.images[id], rest)) else (disk, Fetching(request, rest))
    case Fetching(request, rest) =>
      if request.remote.Unreachable? then (disk, Done)
      else
        var id := request.remote.id;
        if id in disk.images then (disk, Reading(id, [FullName(request.ref)], disk.images[id], rest))
        else if request.remote.arriving < |request.remote.layers| then (disk, Done)
        else (disk, Saving(NewImage(request.ref, request.remote), rest))
    case Saving(image, rest) =>
      (disk.(images := disk.images[image.id := image]), Reading(image.id, image.repoTags, image, rest))
    case Reading(id, names, image, rest) => (disk, Writing(AddNames(disk.index, names, id), image, rest))
    case Writing(index, image, rest) => (disk.(index := index), After(image, rest))
    case RmiResolving(ref) =>
      var id := ResolvedID(disk.index, ref);
      if id.Some? then (disk, RmiGetting(id.value)) else (disk, Done)
    case RmiGetting(id) =>
      if id in disk.images then (disk, RmiGuarding(disk.images[id].id)) else (disk, Done)
    case RmiGuarding(id) => if InUse(disk, id) then (disk, Done) else (disk, RmiReading(id))
    case RmiReading(id) => (disk, RmiWriting(Without(disk.index, id), id))
    case RmiWriting(index, id) => (disk.(index := index), RmiUnlinking(id))
    case RmiUnlinking(id) => (disk.(images := disk.images - {id}), Done)
    case Starting(launch) =>
      var c := Load(disk, launch.id);
      if c.None? || (c.value.status != Stopped && c.value.status != Failed) then (disk, Done)
      else (disk, StartGetting(c.value, launch))
    case StartGetting(c, launch) =>
      if c.imageID !in disk.images || !launch.booted then (disk, Done)
      else (disk, Recording(StartActions(c, launch)))
    case Stopping(id) =>
      var c := Load(disk, id);
      if c.None? || c.value.status != Running then (disk, Done)
      else (disk, Recording(SaveActions(c.value.(status := Stopped))))
    case Removing(id, force, stateFirst) =>
      var c := Load(disk, id);
      if c.None? || (c.value.status == Running && !force) then (disk, Done)
      else (disk, Recording(RmActions(c.value, stateFirst)))
    case Recording(actions) =>
      if actions == [] then (disk, Done) else (Act(disk, actions[0]), Recording(actions[1..]))
  }

  /** How many steps a process has left at most. */
  function Rank(p: Process): nat {
    match p
    case Done => 0
    case Resolving(_, rest) => 6 + RestRank(rest)
    case Getting(_, _, rest) => 5 + RestRank(rest)
    case Fetching(_, rest) => 4 + RestRank(rest)
    case Saving(_, rest) => 3 + RestRank(rest)
    case Reading(_, _, _, rest) => 2 + RestRank(rest)
    case Writing(_, _, rest) => 1 + RestRank(rest)
    case RmiResolving(_) => 6
    case RmiGetting(_) => 5
    case RmiGuarding(_) => 4
    case RmiReading(_) => 3
    case RmiWriting(_, _) => 2
    case RmiUnlinking(_) => 1
    case Starting(_) => 12
    case StartGetting(_, _) => 11
    case Stopping(_) => 12
    case Removing(_, _, _) => 12
    case Recording(actions) => 1 + |actions|
  }

  function RestRank(rest: Rest): nat {
    match rest
    case Return => 0
    case Commit(bases, _) => 6 * |bases| + 5
    case Boot(_) => 12
  }

  lemma AdvanceDescends(disk: Disk, p: Process)
    requires !p.Done?
    ensures Rank(Advance(disk, p).1) < Rank(p)
  {
  }

  /** A process that runs alone to its end. */
  function Finish(disk: Disk, p: Process): Disk
    decreases Rank(p)
  {
    if p.Done? then disk
    else
      AdvanceDescends(disk, p);
      var (next, q) := Advance(disk, p);
      Finish(next, q)
  }

  /** A process that runs alone and is killed after `k` steps, if it has not ended by then. */
  function Steps(disk: Disk, p: Process, k: nat): (Disk, Process) {
    if k == 0 then (disk, p)
    else
      var (next, q) := Steps(disk, p, k - 1);
      Advance(next, q)
  }

  /** The result of a pull that runs alone, and the disk after it. */
  function PulledImage(disk: Disk, request: Request): Option<Image> {
    var found := Resolved(disk.index, disk.images, request.ref);
    if found.Some? then found
    else if request.remote.Unreachable? then None
    else if request.remote.id in disk.images then Some(disk.images[request.remote.id])
    else if request.remote.arriving < |request.remote.layers| then None
    else Some(NewImage(request.ref, request.remote))
  }

  function PulledDisk(disk: Disk, request: Request): Disk {
    var image := PulledImage(disk, request);
    if Resolved(disk.index, disk.images, request.ref).Some? || image.None? then disk
    else
      var id := request.remote.id;
      disk.(index := disk.index[FullName(request.ref) := id],
            images := if id in disk.images then disk.images else disk.images[id := image.value])
  }

  /** The steps of a pull add up to its effect, and leave its process with the image. */
  lemma PullRefines(disk: Disk, request: Request, rest: Rest)
    ensures Finish(disk, Resolving(request, rest))
         == if PulledImage(disk, request).None? then disk
            else Finish(PulledDisk(disk, request), After(PulledImage(disk, request).value, rest))
  {
    var start := Resolving(request, rest);
    if Resolved(disk.index, disk.images, request.ref).Some? {
      var id := ResolvedID(disk.index, request.ref).value;
      assert Finish(disk, start) == Finish(disk, Getting(id, request, rest));
    } else {
      MissRefines(disk, request, rest);
      FetchRefines(disk, request, rest);
    }
  }

  lemma MissRefines(disk: Disk, request: Request, rest: Rest)
    requires Resolved(disk.index, disk.images, request.ref).None?
    ensures Finish(disk, Resolving(request, rest)) == Finish(disk, Fetching(request, rest))
  {
    var id := ResolvedID(disk.index, request.ref);
    if id.Some? {
      assert Finish(disk, Resolving(request, rest)) == Finish(disk, Getting(id.value, request, rest));
    }
  }

  lemma ReadingRefines(disk: Disk, id: string, names: seq<string>, image: Image, rest: Rest)
    ensures Finish(disk, Reading(id, names, image, rest))
         == Finish(disk.(index := AddNames(disk.index, names, id)), After(image, rest))
  {
    assert Finish(disk, Reading(id, names, image, rest))
        == Finish(disk, Writing(AddNames(disk.index, names, id), image, rest));
  }

  lemma SavingRefines(disk: Disk, image: Image, rest: Rest)
    ensures Finish(disk, Saving(image, rest))
         == Finish(disk.(index := AddNames(disk.index, image.repoTags, image.id),
                         images := disk.images[image.id := image]), After(image, rest))
  {
    var saved := disk.(images := disk.images[image.id := image]);
    assert Finish(disk, Saving(image, rest)) == Finish(saved, Reading(image.id, image.repoTags, image, rest));
    ReadingRefines(saved, image.id, image.repoTags, image, rest);
  }

  lemma OneName(index: Index, name: string, id: string)
    ensures AddNames(index, [name], id) == index[name := id]
  {
    assert AddNames(index, [name][..0], id) == index;
  }

  lemma FetchRefines(disk: Disk, request: Request, rest: Rest)
    requires Resolved(disk.index, disk.images, request.ref).None?
    ensures Finish(disk, Fetching(request, rest))
         == if PulledImage(disk, request).None? then disk
            else Finish(PulledDisk(disk, request), After(PulledImage(disk, request).value, rest))
  {
    if PulledImage(disk, request).Some? {
      var id, name := request.remote.id, FullName(request.ref);
      OneName(disk.index, name, id);
      if id in disk.images {
        ReadingRefines(disk, id, [name], disk.images[id], rest);
      } else {
        SavingRefines(disk, NewImage(request.ref, request.remote), rest);
      }
    }
  }

  /** The size of a list of layers is the sum of theirs. */
  lemma SizesAdd(layers: seq<Layer>, layer: Layer)
    ensures SumSizes([]) == 0 && SumSizes(layers + [layer]) == SumSizes(layers) + layer.size
  {
    assert (layers + [layer])[..|layers|] == layers;
  }

  /** A pull that downloads: whoever asks for the reference then finds the image that is stored under the
      offered ID, made now of the offered layers, with the full name as its only tag. */
  lemma PullStoresDownload(disk: Disk, request: Request)
    requires Resolved(disk.index, disk.images, request.ref).None? && request.remote.Offered?
    requires request.remote.id !in disk.images && |request.remote.layers| <= request.remote.arriving
    ensures var next, id, name := Finish(disk, Begin(Pull(request))), request.remote.id, FullName(request.ref);
            && id in next.images
            && var image := next.images[id];
            && PulledImage(disk, request) == Some(image) == Resolved(next.index, next.images, request.ref)
            && image.id == id && image.repoTags == [name] && image.created == request.remote.now
            && image.size == SumSizes(image.layers)
            && |image.layers| == |request.remote.layers|
            && (forall i | 0 <= i < |image.layers| :: image.layers[i] == request.remote.layers[i])
            && next == disk.(index := disk.index[name := id], images := disk.images[id := image])
  {
    PullRefines(disk, request, Return);
  }

  /** A pull that does not download stores no image: it finds the reference, or the offered image under its
      ID and names it, or fails and changes nothing. */
  lemma PullWithoutDownload(disk: Disk, request: Request)
    requires || Resolved(disk.index, disk.images, request.ref).Some?
             || request.remote.Unreachable?
             || request.remote.id in disk.images
             || request.remote.arriving < |request.remote.layers|
    ensures var next, found := Finish(disk, Begin(Pull(request))), Resolved(disk.index, disk.images, request.ref);
            && next.images == disk.images
            && (found.Some? ==> PulledImage(disk, request) == found && next == disk)
            && (found.None? && request.remote.Offered? && request.remote.id in disk.images ==>
                  && PulledImage(disk, request) == Some(disk.images[request.remote.id])
                  && next.index == disk.index[FullName(request.ref) := request.remote.id])
            && (found.None? && (request.remote.Unreachable? || request.remote.id !in disk.images) ==>
                  PulledImage(disk, request).None? && next == disk)
  {
    PullRefines(disk, request, Return);
  }

  /** A pulled reference is found from then on, and pulling it again changes nothing. */
  lemma PullIsIdempotent(disk: Disk, request: Request, again: Remote)
    requires PulledImage(disk, request).Some?
    ensures var next := PulledDisk(disk, request);
            && Resolved(next.index, next.images, request.ref) == PulledImage(disk, request)
            && Finish(next, Begin(Pull(Request(request.ref, again)))) == next
  {
    var next := PulledDisk(disk, request);
    PullRefines(next, Request(request.ref, again), Return);
  }

  /** Loading an archive alone: the image is stored, and all its tags name it. */
  lemma LoadRefines(disk: Disk, image: Image)
    ensures Finish(disk, Begin(LoadArchive(image)))
         == if image.repoTags == [] then disk
            else disk.(index := AddNames(disk.index, image.repoTags, image.id),
                       images := disk.images[image.id := image])
  {
    if image.repoTags != [] {
      SavingRefines(disk, image, Return);
    }
  }

  /** One after the other, all bases can be pulled. */
  predicate BasesArrive(disk: Disk, bases: seq<Request>)
    decreases |bases|
  {
    bases != [] ==> PulledImage(disk, bases[0]).Some? && BasesArrive(PulledDisk(disk, bases[0]), bases[1..])
  }

  /** A build alone whose bases can all be pulled stores its image, and all its tags name it. If some base
      cannot be pulled, the build only adds images that the bases name. */
  lemma {:induction false} BuildStores(disk: Disk, bases: seq<Request>, image: Image)
    ensures var next := Finish(disk, Begin(Build(bases, image)));
            if BasesArrive(disk, bases)
            then && image.id in next.images && next.images[image.id] == image
                 && forall tag | tag in image.repoTags :: tag in next.index && next.index[tag] == image.id
            else forall id | id in next.images ::
                   id in disk.images || exists base :: base in bases && base.remote.Offered? && base.remote.id == id
    decreases |bases|
  {
    if bases == [] {
      SavingRefines(disk, image, Return);
      AddedNames(disk.index, image.repoTags, image.id);
    } else {
      PullRefines(disk, bases[0], Commit(bases[1..], image));
      if PulledImage(disk, bases[0]).Some? {
        BuildStores(PulledDisk(disk, bases[0]), bases[1..], image);
      }
    }
  }

  /** A tag that is registered verbatim by load is found again by whoever asks for it, if it is its own
      full name. */
  lemma LoadedTagIsFound(disk: Disk, image: Image, tag: string)
    requires tag in image.repoTags && tag != ""
    ensures var next := Finish(disk, Begin(LoadArchive(image)));
            Name(tag) == tag ==> Resolved(next.index, next.images, Parse(tag).ref) == Some(image)
  {
    LoadRefines(disk, image);
    AddedNames(disk.index, image.repoTags, image.id);
  }

  /** Removing an image alone: refused while a container uses it, else all its names and its files go. */
  function RmiDisk(disk: Disk, ref: Ref): Disk {
    var found := Resolved(disk.index, disk.images, ref);
    if found.None? || InUse(disk, found.value.id) then disk
    else disk.(index := Without(disk.index, found.value.id), images := disk.images - {found.value.id})
  }

  lemma RemoveRefines(disk: Disk, id: string)
    ensures Finish(disk, RmiReading(id))
         == disk.(index := Without(disk.index, id), images := disk.images - {id})
  {
    var index := Without(disk.index, id);
    assert Finish(disk, RmiReading(id)) == Finish(disk, RmiWriting(index, id));
    var unnamed := disk.(index := index);
    assert Finish(disk, RmiWriting(index, id)) == Finish(unnamed, RmiUnlinking(id));
    var removed := unnamed.(images := disk.images - {id});
    assert Advance(unnamed, RmiUnlinking(id)) == (removed, Done);
    assert Finish(removed, Done) == removed;
  }

  lemma RmiRefines(disk: Disk, ref: Ref)
    ensures Finish(disk, Begin(Rmi(ref))) == RmiDisk(disk, ref)
  {
    assert Finish(disk, Done) == disk;
    var id := ResolvedID(disk.index, ref);
    if id.Some? {
      assert Finish(disk, RmiResolving(ref)) == Finish(disk, RmiGetting(id.value));
      if id.value in disk.images {
        var imageID := disk.images[id.value].id;
        assert Finish(disk, RmiGetting(id.value)) == Finish(disk, RmiGuarding(imageID));
        if InUse(disk, imageID) {
          assert Advance(disk, RmiGuarding(imageID)) == (disk, Done);
        } else {
          assert Advance(disk, RmiGuarding(imageID)) == (disk, RmiReading(imageID));
          RemoveRefines(disk, imageID);
        }
      } else {
        assert Advance(disk, RmiGetting(id.value)) == (disk, Done);
      }
    }
  }

  /** Removing an image alone: refused, without a change, while a container that is not stopped was made from
      it; else the image goes, every name of it, and nothing more. */
  lemma RmiForgetsOneImage(disk: Disk, ref: Ref, image: Image)
    requires Resolved(disk.index, disk.images, ref) == Some(image)
    ensures var next := Finish(disk, Begin(Rmi(ref)));
            if exists id :: id in disk.configs && Load(disk, id).value.imageID == image.id
                            && Load(disk, id).value.status != Stopped
            then next == disk
            else && next.configs == disk.configs && next.states == disk.states
                 && next.images.Keys == disk.images.Keys - {image.id}
                 && (forall id | id in next.images :: next.images[id] == disk.images[id])
                 && (forall name :: name in next.index <==> name in disk.index && disk.index[name] != image.id)
                 && forall name | name in next.index :: next.index[name] == disk.index[name]
  {
    RmiRefines(disk, ref);
  }

  function ActAll(disk: Disk, actions: seq<RecordAction>): Disk
    decreases |actions|
  {
    if actions == [] then disk else ActAll(Act(disk, actions[0]), actions[1..])
  }

  lemma {:induction false} RecordingRefines(disk: Disk, actions: seq<RecordAction>)
    ensures Finish(disk, Recording(actions)) == ActAll(disk, actions)
    decreases |actions|
  {
    if actions != [] {
      RecordingRefines(Act(disk, actions[0]), actions[1..]);
    }
  }

  lemma {:induction false} ActAllConcat(disk: Disk, first: seq<RecordAction>, second: seq<RecordAction>)
    ensures ActAll(disk, first + second) == ActAll(ActAll(disk, first), second)
    decreases |first|
  {
    if first == [] {
      assert first + second == second;
    } else {
      assert (first + second)[1..] == first[1..] + second;
      ActAllConcat(Act(disk, first[0]), first[1..], second);
    }
  }

  function SavedDisk(disk: Disk, c: Container): Disk {
    disk.(configs := disk.configs[c.id := c], states := disk.states[c.id := StateOf(c)])
  }

  function RemovedDisk(disk: Disk, id: string): Disk {
    disk.(configs := disk.configs - {id}, states := disk.states - {id})
  }

  lemma TwoActions(disk: Disk, a: RecordAction, b: RecordAction)
    ensures ActAll(disk, [a, b]) == Act(Act(disk, a), b)
  {
    assert [a, b][1..] == [b] && [b][1..] == [];
    assert ActAll(Act(disk, a), [b]) == ActAll(Act(Act(disk, a), b), []);
  }

  /** Uninterrupted, the writes of a save and of a removal act on both files at once, in either order. */
  lemma WholeActions(disk: Disk, c: Container, id: string, stateFirst: bool)
    ensures ActAll(disk, SaveActions(c)) == SavedDisk(disk, c)
    ensures ActAll(disk, RemoveActions(id, stateFirst)) == RemovedDisk(disk, id)
  {
    TwoActions(disk, PutConfig(c), PutState(c));
    TwoActions(disk, DropState(id), DropConfig(id));
    TwoActions(disk, DropConfig(id), DropState(id));
  }

  /** Saving, then saving as stopped if `attached`, then removing if `removed`. */
  lemma LaunchActions(disk: Disk, c: Container, attached: bool, removed: bool, stateFirst: bool)
    ensures var saved := SavedDisk(disk, c);
            var ended := if attached then SavedDisk(saved, c.(status := Stopped)) else saved;
            ActAll(disk, SaveActions(c) + (if attached then SaveActions(c.(status := Stopped)) else [])
                           + (if removed then RemoveActions(c.id, stateFirst) else []))
              == if removed then RemovedDisk(ended, c.id) else ended
  {
    var stopped := c.(status := Stopped);
    var middle := if attached then SaveActions(stopped) else [];
    var last := if removed then RemoveActions(c.id, stateFirst) else [];
    var saved := SavedDisk(disk, c);
    var ended := if attached then SavedDisk(saved, stopped) else saved;
    WholeActions(disk, c, c.id, stateFirst);
    WholeActions(saved, stopped, c.id, stateFirst);
    WholeActions(ended, stopped, c.id, stateFirst);
    ActAllConcat(disk, SaveActions(c), middle);
    ActAllConcat(disk, SaveActions(c) + middle, last);
    assert ActAll(disk, SaveActions(c) + middle) == ended;
  }

  /** Running alone: the image is pulled, and the record is written as created, whatever the machine does. */
  lemma RunRefines(disk: Disk, request: Request, launch: Launch)
    ensures var image := PulledImage(disk, request);
            var pulled := PulledDisk(disk, request);
            Finish(disk, Begin(Run(request, launch)))
              == if image.None? || !launch.booted then pulled
                 else ActAll(pulled, RunActions(image.value.id, launch))
  {
    PullRefines(disk, request, Boot(launch));
    var image := PulledImage(disk, request);
    if image.Some? && launch.booted {
      RecordingRefines(PulledDisk(disk, request), RunActions(image.value.id, launch));
    }
  }

  /** The record that is written twice is the one written last, and a removed one is gone. */
  lemma LastRecordCounts(disk: Disk, c: Container, attached: bool)
    ensures var last := c.(status := if attached then Stopped else c.status);
            var saved := SavedDisk(disk, c);
            var ended := if attached then SavedDisk(saved, c.(status := Stopped)) else saved;
            && ended.configs == disk.configs[c.id := last] && ended.states == disk.states[c.id := StateOf(last)]
            && RemovedDisk(ended, c.id) == RemovedDisk(disk, c.id)
  {
    var saved := SavedDisk(disk, c);
    var ended := if attached then SavedDisk(saved, c.(status := Stopped)) else saved;
    assert ended.configs - {c.id} == disk.configs - {c.id} && ended.states - {c.id} == disk.states - {c.id};
  }

  /** After the pull, run changes the one record with its own ID, and leaves none if it removes it. */
  lemma RunWritesOneRecord(disk: Disk, request: Request, launch: Launch)
    ensures var image, pulled := PulledImage(disk, request), PulledDisk(disk, request);
            var next, status := Finish(disk, Begin(Run(request, launch))), if launch.attached then Stopped else Created;
            if image.None? || !launch.booted then next == pulled
            else if launch.removed
            then next == pulled.(configs := pulled.configs - {launch.id}, states := pulled.states - {launch.id})
            else next == pulled.(
                   configs := pulled.configs[launch.id :=
                     Container(launch.id, image.value.id, status, launch.pid, launch.ip, launch.now)],
                   states := pulled.states[launch.id := StateFile(status, launch.pid, launch.ip)])
  {
    RunRefines(disk, request, launch);
    var image, pulled := PulledImage(disk, request), PulledDisk(disk, request);
    if image.Some? && launch.booted {
      var c := NewContainer(image.value.id, launch);
      LaunchActions(pulled, c, launch.attached, launch.removed, launch.stateFirst);
      LastRecordCounts(pulled, c, launch.attached);
    }
  }

  /** A run that boots and does not remove its container records it as stopped if it was attached, and
      as created if not: never as running. */
  lemma RunStatus(disk: Disk, request: Request, launch: Launch)
    requires PulledImage(disk, request).Some? && launch.booted && !launch.removed
    ensures var status := if launch.attached then Stopped else Created;
            Load(Finish(disk, Begin(Run(request, launch))), launch.id)
              == Some(Container(launch.id, PulledImage(disk, request).value.id, status, launch.pid, launch.ip,
                                launch.now))
  {
    RunWritesOneRecord(disk, request, launch);
  }

  /** A detached run leaves a record that neither stop nor start acts on, and that keeps rmi away from
      the image: stop wants a running container, start a stopped one, and this one says created. */
  lemma RunLeavesCreated(disk: Disk, request: Request, launch: Launch, other: Launch)
    requires PulledImage(disk, request).Some? && launch.booted && !launch.removed
    requires other.id == launch.id
    ensures var next := Finish(disk, Begin(Run(request, launch)));
            && Finish(next, Begin(Stop(launch.id))) == next
            && (!launch.attached ==> Finish(next, Begin(Start(other))) == next)
            && (!launch.attached ==> InUse(next, PulledImage(disk, request).value.id))
  {
    var next := Finish(disk, Begin(Run(request, launch)));
    RunStatus(disk, request, launch);
    StopRefines(next, launch.id);
    StartRefines(next, other);
  }

  /** The effects of start, stop and rm on a record, run alone. */
  function StartDisk(disk: Disk, launch: Launch): Disk {
    var c := Load(disk, launch.id);
    if c.None? || (c.value.status != Stopped && c.value.status != Failed)
       || c.value.imageID !in disk.images || !launch.booted then disk
    else
      var running := c.value.(status := Running, pid := launch.pid, ip := launch.ip);
      var started := SavedDisk(disk, running);
      if launch.attached then SavedDisk(started, running.(status := Stopped)) else started
  }

  function StopDisk(disk: Disk, id: string): Disk {
    var c := Load(disk, id);
    if c.None? || c.value.status != Running then disk else SavedDisk(disk, c.value.(status := Stopped))
  }

  function RmDisk(disk: Disk, id: string, force: bool): Disk {
    var c := Load(disk, id);
    if c.None? || (c.value.status == Running && !force) then disk
    else
      var stopped := if c.value.status == Running then SavedDisk(disk, c.value.(status := Stopped)) else disk;
      RemovedDisk(stopped, c.value.id)
  }

  lemma StartRefines(disk: Disk, launch: Launch)
    ensures Finish(disk, Begin(Start(launch))) == StartDisk(disk, launch)
  {
    assert Finish(disk, Done) == disk;
    var c := Load(disk, launch.id);
    if c.Some? && (c.value.status == Stopped || c.value.status == Failed) {
      assert Advance(disk, Starting(launch)) == (disk, StartGetting(c.value, launch));
      if c.value.imageID in disk.images && launch.booted {
        assert Advance(disk, StartGetting(c.value, launch)) == (disk, Recording(StartActions(c.value, launch)));
        RecordingRefines(disk, StartActions(c.value, launch));
        LaunchActions(disk, c.value.(status := Running, pid := launch.pid, ip := launch.ip),
                      launch.attached, false, false);
        assert StartActions(c.value, launch) + [] == StartActions(c.value, launch);
      }
    }
  }

  /** Start changes the one record that it finds, if that may be started, its image is there and the machine
      boots: status, process and address are new. */
  lemma StartWritesOneRecord(disk: Disk, launch: Launch)
    ensures var c, next := Load(disk, launch.id), Finish(disk, Begin(Start(launch)));
            var status := if launch.attached then Stopped else Running;
            if c.None? || (c.value.status != Stopped && c.value.status != Failed)
               || c.value.imageID !in disk.images || !launch.booted then next == disk
            else next == disk.(
                   configs := disk.configs[c.value.id := Container(
                     c.value.id, c.value.imageID, status, launch.pid, launch.ip, c.value.created)],
                   states := disk.states[c.value.id := StateFile(status, launch.pid, launch.ip)])
  {
    StartRefines(disk, launch);
    var c := Load(disk, launch.id);
    if c.Some? {
      LastRecordCounts(disk, c.value.(status := Running, pid := launch.pid, ip := launch.ip), launch.attached);
    }
  }

  lemma StopRefines(disk: Disk, id: string)
    ensures Finish(disk, Begin(Stop(id))) == StopDisk(disk, id)
  {
    assert Finish(disk, Done) == disk;
    var c := Load(disk, id);
    if c.Some? && c.value.status == Running {
      var stopped := c.value.(status := Stopped);
      RecordingRefines(disk, SaveActions(stopped));
      WholeActions(disk, stopped, id, false);
    }
  }

  lemma RmActs(disk: Disk, c: Container, stateFirst: bool)
    ensures var stopped := if c.status == Running then SavedDisk(disk, c.(status := Stopped)) else disk;
            ActAll(disk, RmActions(c, stateFirst)) == RemovedDisk(stopped, c.id)
  {
    var stopped := c.(status := Stopped);
    var first := if c.status == Running then SaveActions(stopped) else [];
    ActAllConcat(disk, first, RemoveActions(c.id, stateFirst));
    WholeActions(disk, stopped, c.id, stateFirst);
    WholeActions(ActAll(disk, first), stopped, c.id, stateFirst);
  }

  lemma RmRefines(disk: Disk, id: string, force: bool, stateFirst: bool)
    ensures Finish(disk, Begin(Rm(id, force, stateFirst))) == RmDisk(disk, id, force)
  {
    assert Finish(disk, Done) == disk;
    var c := Load(disk, id);
    if c.Some? && (c.value.status != Running || force) {
      RecordingRefines(disk, RmActions(c.value, stateFirst));
      RmActs(disk, c.value, stateFirst);
    }
  }

  /** Removing takes both files of the record, and of no other. */
  lemma RmRemovesOneRecord(disk: Disk, id: string, force: bool, stateFirst: bool)
    ensures var c, next := Load(disk, id), Finish(disk, Begin(Rm(id, force, stateFirst)));
            if c.None? || (c.value.status == Running && !force) then next == disk
            else next == disk.(configs := disk.configs - {c.value.id}, states := disk.states - {c.value.id})
  {
    RmRefines(disk, id, force, stateFirst);
    var c := Load(disk, id);
    if c.Some? {
      LastRecordCounts(disk, c.value.(status := Stopped), false);
    }
  }

  lemma {:induction false} FirstStep(disk: Disk, p: Process, k: nat)
    ensures Steps(disk, p, k + 1) == Steps(Advance(disk, p).0, Advance(disk, p).1, k)
  {
    if k == 0 {
      assert Steps(disk, p, 0) == (disk, p);
    } else {
      FirstStep(disk, p, k - 1);
    }
  }

  /** A process that is not killed within its rank of steps has run to its end. */
  lemma {:induction false} StepsFinish(disk: Disk, p: Process, k: nat)
    requires k >= Rank(p)
    ensures Steps(disk, p, k) == (Finish(disk, p), Done)
    decreases k
  {
    if k > 0 {
      FirstStep(disk, p, k - 1);
      if p.Done? {
        StepsFinish(disk, p, k - 1);
      } else {
        AdvanceDescends(disk, p);
        StepsFinish(Advance(disk, p).0, Advance(disk, p).1, k - 1);
      }
    }
  }
}
