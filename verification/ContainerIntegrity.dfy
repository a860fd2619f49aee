/** Containers and their images over sequences of commands, one at a time and each killed anywhere. */
module ContainerIntegrity {
  import opened Images
  import opened ImageRef
  import opened ImageStore
  import opened ContainerStore
  import opened Commands
  import opened IndexIntegrity

  /** Every container that Load reports as not stopped has its image. */
  predicate Integrity(disk: Disk) {
    forall id | id in disk.configs && Load(disk, id).value.status != Stopped ::
      Load(disk, id).value.imageID in disk.images
  }

  predicate OwnIDs(disk: Disk) {
    forall id | id in disk.configs :: disk.configs[id].id == id
  }

  /** The same for the containers that have their state file. */
  predicate StatesBacked(disk: Disk) {
    forall id | id in disk.configs && id in disk.states && disk.states[id].status != Stopped ::
      disk.configs[id].imageID in disk.images
  }

  /** No record says stopped in its state file only. */
  predicate Untorn(disk: Disk) {
    forall id | id in disk.configs && id in disk.states && disk.states[id].status == Stopped ::
      disk.configs[id].status == Stopped
  }

  /** The same for the containers that have only their configuration. */
  predicate StatelessBacked(disk: Disk) {
    forall id | id in disk.configs && id !in disk.states && disk.configs[id].status != Stopped ::
      disk.configs[id].imageID in disk.images
  }

  /** What every command keeps: with `whole`, for the containers without a state file as well. */
  predicate Backed(disk: Disk, whole: bool) {
    OwnIDs(disk) && StatesBacked(disk) && (whole ==> StatelessBacked(disk))
  }

  /** The invariant holds before, between and after the writes. */
  predicate Along(disk: Disk, actions: seq<RecordAction>, whole: bool)
    decreases actions
  {
    Backed(disk, whole) && (actions != [] ==> Along(Act(disk, actions[0]), actions[1..], whole))
  }

  /** The record may lose its state file: its configuration then says stopped, or its image is there. */
  predicate MayLoseState(disk: Disk, id: string) {
    id in disk.configs && id in disk.states && disk.configs[id].status != Stopped ==>
      disk.configs[id].imageID in disk.images
  }

  /** What a process holds in memory fits the records. */
  predicate RecordsFit(disk: Disk, p: Process, whole: bool) {
    match p
    case Reading(_, _, image, _) => image.id in disk.images
    case Writing(_, image, _) => image.id in disk.images
    case RmiReading(id) => !InUse(disk, id)
    case RmiWriting(_, id) => !InUse(disk, id)
    case RmiUnlinking(id) => !InUse(disk, id)
    case StartGetting(c, launch) => Load(disk, launch.id) == Some(c)
    case Removing(id, _, stateFirst) => whole && stateFirst ==> MayLoseState(disk, id)
    case Recording(actions) => Along(disk, actions, whole)
    case _ => true
  }

  lemma RemoveAlong(disk: Disk, id: string, stateFirst: bool, whole: bool)
    requires Backed(disk, whole) && (whole && stateFirst ==> MayLoseState(disk, id))
    ensures Along(disk, RemoveActions(id, stateFirst), whole)
  {
    var actions := RemoveActions(id, stateFirst);
    var middle := Act(disk, actions[0]);
    assert Backed(middle, whole) && Backed(Act(middle, actions[1]), whole);
    assert actions[1..] == [actions[1]];
  }

  /** The image is there, or the record already names it and becomes a stopped one. */
  predicate MaySave(disk: Disk, c: Container) {
    c.imageID in disk.images
    || (c.status == Stopped && c.id in disk.configs && disk.configs[c.id].imageID == c.imageID)
  }

  lemma ConfigSaved(disk: Disk, c: Container, whole: bool)
    requires Backed(disk, whole) && MaySave(disk, c)
    ensures Backed(Act(disk, PutConfig(c)), whole)
  {
  }

  /** A save keeps the invariant at each of its writes. */
  lemma SaveAlong(disk: Disk, c: Container, rest: seq<RecordAction>, whole: bool)
    requires Backed(disk, whole) && MaySave(disk, c)
    requires Along(Act(Act(disk, PutConfig(c)), PutState(c)), rest, whole)
    ensures Along(disk, SaveActions(c) + rest, whole)
  {
    var actions := SaveActions(c) + rest;
    ConfigSaved(disk, c, whole);
    assert actions[1..] == [PutState(c)] + rest && actions[1..][1..] == rest;
    assert Along(Act(disk, PutConfig(c)), actions[1..], whole);
  }

  lemma Saved(disk: Disk, c: Container, whole: bool)
    requires Backed(disk, whole) && MaySave(disk, c)
    ensures Backed(Act(Act(disk, PutConfig(c)), PutState(c)), whole)
  {
  }

  /** Saving, then perhaps saving as stopped, then perhaps removing. */
  lemma LaunchAlong(disk: Disk, c: Container, attached: bool, last: seq<RecordAction>, whole: bool)
    requires Backed(disk, whole) && c.imageID in disk.images
    requires last == [] || last == RemoveActions(c.id, false) || last == RemoveActions(c.id, true)
    ensures Along(disk, SaveActions(c) + (if attached then SaveActions(c.(status := Stopped)) else []) + last, whole)
  {
    var one := Act(Act(disk, PutConfig(c)), PutState(c));
    Saved(disk, c, whole);
    var stopped := c.(status := Stopped);
    var two := Act(Act(one, PutConfig(stopped)), PutState(stopped));
    Saved(one, stopped, whole);
    forall d | d == one || d == two ensures Along(d, last, whole) {
      if last != [] {
        RemoveAlong(d, c.id, last != RemoveActions(c.id, false), whole);
      }
    }
    if attached {
      SaveAlong(one, stopped, last, whole);
      SaveAlong(disk, c, SaveActions(stopped) + last, whole);
      assert SaveActions(c) + SaveActions(stopped) + last == SaveActions(c) + (SaveActions(stopped) + last);
    } else {
      SaveAlong(disk, c, last, whole);
      assert SaveActions(c) + [] + last == SaveActions(c) + last;
    }
  }

  lemma AfterFitsRecords(disk: Disk, image: Image, rest: Rest, whole: bool)
    requires Backed(disk, whole) && image.id in disk.images
    ensures RecordsFit(disk, After(image, rest), whole)
  {
    if rest.Boot? && rest.launch.booted {
      var l := rest.launch;
      LaunchAlong(disk, NewContainer(image.id, l), l.attached,
                  if l.removed then RemoveActions(l.id, l.stateFirst) else [], whole);
    }
  }

  lemma StartFits(disk: Disk, c: Container, launch: Launch, whole: bool)
    requires Backed(disk, whole) && c.imageID in disk.images
    ensures Along(disk, StartActions(c, launch), whole)
  {
    var running := c.(status := Running, pid := launch.pid, ip := launch.ip);
    LaunchAlong(disk, running, launch.attached, [], whole);
    assert StartActions(c, launch) + [] == StartActions(c, launch);
  }

  lemma StopFits(disk: Disk, c: Container, whole: bool)
    requires Backed(disk, whole) && Load(disk, c.id) == Some(c)
    ensures Along(disk, SaveActions(c.(status := Stopped)), whole)
  {
    var stopped := c.(status := Stopped);
    Saved(disk, stopped, whole);
    SaveAlong(disk, stopped, [], whole);
    assert SaveActions(stopped) + [] == SaveActions(stopped);
  }

  lemma RmFits(disk: Disk, c: Container, stateFirst: bool, whole: bool)
    requires Backed(disk, whole) && Load(disk, c.id) == Some(c)
    requires whole && stateFirst ==> MayLoseState(disk, c.id)
    ensures Along(disk, RmActions(c, stateFirst), whole)
  {
    var stopped := c.(status := Stopped);
    var next := Act(Act(disk, PutConfig(stopped)), PutState(stopped));
    if c.status == Running {
      Saved(disk, stopped, whole);
      RemoveAlong(next, c.id, stateFirst, whole);
      SaveAlong(disk, stopped, RemoveActions(c.id, stateFirst), whole);
    } else {
      RemoveAlong(disk, c.id, stateFirst, whole);
      assert [] + RemoveActions(c.id, stateFirst) == RemoveActions(c.id, stateFirst);
    }
  }

  lemma LoadedOwnID(disk: Disk, id: string)
    requires OwnIDs(disk) && id in disk.configs
    ensures Load(disk, id).value.id == id
  {
  }

  /** An image that nothing uses can go: what loads as in use includes all that counts. */
  lemma FreeImageCanGo(disk: Disk, imageID: string, whole: bool)
    requires Backed(disk, whole) && !InUse(disk, imageID)
    ensures Backed(disk.(images := disk.images - {imageID}), whole)
  {
    forall id | id in disk.configs && Load(disk, id).value.status != Stopped
      ensures Load(disk, id).value.imageID != imageID
    {
    }
    forall id | id in disk.configs && id in disk.states && disk.states[id].status != Stopped
      ensures disk.configs[id].imageID != imageID
    {
      assert Load(disk, id).value.status != Stopped;
    }
    forall id | id in disk.configs && id !in disk.states && disk.configs[id].status != Stopped
      ensures disk.configs[id].imageID != imageID
    {
      assert Load(disk, id).value.status != Stopped;
    }
  }

  predicate Pulls(p: Process) {
    p.Resolving? || p.Getting? || p.Fetching? || p.Saving? || p.Reading? || p.Writing?
  }

  lemma PullStepKeepsBacked(disk: Disk, p: Process, whole: bool)
    requires Sound(disk) && Fits(disk, p) && Backed(disk, whole) && RecordsFit(disk, p, whole) && Pulls(p)
    ensures Backed(Advance(disk, p).0, whole)
    ensures RecordsFit(Advance(disk, p).0, Advance(disk, p).1, whole)
  {
    match p
    case Getting(id, request, rest) =>
      if id in disk.images {
        AfterFitsRecords(disk, disk.images[id], rest, whole);
      }
    case Writing(index, image, rest) => AfterFitsRecords(disk.(index := index), image, rest, whole);
    case _ =>
  }

  lemma RmiStepKeepsBacked(disk: Disk, p: Process, whole: bool)
    requires Backed(disk, whole) && RecordsFit(disk, p, whole) && Removes(p)
    ensures Backed(Advance(disk, p).0, whole)
    ensures RecordsFit(Advance(disk, p).0, Advance(disk, p).1, whole)
  {
    match p
    case RmiWriting(index, id) => SameRecordsFree(disk, disk.(index := index), id);
    case RmiUnlinking(id) => FreeImageCanGo(disk, id, whole);
    case _ =>
  }

  lemma SameRecordsFree(disk: Disk, next: Disk, imageID: string)
    requires !InUse(disk, imageID) && next.configs == disk.configs && next.states == disk.states
    ensures !InUse(next, imageID)
  {
    assert forall id :: Load(next, id) == Load(disk, id);
  }

  lemma RecordStepKeepsBacked(disk: Disk, p: Process, whole: bool)
    requires Backed(disk, whole) && RecordsFit(disk, p, whole) && !Pulls(p) && !Removes(p)
    ensures Backed(Advance(disk, p).0, whole)
    ensures RecordsFit(Advance(disk, p).0, Advance(disk, p).1, whole)
  {
    match p
    case StartGetting(c, launch) =>
      if c.imageID in disk.images {
        StartFits(disk, c, launch, whole);
      }
    case Stopping(id) =>
      if id in disk.configs {
        LoadedOwnID(disk, id);
        StopFits(disk, Load(disk, id).value, whole);
      }
    case Removing(id, force, stateFirst) =>
      if id in disk.configs {
        LoadedOwnID(disk, id);
        RmFits(disk, Load(disk, id).value, stateFirst, whole);
      }
    case Recording(actions) =>
      if actions != [] {
        assert Along(Act(disk, actions[0]), actions[1..], whole);
      }
    case _ =>
  }

  lemma StepKeepsBacked(disk: Disk, p: Process, whole: bool)
    requires Sound(disk) && Fits(disk, p) && Backed(disk, whole) && RecordsFit(disk, p, whole)
    ensures Backed(Advance(disk, p).0, whole)
    ensures RecordsFit(Advance(disk, p).0, Advance(disk, p).1, whole)
  {
    if Pulls(p) {
      PullStepKeepsBacked(disk, p, whole);
    } else if Removes(p) {
      RmiStepKeepsBacked(disk, p, whole);
    } else {
      RecordStepKeepsBacked(disk, p, whole);
    }
  }

  lemma BeginFitsRecords(disk: Disk, command: Command, whole: bool)
    requires Backed(disk, whole)
    requires whole && command.Rm? && command.stateFirst ==> MayLoseState(disk, command.id)
    ensures RecordsFit(disk, Begin(command), whole)
  {
    if command.Build? && command.bases == [] {
      assert Begin(command) == Saving(command.image, Return);
    }
  }

  lemma {:induction false} StepsKeepBacked(disk: Disk, p: Process, k: nat, whole: bool)
    requires Sound(disk) && Fits(disk, p) && Backed(disk, whole) && RecordsFit(disk, p, whole)
    ensures var (next, q) := Steps(disk, p, k); Sound(next) && Backed(next, whole)
    ensures var (next, q) := Steps(disk, p, k); Fits(next, q) && RecordsFit(next, q, whole)
  {
    if k > 0 {
      StepsKeepBacked(disk, p, k - 1, whole);
      var (next, q) := Steps(disk, p, k - 1);
      StepKeepsSound(next, q);
      StepKeepsBacked(next, q, whole);
    }
  }

  lemma CommandKeepsBacked(disk: Disk, command: Command, k: nat, whole: bool)
    requires Sound(disk) && Backed(disk, whole)
    requires whole && command.Rm? && command.stateFirst ==> MayLoseState(disk, command.id)
    ensures Sound(Steps(disk, Begin(command), k).0) && Backed(Steps(disk, Begin(command), k).0, whole)
  {
    BeginFits(disk, command);
    BeginFitsRecords(disk, command, whole);
    StepsKeepBacked(disk, Begin(command), k, whole);
  }

  /** Over every sequence of commands killed anywhere: a container with a state file that Load reports
      as not stopped has its image. */
  lemma {:induction false} ContainersWithStateKeepImages(disk: Disk, jobs: seq<Job>)
    requires Sound(disk) && OwnIDs(disk) && StatesBacked(disk)
    ensures var end := Sequence(disk, jobs);
            && Sound(end) && OwnIDs(end) && StatesBacked(end)
            && forall id | id in end.configs && id in end.states && Load(end, id).value.status != Stopped ::
                 Load(end, id).value.imageID in end.images
  {
    if jobs != [] {
      var n := |jobs| - 1;
      ContainersWithStateKeepImages(disk, jobs[..n]);
      CommandKeepsBacked(Sequence(disk, jobs[..n]), jobs[n].command, jobs[n].steps, false);
    }
  }

  lemma BothBacked(disk: Disk)
    ensures Integrity(disk) <==> StatesBacked(disk) && StatelessBacked(disk)
  {
    if Integrity(disk) {
      forall id | id in disk.configs && id in disk.states && disk.states[id].status != Stopped
        ensures disk.configs[id].imageID in disk.images
      {
        assert Load(disk, id).value.status != Stopped;
      }
      forall id | id in disk.configs && id !in disk.states && disk.configs[id].status != Stopped
        ensures disk.configs[id].imageID in disk.images
      {
        assert Load(disk, id).value.status != Stopped;
      }
    }
  }

  /** A removal that unlinks the state file first is killed right behind that unlink, and the configuration
      that is left does not say stopped and has lost its image. */
  predicate BadKill(disk: Disk, command: Command, k: nat) {
    && command.Rm? && command.stateFirst && k == 2
    && command.id in disk.configs && command.id in disk.states
    && disk.configs[command.id].status != Stopped && disk.configs[command.id].imageID !in disk.images
  }

  /** Between the two unlinks: losing the state file keeps integrity if and only if the configuration
      that is left says stopped or its image is still there. */
  lemma LosingTheState(disk: Disk, id: string)
    requires Integrity(disk) && id in disk.configs
    ensures Integrity(Act(disk, DropState(id)))
       <==> disk.configs[id].status == Stopped || disk.configs[id].imageID in disk.images
  {
    var next := Act(disk, DropState(id));
    assert Load(next, id) == Some(disk.configs[id]);
    assert forall other | other != id :: Load(next, other) == Load(disk, other);
  }

  lemma LosingTheRecord(disk: Disk, id: string)
    requires Integrity(disk)
    ensures Integrity(RemovedDisk(disk, id))
  {
    assert forall other | other != id :: Load(RemovedDisk(disk, id), other) == Load(disk, other);
  }

  lemma NothingToSave(c: Container, stateFirst: bool)
    requires c.status != Running
    ensures RmActions(c, stateFirst) == RemoveActions(c.id, stateFirst)
  {
  }

  /** The disks of a removal that unlinks the state file of a stopped container first. */
  lemma RemovalSteps(disk: Disk, id: string, force: bool, k: nat)
    requires id in disk.configs && disk.configs[id].id == id && id in disk.states && disk.states[id].status == Stopped
    ensures Steps(disk, Begin(Rm(id, force, true)), k).0
         == if k < 2 then disk else if k == 2 then Act(disk, DropState(id)) else RemovedDisk(disk, id)
    ensures k == 2 ==> Steps(disk, Begin(Rm(id, force, true)), k).1 == Recording([DropConfig(id)])
  {
    var p := Begin(Rm(id, force, true));
    var dropped := Act(disk, DropState(id));
    NothingToSave(Load(disk, id).value, true);
    assert Steps(disk, p, 0) == (disk, p);
    assert Steps(disk, p, 1) == (disk, Recording([DropState(id), DropConfig(id)]));
    assert Steps(disk, p, 2) == (dropped, Recording([DropConfig(id)])) by {
      assert [DropState(id), DropConfig(id)][1..] == [DropConfig(id)];
    }
    assert Steps(disk, p, 3) == (RemovedDisk(disk, id), Recording([])) by {
      assert [DropConfig(id)][1..] == [];
    }
    if k >= 3 {
      EndStays(disk, p, 3, k, RemovedDisk(disk, id));
    }
  }

  lemma {:induction false} EndStays(disk: Disk, p: Process, n: nat, k: nat, end: Disk)
    requires n <= k && Steps(disk, p, n) == (end, Recording([]))
    ensures Steps(disk, p, k) == (end, Recording([])) || Steps(disk, p, k) == (end, Done)
    decreases k
  {
    if n < k {
      EndStays(disk, p, n, k - 1, end);
    }
  }

  /** The exact statement for one command: from a disk on which every container that loads as not stopped
      has its image, any command that is killed after any number of steps leaves such a disk, if and
      only if that is no bad kill. */
  lemma IntegrityExactly(disk: Disk, command: Command, k: nat)
    requires Sound(disk) && OwnIDs(disk) && Integrity(disk)
    ensures var next := Steps(disk, Begin(command), k).0;
            && Sound(next) && OwnIDs(next)
            && (Integrity(next) <==> !BadKill(disk, command, k))
  {
    var next := Steps(disk, Begin(command), k).0;
    BothBacked(disk);
    CommandKeepsBacked(disk, command, k, false);
    if command.Rm? && command.stateFirst && !MayLoseState(disk, command.id) {
      var id := command.id;
      assert disk.states[id].status == Stopped;
      RemovalSteps(disk, id, command.force, k);
      LosingTheState(disk, id);
      LosingTheRecord(disk, id);
    } else {
      CommandKeepsBacked(disk, command, k, true);
      BothBacked(next);
    }
  }

  predicate IntactAfter(disk: Disk, jobs: seq<Job>, n: nat)
    requires n <= |jobs|
  {
    Integrity(Sequence(disk, jobs[..n]))
  }

  /** Integrity holds after every job of the sequence. */
  predicate Throughout(disk: Disk, jobs: seq<Job>) {
    forall n: nat | n <= |jobs| :: IntactAfter(disk, jobs, n)
  }

  predicate BadJob(disk: Disk, jobs: seq<Job>, n: nat)
    requires n < |jobs|
  {
    BadKill(Sequence(disk, jobs[..n]), jobs[n].command, jobs[n].steps)
  }

  /** No job of the sequence is a bad kill on the disk that it finds. */
  predicate NoBadKill(disk: Disk, jobs: seq<Job>) {
    forall n: nat | n < |jobs| :: !BadJob(disk, jobs, n)
  }

  lemma NextThroughout(disk: Disk, jobs: seq<Job>)
    requires jobs != []
    ensures Throughout(disk, jobs) <==> Throughout(disk, jobs[..|jobs| - 1]) && IntactAfter(disk, jobs, |jobs|)
  {
    var front := jobs[..|jobs| - 1];
    forall n: nat | n <= |front| ensures IntactAfter(disk, jobs, n) == IntactAfter(disk, front, n) {
      assert jobs[..n] == front[..n];
    }
  }

  lemma NextBadKill(disk: Disk, jobs: seq<Job>)
    requires jobs != []
    ensures NoBadKill(disk, jobs) <==> NoBadKill(disk, jobs[..|jobs| - 1]) && !BadJob(disk, jobs, |jobs| - 1)
  {
    var front := jobs[..|jobs| - 1];
    forall n: nat | n < |front| ensures BadJob(disk, jobs, n) == BadJob(disk, front, n) {
      assert jobs[..n] == front[..n];
    }
  }

  /** The exact statement for sequences of commands, one at a time and each killed anywhere: every
      container that loads as not stopped has its image after every command, if and only if no command
      is a bad kill on the disk that it finds. */
  lemma {:induction false} IntegrityOfSequences(disk: Disk, jobs: seq<Job>)
    requires Sound(disk) && OwnIDs(disk) && Integrity(disk)
    ensures Throughout(disk, jobs) <==> NoBadKill(disk, jobs)
    ensures Sound(Sequence(disk, jobs)) && OwnIDs(Sequence(disk, jobs))
  {
    if jobs == [] {
      assert jobs[..0] == [];
    } else {
      var front, last := jobs[..|jobs| - 1], jobs[|jobs| - 1];
      BothBacked(disk);
      ContainersWithStateKeepImages(disk, jobs);
      IntegrityOfSequences(disk, front);
      NextThroughout(disk, jobs);
      NextBadKill(disk, jobs);
      if Throughout(disk, front) {
        assert IntactAfter(disk, front, |front|);
        assert front[..|front|] == front && jobs[..|jobs|] == jobs;
        IntegrityExactly(Sequence(disk, front), last.command, last.steps);
      }
    }
  }

  /** Where the process of job `n` of a sequence stands when it is killed or has ended. */
  function KilledAt(disk: Disk, jobs: seq<Job>, n: nat): Process
    requires n < |jobs|
  {
    Steps(Sequence(disk, jobs[..n]), Begin(jobs[n].command), jobs[n].steps).1
  }

  /** A removal has unlinked the state file and not the configuration. */
  predicate HalfRemoved(p: Process) {
    p.Recording? && |p.actions| == 1 && p.actions[0].DropConfig?
  }

  lemma BadKillIsHalfRemoval(disk: Disk, command: Command, k: nat)
    requires OwnIDs(disk) && StatesBacked(disk)
    ensures BadKill(disk, command, k) ==> HalfRemoved(Steps(disk, Begin(command), k).1)
  {
    if BadKill(disk, command, k) {
      RemovalSteps(disk, command.id, command.force, k);
    }
  }

  /** So integrity is kept, whatever saves are killed, if no removal is killed between its unlinks. */
  lemma WholeRemovalsKeepIntegrity(disk: Disk, jobs: seq<Job>)
    requires Sound(disk) && OwnIDs(disk) && Integrity(disk)
    requires forall n: nat | n < |jobs| :: !HalfRemoved(KilledAt(disk, jobs, n))
    ensures Throughout(disk, jobs)
  {
    BothBacked(disk);
    forall n: nat | n < |jobs| ensures !BadJob(disk, jobs, n) {
      ContainersWithStateKeepImages(disk, jobs[..n]);
      BadKillIsHalfRemoval(Sequence(disk, jobs[..n]), jobs[n].command, jobs[n].steps);
      assert !HalfRemoved(KilledAt(disk, jobs, n));
    }
    IntegrityOfSequences(disk, jobs);
  }

  /** And if removals unlink the configuration first, whatever is killed. */
  lemma ConfigFirstKeepsIntegrity(disk: Disk, jobs: seq<Job>)
    requires Sound(disk) && OwnIDs(disk) && Integrity(disk)
    requires forall job | job in jobs :: job.command.Rm? ==> !job.command.stateFirst
    ensures Throughout(disk, jobs)
  {
    forall n: nat | n < |jobs| ensures !BadJob(disk, jobs, n) {
      assert jobs[n] in jobs;
    }
    IntegrityOfSequences(disk, jobs);
  }

  /** A save is cut: the configuration with a status other than stopped is written, the state is not. */
  predicate Cut(p: Process) {
    p.Recording? && p.actions != [] && p.actions[0].PutState? && p.actions[0].c.status != Stopped
  }

  /** Every save writes the configuration and then at once the state. */
  predicate Paired(actions: seq<RecordAction>)
    decreases |actions|
  {
    if actions == [] then true
    else if actions[0].PutConfig? then
      |actions| >= 2 && actions[1] == PutState(actions[0].c) && Paired(actions[2..])
    else !actions[0].PutState? && Paired(actions[1..])
  }

  /** Only the record whose save is under way may be torn. */
  predicate TornBy(disk: Disk, p: Process) {
    if p.Recording? && p.actions != [] && p.actions[0].PutState? then
      var c := p.actions[0].c;
      && Paired(p.actions[1..])
      && c.id in disk.configs && disk.configs[c.id] == c
      && forall id | id in disk.configs && id in disk.states && disk.states[id].status == Stopped && id != c.id ::
           disk.configs[id].status == Stopped
    else
      Untorn(disk) && (p.Recording? ==> Paired(p.actions))
  }

  lemma {:induction false} PairedThen(actions: seq<RecordAction>, rest: seq<RecordAction>)
    requires Paired(actions) && Paired(rest)
    ensures Paired(actions + rest)
    decreases |actions|
  {
    if actions == [] {
      assert actions + rest == rest;
    } else if actions[0].PutConfig? {
      PairedThen(actions[2..], rest);
      assert (actions + rest)[0] == actions[0] && (actions + rest)[1] == actions[1];
      assert (actions + rest)[2..] == actions[2..] + rest;
    } else {
      PairedThen(actions[1..], rest);
      assert (actions + rest)[1..] == actions[1..] + rest;
    }
  }

  lemma PairedPieces(c: Container, id: string, stateFirst: bool)
    ensures Paired(SaveActions(c)) && Paired(RemoveActions(id, stateFirst))
  {
    assert SaveActions(c)[2..] == [];
    var actions := RemoveActions(id, stateFirst);
    assert actions[1..][1..] == [];
  }

  lemma RunPaired(imageID: string, launch: Launch)
    ensures Paired(RunActions(imageID, launch))
  {
    var c := NewContainer(imageID, launch);
    PairedPieces(c, launch.id, launch.stateFirst);
    PairedPieces(c.(status := Stopped), launch.id, launch.stateFirst);
    var second := if launch.attached then SaveActions(c.(status := Stopped)) else [];
    PairedThen(SaveActions(c), second);
    PairedThen(SaveActions(c) + second, if launch.removed then RemoveActions(launch.id, launch.stateFirst) else []);
  }

  lemma StartPaired(c: Container, launch: Launch)
    ensures Paired(StartActions(c, launch))
  {
    var running := c.(status := Running, pid := launch.pid, ip := launch.ip);
    PairedPieces(running, "", false);
    PairedPieces(running.(status := Stopped), "", false);
    PairedThen(SaveActions(running), if launch.attached then SaveActions(running.(status := Stopped)) else []);
  }

  lemma RmPaired(c: Container, stateFirst: bool)
    ensures Paired(RmActions(c, stateFirst)) && Paired(SaveActions(c.(status := Stopped)))
  {
    PairedPieces(c.(status := Stopped), c.id, stateFirst);
    PairedThen(if c.status == Running then SaveActions(c.(status := Stopped)) else [], RemoveActions(c.id, stateFirst));
  }

  lemma AfterTornByNone(disk: Disk, image: Image, rest: Rest)
    requires Untorn(disk)
    ensures TornBy(disk, After(image, rest))
  {
    if rest.Boot? && rest.launch.booted {
      RunPaired(image.id, rest.launch);
    }
  }

  lemma ActionKeepsTorn(disk: Disk, actions: seq<RecordAction>)
    requires TornBy(disk, Recording(actions)) && actions != []
    ensures TornBy(Act(disk, actions[0]), Recording(actions[1..]))
  {
    if actions[0].PutConfig? {
      assert actions[1..][0] == actions[1] && actions[1..][1..] == actions[2..];
    } else {
      assert Paired(actions[1..]);
      assert actions[1..] != [] ==> !actions[1..][0].PutState?;
    }
  }

  lemma ImageStepKeepsTorn(disk: Disk, p: Process)
    requires TornBy(disk, p) && (Pulls(p) || Removes(p))
    ensures TornBy(Advance(disk, p).0, Advance(disk, p).1)
  {
    match p
    case Getting(id, request, rest) =>
      if id in disk.images {
        AfterTornByNone(disk, disk.images[id], rest);
      }
    case Writing(index, image, rest) => AfterTornByNone(disk.(index := index), image, rest);
    case _ =>
  }

  lemma RecordStepKeepsTorn(disk: Disk, p: Process)
    requires TornBy(disk, p) && !Pulls(p) && !Removes(p)
    ensures TornBy(Advance(disk, p).0, Advance(disk, p).1)
  {
    match p
    case StartGetting(c, launch) => StartPaired(c, launch);
    case Stopping(id) =>
      if id in disk.configs {
        RmPaired(Load(disk, id).value, true);
      }
    case Removing(id, force, stateFirst) =>
      if id in disk.configs {
        RmPaired(Load(disk, id).value, stateFirst);
      }
    case Recording(actions) =>
      if actions != [] {
        ActionKeepsTorn(disk, actions);
      }
    case _ =>
  }

  lemma StepKeepsTorn(disk: Disk, p: Process)
    requires TornBy(disk, p)
    ensures TornBy(Advance(disk, p).0, Advance(disk, p).1)
  {
    if Pulls(p) || Removes(p) {
      ImageStepKeepsTorn(disk, p);
    } else {
      RecordStepKeepsTorn(disk, p);
    }
  }

  lemma {:induction false} StepsKeepTorn(disk: Disk, p: Process, k: nat)
    requires TornBy(disk, p)
    ensures TornBy(Steps(disk, p, k).0, Steps(disk, p, k).1)
  {
    if k > 0 {
      StepsKeepTorn(disk, p, k - 1);
      var (next, q) := Steps(disk, p, k - 1);
      StepKeepsTorn(next, q);
    }
  }

  lemma UncutIsUntorn(disk: Disk, p: Process)
    requires TornBy(disk, p) && !Cut(p)
    ensures Untorn(disk)
  {
  }

  lemma BeginTornByNone(disk: Disk, command: Command)
    requires Untorn(disk)
    ensures TornBy(disk, Begin(command))
  {
  }

  /** No job is killed between the two writes of a save that does not say stopped. */
  predicate NoneCut(disk: Disk, jobs: seq<Job>) {
    forall n: nat | n < |jobs| :: !Cut(KilledAt(disk, jobs, n))
  }

  lemma {:induction false} UncutSequence(disk: Disk, jobs: seq<Job>)
    requires Untorn(disk) && NoneCut(disk, jobs)
    ensures Untorn(Sequence(disk, jobs))
  {
    if jobs != [] {
      var n := |jobs| - 1;
      NoneCutBefore(disk, jobs, n);
      UncutSequence(disk, jobs[..n]);
      var before := Sequence(disk, jobs[..n]);
      BeginTornByNone(before, jobs[n].command);
      StepsKeepTorn(before, Begin(jobs[n].command), jobs[n].steps);
      UncutIsUntorn(Sequence(disk, jobs), KilledAt(disk, jobs, n));
    }
  }

  lemma NoneCutBefore(disk: Disk, jobs: seq<Job>, n: nat)
    requires n <= |jobs| && NoneCut(disk, jobs)
    ensures NoneCut(disk, jobs[..n])
  {
    forall m: nat | m < n ensures KilledAt(disk, jobs[..n], m) == KilledAt(disk, jobs, m) {
      assert jobs[..n][..m] == jobs[..m];
    }
  }

  lemma UntornIsNotBad(disk: Disk, command: Command, k: nat)
    requires StatesBacked(disk) && Untorn(disk)
    ensures !BadKill(disk, command, k)
  {
  }

  /** And if no save was cut before the last job, wherever that one is killed: a bad kill needs a record
      whose two files disagree. */
  lemma UncutSavesKeepIntegrity(disk: Disk, jobs: seq<Job>)
    requires Sound(disk) && OwnIDs(disk) && Integrity(disk) && Untorn(disk)
    requires jobs != [] ==> NoneCut(disk, jobs[..|jobs| - 1])
    ensures Throughout(disk, jobs)
  {
    BothBacked(disk);
    forall n: nat | n < |jobs| ensures !BadJob(disk, jobs, n) {
      var front := jobs[..|jobs| - 1];
      NoneCutBefore(disk, front, n);
      assert front[..n] == jobs[..n];
      UncutSequence(disk, jobs[..n]);
      ContainersWithStateKeepImages(disk, jobs[..n]);
      UntornIsNotBad(Sequence(disk, jobs[..n]), jobs[n].command, jobs[n].steps);
    }
    IntegrityOfSequences(disk, jobs);
  }

  /** A container that is stopped in both of its files. */
  predicate StoppedIn(disk: Disk, id: string) {
    && id in disk.configs && disk.configs[id].id == id && disk.configs[id].status == Stopped
    && id in disk.states && disk.states[id].status == Stopped
  }

  lemma StartIsCut(disk: Disk, launch: Launch)
    requires StoppedIn(disk, launch.id) && disk.configs[launch.id].imageID in disk.images && launch.booted
    ensures var c := Load(disk, launch.id).value.(status := Running, pid := launch.pid, ip := launch.ip);
            Steps(disk, Begin(Start(launch)), 3).0 == disk.(configs := disk.configs[launch.id := c])
  {
    var p := Begin(Start(launch));
    var c := Load(disk, launch.id).value;
    assert Steps(disk, p, 1) == (disk, StartGetting(c, launch));
    assert Steps(disk, p, 2) == (disk, Recording(StartActions(c, launch)));
  }

  lemma RmiIsDone(disk: Disk, ref: Ref, id: string)
    requires ResolvedID(disk.index, ref) == Some(id) && id in disk.images && disk.images[id].id == id
    requires !InUse(disk, id)
    ensures Steps(disk, Begin(Rmi(ref)), 6)
         == (disk.(index := Without(disk.index, id), images := disk.images - {id}), Done)
  {
    var p := Begin(Rmi(ref));
    assert Steps(disk, p, 1) == (disk, RmiGetting(id));
    assert Steps(disk, p, 2) == (disk, RmiGuarding(id));
    assert Steps(disk, p, 3) == (disk, RmiReading(id));
    assert Steps(disk, p, 4) == (disk, RmiWriting(Without(disk.index, id), id));
    assert Steps(disk, p, 5) == (disk.(index := Without(disk.index, id)), RmiUnlinking(id));
  }

  /** Both crashes together break integrity. A start is killed between its two writes, the image of the
      container, which still loads as stopped, is removed, and a removal of the container is killed after
      it has unlinked the state file: now the container loads as running, and its image is gone. */
  lemma TwoCrashesBreakIntegrity(disk: Disk, launch: Launch, ref: Ref)
    requires StoppedIn(disk, launch.id) && launch.booted
    requires var imageID := disk.configs[launch.id].imageID;
             && ResolvedID(disk.index, ref) == Some(imageID) && imageID in disk.images
             && disk.images[imageID].id == imageID && !InUse(disk, imageID)
    ensures var jobs := [Job(Start(launch), 3), Job(Rmi(ref), 6), Job(Rm(launch.id, false, true), 2)];
            var end := Sequence(disk, jobs);
            && launch.id in end.configs && Load(end, launch.id).value.status == Running
            && Load(end, launch.id).value.imageID !in end.images
            && !Integrity(end)
  {
    var id := launch.id;
    var imageID := disk.configs[id].imageID;
    var jobs := [Job(Start(launch), 3), Job(Rmi(ref), 6), Job(Rm(id, false, true), 2)];
    StartIsCut(disk, launch);
    var d1 := Steps(disk, Begin(Start(launch)), 3).0;
    assert !InUse(d1, imageID) by {
      assert Load(d1, id).value.status == Stopped;
      assert forall other | other != id :: Load(d1, other) == Load(disk, other);
    }
    RmiIsDone(d1, ref, imageID);
    var d2 := d1.(index := Without(d1.index, imageID), images := d1.images - {imageID});
    RemovalSteps(d2, id, false, 2);
    assert jobs[..2][..1] == jobs[..1] && jobs[..1][..0] == [];
    assert Sequence(disk, jobs[..1]) == d1;
    assert Sequence(disk, jobs[..2]) == d2;
    var end := d2.(states := d2.states - {id});
    assert Sequence(disk, jobs) == end;
    assert Load(end, id) == Some(d1.configs[id]);
  }

  lemma {:induction false} SequenceConcat(disk: Disk, first: seq<Job>, second: seq<Job>)
    ensures Sequence(disk, first + second) == Sequence(Sequence(disk, first), second)
    decreases |second|
  {
    if second == [] {
      assert first + second == first;
    } else {
      var n := |second| - 1;
      assert (first + second)[..|first| + n] == first + second[..n];
      SequenceConcat(disk, first, second[..n]);
    }
  }

  const EMPTY := Disk(map[], map[], map[], map[])

  /** From nothing to a container that is stopped in both files: load an image, and run it attached. */
  lemma StoppedFromScratch(image: Image, ref: Ref, launch: Launch)
    requires image.repoTags == [FullName(ref)]
    requires launch.booted && launch.attached && !launch.removed
    ensures var run := Commands.Run(Request(ref, Unreachable), launch);
            var end := Sequence(EMPTY, [Job(LoadArchive(image), 3), Job(run, 18)]);
            && StoppedIn(end, launch.id) && end.configs[launch.id].imageID == image.id
            && ResolvedID(end.index, ref) == Some(image.id)
            && end.images == map[image.id := image] && !InUse(end, image.id)
  {
    var run := Commands.Run(Request(ref, Unreachable), launch);
    var jobs := [Job(LoadArchive(image), 3), Job(run, 18)];
    StepsFinish(EMPTY, Begin(LoadArchive(image)), 3);
    LoadRefines(EMPTY, image);
    OneName(map[], FullName(ref), image.id);
    var d1 := Finish(EMPTY, Begin(LoadArchive(image)));
    StepsFinish(d1, Begin(run), 18);
    RunRefines(d1, Request(ref, Unreachable), launch);
    var c := NewContainer(image.id, launch);
    LaunchActions(d1, c, true, false, launch.stateFirst);
    assert jobs[..1][..0] == [];
    assert Sequence(EMPTY, jobs[..1]) == d1;
    assert Sequence(EMPTY, jobs) == SavedDisk(SavedDisk(d1, c), c.(status := Stopped));
  }

  /** So five commands from nothing, two of them killed, leave a running container without its image. */
  lemma IntegrityFailsFromScratch(image: Image, ref: Ref, launch: Launch)
    requires image.repoTags == [FullName(ref)]
    requires launch.booted && launch.attached && !launch.removed
    ensures var run := Commands.Run(Request(ref, Unreachable), launch);
            !Integrity(Sequence(EMPTY, [Job(LoadArchive(image), 3), Job(run, 18)]
                                       + [Job(Start(launch), 3), Job(Rmi(ref), 6), Job(Rm(launch.id, false, true), 2)]))
  {
    var run := Commands.Run(Request(ref, Unreachable), launch);
    var first := [Job(LoadArchive(image), 3), Job(run, 18)];
    StoppedFromScratch(image, ref, launch);
    TwoCrashesBreakIntegrity(Sequence(EMPTY, first), launch, ref);
    SequenceConcat(EMPTY, first, [Job(Start(launch), 3), Job(Rmi(ref), 6), Job(Rm(launch.id, false, true), 2)]);
  }
}
