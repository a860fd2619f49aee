/** An image that is removed while a container is being made from it. */
module RemovalRaces {
  import opened Images
  import opened ImageRef
  import opened ImageStore
  import opened ContainerStore
  import opened Commands
  import opened IndexIntegrity
  import opened ContainerIntegrity

  /** Unlinking an image keeps integrity if and only if no container uses it at that moment, whatever the
      guard of rmi has seen before. */
  lemma UnlinkKeepsIntegrity(disk: Disk, id: string)
    requires Integrity(disk)
    ensures Integrity(Advance(disk, RmiUnlinking(id)).0) <==> !InUse(disk, id)
  {
    var next := Advance(disk, RmiUnlinking(id)).0;
    assert forall other :: Load(next, other) == Load(disk, other);
  }

  /** Writing a configuration keeps integrity if and only if the image is there at that moment, or the
      record then loads as stopped. */
  lemma RecordKeepsIntegrity(disk: Disk, c: Container)
    requires Integrity(disk)
    ensures Integrity(Act(disk, PutConfig(c)))
       <==> c.imageID in disk.images || Load(Act(disk, PutConfig(c)), c.id).value.status == Stopped
  {
    var next := Act(disk, PutConfig(c));
    assert Load(next, c.id).value.imageID == c.imageID;
    assert forall other | other != c.id :: Load(next, other) == Load(disk, other);
  }

  /** The image that a run or a start has in memory before it has written both files of its record. */
  function Held(p: Process): Option<string> {
    match p
    case Reading(_, _, image, _) => Some(image.id)
    case Writing(_, image, _) => Some(image.id)
    case Recording(actions) =>
      if actions != [] && (actions[0].PutConfig? || actions[0].PutState?) then Some(actions[0].c.imageID) else None
    case _ => None
  }

  /** The image that rmi is about to remove, its guard being passed. */
  function Doomed(p: Process): Option<string> {
    match p
    case RmiReading(id) => Some(id)
    case RmiWriting(_, id) => Some(id)
    case RmiUnlinking(id) => Some(id)
    case _ => None
  }

  predicate Overlap(s: System) {
    |s.processes| == 2 && Held(s.processes[0]).Some? && Held(s.processes[0]) == Doomed(s.processes[1])
  }

  /** At some moment rmi has passed its guard for the image that the other process holds, and has not
      removed it, and that process has not written both files of its record. */
  predicate EverOverlap(s: System, events: seq<Event>) {
    exists n: nat :: n <= |events| && Overlap(Interleave(s, events[..n]))
  }

  lemma NextOverlap(s: System, events: seq<Event>)
    requires events != []
    ensures EverOverlap(s, events) <==> EverOverlap(s, events[..|events| - 1]) || Overlap(Interleave(s, events))
  {
    var front := events[..|events| - 1];
    assert events[..|events|] == events;
    forall n: nat | n < |events| ensures events[..n] == front[..n] {
    }
    if EverOverlap(s, front) {
      var n: nat :| n <= |front| && Overlap(Interleave(s, front[..n]));
      assert Overlap(Interleave(s, events[..n]));
    }
    if EverOverlap(s, events) {
      var n: nat :| n <= |events| && Overlap(Interleave(s, events[..n]));
      if n < |events| {
        assert Overlap(Interleave(s, front[..n]));
      }
    }
  }

  predicate Detached(launch: Launch) {
    launch.booted && !launch.attached && !launch.removed
  }

  /** How far a detached run has come, and that its memory and its record agree. */
  predicate Runs(disk: Disk, p: Process, launch: Launch) {
    match p
    case Resolving(_, rest) => rest == Boot(launch) && Unrecorded(disk, launch)
    case Getting(_, _, rest) => rest == Boot(launch) && Unrecorded(disk, launch)
    case Fetching(_, rest) => rest == Boot(launch) && Unrecorded(disk, launch)
    case Saving(_, rest) => rest == Boot(launch) && Unrecorded(disk, launch)
    case Reading(_, _, _, rest) => rest == Boot(launch) && Unrecorded(disk, launch)
    case Writing(_, _, rest) => rest == Boot(launch) && Unrecorded(disk, launch)
    case Recording(actions) =>
      || (Held(p).Some? && actions == SaveActions(NewContainer(Held(p).value, launch)) && Unrecorded(disk, launch))
      || (launch.id in disk.configs && actions == [PutState(disk.configs[launch.id])] && Recorded(disk, launch))
      || (actions == [] && Recorded(disk, launch))
    case Done => Unrecorded(disk, launch) || Recorded(disk, launch)
    case _ => false
  }

  predicate Unrecorded(disk: Disk, launch: Launch) {
    launch.id !in disk.configs && launch.id !in disk.states
  }

  predicate Recorded(disk: Disk, launch: Launch) {
    && launch.id in disk.configs && disk.configs[launch.id] == NewContainer(disk.configs[launch.id].imageID, launch)
    && (launch.id in disk.states ==> disk.states[launch.id].status == Created)
  }

  predicate IsRmi(p: Process) {
    Removes(p) || p.Done?
  }

  /** The image of the run: the one in memory, later the one in the record. */
  function Claimed(s: System, launch: Launch): Option<string>
    requires |s.processes| == 2
  {
    if launch.id in s.disk.configs then Some(s.disk.configs[launch.id].imageID) else Held(s.processes[0])
  }

  /** The other containers keep their images, and rmi has passed its guard for none of these. */
  predicate OthersKeep(s: System, launch: Launch)
    requires |s.processes| == 2
  {
    forall id | id in s.disk.configs && id != launch.id && Load(s.disk, id).value.status != Stopped ::
      Load(s.disk, id).value.imageID in s.disk.images && Doomed(s.processes[1]) != Some(Load(s.disk, id).value.imageID)
  }

  /** The invariant of the race. `overlapped` tells whether the two have met so far. */
  predicate Race(s: System, launch: Launch, overlapped: bool) {
    && |s.processes| == 2 && Runs(s.disk, s.processes[0], launch) && IsRmi(s.processes[1])
    && (forall id | id in s.disk.images :: s.disk.images[id].id == id)
    && OthersKeep(s, launch)
    && (!overlapped && Claimed(s, launch).Some? ==>
          Claimed(s, launch).value in s.disk.images && Doomed(s.processes[1]) != Claimed(s, launch))
  }

  /** The two have met, and nothing has been killed: the image is or will be gone, the record is or will
      be there. */
  predicate Met(s: System, launch: Launch)
    requires |s.processes| == 2
  {
    && Claimed(s, launch).Some? && IsRmi(s.processes[1])
    && (Doomed(s.processes[1]) == Claimed(s, launch)
        || (s.processes[1].Done? && Claimed(s, launch).value !in s.disk.images))
  }

  lemma PullStepKeepsRace(s: System, launch: Launch, overlapped: bool)
    requires Race(s, launch, overlapped) && Detached(launch) && Pulls(s.processes[0])
    ensures Race(Next(s, Step(0)), launch, overlapped || Overlap(Next(s, Step(0))))
  {
  }

  lemma RecordStepKeepsRace(s: System, launch: Launch, overlapped: bool)
    requires Race(s, launch, overlapped) && (Overlap(s) ==> overlapped) && !Pulls(s.processes[0])
    ensures Race(Next(s, Step(0)), launch, overlapped || Overlap(Next(s, Step(0))))
  {
  }

  lemma GuardKeepsRace(s: System, launch: Launch, overlapped: bool)
    requires Race(s, launch, overlapped) && (Overlap(s) ==> overlapped) && s.processes[1].RmiGuarding?
    ensures Race(Next(s, Step(1)), launch, overlapped || Overlap(Next(s, Step(1))))
  {
  }

  lemma UnlinkKeepsRace(s: System, launch: Launch, overlapped: bool)
    requires Race(s, launch, overlapped) && s.processes[1].RmiUnlinking?
    ensures Race(Next(s, Step(1)), launch, overlapped)
  {
  }

  lemma RmiStepKeepsRace(s: System, launch: Launch, overlapped: bool)
    requires Race(s, launch, overlapped) && (Overlap(s) ==> overlapped) && !s.processes[1].RmiGuarding?
    requires !s.processes[1].RmiUnlinking?
    ensures Race(Next(s, Step(1)), launch, overlapped || Overlap(Next(s, Step(1))))
  {
  }

  lemma EventKeepsRace(s: System, launch: Launch, overlapped: bool, e: Event)
    requires Race(s, launch, overlapped) && Detached(launch) && (Overlap(s) ==> overlapped) && !e.Spawn?
    ensures Race(Next(s, e), launch, overlapped || Overlap(Next(s, e)))
  {
    if e == Step(0) {
      if Pulls(s.processes[0]) {
        PullStepKeepsRace(s, launch, overlapped);
      } else {
        RecordStepKeepsRace(s, launch, overlapped);
      }
    } else if e == Step(1) {
      if s.processes[1].RmiGuarding? {
        GuardKeepsRace(s, launch, overlapped);
      } else if s.processes[1].RmiUnlinking? {
        UnlinkKeepsRace(s, launch, overlapped);
      } else {
        RmiStepKeepsRace(s, launch, overlapped);
      }
    }
  }

  /** A run and an rmi on a disk that has no record under the run's new ID. */
  predicate Ready(s: System, request: Request, ref: Ref, launch: Launch) {
    && s.processes == [Begin(Commands.Run(request, launch)), Begin(Rmi(ref))]
    && Detached(launch) && Unrecorded(s.disk, launch)
    && Integrity(s.disk) && forall id | id in s.disk.images :: s.disk.images[id].id == id
  }

  predicate NoSpawn(events: seq<Event>) {
    forall e | e in events :: !e.Spawn?
  }

  lemma {:induction false} RacesGoOn(s: System, request: Request, ref: Ref, launch: Launch, events: seq<Event>)
    requires Ready(s, request, ref, launch) && NoSpawn(events)
    ensures Race(Interleave(s, events), launch, EverOverlap(s, events))
    ensures Overlap(Interleave(s, events)) ==> EverOverlap(s, events)
  {
    if events != [] {
      var n := |events| - 1;
      RacesGoOn(s, request, ref, launch, events[..n]);
      NextOverlap(s, events);
      assert events[n] in events;
      EventKeepsRace(Interleave(s, events[..n]), launch, EverOverlap(s, events[..n]), events[n]);
    } else {
      assert !Overlap(s);
      assert forall n: nat | n <= 0 :: events[..n] == [];
    }
  }

  /** At every moment of every interleaving, whatever is killed: as long as the two have not met, every
      container that loads as not stopped has its image. */
  lemma ApartKeepsIntegrity(s: System, request: Request, ref: Ref, launch: Launch, events: seq<Event>)
    requires Ready(s, request, ref, launch) && NoSpawn(events) && !EverOverlap(s, events)
    ensures Integrity(Interleave(s, events).disk)
  {
    RacesGoOn(s, request, ref, launch, events);
  }

  lemma RunStepKeepsMet(s: System, launch: Launch)
    requires Race(s, launch, true) && Detached(launch) && Met(s, launch)
    ensures Met(Next(s, Step(0)), launch)
  {
  }

  lemma RmiStepKeepsMet(s: System, launch: Launch)
    requires Race(s, launch, true) && Met(s, launch)
    ensures Met(Next(s, Step(1)), launch)
  {
  }

  lemma StepKeepsMet(s: System, launch: Launch, i: nat)
    requires Race(s, launch, true) && Detached(launch) && Met(s, launch)
    ensures |Next(s, Step(i)).processes| == 2 && Met(Next(s, Step(i)), launch)
  {
    if i == 0 {
      RunStepKeepsMet(s, launch);
    } else if i == 1 {
      RmiStepKeepsMet(s, launch);
    }
  }

  lemma {:induction false} RacesMeet(s: System, request: Request, ref: Ref, launch: Launch, events: seq<Event>)
    requires Ready(s, request, ref, launch) && OnlySteps(events) && EverOverlap(s, events)
    ensures |Interleave(s, events).processes| == 2 && Met(Interleave(s, events), launch)
  {
    RacesGoOn(s, request, ref, launch, events);
    if events != [] {
      var n := |events| - 1;
      NextOverlap(s, events);
      assert events[n] in events;
      if EverOverlap(s, events[..n]) {
        RacesMeet(s, request, ref, launch, events[..n]);
        RacesGoOn(s, request, ref, launch, events[..n]);
        StepKeepsMet(Interleave(s, events[..n]), launch, events[n].i);
      }
    } else {
      assert forall n: nat | n <= 0 :: events[..n] == [];
    }
  }

  /** Every interleaving of a detached run and an rmi, both complete, whatever references they are given
      and whatever the registry offers: in the end some container has lost its image if and only if at
      some moment rmi had passed its guard for the image that run had in memory, and had yet to remove
      it, while run had yet to write both files of its record. */
  lemma ImageLostExactly(s: System, request: Request, ref: Ref, launch: Launch, events: seq<Event>)
    requires Ready(s, request, ref, launch) && OnlySteps(events)
    requires Interleave(s, events).processes == [Done, Done]
    ensures Integrity(Interleave(s, events).disk) <==> !EverOverlap(s, events)
  {
    if EverOverlap(s, events) {
      RacesMeet(s, request, ref, launch, events);
      RacesGoOn(s, request, ref, launch, events);
      var end := Interleave(s, events);
      assert Claimed(end, launch).value !in end.disk.images;
      assert Load(end.disk, launch.id).value.status == Created;
    } else {
      ApartKeepsIntegrity(s, request, ref, launch, events);
    }
  }

  lemma RunGets(s: System, request: Request, launch: Launch, id: string)
    requires |s.processes| == 2 && s.processes[0] == Resolving(request, Boot(launch)) && launch.booted
    requires ResolvedID(s.disk.index, request.ref) == Some(id)
    requires id in s.disk.images && s.disk.images[id].id == id
    ensures Next(Next(s, Step(0)), Step(0)).disk == s.disk
    ensures Next(Next(s, Step(0)), Step(0)).processes == [Recording(RunActions(id, launch)), s.processes[1]]
  {
    assert Next(s, Step(0)) == System(s.disk, [Getting(id, request, Boot(launch)), s.processes[1]]);
  }

  lemma RmiClears(s: System, ref: Ref, id: string)
    requires |s.processes| == 2 && s.processes[1] == RmiResolving(ref) && ResolvedID(s.disk.index, ref) == Some(id)
    requires id in s.disk.images && s.disk.images[id].id == id && !InUse(s.disk, id)
    ensures Next(Next(Next(s, Step(1)), Step(1)), Step(1)).processes == [s.processes[0], RmiReading(id)]
  {
    assert Next(s, Step(1)) == System(s.disk, [s.processes[0], RmiGetting(id)]);
    assert Next(Next(s, Step(1)), Step(1)) == System(s.disk, [s.processes[0], RmiGuarding(id)]);
  }

  function FirstFive(s: System): System {
    Next(Next(Next(Next(Next(s, Step(0)), Step(0)), Step(1)), Step(1)), Step(1))
  }

  lemma FiveSteps(s: System, events: seq<Event>)
    requires |events| >= 5 && events[..5] == [Step(0), Step(0), Step(1), Step(1), Step(1)]
    ensures Interleave(s, events[..5]) == FirstFive(s)
  {
    var five := events[..5];
    assert five[0] == events[0] && five[1] == events[1] && five[2] == events[2] && five[3] == events[3]
        && five[4] == events[4];
    assert Interleave(s, events[..0]) == s;
    Prefixes(s, events, 0);
    Prefixes(s, events, 1);
    Prefixes(s, events, 2);
    Prefixes(s, events, 3);
    Prefixes(s, events, 4);
  }

  lemma HeldAtOnce(id: string, launch: Launch)
    requires Detached(launch)
    ensures Held(Recording(RunActions(id, launch))) == Some(id)
  {
    assert RunActions(id, launch) == SaveActions(NewContainer(id, launch));
  }

  lemma FiveStepsMeet(s: System, request: Request, ref: Ref, launch: Launch, id: string)
    requires Ready(s, request, ref, launch)
    requires ResolvedID(s.disk.index, request.ref) == Some(id) && ResolvedID(s.disk.index, ref) == Some(id)
    requires id in s.disk.images && !InUse(s.disk, id)
    ensures Overlap(FirstFive(s))
  {
    RunGets(s, request, launch, id);
    var got := Next(Next(s, Step(0)), Step(0));
    RmiClears(got, ref, id);
    HeldAtOnce(id, launch);
    assert FirstFive(s).processes == [Recording(RunActions(id, launch)), RmiReading(id)];
  }

  /** And it happens: run gets its image, rmi passes its guard, and then whatever comes. */
  lemma MeetAtOnce(s: System, request: Request, ref: Ref, launch: Launch, events: seq<Event>, id: string)
    requires Ready(s, request, ref, launch)
    requires ResolvedID(s.disk.index, request.ref) == Some(id) && ResolvedID(s.disk.index, ref) == Some(id)
    requires id in s.disk.images && !InUse(s.disk, id)
    requires |events| >= 5 && events[..5] == [Step(0), Step(0), Step(1), Step(1), Step(1)]
    ensures EverOverlap(s, events)
  {
    FiveSteps(s, events);
    FiveStepsMeet(s, request, ref, launch, id);
    assert Overlap(Interleave(s, events[..5]));
  }
}
