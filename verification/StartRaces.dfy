/** An image that is removed while a container is being started from it. The guard of rmi does not see a
    stopped container, and start looks at the image only once, before it writes the record. */
module StartRaces {
  import opened Images
  import opened ImageRef
  import opened ImageStore
  import opened ContainerStore
  import opened Commands
  import opened IndexIntegrity
  import opened ContainerIntegrity
  import opened RemovalRaces

  /** How far a detached start has come, and that its memory and its record agree. */
  predicate Starts(disk: Disk, p: Process, launch: Launch) {
    match p
    case Starting(l) => l == launch
    case StartGetting(c, l) => l == launch && Load(disk, launch.id) == Some(c)
    case Recording(actions) =>
      || actions == []
      || (&& Held(p).Some? && launch.id in disk.configs && actions[0].c.id == launch.id
          && actions[0].c.status == Running
          && disk.configs[launch.id].imageID == Held(p).value
          && (actions == SaveActions(actions[0].c)
              || (actions == [PutState(actions[0].c)] && disk.configs[launch.id] == actions[0].c)))
    case Done => true
    case _ => false
  }

  /** Every container that loads as not stopped has its image, and rmi has not passed its guard for it,
      with the exception of the started container if the two have met. */
  predicate AllKeep(s: System, launch: Launch, overlapped: bool)
    requires |s.processes| == 2
  {
    forall id | id in s.disk.configs && Load(s.disk, id).value.status != Stopped ::
      || (overlapped && id == launch.id)
      || (&& Load(s.disk, id).value.imageID in s.disk.images
          && Doomed(s.processes[1]) != Some(Load(s.disk, id).value.imageID))
  }

  /** The invariant of the race. `overlapped` tells whether the two have met so far. */
  predicate StartRace(s: System, launch: Launch, overlapped: bool) {
    && |s.processes| == 2 && Starts(s.disk, s.processes[0], launch) && IsRmi(s.processes[1])
    && OwnIDs(s.disk) && (forall id | id in s.disk.images :: s.disk.images[id].id == id)
    && AllKeep(s, launch, overlapped)
    && (!overlapped && Held(s.processes[0]).Some? ==>
          Held(s.processes[0]).value in s.disk.images && Doomed(s.processes[1]) != Held(s.processes[0]))
  }

  lemma Onward(launch: Launch, overlapped: bool, next: System)
    requires StartRace(next, launch, overlapped)
    ensures StartRace(next, launch, overlapped || Overlap(next))
  {
  }

  lemma FindingKeepsRace(s: System, launch: Launch, overlapped: bool)
    requires StartRace(s, launch, overlapped) && !launch.attached && !s.processes[0].Recording?
    ensures StartRace(Next(s, Step(0)), launch, overlapped || Overlap(Next(s, Step(0))))
  {
  }

  lemma ConfigKeepsRace(s: System, launch: Launch, overlapped: bool)
    requires StartRace(s, launch, overlapped) && (Overlap(s) ==> overlapped)
    requires s.processes[0].Recording? && s.processes[0].actions != [] && s.processes[0].actions[0].PutConfig?
    ensures StartRace(Next(s, Step(0)), launch, overlapped)
  {
  }

  lemma StateKeepsRace(s: System, launch: Launch, overlapped: bool)
    requires StartRace(s, launch, overlapped) && (Overlap(s) ==> overlapped)
    requires s.processes[0].Recording? && (s.processes[0].actions != [] ==> s.processes[0].actions[0].PutState?)
    ensures StartRace(Next(s, Step(0)), launch, overlapped)
  {
  }

  lemma StartStepKeepsRace(s: System, launch: Launch, overlapped: bool)
    requires StartRace(s, launch, overlapped) && (Overlap(s) ==> overlapped) && !launch.attached
    ensures StartRace(Next(s, Step(0)), launch, overlapped || Overlap(Next(s, Step(0))))
  {
    var p := s.processes[0];
    if !p.Recording? {
      FindingKeepsRace(s, launch, overlapped);
    } else if p.actions != [] && p.actions[0].PutConfig? {
      ConfigKeepsRace(s, launch, overlapped);
      Onward(launch, overlapped, Next(s, Step(0)));
    } else {
      StateKeepsRace(s, launch, overlapped);
      Onward(launch, overlapped, Next(s, Step(0)));
    }
  }

  lemma UnlinkKeepsStartRace(s: System, launch: Launch, overlapped: bool)
    requires StartRace(s, launch, overlapped) && s.processes[1].RmiUnlinking?
    ensures StartRace(Next(s, Step(1)), launch, overlapped)
  {
  }

  lemma GuardKeepsStartRace(s: System, launch: Launch, overlapped: bool)
    requires StartRace(s, launch, overlapped) && (Overlap(s) ==> overlapped) && s.processes[1].RmiGuarding?
    ensures StartRace(Next(s, Step(1)), launch, overlapped || Overlap(Next(s, Step(1))))
  {
  }

  lemma UnnamingKeepsStartRace(s: System, launch: Launch, overlapped: bool)
    requires StartRace(s, launch, overlapped) && (Overlap(s) ==> overlapped) && s.processes[1].RmiWriting?
    ensures StartRace(Next(s, Step(1)), launch, overlapped || Overlap(Next(s, Step(1))))
  {
  }

  lemma RmiStepKeepsStartRace(s: System, launch: Launch, overlapped: bool)
    requires StartRace(s, launch, overlapped) && !s.processes[1].RmiGuarding?
    requires !s.processes[1].RmiUnlinking? && !s.processes[1].RmiWriting? && (Overlap(s) ==> overlapped)
    ensures StartRace(Next(s, Step(1)), launch, overlapped || Overlap(Next(s, Step(1))))
  {
  }

  lemma EventKeepsStartRace(s: System, launch: Launch, overlapped: bool, e: Event)
    requires StartRace(s, launch, overlapped) && (Overlap(s) ==> overlapped) && !launch.attached && !e.Spawn?
    ensures StartRace(Next(s, e), launch, overlapped || Overlap(Next(s, e)))
  {
    if e == Step(0) {
      StartStepKeepsRace(s, launch, overlapped);
    } else if e == Step(1) {
      if s.processes[1].RmiGuarding? {
        GuardKeepsStartRace(s, launch, overlapped);
      } else if s.processes[1].RmiWriting? {
        UnnamingKeepsStartRace(s, launch, overlapped);
      } else if s.processes[1].RmiUnlinking? {
        UnlinkKeepsStartRace(s, launch, overlapped);
        Onward(launch, overlapped, Next(s, Step(1)));
      } else {
        RmiStepKeepsStartRace(s, launch, overlapped);
      }
    }
  }

  /** A detached start of any container, and an rmi. */
  predicate ReadyToStart(s: System, ref: Ref, launch: Launch) {
    && s.processes == [Begin(Commands.Start(launch)), Begin(Rmi(ref))] && !launch.attached
    && OwnIDs(s.disk) && Integrity(s.disk) && forall id | id in s.disk.images :: s.disk.images[id].id == id
  }

  lemma {:induction false} StartRacesGoOn(s: System, ref: Ref, launch: Launch, events: seq<Event>)
    requires ReadyToStart(s, ref, launch) && NoSpawn(events)
    ensures StartRace(Interleave(s, events), launch, EverOverlap(s, events))
    ensures Overlap(Interleave(s, events)) ==> EverOverlap(s, events)
  {
    if events != [] {
      var n := |events| - 1;
      StartRacesGoOn(s, ref, launch, events[..n]);
      NextOverlap(s, events);
      assert events[n] in events;
      EventKeepsStartRace(Interleave(s, events[..n]), launch, EverOverlap(s, events[..n]), events[n]);
    } else {
      assert !Overlap(s);
      assert forall n: nat | n <= 0 :: events[..n] == [];
    }
  }

  /** At every moment of every interleaving, whatever is killed: as long as the two have not met, every
      container that loads as not stopped has its image. */
  lemma StartApartKeepsIntegrity(s: System, ref: Ref, launch: Launch, events: seq<Event>)
    requires ReadyToStart(s, ref, launch) && NoSpawn(events) && !EverOverlap(s, events)
    ensures Integrity(Interleave(s, events).disk)
  {
    StartRacesGoOn(s, ref, launch, events);
  }

  /** The image that start has in memory, or that its running container has. */
  function StartClaims(s: System, launch: Launch): Option<string>
    requires |s.processes| == 2
  {
    if Held(s.processes[0]).Some? then Held(s.processes[0])
    else if launch.id in s.disk.configs && Load(s.disk, launch.id).value.status == Running then
      Some(s.disk.configs[launch.id].imageID)
    else None
  }

  /** The two have met, and nothing has been killed: the image is or will be gone, the container is or will
      be running. */
  predicate StartMet(s: System, launch: Launch)
    requires |s.processes| == 2
  {
    && StartClaims(s, launch).Some? && IsRmi(s.processes[1])
    && (Doomed(s.processes[1]) == StartClaims(s, launch)
        || (s.processes[1].Done? && StartClaims(s, launch).value !in s.disk.images))
  }

  lemma StartStepKeepsMet(s: System, launch: Launch)
    requires StartRace(s, launch, true) && StartMet(s, launch) && !launch.attached
    ensures StartMet(Next(s, Step(0)), launch)
  {
  }

  lemma RmiStepKeepsStartMet(s: System, launch: Launch)
    requires StartRace(s, launch, true) && StartMet(s, launch)
    ensures StartMet(Next(s, Step(1)), launch)
  {
  }

  lemma {:induction false} StartRacesMeet(s: System, ref: Ref, launch: Launch, events: seq<Event>)
    requires ReadyToStart(s, ref, launch) && OnlySteps(events) && EverOverlap(s, events)
    ensures |Interleave(s, events).processes| == 2 && StartMet(Interleave(s, events), launch)
  {
    StartRacesGoOn(s, ref, launch, events);
    if events != [] {
      var n := |events| - 1;
      NextOverlap(s, events);
      assert events[n] in events;
      if EverOverlap(s, events[..n]) {
        var before := Interleave(s, events[..n]);
        StartRacesMeet(s, ref, launch, events[..n]);
        StartRacesGoOn(s, ref, launch, events[..n]);
        if events[n].i == 0 {
          StartStepKeepsMet(before, launch);
        } else if events[n].i == 1 {
          RmiStepKeepsStartMet(before, launch);
        }
      }
    } else {
      assert forall n: nat | n <= 0 :: events[..n] == [];
    }
  }

  /** Every interleaving of a detached start and an rmi, both complete: in the end some container that
      loads as not stopped has lost its image if and only if at some moment rmi had passed its guard for
      the image that start had found, and had yet to remove it, while start had yet to write both files
      of its record. */
  lemma StartLosesImageExactly(s: System, ref: Ref, launch: Launch, events: seq<Event>)
    requires ReadyToStart(s, ref, launch) && OnlySteps(events)
    requires Interleave(s, events).processes == [Done, Done]
    ensures Integrity(Interleave(s, events).disk) <==> !EverOverlap(s, events)
  {
    if EverOverlap(s, events) {
      StartRacesMeet(s, ref, launch, events);
      var end := Interleave(s, events);
      assert launch.id in end.disk.configs && Load(end.disk, launch.id).value.status == Running;
      assert Load(end.disk, launch.id).value.imageID !in end.disk.images;
    } else {
      StartApartKeepsIntegrity(s, ref, launch, events);
    }
  }

  lemma StartFinds(s: System, launch: Launch)
    requires |s.processes| == 2 && s.processes[0] == Starting(launch) && launch.booted && StoppedIn(s.disk, launch.id)
    requires s.disk.configs[launch.id].imageID in s.disk.images
    ensures var next := Next(Next(s, Step(0)), Step(0));
            && next.disk == s.disk && |next.processes| == 2 && next.processes[1] == s.processes[1]
            && Held(next.processes[0]) == Some(s.disk.configs[launch.id].imageID)
  {
    var c := Load(s.disk, launch.id).value;
    assert Next(s, Step(0)) == System(s.disk, [StartGetting(c, launch), s.processes[1]]);
    assert StartActions(c, launch)[0].PutConfig?;
  }

  /** And it happens for any stopped container whose image nothing else uses: start finds the image, rmi
      passes its guard, and then whatever comes. */
  lemma StartMeetsAtOnce(s: System, ref: Ref, launch: Launch, events: seq<Event>, id: string)
    requires ReadyToStart(s, ref, launch) && launch.booted && StoppedIn(s.disk, launch.id)
    requires s.disk.configs[launch.id].imageID == id && ResolvedID(s.disk.index, ref) == Some(id)
    requires id in s.disk.images && !InUse(s.disk, id)
    requires |events| >= 5 && events[..5] == [Step(0), Step(0), Step(1), Step(1), Step(1)]
    ensures EverOverlap(s, events)
  {
    FiveSteps(s, events);
    StartFinds(s, launch);
    RmiClears(Next(Next(s, Step(0)), Step(0)), ref, id);
    assert Overlap(Interleave(s, events[..5]));
  }
}
