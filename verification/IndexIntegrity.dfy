/** The name index over whole runs: interleaved processes that add images, and commands one at a time
    that also remove them, each with crashes at any step. */
module IndexIntegrity {
  import opened Images
  import opened ImageStore
  import opened Commands

  predicate NamesStored(index: Index, images: map<string, Image>) {
    forall name | name in index :: index[name] in images
  }

  /** Every name leads to a stored configuration, and every configuration carries its own ID. */
  predicate Sound(disk: Disk) {
    && NamesStored(disk.index, disk.images)
    && forall id | id in disk.images :: disk.images[id].id == id
  }

  predicate Removes(p: Process) {
    p.RmiResolving? || p.RmiGetting? || p.RmiGuarding? || p.RmiReading? || p.RmiWriting? || p.RmiUnlinking?
  }

  /** What a process holds in memory fits the disk. */
  predicate Fits(disk: Disk, p: Process) {
    match p
    case Getting(id, _, _) => id in disk.images
    case Reading(id, _, _, _) => id in disk.images
    case Writing(index, _, _) => NamesStored(index, disk.images)
    case RmiWriting(index, id) => NamesStored(index, disk.images) && id !in index.Values
    case RmiUnlinking(id) => id !in disk.index.Values
    case _ => true
  }

  lemma AfterFits(disk: Disk, image: Image, rest: Rest)
    ensures Fits(disk, After(image, rest)) && !Removes(After(image, rest))
  {
  }

  lemma NamesAdded(index: Index, names: seq<string>, id: string, images: map<string, Image>)
    requires NamesStored(index, images) && id in images
    ensures NamesStored(AddNames(index, names, id), images)
  {
    AddedNames(index, names, id);
  }

  lemma WithoutHasNot(index: Index, id: string)
    ensures id !in Without(index, id).Values
  {
    var rest := Without(index, id);
    forall v | v in rest.Values ensures v != id {
      var name :| name in rest && rest[name] == v;
    }
  }

  lemma RmiStepKeepsSound(disk: Disk, p: Process)
    requires Sound(disk) && Fits(disk, p) && Removes(p)
    ensures Sound(Advance(disk, p).0) && Fits(Advance(disk, p).0, Advance(disk, p).1)
  {
    match p
    case RmiUnlinking(id) =>
      forall name | name in disk.index ensures disk.index[name] != id {
        assert disk.index[name] in disk.index.Values;
      }
    case RmiReading(id) => WithoutHasNot(disk.index, id);
    case _ =>
  }

  lemma OtherStepKeepsSound(disk: Disk, p: Process)
    requires Sound(disk) && Fits(disk, p) && !Removes(p)
    ensures Sound(Advance(disk, p).0) && Fits(Advance(disk, p).0, Advance(disk, p).1)
  {
    match p
    case Getting(id, request, rest) => AfterFits(disk, disk.images[id], rest);
    case Reading(id, names, image, rest) => NamesAdded(disk.index, names, id, disk.images);
    case Writing(index, image, rest) => AfterFits(disk.(index := index), image, rest);
    case _ =>
  }

  /** One step keeps the disk sound and the process fitting. */
  lemma StepKeepsSound(disk: Disk, p: Process)
    requires Sound(disk) && Fits(disk, p)
    ensures Sound(Advance(disk, p).0) && Fits(Advance(disk, p).0, Advance(disk, p).1)
  {
    if Removes(p) {
      RmiStepKeepsSound(disk, p);
    } else {
      OtherStepKeepsSound(disk, p);
    }
  }

  /** A process that removes no image never loses one, and goes on removing none. */
  lemma StepKeepsImages(disk: Disk, p: Process)
    requires !Removes(p)
    ensures disk.images.Keys <= Advance(disk, p).0.images.Keys && !Removes(Advance(disk, p).1)
  {
    match p
    case Getting(id, request, rest) =>
      if id in disk.images {
        AfterFits(disk, disk.images[id], rest);
      }
    case Writing(index, image, rest) => AfterFits(disk, image, rest);
    case _ =>
  }

  lemma MoreImagesFit(disk: Disk, next: Disk, p: Process)
    requires Fits(disk, p) && !Removes(p) && disk.images.Keys <= next.images.Keys
    ensures Fits(next, p)
  {
  }

  /** Any number of processes on one disk. */
  datatype System = System(disk: Disk, processes: seq<Process>)

  datatype Event = Spawn(command: Command) | Step(i: nat) | Kill(i: nat)

  function Next(s: System, e: Event): System {
    match e
    case Spawn(command) => s.(processes := s.processes + [Begin(command)])
    case Step(i) =>
      if i >= |s.processes| then s
      else
        var (disk, p) := Advance(s.disk, s.processes[i]);
        System(disk, s.processes[i := p])
    case Kill(i) => if i >= |s.processes| then s else s.(processes := s.processes[i := Done])
  }

  function Interleave(s: System, events: seq<Event>): System {
    if events == [] then s else Next(Interleave(s, events[..|events| - 1]), events[|events| - 1])
  }

  predicate OnlySteps(events: seq<Event>) {
    forall e | e in events :: e.Step?
  }

  predicate SystemSound(s: System) {
    Sound(s.disk) && forall p | p in s.processes :: Fits(s.disk, p) && !Removes(p)
  }

  lemma BeginFits(disk: Disk, command: Command)
    ensures Fits(disk, Begin(command))
    ensures Removes(Begin(command)) <==> command.Rmi?
  {
    if command.Build? {
      AfterFits(disk, command.image, Commit(command.bases, command.image));
    }
  }

  lemma EventKeepsSound(s: System, e: Event)
    requires SystemSound(s) && !(e.Spawn? && e.command.Rmi?)
    ensures SystemSound(Next(s, e))
  {
    match e
    case Spawn(command) => BeginFits(s.disk, command);
    case Step(i) =>
      if i < |s.processes| {
        var (disk, q) := Advance(s.disk, s.processes[i]);
        StepKeepsSound(s.disk, s.processes[i]);
        StepKeepsImages(s.disk, s.processes[i]);
        forall p | p in s.processes[i := q] ensures Fits(disk, p) && !Removes(p) {
          if p != q {
            assert p in s.processes;
            MoreImagesFit(s.disk, disk, p);
          }
        }
      }
    case Kill(i) =>
  }

  /** Without rmi, every interleaving of every set of processes, killed wherever, keeps the index sound:
      a name that Resolve finds always loads, on the disk and for every process that has looked it up. */
  lemma {:induction false} InterleavingsStaySound(s: System, events: seq<Event>)
    requires SystemSound(s)
    requires forall e | e in events :: !(e.Spawn? && e.command.Rmi?)
    ensures var end := Interleave(s, events);
            && SystemSound(end)
            && (forall ref :: ResolvedID(end.disk.index, ref).Some? ==>
                  Resolved(end.disk.index, end.disk.images, ref).Some?)
            && (forall p | p in end.processes && p.Getting? :: p.id in end.disk.images)
  {
    if events != [] {
      var n := |events| - 1;
      InterleavingsStaySound(s, events[..n]);
      assert events[n] in events;
      EventKeepsSound(Interleave(s, events[..n]), events[n]);
    }
  }

  /** Two load commands, each of which reads the index before the other one writes it. */
  predicate TwoLoads(events: seq<Event>, a: Image, b: Image) {
    && |events| == 8
    && events[0] == Spawn(LoadArchive(a)) && events[1] == Spawn(LoadArchive(b))
    && events[2] == Step(0) && events[3] == Step(0)
    && events[4] == Step(1) && events[5] == Step(1)
    && events[6] == Step(0) && events[7] == Step(1)
  }

  lemma SavesAndReads(s: System, i: nat, image: Image)
    requires i < |s.processes| && s.processes[i] == Saving(image, Return)
    ensures Next(Next(s, Step(i)), Step(i))
         == System(s.disk.(images := s.disk.images[image.id := image]),
                   s.processes[i := Writing(AddNames(s.disk.index, image.repoTags, image.id), image, Return)])
  {
  }

  lemma BothReadTheIndex(disk: Disk, a: Image, b: Image, events: seq<Event>)
    requires TwoLoads(events, a, b) && a.repoTags != [] && b.repoTags != []
    ensures Interleave(System(disk, []), events[..6])
         == System(disk.(images := disk.images[a.id := a][b.id := b]),
                   [Writing(AddNames(disk.index, a.repoTags, a.id), a, Return),
                    Writing(AddNames(disk.index, b.repoTags, b.id), b, Return)])
  {
    var s := System(disk, []);
    var both := System(disk, [Saving(a, Return), Saving(b, Return)]);
    forall n | 0 <= n < 6 ensures Interleave(s, events[..n + 1]) == Next(Interleave(s, events[..n]), events[n]) {
      Prefixes(s, events, n);
    }
    assert Interleave(s, events[..0]) == s;
    assert Interleave(s, events[..2]) == both by {
      assert Interleave(s, events[..1]) == System(disk, [Saving(a, Return)]);
    }
    SavesAndReads(both, 0, a);
    assert Interleave(s, events[..4]) == Next(Next(both, Step(0)), Step(0)) by {
      assert Interleave(s, events[..3]) == Next(both, Step(0));
    }
    SavesAndReads(Interleave(s, events[..4]), 1, b);
    assert Interleave(s, events[..5]) == Next(Interleave(s, events[..4]), Step(1));
  }

  /** Concurrent adds can lose names: both loads are complete and their images are stored, but every new
      name of the first one is gone, unless the second one has it too. */
  lemma ConcurrentAddsLoseNames(disk: Disk, a: Image, b: Image, events: seq<Event>, name: string)
    requires TwoLoads(events, a, b) && a.repoTags != [] && b.repoTags != []
    requires name in a.repoTags && name !in b.repoTags && name !in disk.index
    ensures var end := Interleave(System(disk, []), events);
            && end.processes == [Done, Done]
            && end.disk.images == disk.images[a.id := a][b.id := b]
            && name !in end.disk.index
  {
    var s := System(disk, []);
    BothReadTheIndex(disk, a, b, events);
    Prefixes(s, events, 6);
    Prefixes(s, events, 7);
    assert events[..8] == events;
    AddedNames(disk.index, b.repoTags, b.id);
  }

  lemma Prefixes(s: System, events: seq<Event>, n: nat)
    requires n < |events|
    ensures Interleave(s, events[..n + 1]) == Next(Interleave(s, events[..n]), events[n])
  {
    assert events[..n + 1][..n] == events[..n];
  }

  /** One command, and the number of steps after which it is killed. */
  datatype Job = Job(command: Command, steps: nat)

  /** Commands one at a time. */
  function Sequence(disk: Disk, jobs: seq<Job>): Disk {
    if jobs == [] then disk
    else
      var last := jobs[|jobs| - 1];
      Steps(Sequence(disk, jobs[..|jobs| - 1]), Begin(last.command), last.steps).0
  }

  lemma {:induction false} StepsKeepSound(disk: Disk, p: Process, k: nat)
    requires Sound(disk) && Fits(disk, p)
    ensures Sound(Steps(disk, p, k).0) && Fits(Steps(disk, p, k).0, Steps(disk, p, k).1)
  {
    if k > 0 {
      StepsKeepSound(disk, p, k - 1);
      var (next, q) := Steps(disk, p, k - 1);
      StepKeepsSound(next, q);
    }
  }

  /** One at a time, and with rmi among them: whatever is killed where, every name of the index maps to
      an ID whose stored configuration exists and carries that ID. */
  lemma {:induction false} SequencesStaySound(disk: Disk, jobs: seq<Job>)
    requires Sound(disk)
    ensures Sound(Sequence(disk, jobs))
  {
    if jobs != [] {
      var n := |jobs| - 1;
      SequencesStaySound(disk, jobs[..n]);
      BeginFits(Sequence(disk, jobs[..n]), jobs[n].command);
      StepsKeepSound(Sequence(disk, jobs[..n]), Begin(jobs[n].command), jobs[n].steps);
    }
  }
}
