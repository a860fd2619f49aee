/** Two loads on one disk: exactly which interleavings lose a name. */
module Races {
  import opened Images
  import opened ImageStore
  import opened Commands
  import opened IndexIntegrity

  predicate Touches(e: Event, i: nat) {
    (e.Step? || e.Kill?) && e.i == i
  }

  lemma {:induction false} UntouchedStays(s: System, events: seq<Event>, i: nat)
    requires i < |s.processes| && forall e | e in events :: !Touches(e, i)
    ensures i < |Interleave(s, events).processes| && Interleave(s, events).processes[i] == s.processes[i]
  {
    if events != [] {
      var n := |events| - 1;
      UntouchedStays(s, events[..n], i);
      assert events[n] in events;
    }
  }

  function Lookup(index: Index, name: string): Option<string> {
    if name in index then Some(index[name]) else None
  }

  /** A process reads the index, others do anything, and the process writes the index: whatever happened
      in between to names that are not its own is undone, and nothing else is. */
  lemma WriteUndoesTheRest(s: System, between: seq<Event>, i: nat)
    requires i < |s.processes| && s.processes[i].Reading?
    requires forall e | e in between :: !Touches(e, i)
    ensures var p, seen := s.processes[i], s.disk.index;
            var before := Interleave(Next(s, Step(i)), between).disk.index;
            var after := Next(Interleave(Next(s, Step(i)), between), Step(i)).disk.index;
            && (forall name | name in p.names :: Lookup(after, name) == Some(p.id))
            && (forall name | name !in p.names ::
                  Lookup(after, name) != Lookup(before, name) <==> Lookup(before, name) != Lookup(seen, name))
            && (forall name | name !in p.names :: Lookup(after, name) == Lookup(seen, name))
  {
    UntouchedStays(Next(s, Step(i)), between, i);
    AddedNames(s.disk.index, s.processes[i].names, s.processes[i].id);
  }

  /** The same write keeps every name on a stored image if and only if nobody has removed an image that
      had a name when the process read the index, or its own. */
  lemma WriteKeepsNamesStored(disk: Disk, seen: Index, names: seq<string>, id: string, image: Image, rest: Rest)
    requires names != []
    ensures var next := Advance(disk, Writing(AddNames(seen, names, id), image, rest)).0;
            NamesStored(next.index, next.images)
            <==> id in disk.images && forall name | name in seen && name !in names :: seen[name] in disk.images
  {
    AddedNames(seen, names, id);
    assert names[0] in names;
  }

  // Two loads

  function Taken(events: seq<Event>, i: nat): nat {
    if events == [] then 0
    else Taken(events[..|events| - 1], i) + if events[|events| - 1] == Step(i) then 1 else 0
  }

  /** At some moment `i` has taken its step number `m`, and `j` has yet to take its step number `k`. */
  predicate Before(events: seq<Event>, i: nat, m: nat, j: nat, k: nat) {
    exists n: nat :: n <= |events| && Taken(events[..n], i) >= m && Taken(events[..n], j) < k
  }

  lemma {:induction false} TakenGrows(events: seq<Event>, n: nat, i: nat)
    requires n <= |events|
    ensures Taken(events[..n], i) <= Taken(events, i)
    decreases |events| - n
  {
    if n < |events| {
      assert events[..n + 1][..n] == events[..n];
      TakenGrows(events, n + 1, i);
    } else {
      assert events[..n] == events;
    }
  }

  lemma NextBefore(events: seq<Event>, i: nat, m: nat, j: nat, k: nat)
    requires events != []
    ensures Before(events, i, m, j, k)
       <==> || Before(events[..|events| - 1], i, m, j, k)
            || (Taken(events, i) >= m && Taken(events, j) < k)
  {
    var front := events[..|events| - 1];
    assert events[..|events|] == events;
    forall n: nat | n < |events| ensures events[..n] == front[..n] {
    }
    if Before(front, i, m, j, k) {
      var n: nat :| n <= |front| && Taken(front[..n], i) >= m && Taken(front[..n], j) < k;
      assert Taken(events[..n], i) >= m && Taken(events[..n], j) < k;
    }
    if Before(events, i, m, j, k) {
      var n: nat :| n <= |events| && Taken(events[..n], i) >= m && Taken(events[..n], j) < k;
      if n < |events| {
        assert Taken(front[..n], i) >= m && Taken(front[..n], j) < k;
      }
    }
  }

  /** The three steps of a load: it saves the image, reads the index, and writes the index. */
  const READ := 2
  const WRITE := 3

  function LoadAt(image: Image, taken: nat, seen: Index): Process {
    if taken == 0 then Saving(image, Return)
    else if taken == 1 then Reading(image.id, image.repoTags, image, Return)
    else if taken == 2 then Writing(AddNames(seen, image.repoTags, image.id), image, Return)
    else Done
  }

  lemma NotBoth(events: seq<Event>)
    ensures !(Before(events, 0, WRITE, 1, WRITE) && Before(events, 1, WRITE, 0, WRITE))
  {
    if Before(events, 0, WRITE, 1, WRITE) && Before(events, 1, WRITE, 0, WRITE) {
      var n: nat :| n <= |events| && Taken(events[..n], 0) >= WRITE && Taken(events[..n], 1) < WRITE;
      var m: nat :| m <= |events| && Taken(events[..m], 1) >= WRITE && Taken(events[..m], 0) < WRITE;
      if n <= m {
        assert events[..m][..n] == events[..n];
        TakenGrows(events[..m], n, 0);
      } else {
        assert events[..n][..m] == events[..m];
        TakenGrows(events[..n], m, 1);
      }
    }
  }

  lemma BeforeMeansTaken(events: seq<Event>, i: nat, m: nat, j: nat, k: nat)
    ensures Before(events, i, m, j, k) ==> Taken(events, i) >= m
    ensures Taken(events, i) >= m && Taken(events, j) < k ==> Before(events, i, m, j, k)
  {
    if Before(events, i, m, j, k) {
      var n: nat :| n <= |events| && Taken(events[..n], i) >= m && Taken(events[..n], j) < k;
      TakenGrows(events, n, i);
    }
    assert events[..|events|] == events;
  }

  /** How far two loads have come, and the order of their reads and writes: whether each has read after the
      other one wrote, and which one wrote last. */
  datatype Order = Order(x: nat, y: nat, firstSaw: bool, secondSaw: bool, firstLast: bool, secondLast: bool)

  function OrderOf(events: seq<Event>): Order {
    Order(Taken(events, 0), Taken(events, 1),
          Before(events, 1, WRITE, 0, READ), Before(events, 0, WRITE, 1, READ),
          Before(events, 1, WRITE, 0, WRITE), Before(events, 0, WRITE, 1, WRITE))
  }

  predicate Consistent(o: Order) {
    && (o.firstSaw ==> o.y >= WRITE) && (o.y >= WRITE && o.x < READ ==> o.firstSaw)
    && (o.secondSaw ==> o.x >= WRITE) && (o.x >= WRITE && o.y < READ ==> o.secondSaw)
    && (o.firstLast ==> o.y >= WRITE) && (o.y >= WRITE && o.x < WRITE ==> o.firstLast)
    && (o.secondLast ==> o.x >= WRITE) && (o.x >= WRITE && o.y < WRITE ==> o.secondLast)
    && !(o.firstLast && o.secondLast)
  }

  predicate Follows(o: Order, next: Order, e: Event) {
    && next.x == o.x + (if e == Step(0) then 1 else 0)
    && next.y == o.y + (if e == Step(1) then 1 else 0)
    && (next.firstSaw <==> o.firstSaw || (next.y >= WRITE && next.x < READ))
    && (next.secondSaw <==> o.secondSaw || (next.x >= WRITE && next.y < READ))
    && (next.firstLast <==> o.firstLast || (next.y >= WRITE && next.x < WRITE))
    && (next.secondLast <==> o.secondLast || (next.x >= WRITE && next.y < WRITE))
  }

  lemma OrderIsConsistent(events: seq<Event>)
    ensures Consistent(OrderOf(events))
  {
    BeforeMeansTaken(events, 0, WRITE, 1, READ);
    BeforeMeansTaken(events, 0, WRITE, 1, WRITE);
    BeforeMeansTaken(events, 1, WRITE, 0, READ);
    BeforeMeansTaken(events, 1, WRITE, 0, WRITE);
    NotBoth(events);
  }

  lemma OrderFollows(events: seq<Event>)
    requires events != []
    ensures Follows(OrderOf(events[..|events| - 1]), OrderOf(events), events[|events| - 1])
  {
    NextBefore(events, 0, WRITE, 1, READ);
    NextBefore(events, 0, WRITE, 1, WRITE);
    NextBefore(events, 1, WRITE, 0, READ);
    NextBefore(events, 1, WRITE, 0, WRITE);
  }

  /** The index that a load has read, which holds the names of the other one if that had written. */
  function Seen(index: Index, saw: bool, other: Image): Index {
    if saw then AddNames(index, other.repoTags, other.id) else index
  }

  function IndexAfter(index: Index, o: Order, a: Image, b: Image): Index {
    if o.x < WRITE && o.y < WRITE then index
    else if o.x >= WRITE && (o.y < WRITE || o.firstLast) then
      AddNames(Seen(index, o.firstSaw, b), a.repoTags, a.id)
    else AddNames(Seen(index, o.secondSaw, a), b.repoTags, b.id)
  }

  /** Two loads after some steps: the index and both memories, from the order of reads and writes alone. */
  predicate Reached(s: System, index: Index, o: Order, a: Image, b: Image) {
    && s.disk.index == IndexAfter(index, o, a, b)
    && s.processes == [LoadAt(a, o.x, Seen(index, o.firstSaw, b)), LoadAt(b, o.y, Seen(index, o.secondSaw, a))]
  }

  lemma LoadSteps(s: System, index: Index, o: Order, next: Order, a: Image, b: Image, e: Event)
    requires e.Step? && Consistent(o) && Consistent(next) && Follows(o, next, e) && Reached(s, index, o, a, b)
    ensures Reached(Next(s, e), index, next, a, b)
  {
  }

  lemma {:induction false} LoadsReach(s: System, a: Image, b: Image, events: seq<Event>)
    requires OnlySteps(events) && s.processes == [Saving(a, Return), Saving(b, Return)]
    ensures Reached(Interleave(s, events), s.disk.index, OrderOf(events), a, b)
  {
    OrderIsConsistent(events);
    if events != [] {
      var front, e := events[..|events| - 1], events[|events| - 1];
      assert e in events;
      LoadsReach(s, a, b, front);
      OrderFollows(events);
      OrderIsConsistent(front);
      LoadSteps(Interleave(s, front), s.disk.index, OrderOf(front), OrderOf(events), a, b, e);
    }
  }

  predicate Names(index: Index, image: Image) {
    forall name | name in image.repoTags :: Lookup(index, name) == Some(image.id)
  }

  predicate Complete(events: seq<Event>) {
    OnlySteps(events) && Taken(events, 0) >= WRITE && Taken(events, 1) >= WRITE
  }

  /** The name survives the other load's write, or is read by it. */
  lemma AddedOver(index: Index, first: Image, second: Image, name: string)
    requires name in first.repoTags && name !in second.repoTags
    ensures Lookup(AddNames(index, first.repoTags, first.id), name) == Some(first.id)
    ensures Lookup(AddNames(index, second.repoTags, second.id), name) == Lookup(index, name)
    ensures Lookup(AddNames(AddNames(index, second.repoTags, second.id), first.repoTags, first.id), name)
         == Some(first.id)
    ensures Lookup(AddNames(AddNames(index, first.repoTags, first.id), second.repoTags, second.id), name)
         == Some(first.id)
  {
    var one := AddNames(index, first.repoTags, first.id);
    var two := AddNames(index, second.repoTags, second.id);
    AddedNames(index, first.repoTags, first.id);
    AddedNames(index, second.repoTags, second.id);
    AddedNames(two, first.repoTags, first.id);
    AddedNames(one, second.repoTags, second.id);
  }

  /** What becomes of one name: a name that only load `i` has maps to its image in the end if and only if
      it did so from the start, or that load wrote last, or it wrote before the other one read. */
  lemma NameSurvives(s: System, a: Image, b: Image, events: seq<Event>, name: string)
    requires Complete(events) && s.processes == [Saving(a, Return), Saving(b, Return)]
    ensures var end := Interleave(s, events);
            && end.processes == [Done, Done]
            && (name in a.repoTags && name !in b.repoTags ==>
                  (Lookup(end.disk.index, name) == Some(a.id)
                   <==> || Lookup(s.disk.index, name) == Some(a.id)
                        || Before(events, 1, WRITE, 0, WRITE) || Before(events, 0, WRITE, 1, READ)))
            && (name in b.repoTags && name !in a.repoTags ==>
                  (Lookup(end.disk.index, name) == Some(b.id)
                   <==> || Lookup(s.disk.index, name) == Some(b.id)
                        || Before(events, 0, WRITE, 1, WRITE) || Before(events, 1, WRITE, 0, READ)))
  {
    LoadsReach(s, a, b, events);
    OneWritesLast(events);
    if name in a.repoTags && name !in b.repoTags {
      AddedOver(s.disk.index, a, b, name);
    } else if name in b.repoTags && name !in a.repoTags {
      AddedOver(s.disk.index, b, a, name);
    }
  }

  /** Of two complete loads exactly one writes last, and one that writes before the other's read does not. */
  lemma {:induction false} OneWritesLast(events: seq<Event>)
    ensures var o := OrderOf(events);
            && (o.x >= WRITE && o.y >= WRITE ==> (o.firstLast <==> !o.secondLast))
            && (o.firstSaw ==> o.firstLast) && (o.secondSaw ==> o.secondLast)
  {
    OrderIsConsistent(events);
    if events != [] {
      OneWritesLast(events[..|events| - 1]);
      OrderFollows(events);
    }
  }

  /** Every interleaving of two loads of images with different tags: all tags of both name their images in
      the end if and only if one load writes the index before the other one reads it. Only tags that
      name their image from the start need no such order. */
  lemma TagsSurvive(s: System, a: Image, b: Image, events: seq<Event>)
    requires Complete(events) && s.processes == [Begin(LoadArchive(a)), Begin(LoadArchive(b))]
    requires a.repoTags != [] && b.repoTags != []
    requires forall name | name in a.repoTags :: name !in b.repoTags
    requires !Names(s.disk.index, a) && !Names(s.disk.index, b)
    ensures var end := Interleave(s, events);
            && end.processes == [Done, Done]
            && (Names(end.disk.index, a) && Names(end.disk.index, b)
                <==> Before(events, 0, WRITE, 1, READ) || Before(events, 1, WRITE, 0, READ))
  {
    var end := Interleave(s, events);
    forall name: string
      ensures end.processes == [Done, Done]
      ensures name in a.repoTags ==>
                (Lookup(end.disk.index, name) == Some(a.id)
                 <==> || Lookup(s.disk.index, name) == Some(a.id)
                      || Before(events, 1, WRITE, 0, WRITE) || Before(events, 0, WRITE, 1, READ))
      ensures name in b.repoTags ==>
                (Lookup(end.disk.index, name) == Some(b.id)
                 <==> || Lookup(s.disk.index, name) == Some(b.id)
                      || Before(events, 0, WRITE, 1, WRITE) || Before(events, 1, WRITE, 0, READ))
    {
      NameSurvives(s, a, b, events, name);
    }
    OneWritesLast(events);
  }
}
