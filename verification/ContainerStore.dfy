/** Container records: pkg/container/container.go and pkg/container/store.go. A record has two files. */
module ContainerStore {
  import opened Images
  import opened Sorting

  datatype Status = Created | Running | Stopped | Failed

  datatype Container = Container(id: string, imageID: string, status: Status, pid: int, ip: string,
                                 created: int)

  datatype StateFile = StateFile(status: Status, pid: int, ip: string)

  function StateOf(c: Container): StateFile {
    StateFile(c.status, c.pid, c.ip)
  }

  /** What Load reports: the configuration, with the fields of the state file where there is one. */
  function Loaded(configs: map<string, Container>, states: map<string, StateFile>, id: string): Option<Container> {
    if id !in configs then None
    else if id !in states then Some(configs[id])
    else Some(configs[id].(status := states[id].status, pid := states[id].pid, ip := states[id].ip))
  }

  /** The list holds the records with these IDs, one entry for each. */
  ghost predicate Lists(containers: seq<Container>, configs: map<string, Container>, states: map<string, StateFile>,
                        ids: set<string>)
  {
    && |containers| == |ids|
    && forall c :: c in containers <==> exists id :: id in ids && Loaded(configs, states, id) == Some(c)
  }

  lemma OneMoreListed(containers: seq<Container>, configs: map<string, Container>, states: map<string, StateFile>,
                      ids: set<string>, id: string)
    requires Lists(containers, configs, states, ids) && id in configs && id !in ids
    ensures Lists(containers + [Loaded(configs, states, id).value], configs, states, ids + {id})
  {
    var c := Loaded(configs, states, id).value;
    var all := containers + [c];
    forall d ensures d in all <==> exists other :: other in ids + {id} && Loaded(configs, states, other) == Some(d) {
      assert d in all <==> d in containers || d == c;
      if d == c {
        assert id in ids + {id};
      }
    }
  }

  lemma SameListed(containers: seq<Container>, sorted: seq<Container>, configs: map<string, Container>,
                   states: map<string, StateFile>, ids: set<string>)
    requires Lists(containers, configs, states, ids) && |sorted| == |containers|
    requires forall c :: c in sorted <==> c in containers
    ensures Lists(sorted, configs, states, ids)
  {
  }

  class Store {
    var configs: map<string, Container>
    var states: map<string, StateFile>

    constructor ()
      ensures configs == map[] && states == map[]
    {
      configs, states := map[], map[];
    }

    /** Whatever status the caller has set, a new record says created. */
    method Create(c: Container) returns (created: Container)
      modifies this
      ensures created == Container(c.id, c.imageID, Created, c.pid, c.ip, c.created)
      ensures configs == old(configs)[c.id := created]
      ensures states == old(states)[c.id := StateFile(Created, c.pid, c.ip)]
    {
      created := c.(status := Created);
      configs := configs[c.id := created];
      SaveState(created);
    }

    method Load(id: string) returns (c: Option<Container>)
      ensures c == Loaded(configs, states, id)
      ensures c.Some? <==> id in configs
      ensures c.Some? ==>
                && c.value.id == configs[id].id && c.value.imageID == configs[id].imageID
                && c.value.created == configs[id].created
                && (id in states ==> StateFile(c.value.status, c.value.pid, c.value.ip) == states[id])
                && (id !in states ==> c.value == configs[id])
    {
      if id !in configs {
        return None;
      }
      var container := configs[id];
      if id in states {
        var state := states[id];
        container := container.(status := state.status);
        container := container.(pid := state.pid);
        container := container.(ip := state.ip);
      }
      return Some(container);
    }

    method Save(c: Container)
      modifies this
      ensures configs == old(configs)[c.id := c]
      ensures states == old(states)[c.id := StateFile(c.status, c.pid, c.ip)]
    {
      configs := configs[c.id := c];
      SaveState(c);
    }

    method SaveState(c: Container)
      modifies this`states
      ensures states == old(states)[c.id := StateFile(c.status, c.pid, c.ip)]
    {
      states := states[c.id := StateOf(c)];
    }

    method Remove(id: string)
      modifies this
      ensures configs == old(configs) - {id} && states == old(states) - {id}
    {
      configs := configs - {id};
      states := states - {id};
    }

    /** Every record that can be loaded, once, newest first; a directory without a configuration is passed
        over. */
    method List() returns (containers: seq<Container>)
      ensures Lists(containers, configs, states, configs.Keys)
      ensures forall i, j | 0 <= i < j < |containers| :: containers[i].created >= containers[j].created
    {
      containers := [];
      var rest := configs.Keys + states.Keys;
      ghost var listed: set<string> := {};
      while rest != {}
        invariant forall id | id in listed :: id in configs && id !in rest
        invariant forall id | id in configs :: id in listed || id in rest
        invariant Lists(containers, configs, states, listed)
        decreases rest
      {
        var id :| id in rest;
        rest := rest - {id};
        var c := Load(id);
        if c.None? {
          continue;
        }
        OneMoreListed(containers, configs, states, listed, id);
        containers := containers + [c.value];
        listed := listed + {id};
      }
      assert listed == configs.Keys;
      var sorted := SortFalling(containers, (c: Container) => c.created);
      SameElements(containers, sorted);
      SameListed(containers, sorted, configs, states, configs.Keys);
      return sorted;
    }
  }
}
