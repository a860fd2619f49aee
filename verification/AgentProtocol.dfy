/** Requests and responses between the host's agent client (pkg/runtime/agent.go) and the agent in the
    guest (cmd/poqman-agent/main.go): one JSON line each, in both directions first in, first out. */
module AgentProtocol {
  import opened Images

  datatype Command =
    | Execute(args: seq<string>, env: seq<string>, cwd: string)
    | Signal(name: string)
    | Ping

  datatype Request = Request(id: int, command: Command)

  datatype Response = Response(id: int, ok: bool, exit: int, stdout: string, stderr: string, error: string)

  /** What the guest's system does with a request: a child that does not start, or one that runs and
      ends; `delivered` tells whether a signal reaches the active process. */
  datatype Child =
    | NoStart(message: string, delivered: bool)
    | Ends(pid: int, exit: int, stdout: string, stderr: string, delivered: bool)

  const NO_PROCESS := "no active process"

  function ErrorResponse(id: int, message: string): Response {
    Response(id, false, 0, "", "", message)
  }

  /** The agent's response. Without arguments to execute the agent crashes and there is none. */
  function Answer(active: Option<int>, q: Request, child: Child): Option<Response> {
    match q.command
    case Execute(args, _, _) =>
      if args == [] then None
      else if child.NoStart? then Some(ErrorResponse(q.id, "start command: " + child.message))
      else Some(Response(q.id, false, child.exit, child.stdout, child.stderr, ""))
    case Signal(_) =>
      if active.None? then Some(ErrorResponse(q.id, NO_PROCESS))
      else if !child.delivered then Some(ErrorResponse(q.id, "send signal: failed"))
      else Some(Response(q.id, true, 0, "", "", ""))
    case Ping => Some(Response(q.id, true, 0, "", "", ""))
  }

  /** What a response says about its request and the child that was made for it, when no other process is
      active: the exit status and the output of that child, or why it did not start. */
  predicate Tells(q: Request, child: Child, r: Response) {
    && r.id == q.id
    && match q.command
       case Execute(args, _, _) =>
         && args != []
         && (child.Ends? ==> r.error == "" && (r.exit, r.stdout, r.stderr) == (child.exit, child.stdout, child.stderr))
         && (child.NoStart? ==> r.error == "start command: " + child.message)
       case Signal(_) => r.error == "no active process" && !r.ok
       case Ping => r.error == "" && r.ok
  }

  lemma AnswerTells(q: Request, child: Child)
    ensures Answer(None, q, child).None? <==> q.command.Execute? && q.command.args == []
    ensures Answer(None, q, child).Some? ==> Tells(q, child, Answer(None, q, child).value)
  {
  }

  /** The agent: its globals, and one handler for each command. */
  class Agent {
    var alive: bool
    var activeProcess: Option<int>
    var stdoutBuf: string
    var stderrBuf: string

    constructor ()
      ensures alive && activeProcess == None
    {
      alive, activeProcess, stdoutBuf, stderrBuf := true, None, "", "";
    }

    method HandleExecute(q: Request, child: Child) returns (r: Option<Response>)
      requires q.command.Execute? && alive && activeProcess == None
      modifies this
      ensures r == Answer(None, q, child)
      ensures r.Some? <==> q.command.args != []
      ensures r.Some? && child.Ends? ==>
                r.value == Response(q.id, false, child.exit, child.stdout, child.stderr, "")
      ensures r.Some? && child.NoStart? ==>
                r.value == Response(q.id, false, 0, "", "", "start command: " + child.message)
      ensures activeProcess == None && alive == r.Some?
    {
      stdoutBuf := "";
      stderrBuf := "";
      if q.command.args == [] {
        alive := false;
        return None;
      }
      if child.NoStart? {
        return Some(ErrorResponse(q.id, "start command: " + child.message));
      }
      activeProcess := Some(child.pid);
      stdoutBuf := child.stdout;
      stderrBuf := child.stderr;
      var exitCode := child.exit;
      activeProcess := None;
      return Some(Response(q.id, false, exitCode, stdoutBuf, stderrBuf, ""));
    }

    method HandleSignal(q: Request, child: Child) returns (r: Option<Response>)
      requires q.command.Signal?
      ensures r == Answer(activeProcess, q, child)
      ensures activeProcess.None? ==> r == Some(Response(q.id, false, 0, "", "", "no active process"))
      ensures activeProcess.Some? && child.delivered ==> r == Some(Response(q.id, true, 0, "", "", ""))
      ensures activeProcess.Some? && !child.delivered ==> r.Some? && r.value.error != "" && !r.value.ok
    {
      var proc := activeProcess;
      if proc == None {
        return Some(ErrorResponse(q.id, NO_PROCESS));
      }
      if !child.delivered {
        return Some(ErrorResponse(q.id, "send signal: failed"));
      }
      return Some(Response(q.id, true, 0, "", "", ""));
    }

    method HandlePing(q: Request) returns (r: Response)
      ensures r == Response(q.id, true, 0, "", "", "")
    {
      return Response(q.id, true, 0, "", "", "");
    }

    /** The loop of main, over the request lines that arrive: one response a request, in order, up to the
        first request that crashes the agent. */
    method Serve(lines: seq<Request>, children: seq<Child>) returns (out: seq<Response>)
      requires alive && activeProcess == None && |children| == |lines|
      modifies this
      ensures activeProcess == None
      ensures |out| <= |lines| && (alive <==> |out| == |lines|)
      ensures forall i | 0 <= i < |out| :: Answer(None, lines[i], children[i]) == Some(out[i])
      ensures forall i | 0 <= i < |out| :: Tells(lines[i], children[i], out[i])
      ensures !alive ==> Answer(None, lines[|out|], children[|out|]) == None
    {
      out := [];
      while |out| < |lines|
        invariant alive && activeProcess == None && |out| <= |lines|
        invariant forall i | 0 <= i < |out| :: Answer(None, lines[i], children[i]) == Some(out[i])
        invariant forall i | 0 <= i < |out| :: Tells(lines[i], children[i], out[i])
      {
        AnswerTells(lines[|out|], children[|out|]);
        var q := lines[|out|];
        var r: Option<Response>;
        match q.command {
          case Execute(_, _, _) => r := HandleExecute(q, children[|out|]);
          case Signal(_) => r := HandleSignal(q, children[|out|]);
          case Ping => var pong := HandlePing(q); r := Some(pong);
        }
        if r.None? {
          return;
        }
        out := out + [r.value];
      }
    }
  }

  /** What a call on the client returns. A call that waits for a line or for the mutex is pending. */
  datatype Reply = Failure | Exited(exit: int, stdout: string, stderr: string) | Fine | Pending

  function ReplyOf(command: Command, r: Response): Reply {
    if r.error != "" then Failure
    else if command.Execute? then Exited(r.exit, r.stdout, r.stderr)
    else if r.ok then Fine else Failure
  }

  /** What the client's scan yields: a line, an error, or nothing for ever. */
  datatype Reception = Answered(response: Response) | Broken | NoLine

  function Received(q: Request, child: Child, working: bool, alive: bool): Reception {
    if !working then Broken
    else if !alive || Answer(None, q, child).None? then NoLine
    else Answered(Answer(None, q, child).value)
  }

  function ReplyTo(q: Request, child: Child, working: bool, alive: bool): Reply {
    match Received(q, child, working, alive)
    case Broken => Failure
    case NoLine => Pending
    case Answered(r) => ReplyOf(q.command, r)
  }

  /** The client. A call holds the mutex from the new ID to the response, and for ever if there is none;
      `written` and `scanned` tell whether its write and its scan succeed, and `child` what the agent's
      system does. */
  class AgentClient {
    const agent: Agent
    var idSeq: int
    var broken: bool
    var locked: bool

    constructor (agent: Agent)
      ensures this.agent == agent && idSeq == 0 && !broken && !locked
    {
      this.agent := agent;
      idSeq, broken, locked := 0, false, false;
    }

    method SendAndReceive(q: Request, child: Child, written: bool, scanned: bool) returns (r: Reception)
      requires agent.activeProcess == None && locked
      modifies this`broken, this`locked, agent
      ensures r == Received(q, child, written && scanned && !old(broken), old(agent.alive))
      ensures r.Answered? ==> Tells(q, child, r.response)
      ensures broken == (old(broken) || (written && r.Broken?)) && locked == r.NoLine?
      ensures agent.activeProcess == None
      ensures agent.alive == (old(agent.alive) && (!written || Answer(None, q, child).Some?))
    {
      if !written {
        locked := false;
        return Broken;
      }
      var lines: seq<Response> := [];
      if agent.alive {
        lines := agent.Serve([q], [child]);
        assert lines != [] ==> Answer(None, q, child) == Some(lines[0]);
      }
      if broken || !scanned {
        broken, locked := true, false;
        return Broken;
      }
      if lines == [] {
        return NoLine;
      }
      locked := false;
      return Answered(lines[0]);
    }

    method Execute(args: seq<string>, env: seq<string>, cwd: string, child: Child, written: bool, scanned: bool)
      returns (reply: Reply)
      requires agent.activeProcess == None
      modifies this, agent
      ensures agent.activeProcess == None && locked == reply.Pending?
      ensures old(locked) ==> reply == Pending && idSeq == old(idSeq) && agent.alive == old(agent.alive)
      ensures !old(locked) ==>
                var q := Request(idSeq, Command.Execute(args, env, cwd));
                && idSeq == old(idSeq) + 1
                && reply == ReplyTo(q, child, written && scanned && !old(broken), old(agent.alive))
                && (args == [] && written ==> !agent.alive)
      ensures !old(locked) && written && scanned && !old(broken) && old(agent.alive) && args != [] ==>
                reply == if child.Ends? then Exited(child.exit, child.stdout, child.stderr) else Failure
    {
      if locked {
        return Pending;
      }
      locked := true;
      idSeq := idSeq + 1;
      var resp := SendAndReceive(Request(idSeq, Command.Execute(args, env, cwd)), child, written, scanned);
      match resp {
        case NoLine => return Pending;
        case Broken => return Failure;
        case Answered(r) =>
          if r.error != "" {
            return Failure;
          }
          return Exited(r.exit, r.stdout, r.stderr);
      }
    }

    method Signal(name: string, child: Child, written: bool, scanned: bool) returns (reply: Reply)
      requires agent.activeProcess == None
      modifies this, agent
      ensures agent.activeProcess == None && agent.alive == old(agent.alive) && locked == reply.Pending?
      ensures old(locked) ==> reply == Pending && idSeq == old(idSeq)
      ensures !old(locked) ==>
                && idSeq == old(idSeq) + 1
                && reply == if written && scanned && !old(broken) && !agent.alive then Pending else Failure
    {
      if locked {
        return Pending;
      }
      locked := true;
      idSeq := idSeq + 1;
      var resp := SendAndReceive(Request(idSeq, Command.Signal(name)), child, written, scanned);
      match resp {
        case NoLine => return Pending;
        case Broken => return Failure;
        case Answered(r) =>
          if r.error != "" {
            return Failure;
          }
          if !r.ok {
            return Failure;
          }
          return Fine;
      }
    }

    method Ping(child: Child, written: bool, scanned: bool) returns (reply: Reply)
      requires agent.activeProcess == None
      modifies this, agent
      ensures agent.activeProcess == None && agent.alive == old(agent.alive) && locked == reply.Pending?
      ensures old(locked) ==> reply == Pending && idSeq == old(idSeq)
      ensures !old(locked) ==>
                && idSeq == old(idSeq) + 1
                && reply == ReplyTo(Request(idSeq, Command.Ping), child, written && scanned && !old(broken),
                                    agent.alive)
                && reply == if !written || !scanned || old(broken) then Failure
                            else if agent.alive then Fine else Pending
    {
      if locked {
        return Pending;
      }
      locked := true;
      idSeq := idSeq + 1;
      var resp := SendAndReceive(Request(idSeq, Command.Ping), child, written, scanned);
      match resp {
        case NoLine => return Pending;
        case Broken => return Failure;
        case Answered(r) =>
          if r.error != "" {
            return Failure;
          }
          if !r.ok {
            return Failure;
          }
          return Fine;
      }
    }
  }

  /** Who holds the client's mutex, and how far that call has come. */
  datatype Holder =
    | Free
    | Sending(caller: nat, request: Request)
    | Awaiting(caller: nat, request: Request)

  datatype Phase = Waiting | Busy(request: Request, child: Child) | Dead

  datatype Outcome = Returned(caller: nat, request: Request, response: Response) | Failed(caller: nat, request: Request)

  datatype Exchange = Exchange(request: Request, response: Response)

  /** Client, lines and agent. `sent`, `answered` and `outcomes` record the history: the requests that were
      written, the responses that the agent gave, and how the calls ended. `broken` says that the
      client's scanner has failed once: it never yields a complete line again. */
  datatype World = World(idSeq: int, holder: Holder, broken: bool,
                         requests: seq<Request>, responses: seq<Response>,
                         phase: Phase, active: Option<int>,
                         sent: seq<Request>, answered: seq<Exchange>, outcomes: seq<Outcome>)

  const START := World(0, Free, false, [], [], Waiting, None, [], [], [])

  /** A caller gets the mutex; the holder's write succeeds or fails; the holder's scan yields a line or
      fails; the agent takes a request; the agent's child exits. */
  datatype Event =
    | Lock(caller: nat, command: Command)
    | Write(ok: bool)
    | Scan(ok: bool)
    | Take(child: Child)
    | ChildExits

  function Respond(w: World, q: Request, child: Child): World {
    match Answer(w.active, q, child)
    case None => w.(phase := Dead)
    case Some(r) => w.(phase := Waiting, responses := w.responses + [r], answered := w.answered + [Exchange(q, r)])
  }

  function Step(w: World, e: Event): World {
    match e
    case Lock(caller, command) =>
      if !w.holder.Free? then w
      else w.(idSeq := w.idSeq + 1, holder := Sending(caller, Request(w.idSeq + 1, command)))
    case Write(ok) =>
      if !w.holder.Sending? then w
      else if !ok then
        w.(holder := Free, outcomes := w.outcomes + [Failed(w.holder.caller, w.holder.request)])
      else
        w.(holder := Awaiting(w.holder.caller, w.holder.request),
           requests := w.requests + [w.holder.request], sent := w.sent + [w.holder.request])
    case Scan(ok) =>
      if !w.holder.Awaiting? then w
      else if w.broken || !ok then
        w.(holder := Free, broken := true, outcomes := w.outcomes + [Failed(w.holder.caller, w.holder.request)])
      else if w.responses == [] then w
      else
        w.(holder := Free, responses := w.responses[1..],
           outcomes := w.outcomes + [Returned(w.holder.caller, w.holder.request, w.responses[0])])
    case Take(child) =>
      if !w.phase.Waiting? || w.requests == [] then w
      else
        var q := w.requests[0];
        var taken := w.(requests := w.requests[1..]);
        if q.command.Execute? && q.command.args != [] && child.Ends? then
          taken.(phase := Busy(q, child), active := Some(child.pid))
        else Respond(taken, q, child)
    case ChildExits =>
      if !w.phase.Busy? then w else Respond(w.(active := None), w.phase.request, w.phase.child)
  }

  function Run(w: World, events: seq<Event>): World {
    if events == [] then w else Step(Run(w, events[..|events| - 1]), events[|events| - 1])
  }

  /** The number of requests that are under way: written, in work, or answered and not yet read. */
  function Outstanding(w: World): nat {
    |w.requests| + |w.responses| + if w.phase.Busy? then 1 else 0
  }

  /** Until the scanner fails, what is under way is the one request of the call that holds the mutex. */
  predicate OneAtATime(w: World) {
    if w.holder.Awaiting? then
      var q := w.holder.request;
      || (w.requests == [q] && w.responses == [] && !w.phase.Busy?)
      || (w.requests == [] && w.responses == [] && w.phase.Busy? && w.phase.request == q)
      || (w.requests == [] && w.responses == [] && w.phase.Dead?)
      || (w.requests == [] && !w.phase.Busy? && |w.responses| == 1 && Exchange(q, w.responses[0]) in w.answered)
    else w.requests == [] && w.responses == [] && !w.phase.Busy?
  }

  predicate IDsIncrease(w: World) {
    && (forall i, j | 0 <= i < j < |w.sent| :: w.sent[i].id < w.sent[j].id)
    && (forall i | 0 <= i < |w.sent| :: w.sent[i].id <= w.idSeq)
    && (w.holder.Sending? ==> w.holder.request.id == w.idSeq && forall i | 0 <= i < |w.sent| :: w.sent[i].id < w.idSeq)
  }

  /** The agent has an active process only while it works on a request: never when it takes one. */
  predicate ActiveWhileBusy(w: World) {
    && (w.phase.Busy? <==> w.active.Some?)
    && (w.phase.Busy? ==> w.phase.request.command.Execute? && w.phase.request.command.args != [] && w.phase.child.Ends?)
  }

  ghost predicate AnswersMatch(w: World) {
    && (forall x | x in w.answered ::
          x.response.id == x.request.id && (exists child :: Answer(None, x.request, child) == Some(x.response)))
    && (forall o | o in w.outcomes && o.Returned? ::
          Exchange(o.request, o.response) in w.answered && o.request in w.sent)
    && (w.holder.Awaiting? ==> w.holder.request in w.sent)
  }

  ghost predicate Protocol(w: World) {
    IDsIncrease(w) && ActiveWhileBusy(w) && AnswersMatch(w) && (!w.broken ==> OneAtATime(w))
  }

  /** Event number `n` is the agent's taking this request, with this child to come of it. */
  predicate TakenAt(events: seq<Event>, n: nat, q: Request, child: Child) {
    n < |events| && events[n] == Take(child)
    && var w := Run(START, events[..n]); w.phase.Waiting? && w.requests != [] && w.requests[0] == q
  }

  lemma StepKeepsIDs(w: World, e: Event)
    requires IDsIncrease(w)
    ensures IDsIncrease(Step(w, e))
  {
  }

  lemma StepKeepsActive(w: World, e: Event)
    requires ActiveWhileBusy(w)
    ensures ActiveWhileBusy(Step(w, e))
  {
  }

  lemma StepKeepsOneAtATime(w: World, e: Event)
    requires ActiveWhileBusy(w) && (!w.broken ==> OneAtATime(w))
    ensures !Step(w, e).broken ==> OneAtATime(Step(w, e))
  {
    var next := Step(w, e);
    if next.answered != w.answered {
      assert next.answered[|w.answered|] in next.answered;
    }
  }

  lemma RespondMatches(w: World, q: Request, child: Child)
    requires AnswersMatch(w) && w.active == None
    ensures AnswersMatch(Respond(w, q, child))
  {
  }

  lemma StepKeepsMatches(w: World, e: Event)
    requires AnswersMatch(w) && ActiveWhileBusy(w) && (!w.broken ==> OneAtATime(w))
    ensures AnswersMatch(Step(w, e))
  {
    match e
    case Take(child) =>
      if w.phase.Waiting? && w.requests != [] {
        RespondMatches(w.(requests := w.requests[1..]), w.requests[0], child);
      }
    case ChildExits =>
      if w.phase.Busy? {
        RespondMatches(w.(active := None), w.phase.request, w.phase.child);
      }
    case _ =>
  }

  /** The protocol's invariant over every run, with any number of callers, failures and crashes. */
  lemma {:induction false} RunsKeepProtocol(events: seq<Event>)
    ensures Protocol(Run(START, events))
  {
    if events != [] {
      var n := |events| - 1;
      RunsKeepProtocol(events[..n]);
      var w := Run(START, events[..n]);
      StepKeepsIDs(w, events[n]);
      StepKeepsActive(w, events[n]);
      StepKeepsOneAtATime(w, events[n]);
      StepKeepsMatches(w, events[n]);
    }
  }

  /** Every response tells of the child of the event in which the agent took its request. */
  lemma {:induction false} AnsweredWasTaken(events: seq<Event>, x: Exchange) returns (n: nat, child: Child)
    requires x in Run(START, events).answered
    ensures TakenAt(events, n, x.request, child) && Tells(x.request, child, x.response)
  {
    var k := |events| - 1;
    var w := Run(START, events[..k]);
    RunsKeepProtocol(events[..k]);
    if x in w.answered {
      n, child := AnsweredWasTaken(events[..k], x);
      assert events[..k][..n] == events[..n];
    } else if events[k].Take? {
      n, child := k, events[k].child;
      AnswerTells(x.request, child);
    } else {
      n := BusyWasTaken(events[..k]);
      child := w.phase.child;
      assert events[..k][..n] == events[..n];
      AnswerTells(x.request, child);
    }
  }

  lemma {:induction false} BusyWasTaken(events: seq<Event>) returns (n: nat)
    requires Run(START, events).phase.Busy?
    ensures var w := Run(START, events); TakenAt(events, n, w.phase.request, w.phase.child)
  {
    var k := |events| - 1;
    if Run(START, events[..k]).phase.Busy? {
      n := BusyWasTaken(events[..k]);
      assert events[..k][..n] == events[..n];
    } else {
      n := k;
    }
  }

  /** What has been taken from the line stands in front of what is still on it. */
  predicate QueueIsTail(w: World) {
    |w.requests| <= |w.sent| && w.requests == w.sent[Head(w)..]
  }

  function Head(w: World): nat {
    if |w.requests| <= |w.sent| then |w.sent| - |w.requests| else 0
  }

  lemma WriteMovesOn(w: World)
    requires QueueIsTail(w)
    ensures QueueIsTail(Step(w, Write(true))) && w.sent <= Step(w, Write(true)).sent
    ensures Head(w) == Head(Step(w, Write(true)))
  {
    if w.holder.Sending? {
      var q := w.holder.request;
      assert (w.sent + [q])[Head(w)..] == w.sent[Head(w)..] + [q];
    }
  }

  lemma TakeMovesOn(w: World, child: Child)
    requires QueueIsTail(w)
    ensures QueueIsTail(Step(w, Take(child))) && w.sent == Step(w, Take(child)).sent
    ensures Head(Step(w, Take(child))) == Head(w) + if w.phase.Waiting? && w.requests != [] then 1 else 0
  {
    if w.requests != [] {
      assert w.requests[1..] == w.sent[Head(w) + 1..];
    }
  }

  lemma StepMovesOn(w: World, e: Event)
    requires QueueIsTail(w)
    ensures QueueIsTail(Step(w, e)) && w.sent <= Step(w, e).sent && Head(w) <= Head(Step(w, e))
  {
    match e
    case Write(ok) =>
      if ok {
        WriteMovesOn(w);
      }
    case Take(child) => TakeMovesOn(w, child);
    case _ =>
  }

  lemma LastStep(events: seq<Event>, m: nat)
    requires 0 < m <= |events|
    ensures Run(START, events[..m]) == Step(Run(START, events[..m - 1]), events[m - 1])
  {
    assert events[..m][..m - 1] == events[..m - 1];
  }

  /** More may have been sent and taken since. */
  predicate MovedOn(a: World, b: World) {
    a.sent <= b.sent && Head(a) <= Head(b)
  }

  lemma {:induction false} QueueStaysTail(events: seq<Event>, m: nat)
    requires m <= |events|
    ensures QueueIsTail(Run(START, events[..m]))
    decreases m
  {
    if m > 0 {
      QueueStaysTail(events, m - 1);
      LastStep(events, m);
      StepMovesOn(Run(START, events[..m - 1]), events[m - 1]);
    }
  }

  lemma {:induction false} QueueMovesOn(events: seq<Event>, n: nat, m: nat)
    requires n <= m <= |events|
    ensures MovedOn(Run(START, events[..n]), Run(START, events[..m]))
    decreases m
  {
    if n < m {
      QueueMovesOn(events, n, m - 1);
      LastStep(events, m);
      QueueStaysTail(events, m - 1);
      StepMovesOn(Run(START, events[..m - 1]), events[m - 1]);
    }
  }

  lemma TakenIsHead(events: seq<Event>, n: nat, q: Request, child: Child)
    requires TakenAt(events, n, q, child)
    ensures var w := Run(START, events[..n]); Head(w) < |w.sent| && w.sent[Head(w)] == q
  {
    QueueStaysTail(events, n);
  }

  /** A request that has been taken stands in front of all that are taken later. */
  lemma TakenIsBehind(events: seq<Event>, n: nat, m: nat, q: Request, child: Child)
    requires n < m <= |events| && TakenAt(events, n, q, child)
    ensures var a, b := Run(START, events[..n]), Run(START, events[..m]);
            Head(a) < Head(b) && Head(a) < |b.sent| && b.sent[Head(a)] == q
  {
    TakenIsHead(events, n, q, child);
    QueueMovesOn(events, n, m);
    QueueMovesOn(events, n + 1, m);
    assert events[..n + 1][..n] == events[..n];
    QueueStaysTail(events, n);
    TakeMovesOn(Run(START, events[..n]), child);
  }

  /** The agent takes a request only once, so that there is one child for each. */
  lemma TakenOnce(events: seq<Event>, n: nat, m: nat, q: Request, child: Child, other: Child)
    requires n <= m && TakenAt(events, n, q, child) && TakenAt(events, m, q, other)
    ensures n == m && child == other
  {
    if n < m {
      RunsKeepProtocol(events[..m]);
      TakenIsBehind(events, n, m, q, child);
      TakenIsHead(events, m, q, other);
      assert false;
    }
  }

  /** Although the client never looks at response IDs: in every run, a call that gets a response gets the
      one that the agent computed for this very request when it took it, and no other request was sent with
      its ID. */
  lemma CallsGetTheirOwnResponse(events: seq<Event>, o: Outcome)
    requires o in Run(START, events).outcomes && o.Returned?
    ensures o.response.id == o.request.id
    ensures exists n: nat, child :: TakenAt(events, n, o.request, child) && Tells(o.request, child, o.response)
    ensures o.request in Run(START, events).sent
    ensures forall i, j | 0 <= i < j < |Run(START, events).sent| ::
              Run(START, events).sent[i].id < Run(START, events).sent[j].id
  {
    RunsKeepProtocol(events);
    assert Exchange(o.request, o.response) in Run(START, events).answered;
    var n, child := AnsweredWasTaken(events, Exchange(o.request, o.response));
  }

  lemma {:induction false} AtMostOneOutstanding(events: seq<Event>)
    ensures var w := Run(START, events);
            !w.broken ==> Outstanding(w) <= if w.holder.Awaiting? then 1 else 0
  {
    RunsKeepProtocol(events);
  }

  /** Whenever the agent takes a request it has no active process, so that a signal never reaches one:
      no call of Signal ever succeeds. */
  lemma SignalNeverSucceeds(events: seq<Event>, o: Outcome)
    requires o in Run(START, events).outcomes && o.Returned? && o.request.command.Signal?
    ensures o.response.error == NO_PROCESS && ReplyOf(o.request.command, o.response) == Failure
  {
    CallsGetTheirOwnResponse(events, o);
  }

  lemma {:induction false} NoActiveProcessAtTake(events: seq<Event>)
    ensures var w := Run(START, events); w.phase.Waiting? ==> w.active == None
  {
    RunsKeepProtocol(events);
  }

  /** Once the scanner has failed, no call succeeds any more. */
  lemma {:induction false} BrokenForGood(w: World, events: seq<Event>)
    requires w.broken
    ensures var end := Run(w, events);
            && end.broken && w.outcomes <= end.outcomes
            && forall i | |w.outcomes| <= i < |end.outcomes| :: end.outcomes[i].Failed?
  {
    if events != [] {
      BrokenForGood(w, events[..|events| - 1]);
    }
  }

  /** Once the agent has crashed and no response is on its way, no call gets a response any more; and as long
      as no scan fails, the call that awaits one keeps the lock, and no other call goes on. */
  lemma {:induction false} DeadForGood(w: World, events: seq<Event>)
    requires w.phase.Dead? && w.responses == []
    ensures var end := Run(w, events);
            && end.phase.Dead? && end.responses == [] && w.outcomes <= end.outcomes
            && (forall i | |w.outcomes| <= i < |end.outcomes| :: end.outcomes[i].Failed?)
            && (w.holder.Awaiting? && !w.broken && Scan(false) !in events ==>
                  end.holder == w.holder && end.idSeq == w.idSeq && end.outcomes == w.outcomes && !end.broken)
  {
    if events != [] {
      var n := |events| - 1;
      DeadForGood(w, events[..n]);
      assert events[n] in events && forall e | e in events[..n] :: e in events;
    }
  }

  /** The events of a call that nothing disturbs. */
  function CallEvents(caller: nat, command: Command, child: Child): seq<Event> {
    [Lock(caller, command), Write(true), Take(child), ChildExits, Scan(true)]
  }

  predicate Idle(w: World) {
    w.holder.Free? && w.phase.Waiting? && w.active == None && !w.broken && w.requests == [] && w.responses == []
  }

  lemma RequestArrives(w: World, caller: nat, command: Command)
    requires Idle(w)
    ensures var q := Request(w.idSeq + 1, command);
            Step(Step(w, Lock(caller, command)), Write(true))
              == w.(idSeq := w.idSeq + 1, holder := Awaiting(caller, q), requests := [q], sent := w.sent + [q])
  {
  }

  lemma AgentAnswers(w: World, q: Request, child: Child)
    requires w.phase.Waiting? && w.active == None && w.requests == [q] && w.responses == []
    requires Answer(None, q, child).Some?
    ensures var r := Answer(None, q, child).value;
            Step(Step(w, Take(child)), ChildExits)
              == w.(requests := [], responses := [r], answered := w.answered + [Exchange(q, r)])
  {
    assert w.requests[0] == q && w.requests[1..] == [];
  }

  /** A call on an idle connection gets through: it returns the agent's answer, and leaves the connection
      idle for the next caller. */
  lemma UndisturbedCall(w: World, caller: nat, command: Command, child: Child)
    requires Idle(w) && !(command.Execute? && command.args == [])
    ensures var q := Request(w.idSeq + 1, command);
            var end := Run(w, CallEvents(caller, command, child));
            && Idle(end) && end.idSeq == w.idSeq + 1
            && end.outcomes == w.outcomes + [Returned(caller, q, Answer(None, q, child).value)]
  {
    var events := CallEvents(caller, command, child);
    var q := Request(w.idSeq + 1, command);
    assert Run(w, events) == Step(Step(Step(Step(Step(w, events[0]), events[1]), events[2]), events[3]), events[4]) by {
      forall n | 0 <= n < 5 ensures Run(w, events[..n + 1]) == Step(Run(w, events[..n]), events[n]) {
        assert events[..n + 1][..n] == events[..n];
      }
      assert Run(w, events[..0]) == w && events[..5] == events;
    }
    RequestArrives(w, caller, command);
    AgentAnswers(Step(Step(w, events[0]), events[1]), q, child);
  }
}
