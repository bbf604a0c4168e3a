/**
  What the operating system reported to the registry, call by call, and the run
  of the state machine that those reports amount to.
 */
module RegistryLog {
  import opened Bytes
  import opened RegistryModel
  import opened RegistryInvariants
  import opened RegistryRounds

  /** A call and its outcome. `EndCall` is a receive that returned no bytes, and
      `MemoryCall` says how many strings can be allocated for one request. */
  datatype Call =
    | AcceptCall(fd: int, addr: Addr)
    | RecvCall(fd: int, data: Bytes, stale: Bytes)
    | EndCall(fd: int)
    | MemoryCall(strings: nat)
    | CloseCall(fd: int, ok: bool)
    | SelectCall(num: int, ready: set<int>)

  /** The calls behind one event. */
  function EventCalls(cfg: Config, st: State, e: Event): seq<Call> {
    match e
    case Accepted(fd, addr, closeWorks) =>
      [AcceptCall(fd, addr)]
      + if st.activeClients == cfg.maxConn - 1 then [CloseCall(fd, closeWorks)] else []
    case Received(fd, data, stale, memory) => [RecvCall(fd, data, stale), MemoryCall(memory)]
    case Closed(fd, closeWorks) => [EndCall(fd), CloseCall(fd, closeWorks)]
  }

  ghost function CallsOf(cfg: Config, base: set<int>, run: Run): seq<Call>
    requires Replay(cfg, base, run).Some?
  {
    match run
    case Start => []
    case Then(before, e) =>
      CallsOf(cfg, base, before) + EventCalls(cfg, Replay(cfg, base, before).value, e)
  }

  /** Waiting, and an accept that fails, change nothing. */
  predicate Idle(c: Call) {
    c.SelectCall? || (c.AcceptCall? && c.fd == -1)
  }

  /** The log without the calls that change nothing. */
  function Effective(log: seq<Call>): seq<Call> {
    if log == [] then []
    else
      var n := |log| - 1;
      if Idle(log[n]) then Effective(log[..n]) else Effective(log[..n]) + [log[n]]
  }

  lemma EffectiveNext(log: seq<Call>, c: Call)
    ensures Effective(log + [c]) == if Idle(c) then Effective(log) else Effective(log) + [c]
  {
    assert (log + [c])[..|log|] == log;
  }

  /** Calls of one event taken off the end of a log. */
  function TailLength(log: seq<Call>): nat
    requires log != []
  {
    if log[|log| - 1].AcceptCall? then 1 else 2
  }

  lemma TailOfSum(head: seq<Call>, calls: seq<Call>)
    requires calls != []
    ensures (head + calls)[..|head + calls| - |calls|] == head && (head + calls)[|head + calls| - |calls|..] == calls
    ensures (head + calls)[|head + calls| - 1] == calls[|calls| - 1]
  {
  }

  lemma EventTail(cfg: Config, st: State, e: Event)
    ensures var calls := EventCalls(cfg, st, e);
            calls != [] && |calls| == if calls[|calls| - 1].AcceptCall? then 1 else 2
  {
  }

  lemma TailIsEvent(cfg: Config, base: set<int>, run: Run)
    requires Replay(cfg, base, run).Some? && run.Then?
    ensures var log := CallsOf(cfg, base, run);
            var calls := EventCalls(cfg, Replay(cfg, base, run.before).value, run.e);
            log != [] && TailLength(log) == |calls| <= |log|
            && log[..|log| - |calls|] == CallsOf(cfg, base, run.before) && log[|log| - |calls|..] == calls
  {
    hide Step, Legal, Init, EventCalls;
    var st := Replay(cfg, base, run.before).value;
    EventTail(cfg, st, run.e);
    TailOfSum(CallsOf(cfg, base, run.before), EventCalls(cfg, st, run.e));
  }

  lemma CallsDetermineEvent(cfg: Config, st: State, a: Event, b: Event)
    requires Legal(cfg, st, a) && Legal(cfg, st, b) && EventCalls(cfg, st, a) == EventCalls(cfg, st, b)
    ensures a == b
  {
    var calls := EventCalls(cfg, st, a);
    assert calls[0] == EventCalls(cfg, st, b)[0];
    if |calls| == 2 {
      assert calls[1] == EventCalls(cfg, st, b)[1];
    }
  }

  /** The calls determine the run. */
  lemma {:induction false} LogDeterminesRun(cfg: Config, base: set<int>, a: Run, b: Run)
    requires Replay(cfg, base, a).Some? && Replay(cfg, base, b).Some?
    requires CallsOf(cfg, base, a) == CallsOf(cfg, base, b)
    ensures a == b
  {
    if a.Then? {
      TailIsEvent(cfg, base, a);
    }
    if b.Then? {
      TailIsEvent(cfg, base, b);
    }
    if a.Then? && b.Then? {
      LogDeterminesRun(cfg, base, a.before, b.before);
      CallsDetermineEvent(cfg, Replay(cfg, base, a.before).value, a.e, b.e);
    }
  }

  // ------------------------------------------------------------ counting calls

  /** The descriptors received from, in order. */
  function RecvFds(log: seq<Call>): seq<int> {
    if log == [] then []
    else
      var c := log[|log| - 1];
      RecvFds(log[..|log| - 1]) + if c.RecvCall? || c.EndCall? then [c.fd] else []
  }

  /** From one log to a longer one, the descriptors received from are exactly the
      ready ones without the listener, once each in ascending order, and the
      listener accepts once if it was ready. */
  ghost predicate RoundLogged(listenSock: int, ready: set<int>, log: seq<Call>, later: seq<Call>) {
    && RecvFds(log) <= RecvFds(later)
    && var received := RecvFds(later)[|RecvFds(log)|..];
    && Ascending(received)
    && (forall fd :: fd in received <==> fd in ready && fd != listenSock)
    && AcceptCount(later) == AcceptCount(log) + (if listenSock in ready then 1 else 0)
  }

  function AcceptCount(log: seq<Call>): nat {
    if log == [] then 0 else AcceptCount(log[..|log| - 1]) + if log[|log| - 1].AcceptCall? then 1 else 0
  }

  /** The descriptors closed, in order. */
  function CloseFds(log: seq<Call>): seq<int> {
    if log == [] then []
    else
      var c := log[|log| - 1];
      CloseFds(log[..|log| - 1]) + if c.CloseCall? then [c.fd] else []
  }

  lemma CountNext(log: seq<Call>, c: Call)
    ensures RecvFds(log + [c]) == RecvFds(log) + if c.RecvCall? || c.EndCall? then [c.fd] else []
    ensures AcceptCount(log + [c]) == AcceptCount(log) + if c.AcceptCall? then 1 else 0
    ensures CloseFds(log + [c]) == CloseFds(log) + if c.CloseCall? then [c.fd] else []
  {
    assert (log + [c])[..|log|] == log;
  }

  lemma CountTwo(log: seq<Call>, c: Call, d: Call)
    requires !d.RecvCall? && !d.EndCall?
    ensures RecvFds(log + [c, d]) == RecvFds(log) + if c.RecvCall? || c.EndCall? then [c.fd] else []
  {
    CountNext(log, c);
    CountNext(log + [c], d);
    assert log + [c, d] == log + [c] + [d];
  }

  lemma {:induction false} RecvFdsEffective(log: seq<Call>)
    ensures RecvFds(Effective(log)) == RecvFds(log)
  {
    if log != [] {
      var n := |log| - 1;
      RecvFdsEffective(log[..n]);
      CountNext(Effective(log[..n]), log[n]);
    }
  }

  ghost predicate Extends(from: Run, run: Run) {
    run == from || (run.Then? && Extends(from, run.before))
  }

  /** What was refused up to a point, and since. */
  lemma {:induction false} RefusedInAll(cfg: Config, base: set<int>, from: Run, run: Run)
    requires Replay(cfg, base, from).Some? && Replay(cfg, base, run).Some? && Extends(from, run)
    ensures RefusedSince(cfg, base, Start, run)
            <==> RefusedSince(cfg, base, Start, from) || RefusedSince(cfg, base, from, run)
  {
    if run != from {
      RefusedInAll(cfg, base, from, run.before);
    }
  }

  lemma RecvFdsOfEvent(log: seq<Call>, cfg: Config, st: State, e: Event)
    ensures RecvFds(log + EventCalls(cfg, st, e)) == RecvFds(log) + if e.Accepted? then [] else [e.fd]
  {
    hide RecvFds;
    var calls := EventCalls(cfg, st, e);
    if |calls| == 2 {
      CountTwo(log, calls[0], calls[1]);
      assert calls == [calls[0], calls[1]];
    } else {
      CountNext(log, calls[0]);
      assert calls == [calls[0]];
    }
  }

  /** The receives of a run, since an earlier point of it, are its client events. */
  lemma {:induction false} ReceivesAreClientEvents(cfg: Config, base: set<int>, from: Run, run: Run)
    requires Replay(cfg, base, from).Some? && Replay(cfg, base, run).Some? && Extends(from, run)
    ensures RecvFds(CallsOf(cfg, base, run)) == RecvFds(CallsOf(cfg, base, from)) + ClientEvents(from, run)
  {
    if run != from {
      ReceivesAreClientEvents(cfg, base, from, run.before);
      var log := CallsOf(cfg, base, run.before);
      RecvFdsOfEvent(log, cfg, Replay(cfg, base, run.before).value, run.e);
      var head := RecvFds(CallsOf(cfg, base, from));
      var events := ClientEvents(from, run.before);
      var last := if run.e.Accepted? then [] else [run.e.fd];
      assert head + events + last == head + (events + last);
    }
  }

  /** The same for the logs behind two points of a run. */
  lemma ReceivesSince(cfg: Config, base: set<int>, from: Run, log: seq<Call>, run: Run, later: seq<Call>)
    requires Replay(cfg, base, from).Some? && Replay(cfg, base, run).Some? && Extends(from, run)
    requires Effective(log) == CallsOf(cfg, base, from) && Effective(later) == CallsOf(cfg, base, run)
    ensures RecvFds(later) == RecvFds(log) + ClientEvents(from, run)
  {
    ReceivesAreClientEvents(cfg, base, from, run);
    RecvFdsEffective(log);
    RecvFdsEffective(later);
  }

  /** Waiting is not part of the round that follows. */
  lemma RoundAfterSelect(listenSock: int, num: int, ready: set<int>, log: seq<Call>, later: seq<Call>)
    requires RoundLogged(listenSock, ready, log + [SelectCall(num, ready)], later)
    ensures RoundLogged(listenSock, ready, log, later)
  {
    CountNext(log, SelectCall(num, ready));
  }
}
