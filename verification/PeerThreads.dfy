/**
  The peer's command loop and the listener threads it starts, interleaved in
  every possible way. The flag that stops the listeners is read and written
  atomically, in one order for all threads.
 */
module PeerThreads {
  import opened Bytes
  import opened Wire

  /** A command with what the outside world makes of it. `works` says whether the
      write of its request succeeds. A listener is `bound` on IPv4; the shared
      directory is `listed`; a name is `named` when it is given and ASCII; a file
      is `found` when the registry's reply names a peer, and that peer is `reached`
      when the output file is created and the connection made. */
  datatype Command =
    | Join(works: bool)
    | Register(bound: bool, works: bool)
    | Publish(listed: bool, works: bool)
    | Search(named: bool, works: bool)
    | Fetch(named: bool, works: bool, found: bool, reached: bool, fetchWorks: bool)
    | Help
    | Unknown
    | Exit

  /** A request on the wire, and whether sending it succeeded. */
  datatype Sent = Sent(code: byte, ok: bool)

  datatype Pc = Loading | Accepting | Serving | Done

  /** `late` counts the connections accepted after the flag was cleared. */
  datatype Listener = Listener(pc: Pc, late: nat)

  datatype MainPc = Commands | Leaving | Waiting | Finished

  datatype State = State(
    joined: bool, main: MainPc, acceptConn: bool,
    threads: seq<Listener>, handle: Option<nat>, trace: seq<Sent>)

  const INIT := State(false, Commands, true, [], None, [])

  // ----------------------------------------------------------- command loop

  /** What a fetch puts on the wire: a SEARCH, and a FETCH to the peer it names. */
  function FetchTrace(c: Command): seq<Sent>
    requires c.Fetch?
  {
    if !c.named then []
    else [Sent(SEARCH, c.works)] + if c.works && c.found && c.reached then [Sent(FETCH, c.fetchWorks)] else []
  }

  /** One command. REGISTER starts a listener and keeps only its handle. */
  function Execute(s: State, c: Command): State {
    match c
    case Join(works) =>
      s.(joined := s.joined || works, trace := s.trace + [Sent(JOIN, works)])
    case Register(bound, works) =>
      if !bound then s
      else if works
      then s.(joined := true, trace := s.trace + [Sent(REGISTER, true)],
              threads := s.threads + [Listener(Loading, 0)], handle := Some(|s.threads|))
      else s.(trace := s.trace + [Sent(REGISTER, false)])
    case Publish(listed, works) =>
      if !s.joined || !listed then s else s.(trace := s.trace + [Sent(PUBLISH, works)])
    case Search(named, works) =>
      if !s.joined || !named then s else s.(trace := s.trace + [Sent(SEARCH, works)])
    case Fetch(_, _, _, _, _) =>
      if !s.joined then s else s.(trace := s.trace + FetchTrace(c))
    case Help => s
    case Unknown => s
    case Exit => s.(main := Leaving)
  }

  /** The loop of main over a list of commands, with its local variables. */
  method CommandLoop(commands: seq<Command>)
    returns (joinedRegistry: bool, listeners: nat, listenerThread: Option<nat>, trace: seq<Sent>, left: bool)
    ensures var s := AfterCommands(INIT, commands);
            && joinedRegistry == s.joined && listeners == |s.threads| && listenerThread == s.handle
            && trace == s.trace && left == s.main.Leaving?
    ensures Gated(trace)
  {
    joinedRegistry, listeners, listenerThread, trace, left := false, 0, None, [], false;
    ghost var s := INIT;
    var index := 0;
    while index < |commands|
      invariant index <= |commands| && !left && s.main == Commands
      invariant AfterCommands(INIT, commands) == AfterCommands(s, commands[index..])
      invariant joinedRegistry == s.joined && listeners == |s.threads| && listenerThread == s.handle && trace == s.trace
      invariant Gated(s.trace) && (s.joined <==> exists k :: Admits(s.trace, k))
    {
      var command := commands[index];
      assert commands[index..][0] == command && commands[index..][1..] == commands[index + 1..];
      ExecuteGated(s, command);
      s := Execute(s, command);
      index := index + 1;
      match command {
        case Join(works) =>
          trace := trace + [Sent(JOIN, works)];
          if works {
            joinedRegistry := true;
          }
        case Register(bound, works) =>
          if bound {
            trace := trace + [Sent(REGISTER, works)];
            if works {
              listenerThread := Some(listeners);
              listeners := listeners + 1;
              joinedRegistry := true;
            }
          }
        case Publish(listed, works) =>
          if joinedRegistry && listed {
            trace := trace + [Sent(PUBLISH, works)];
          }
        case Search(named, works) =>
          if joinedRegistry && named {
            trace := trace + [Sent(SEARCH, works)];
          }
        case Fetch(named, works, found, reached, fetchWorks) =>
          if joinedRegistry && named {
            trace := trace + [Sent(SEARCH, works)];
            if works && found && reached {
              trace := trace + [Sent(FETCH, fetchWorks)];
            }
          }
        case Help =>
        case Unknown =>
        case Exit =>
          left := true;
          break;
      }
    }
  }

  function AfterCommands(s: State, commands: seq<Command>): State
    decreases |commands|
  {
    if commands == [] || s.main != Commands then s
    else AfterCommands(Execute(s, commands[0]), commands[1..])
  }

  // --------------------------------------------------------------- the gate

  /** Position `k` of the trace is a JOIN or REGISTER that was sent. */
  ghost predicate Admits(trace: seq<Sent>, k: int) {
    0 <= k < |trace| && trace[k].ok && (trace[k].code == JOIN || trace[k].code == REGISTER)
  }

  /** Every PUBLISH, SEARCH and FETCH comes after a successful JOIN or REGISTER. */
  ghost predicate Gated(trace: seq<Sent>) {
    forall k | 0 <= k < |trace| && trace[k].code in {PUBLISH, SEARCH, FETCH} ::
      exists j | 0 <= j < k :: Admits(trace, j)
  }

  lemma AppendGated(trace: seq<Sent>, m: Sent)
    requires Gated(trace)
    requires m.code in {PUBLISH, SEARCH, FETCH} ==> exists k :: Admits(trace, k)
    ensures Gated(trace + [m])
    ensures (exists k :: Admits(trace + [m], k))
            <==> (exists k :: Admits(trace, k)) || (m.ok && (m.code == JOIN || m.code == REGISTER))
  {
    var longer := trace + [m];
    assert forall k | 0 <= k < |trace| :: Admits(trace, k) <==> Admits(longer, k);
    if m.ok && (m.code == JOIN || m.code == REGISTER) {
      assert Admits(longer, |trace|);
    }
    forall k | 0 <= k < |longer| && longer[k].code in {PUBLISH, SEARCH, FETCH}
      ensures exists j | 0 <= j < k :: Admits(longer, j)
    {
      if k == |trace| {
        var j :| Admits(trace, j);
        assert Admits(longer, j);
      } else {
        assert longer[k] == trace[k];
        var j :| 0 <= j < k && Admits(trace, j);
        assert Admits(longer, j);
      }
    }
  }

  lemma ExecuteGated(s: State, c: Command)
    requires Gated(s.trace) && (s.joined <==> exists k :: Admits(s.trace, k))
    ensures var s' := Execute(s, c);
            Gated(s'.trace) && (s'.joined <==> exists k :: Admits(s'.trace, k))
  {
    hide Gated, Admits;
    match c
    case Join(works) => AppendGated(s.trace, Sent(JOIN, works));
    case Register(_, works) => AppendGated(s.trace, Sent(REGISTER, works));
    case Publish(_, works) => if s.joined { AppendGated(s.trace, Sent(PUBLISH, works)); }
    case Search(_, works) => if s.joined { AppendGated(s.trace, Sent(SEARCH, works)); }
    case Fetch(_, works, _, _, fetchWorks) =>
      if s.joined {
        AppendGated(s.trace, Sent(SEARCH, works));
        var searched := s.trace + [Sent(SEARCH, works)];
        AppendGated(searched, Sent(FETCH, fetchWorks));
        assert s.trace + FetchTrace(c)
            == if !c.named then s.trace
               else if c.works && c.found && c.reached then searched + [Sent(FETCH, fetchWorks)] else searched;
      }
    case Help =>
    case Unknown =>
    case Exit =>
  }

  // ------------------------------------------------- what commands amount to

  /** No exit comes before the command. */
  ghost predicate Executed(commands: seq<Command>, k: nat) {
    k <= |commands| && forall j | 0 <= j < k :: !commands[j].Exit?
  }

  predicate Lets(c: Command) {
    c == Join(true) || c == Register(true, true)
  }

  /** A JOIN or REGISTER before the command was sent. */
  ghost predicate Admitted(commands: seq<Command>, k: nat) {
    exists j :: 0 <= j < k && j < |commands| && Lets(commands[j])
  }

  /** The command calls for `m` on the wire. The codes are 0 JOIN, 1 PUBLISH,
      2 SEARCH, 3 FETCH and 4 REGISTER. */
  ghost predicate CallsFor(commands: seq<Command>, k: nat, m: Sent)
    requires k < |commands|
  {
    match commands[k]
    case Join(works) => m == Sent(0, works)
    case Register(bound, works) => bound && m == Sent(4, works)
    case Publish(listed, works) => Admitted(commands, k) && listed && m == Sent(1, works)
    case Search(named, works) => Admitted(commands, k) && named && m == Sent(2, works)
    case Fetch(named, works, found, reached, fetchWorks) =>
      Admitted(commands, k) && named
      && (m == Sent(2, works) || (works && found && reached && m == Sent(3, fetchWorks)))
    case Help => false
    case Unknown => false
    case Exit => false
  }

  /** Each entry of the trace is one that the command at its place in `at` calls
      for, before any exit and in the order of the commands; all that a command
      calls for is there, once, and a FETCH right after the SEARCH of its command. */
  ghost predicate Accounts(commands: seq<Command>, n: nat, at: seq<nat>, trace: seq<Sent>)
    requires n <= |commands|
  {
    && |at| == |trace|
    && (forall p | 0 <= p < |at| :: at[p] < n && Executed(commands, at[p]) && CallsFor(commands, at[p], trace[p]))
    && (forall p, q | 0 <= p < q < |at| ::
          at[p] < at[q] || (at[p] == at[q] && q == p + 1 && trace[p].code == 2 && trace[q].code == 3))
    && (forall k, m | 0 <= k < n && Executed(commands, k) && CallsFor(commands, k, m) :: Made(at, trace, k, m))
  }

  ghost predicate Made(at: seq<nat>, trace: seq<Sent>, k: nat, m: Sent)
    requires |at| == |trace|
  {
    exists p :: 0 <= p < |at| && at[p] == k && trace[p] == m
  }

  lemma {:induction false} AfterOneMore(s: State, commands: seq<Command>, c: Command)
    ensures var s' := AfterCommands(s, commands);
            AfterCommands(s, commands + [c]) == if s'.main != Commands then s' else Execute(s', c)
    decreases |commands|
  {
    if commands == [] {
      assert (commands + [c])[1..] == [];
      assert AfterCommands(Execute(s, c), []) == Execute(s, c);
    } else if s.main == Commands {
      assert (commands + [c])[1..] == commands[1..] + [c];
      AfterOneMore(Execute(s, commands[0]), commands[1..], c);
    }
  }

  ghost function Starts(commands: seq<Command>, n: nat): set<int> {
    set k | 0 <= k < n && k < |commands| && Executed(commands, k) && commands[k] == Register(true, true)
  }

  /** Whether the peer joined, whether it left, how many listeners it started and
      which handle it keeps. */
  ghost predicate Fits(commands: seq<Command>, n: nat, s: State)
    requires n <= |commands|
  {
    && (s.joined <==> Joined(commands, n))
    && (s.main == if Executed(commands, n) then Commands else Leaving)
    && |s.threads| == |Starts(commands, n)|
    && s.handle == (if |s.threads| == 0 then None else Some(|s.threads| - 1))
  }

  /** The trace and the state after any commands. */
  lemma {:induction false} CommandsExactly(commands: seq<Command>, n: nat) returns (at: seq<nat>)
    requires n <= |commands|
    ensures var s := AfterCommands(INIT, commands[..n]);
            Accounts(commands, n, at, s.trace) && Fits(commands, n, s)
  {
    hide Accounts, Fits, Execute, AfterCommands;
    if n == 0 {
      at := [];
      NoCommands(commands);
      return;
    }
    at := CommandsExactly(commands, n - 1);
    var s, c := AfterCommands(INIT, commands[..n - 1]), commands[n - 1];
    AfterOneMore(INIT, commands[..n - 1], c);
    assert commands[..n] == commands[..n - 1] + [c];
    var s' := AfterCommands(INIT, commands[..n]);
    FitsNext(commands, n, s);
    if Executed(commands, n - 1) {
      var made := NewEntries(commands, n - 1, s);
      at := AccountsNext(commands, n, at, s.trace, made);
    } else {
      AccountsKept(commands, n, at, s.trace);
    }
  }

  lemma NoCommands(commands: seq<Command>)
    ensures var s := AfterCommands(INIT, commands[..0]);
            Accounts(commands, 0, [], s.trace) && Fits(commands, 0, s)
  {
    assert Starts(commands, 0) == {};
  }

  lemma StartsNext(commands: seq<Command>, n: nat)
    requires 0 < n <= |commands|
    ensures |Starts(commands, n)| == |Starts(commands, n - 1)|
            + if Executed(commands, n - 1) && commands[n - 1] == Register(true, true) then 1 else 0
  {
    hide Executed;
    assert Starts(commands, n) == Starts(commands, n - 1)
                                  + if Executed(commands, n - 1) && commands[n - 1] == Register(true, true) then {n - 1} else {};
  }

  ghost predicate Joined(commands: seq<Command>, n: nat) {
    exists k :: 0 <= k < n && k < |commands| && Executed(commands, k) && Lets(commands[k])
  }

  lemma JoinedNext(commands: seq<Command>, n: nat)
    requires 0 < n <= |commands|
    ensures Joined(commands, n) <==> Joined(commands, n - 1) || (Executed(commands, n - 1) && Lets(commands[n - 1]))
    ensures Executed(commands, n - 1) ==> (Joined(commands, n - 1) <==> Admitted(commands, n - 1))
  {
    if Executed(commands, n - 1) {
      forall k | 0 <= k < n - 1
        ensures Executed(commands, k)
      {
      }
    }
    if Joined(commands, n) {
      var k :| 0 <= k < n && Executed(commands, k) && Lets(commands[k]);
      assert k < n - 1 ==> Joined(commands, n - 1);
    }
  }

  lemma FitsNext(commands: seq<Command>, n: nat, s: State)
    requires 0 < n <= |commands| && Fits(commands, n - 1, s)
    ensures s.main == Commands <==> Executed(commands, n - 1)
    ensures Executed(commands, n - 1) ==> (s.joined <==> Admitted(commands, n - 1))
    ensures Fits(commands, n, if s.main != Commands then s else Execute(s, commands[n - 1]))
  {
    StartsNext(commands, n);
    JoinedNext(commands, n);
    ExecutedNext(commands, n);
    hide Executed, Joined, Admitted, Starts, FetchTrace;
  }

  lemma ExecutedNext(commands: seq<Command>, n: nat)
    requires 0 < n <= |commands|
    ensures Executed(commands, n) <==> Executed(commands, n - 1) && !commands[n - 1].Exit?
  {
  }

  lemma AccountsKept(commands: seq<Command>, n: nat, at: seq<nat>, trace: seq<Sent>)
    requires 0 < n <= |commands| && Accounts(commands, n - 1, at, trace) && !Executed(commands, n - 1)
    ensures Accounts(commands, n, at, trace)
  {
  }

  lemma NewEntries(commands: seq<Command>, k: nat, s: State) returns (made: seq<Sent>)
    requires k < |commands| && (Admitted(commands, k) <==> s.joined)
    ensures Execute(s, commands[k]).trace == s.trace + made
    ensures |made| <= 2 && (|made| == 2 ==> made[0].code == 2 && made[1].code == 3)
    ensures forall m :: CallsFor(commands, k, m) <==> m in made
  {
    hide Admitted;
    var c := commands[k];
    made := match c
      case Join(works) => [Sent(0, works)]
      case Register(bound, works) => if bound then [Sent(4, works)] else []
      case Publish(listed, works) => if s.joined && listed then [Sent(1, works)] else []
      case Search(named, works) => if s.joined && named then [Sent(2, works)] else []
      case Fetch(_, _, _, _, _) => if s.joined then FetchTrace(c) else []
      case Help => []
      case Unknown => []
      case Exit => [];
  }

  lemma AccountsNext(commands: seq<Command>, n: nat, at0: seq<nat>, trace: seq<Sent>, made: seq<Sent>)
    returns (at: seq<nat>)
    requires 0 < n <= |commands| && Accounts(commands, n - 1, at0, trace) && Executed(commands, n - 1)
    requires |made| <= 2 && (|made| == 2 ==> made[0].code == 2 && made[1].code == 3)
    requires forall m :: CallsFor(commands, n - 1, m) <==> m in made
    ensures Accounts(commands, n, at, trace + made)
  {
    hide CallsFor, Executed;
    var k := n - 1;
    at := at0 + seq(|made|, _ => k);
    forall j, m | 0 <= j < n && Executed(commands, j) && CallsFor(commands, j, m)
      ensures Made(at, trace + made, j, m)
    {
      if j < k {
        assert Made(at0, trace, j, m);
        var p :| 0 <= p < |at0| && at0[p] == j && trace[p] == m;
        assert at[p] == j && (trace + made)[p] == m;
      } else {
        assert CallsFor(commands, n - 1, m) && m in made;
        var q :| 0 <= q < |made| && made[q] == m;
        assert at[|trace| + q] == k && (trace + made)[|trace| + q] == m;
      }
    }
    forall p | 0 <= p < |at|
      ensures at[p] < n && Executed(commands, at[p]) && CallsFor(commands, at[p], (trace + made)[p])
    {
      if p >= |at0| {
        assert made[p - |at0|] in made;
      }
    }
  }

  // ----------------------------------------------------------- interleavings

  /** What a listener's accept returns, when it is at one. */
  datatype Accept = Connection | WouldBlock | Failed

  datatype Label =
    | Main(command: Command)
    | ClearFlag
    | JoinThread
    | Thread(k: nat, accept: Accept)

  predicate Enabled(s: State, l: Label) {
    match l
    case Main(_) => s.main == Commands
    case ClearFlag => s.main == Leaving
    case JoinThread =>
      s.main == Waiting && (s.handle.Some? ==> s.handle.value < |s.threads| && s.threads[s.handle.value].pc == Done)
    case Thread(k, _) => k < |s.threads| && s.threads[k].pc != Done
  }

  /** One step of a listener: load the flag, accept, or serve the connection. */
  function Advance(t: Listener, acceptConn: bool, accept: Accept): Listener {
    match t.pc
    case Loading => t.(pc := if acceptConn then Accepting else Done)
    case Accepting =>
      (match accept
       case Connection => Listener(Serving, if acceptConn then t.late else t.late + 1)
       case WouldBlock => t.(pc := Loading)
       case Failed => t.(pc := Done))
    case Serving => t.(pc := Loading)
    case Done => t
  }

  function Step(s: State, l: Label): State
    requires Enabled(s, l)
  {
    match l
    case Main(command) => Execute(s, command)
    case ClearFlag => s.(main := Waiting, acceptConn := false)
    case JoinThread => s.(main := Finished)
    case Thread(k, accept) => s.(threads := s.threads[k := Advance(s.threads[k], s.acceptConn, accept)])
  }

  datatype Run = Start | Then(before: Run, move: Label)

  function Replay(run: Run): Option<State> {
    match run
    case Start => Some(INIT)
    case Then(before, l) =>
      match Replay(before)
      case None => None
      case Some(s) => if Enabled(s, l) then Some(Step(s, l)) else None
  }

  ghost predicate Inv(s: State) {
    && Gated(s.trace) && (s.joined <==> exists k :: Admits(s.trace, k))
    && (s.acceptConn <==> s.main == Commands || s.main == Leaving)
    && s.handle == (if s.threads == [] then None else Some(|s.threads| - 1))
    && (forall k | 0 <= k < |s.threads| ::
          && (s.acceptConn ==> s.threads[k].late == 0)
          && s.threads[k].late <= 1
          && (s.threads[k].pc == Accepting ==> s.threads[k].late == 0))
    && (s.main == Finished && s.handle.Some? ==> s.threads[s.handle.value].pc == Done)
  }

  lemma StepKeepsInv(s: State, l: Label)
    requires Inv(s) && Enabled(s, l)
    ensures Inv(Step(s, l))
  {
    hide Gated, Admits;
    if l.Main? {
      ExecuteGated(s, l.command);
    }
  }

  /** Over all interleavings: nothing is sent before a successful JOIN or
      REGISTER, each listener accepts at most one connection after the flag is
      cleared, and main passes the join only when that listener has left its loop. */
  lemma {:induction false} EveryInterleaving(run: Run)
    requires Replay(run).Some?
    ensures var s := Replay(run).value;
            && Gated(s.trace)
            && (forall k | 0 <= k < |s.threads| :: s.threads[k].late <= 1)
            && (s.main == Finished && s.threads != [] ==> s.threads[|s.threads| - 1].pc == Done)
    ensures Inv(Replay(run).value)
  {
    if run.Then? {
      EveryInterleaving(run.before);
      StepKeepsInv(Replay(run.before).value, run.move);
    }
  }

  // ---------------------------------------------------------- what listeners do

  /** In the run, an accept of the listener has failed. */
  ghost predicate FailedAccept(run: Run, k: nat) {
    run.Then?
    && (FailedAccept(run.before, k)
        || (run.move == Thread(k, Failed) && Replay(run.before).Some?
            && k < |Replay(run.before).value.threads| && Replay(run.before).value.threads[k].pc == Accepting))
  }

  /** The connections that a listener has accepted, of those after the flag was
      cleared if `late`. */
  ghost function Accepts(run: Run, k: nat, late: bool): nat {
    if run.Start? then 0
    else
      Accepts(run.before, k, late)
      + if run.move == Thread(k, Connection) && Replay(run.before).Some?
           && k < |Replay(run.before).value.threads| && Replay(run.before).value.threads[k].pc == Accepting
           && (late ==> !Replay(run.before).value.acceptConn)
        then 1 else 0
  }

  ghost predicate Stays(s: State, k: nat, failed: bool, late: nat)
    requires k < |s.threads|
  {
    && (s.acceptConn ==> (s.threads[k].pc == Done <==> failed))
    && (s.threads[k].pc != Done ==> !failed)
    && s.threads[k].late == late
  }

  lemma StaysNext(s: State, l: Label, k: nat, failed: bool, late: nat)
    requires Enabled(s, l) && (s.acceptConn <==> s.main == Commands || s.main == Leaving)
    requires k < |s.threads| ==> Stays(s, k, failed, late)
    requires k >= |s.threads| ==> !failed && late == 0
    requires k < |Step(s, l).threads|
    ensures var here := k < |s.threads| && s.threads[k].pc == Accepting;
            Stays(Step(s, l), k, failed || (l == Thread(k, Failed) && here),
                  late + if l == Thread(k, Connection) && here && !s.acceptConn then 1 else 0)
  {
  }

  /** Over all interleavings: while the flag is set a listener has left its loop
      exactly when one of its accepts failed, and the count of late connections is
      that of the connections accepted after it was cleared. */
  lemma {:induction false} ListenersStay(run: Run, k: nat)
    requires Replay(run).Some? && k < |Replay(run).value.threads|
    ensures var s := Replay(run).value;
            && (s.acceptConn ==> (s.threads[k].pc == Done <==> FailedAccept(run, k)))
            && (s.threads[k].pc != Done ==> !FailedAccept(run, k))
            && s.threads[k].late == Accepts(run, k, true)
  {
    if run.Then? {
      hide Gated, Admits, Step, Enabled;
      EveryInterleaving(run.before);
      var s := Replay(run.before).value;
      if k < |s.threads| {
        ListenersStay(run.before, k);
      } else {
        NotYetStarted(run.before, k);
      }
      StaysNext(s, run.move, k, FailedAccept(run.before, k), Accepts(run.before, k, true));
    }
  }

  lemma {:induction false} NotYetStarted(run: Run, k: nat)
    requires Replay(run).Some? && k >= |Replay(run).value.threads|
    ensures !FailedAccept(run, k) && Accepts(run, k, true) == 0 && Accepts(run, k, false) == 0
  {
    if run.Then? {
      NotYetStarted(run.before, k);
    }
  }

  /** Whatever the flag, a would-block and the end of a connection lead back to its
      test, and a failed accept out of the loop. */
  lemma ListenerTurns(s: State, k: nat, a: Accept)
    requires k < |s.threads|
    ensures s.threads[k].pc == Accepting ==>
              && Step(s, Thread(k, WouldBlock)).threads[k].pc == Loading
              && Step(s, Thread(k, Failed)).threads[k].pc == Done
              && Step(s, Thread(k, Connection)).threads[k].pc == Serving
    ensures s.threads[k].pc == Serving ==> Step(s, Thread(k, a)).threads[k].pc == Loading
  {
  }

  /** While the flag is set, a listener at its accept comes back to it after a
      would-block, and after serving a connection; at the test of the flag it goes
      on to accept. */
  lemma ListenerGoesOn(s: State, k: nat, a: Accept, b: Accept)
    requires s.acceptConn && k < |s.threads|
    ensures s.threads[k].pc == Loading ==> Step(s, Thread(k, a)).threads[k].pc == Accepting
    ensures s.threads[k].pc == Accepting ==>
              && Step(Step(s, Thread(k, WouldBlock)), Thread(k, a)).threads[k].pc == Accepting
              && var served := Step(s, Thread(k, Connection));
              && served.threads[k].pc == Serving
              && Step(Step(served, Thread(k, a)), Thread(k, b)).threads[k].pc == Accepting
  {
  }

  /** One listener that serves `n` connections. */
  function ServingRun(n: nat): Run {
    if n == 0 then Then(Registers(1), Thread(0, WouldBlock))
    else Then(Then(Then(ServingRun(n - 1), Thread(0, Connection)), Thread(0, Connection)), Thread(0, WouldBlock))
  }

  lemma {:induction false} SomeRunServes(n: nat)
    ensures var r := Replay(ServingRun(n));
            && r.Some? && r.value.acceptConn && r.value.main == Commands && r.value.threads == [Listener(Accepting, 0)]
            && Accepts(ServingRun(n), 0, false) == n
  {
    if n == 0 {
      RegistersState(1);
      NotAccepting(1);
    } else {
      SomeRunServes(n - 1);
      var r0 := ServingRun(n - 1);
      var s := Replay(r0).value;
      var s1 := Step(s, Thread(0, Connection));
      var s2 := Step(s1, Thread(0, Connection));
      assert Replay(Then(r0, Thread(0, Connection))) == Some(s1) && s1.threads[0].pc == Pc.Serving;
      assert Replay(Then(Then(r0, Thread(0, Connection)), Thread(0, Connection))) == Some(s2) && s2.threads[0].pc == Loading;
      assert Accepts(Then(r0, Thread(0, Connection)), 0, false) == n;
    }
  }

  lemma {:induction false} NotAccepting(n: nat)
    ensures Accepts(Registers(n), 0, false) == 0
  {
    if n > 0 {
      NotAccepting(n - 1);
    }
  }

  /** A listener at its accept when the flag is cleared can still take one. */
  lemma LateConnection()
    ensures var run := Then(Then(Then(ServingRun(0), Main(Exit)), ClearFlag), Thread(0, Connection));
            var r := Replay(run);
            r.Some? && !r.value.acceptConn && r.value.threads == [Listener(Pc.Serving, 1)]
  {
    SomeRunServes(0);
    var s := Replay(ServingRun(0)).value;
    var s1 := Step(s, Main(Exit));
    var s2 := Step(s1, ClearFlag);
    assert Replay(Then(ServingRun(0), Main(Exit))) == Some(s1);
    assert Replay(Then(Then(ServingRun(0), Main(Exit)), ClearFlag)) == Some(s2);
  }

  /** Once the flag is cleared a listener has at most three steps left. */
  function StepsLeft(t: Listener): nat {
    match t.pc
    case Accepting => 3
    case Serving => 2
    case Loading => 1
    case Done => 0
  }

  lemma ListenerWindsDown(s: State, l: Label)
    requires !s.acceptConn && l.Thread? && Enabled(s, l)
    ensures StepsLeft(Step(s, l).threads[l.k]) < StepsLeft(s.threads[l.k]) <= 3
  {
  }

  // ----------------------------------------------- more than one REGISTER

  ghost predicate AllDone(s: State) {
    forall k | 0 <= k < |s.threads| :: s.threads[k].pc == Done
  }

  function Registers(n: nat): Run {
    if n == 0 then Start else Then(Registers(n - 1), Main(Register(true, true)))
  }

  lemma {:induction false} RegistersState(n: nat)
    ensures var r := Replay(Registers(n));
            && r.Some? && |r.value.threads| == n && r.value.main == Commands && r.value.acceptConn
            && r.value.handle == (if n == 0 then None else Some(n - 1))
            && forall k | 0 <= k < n :: r.value.threads[k] == Listener(Loading, 0)
  {
    if n > 0 {
      RegistersState(n - 1);
    }
  }

  /** A finished run in which only the latest listener has stopped. */
  function QuickExit(n: nat): Run
    requires n > 0
  {
    Then(Then(Then(Then(Registers(n), Main(Exit)), ClearFlag), Thread(n - 1, WouldBlock)), JoinThread)
  }

  lemma QuickExitState(n: nat)
    requires n > 0
    ensures var r := Replay(QuickExit(n));
            r.Some? && r.value.main == Finished && |r.value.threads| == n && (n > 1 ==> !AllDone(r.value))
  {
    RegistersState(n);
    var s0 := Replay(Registers(n)).value;
    var s1 := Step(s0, Main(Exit));
    var s2 := Step(s1, ClearFlag);
    var s3 := Step(s2, Thread(n - 1, WouldBlock));
    var s4 := Step(s3, JoinThread);
    assert Replay(Then(Registers(n), Main(Exit))) == Some(s1);
    assert Replay(Then(Then(Registers(n), Main(Exit)), ClearFlag)) == Some(s2);
    assert Replay(QuickExit(n)) == Some(s4);
    assert n > 1 ==> s4.threads[0] == Listener(Loading, 0);
  }

  /** main waits for every listener exactly when there was at most one: with a
      second REGISTER the first handle is dropped. */
  lemma WaitsForAllExactly(n: nat)
    ensures n <= 1 <==> forall run ::
              Replay(run).Some? && Replay(run).value.main == Finished && |Replay(run).value.threads| == n
              ==> AllDone(Replay(run).value)
  {
    if n <= 1 {
      forall run | Replay(run).Some? && Replay(run).value.main == Finished && |Replay(run).value.threads| == n
        ensures AllDone(Replay(run).value)
      {
        EveryInterleaving(run);
      }
    } else {
      QuickExitState(n);
    }
  }
}
