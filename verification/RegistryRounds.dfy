/**
  One round of the select loop: the descriptors of a snapshot are visited in
  ascending order while their sockets are closed, descriptor numbers are reused
  and new clients arrive. Each is handled once, on its own record.
 */
module RegistryRounds {
  import opened Bytes
  import opened RegistryModel
  import opened RegistryInvariants

  /** The descriptors of the receive and close events since `from`, in order. */
  ghost function ClientEvents(from: Run, run: Run): seq<int> {
    if run == from || run.Start? then []
    else ClientEvents(from, run.before) + if run.e.Accepted? then [] else [run.e.fd]
  }

  predicate Ascending(s: seq<int>) {
    forall i, j | 0 <= i < j < |s| :: s[i] < s[j]
  }

  ghost predicate HasRecord(st: State, fd: int) {
    FindClient(st.slots, fd) < |st.slots|
  }

  ghost function Record(st: State, fd: int): Slot
    requires HasRecord(st, fd)
  {
    st.slots[FindClient(st.slots, fd)]
  }

  /** Every client event since `from` met the record its descriptor had then. */
  ghost predicate OnOwnRecords(cfg: Config, base: set<int>, from: Run, run: Run) {
    run == from
    || (run.Then? && OnOwnRecords(cfg, base, from, run.before)
        && (!run.e.Accepted? ==>
              var st0, st := Replay(cfg, base, from), Replay(cfg, base, run.before);
              && st0.Some? && st.Some? && HasRecord(st0.value, run.e.fd) && HasRecord(st.value, run.e.fd)
              && Record(st.value, run.e.fd) == Record(st0.value, run.e.fd)))
  }

  /** An event of another descriptor leaves a watched client alone, whatever is
      or is not repaired. */
  lemma OtherRecordKept(cfg: Config, st: State, e: Event, fd: int)
    requires Legal(cfg, st, e) && e.fd != fd
    requires HasRecord(st, fd) && fd in st.socks && fd in st.open
    ensures var st' := Step(cfg, st, e);
            HasRecord(st', fd) && Record(st', fd) == Record(st, fd) && fd in st'.socks && fd in st'.open
  {
    hide First, AfterMessage;
    var st' := Step(cfg, st, e);
    var i := if e.Accepted? then FreeSlot(st.slots) else FindClient(st.slots, e.fd);
    FirstFits(st.slots, if e.Accepted? then Free else OnSocket(e.fd));
    FirstFits(st.slots, OnSocket(fd));
    if e.Received? {
      MessageKeepsOthers(cfg, st.slots, i, e.data, e.memory);
    }
    if i < |st.slots| {
      SameFirst(st.slots, fd, i, st'.slots[i]);
      assert st'.slots == st.slots[i := st'.slots[i]];
    } else {
      assert st'.slots == st.slots;
    }
  }

  /** What a round that started after `from` has done when it is about to look
      at descriptor `s`, and what it may still rely on. */
  ghost predicate RoundInv(cfg: Config, base: set<int>, from: Run, run: Run, callSet: set<int>, s: int) {
    && Replay(cfg, base, from).Some? && Replay(cfg, base, run).Some?
    && Visited(cfg, from, run, callSet, s)
    && OnOwnRecords(cfg, base, from, run)
    && Pending(cfg, Replay(cfg, base, from).value, Replay(cfg, base, run).value, callSet, s)
    && (s <= cfg.listenSock ==> !RefusedSince(cfg, base, from, run))
    && if RefusedSince(cfg, base, from, run) then Stray(Replay(cfg, base, run).value, callSet, s)
       else SocketInv(cfg, Replay(cfg, base, run).value)
  }

  ghost predicate Visited(cfg: Config, from: Run, run: Run, callSet: set<int>, s: int) {
    var handled := ClientEvents(from, run);
    && Ascending(handled)
    && (forall fd :: fd in handled <==> fd in callSet && fd != cfg.listenSock && fd < s)
  }

  ghost predicate Pending(cfg: Config, st0: State, st: State, callSet: set<int>, s: int) {
    forall fd | fd in callSet && fd != cfg.listenSock && s <= fd ::
      && fd in st.socks && fd in st.open
      && HasRecord(st, fd) && HasRecord(st0, fd) && Record(st, fd) == Record(st0, fd)
  }

  /** A watched descriptor is closed, and the round will not come to it. */
  ghost predicate Stray(st: State, callSet: set<int>, s: int) {
    exists fd :: fd in st.socks && fd !in st.open && !(fd in callSet && s <= fd)
  }

  lemma RoundStarts(cfg: Config, base: set<int>, run: Run, callSet: set<int>)
    requires Replay(cfg, base, run).Some? && SocketInv(cfg, Replay(cfg, base, run).value)
    requires callSet <= Replay(cfg, base, run).value.socks
    ensures RoundInv(cfg, base, run, run, callSet, 3)
  {
  }

  lemma StrayPasses(st: State, callSet: set<int>, s: int)
    requires Stray(st, callSet, s)
    ensures Stray(st, callSet, s + 1)
  {
    var fd :| fd in st.socks && fd !in st.open && !(fd in callSet && s <= fd);
    assert !(fd in callSet && s + 1 <= fd);
  }

  /** A descriptor that was not ready, and the listener, leave no trace. */
  lemma RoundPasses(cfg: Config, base: set<int>, from: Run, run: Run, callSet: set<int>, s: int)
    requires RoundInv(cfg, base, from, run, callSet, s) && (s !in callSet || s == cfg.listenSock)
    ensures RoundInv(cfg, base, from, run, callSet, s + 1)
  {
    hide Replay, SocketInv, Stray, RefusedSince, OnOwnRecords, ClientEvents, First;
    if RefusedSince(cfg, base, from, run) {
      StrayPasses(Replay(cfg, base, run).value, callSet, s);
    }
  }

  lemma PendingKept(cfg: Config, base: set<int>, from: Run, run: Run, e: Event, callSet: set<int>, s: int)
    requires RoundInv(cfg, base, from, run, callSet, s)
    requires Replay(cfg, base, Then(run, e)).Some? && (e.Accepted? || e.fd == s)
    ensures Pending(cfg, Replay(cfg, base, from).value, Replay(cfg, base, Then(run, e)).value, callSet, s + 1)
  {
    hide First, Step;
    var st := Replay(cfg, base, run).value;
    forall fd | fd in callSet && fd != cfg.listenSock && s + 1 <= fd {
      OtherRecordKept(cfg, st, e, fd);
    }
  }

  /** The refused connection's descriptor was not open, so it is not pending. */
  lemma RoundAccepts(cfg: Config, base: set<int>, from: Run, run: Run, e: Event, callSet: set<int>, s: int)
    requires RoundInv(cfg, base, from, run, callSet, s)
    requires e.Accepted? && Replay(cfg, base, Then(run, e)).Some? && s == cfg.listenSock && from != Then(run, e)
    ensures RoundInv(cfg, base, from, Then(run, e), callSet, s + 1)
  {
    hide First, Step, SocketInv;
    PendingKept(cfg, base, from, run, e, callSet, s);
    assert ClientEvents(from, Then(run, e)) == ClientEvents(from, run);
    var st := Replay(cfg, base, run).value;
    StepKeepsSocketInvExactly(cfg, st, e);
    if RegistersRefused(cfg, st, e) {
      assert !(e.fd in callSet && s + 1 <= e.fd);
      assert Stray(Step(cfg, st, e), callSet, s + 1);
    }
  }

  lemma AscendingSnoc(s: seq<int>, x: int)
    requires Ascending(s) && forall y | y in s :: y < x
    ensures Ascending(s + [x]) && forall y :: y in s + [x] <==> y in s || y == x
  {
    forall i | 0 <= i < |s|
      ensures s[i] < x
    {
      assert s[i] in s;
    }
  }

  /** The branch for an unknown descriptor is not reached. */
  lemma RoundKnows(cfg: Config, base: set<int>, from: Run, run: Run, callSet: set<int>, s: int)
    requires RoundInv(cfg, base, from, run, callSet, s) && s in callSet && s != cfg.listenSock
    ensures HasRecord(Replay(cfg, base, run).value, s)
  {
  }

  lemma StrayStays(cfg: Config, st: State, e: Event, callSet: set<int>, s: int)
    requires Legal(cfg, st, e) && !e.Accepted? && e.fd == s && s in callSet && Stray(st, callSet, s)
    ensures Stray(Step(cfg, st, e), callSet, s + 1)
  {
    hide First, AfterMessage;
    FirstFits(st.slots, OnSocket(s));
    var fd :| fd in st.socks && fd !in st.open && !(fd in callSet && s <= fd);
    var st' := Step(cfg, st, e);
    assert fd in st'.socks && fd !in st'.open && !(fd in callSet && s + 1 <= fd);
  }

  lemma RoundHandles(cfg: Config, base: set<int>, from: Run, run: Run, e: Event, callSet: set<int>, s: int)
    requires RoundInv(cfg, base, from, run, callSet, s)
    requires !e.Accepted? && e.fd == s && s in callSet && s != cfg.listenSock
    requires Replay(cfg, base, Then(run, e)).Some? && from != Then(run, e)
    ensures RoundInv(cfg, base, from, Then(run, e), callSet, s + 1)
  {
    hide First, Step, SocketInv, Stray;
    PendingKept(cfg, base, from, run, e, callSet, s);
    assert ClientEvents(from, Then(run, e)) == ClientEvents(from, run) + [s];
    AscendingSnoc(ClientEvents(from, run), s);
    var st0, st := Replay(cfg, base, from).value, Replay(cfg, base, run).value;
    assert HasRecord(st, s) && Record(st, s) == Record(st0, s);
    if RefusedSince(cfg, base, from, run) {
      StrayStays(cfg, st, e, callSet, s);
    } else {
      StepKeepsSocketInvExactly(cfg, st, e);
    }
  }

  /** When the loop ends nothing of the snapshot is left, and all that is watched
      is open exactly when the round registered no refused connection. */
  lemma RoundEnds(cfg: Config, base: set<int>, from: Run, run: Run, callSet: set<int>, s: int)
    requires RoundInv(cfg, base, from, run, callSet, s)
    requires s > Replay(cfg, base, run).value.maxSocket
    ensures Ascending(ClientEvents(from, run)) && OnOwnRecords(cfg, base, from, run)
    ensures forall fd :: fd in ClientEvents(from, run) <==> fd in callSet && fd != cfg.listenSock
    ensures cfg.listenSock < s
    ensures var st := Replay(cfg, base, run).value;
            && (st.socks <= st.open <==> !RefusedSince(cfg, base, from, run))
            && (st.socks <= st.open ==> SocketInv(cfg, st))
  {
    ReachableBound(cfg, base, run);
    var st := Replay(cfg, base, run).value;
    if SocketInv(cfg, st) {
      forall fd | fd in st.socks
        ensures fd in st.open
      {
      }
    }
  }
}
