/**
  What every run of the registry keeps: the bookkeeping of sockets and slots,
  and the distinctness of ids. Under any repairs, as written included, the exact
  condition on a run for each.
 */
module RegistryInvariants {
  import opened Bytes
  import opened Wire
  import opened RegistryModel

  ghost function ActiveSet(slots: seq<Slot>): set<nat> {
    set i: nat | i < |slots| && slots[i].active
  }

  ghost predicate DistinctSocks(slots: seq<Slot>) {
    forall i, j | 0 <= i < j < |slots| && slots[i].active && slots[j].active ::
      slots[i].sock != slots[j].sock
  }

  /** `socks` is the listener plus the sockets of the active slots. */
  ghost predicate Watched(listenSock: int, slots: seq<Slot>, socks: set<int>) {
    && listenSock in socks
    && (forall i | 0 <= i < |slots| && slots[i].active ::
          slots[i].sock in socks && slots[i].sock != listenSock)
    && (forall fd | fd in socks && fd != listenSock :: FindClient(slots, fd) < |slots|)
  }

  ghost predicate OpenAndBounded(st: State) {
    && (forall fd | fd in st.socks :: fd in st.open && 3 <= fd <= st.maxSocket)
    && {0, 1, 2} <= st.open
  }

  /** The linked bookkeeping of the server: slots, `all_socks`,
      `active_clients` and `max_socket` agree, and every socket is open. */
  ghost predicate SocketInv(cfg: Config, st: State) {
    && |st.slots| == cfg.maxConn
    && DistinctSocks(st.slots)
    && Watched(cfg.listenSock, st.slots, st.socks)
    && OpenAndBounded(st)
    && st.activeClients == |ActiveSet(st.slots)| < cfg.maxConn
  }

  // ------------------------------------------------------------ small facts

  lemma {:induction false} AllActiveSize(slots: seq<Slot>)
    requires forall i | 0 <= i < |slots| :: slots[i].active
    ensures |ActiveSet(slots)| == |slots|
  {
    if slots != [] {
      var n := |slots| - 1;
      AllActiveSize(slots[..n]);
      assert ActiveSet(slots) == ActiveSet(slots[..n]) + {n};
    }
  }

  lemma FreeSlotExists(slots: seq<Slot>)
    requires |ActiveSet(slots)| < |slots|
    ensures FreeSlot(slots) < |slots|
  {
    if FreeSlot(slots) == |slots| {
      AllActiveSize(slots);
    }
  }

  lemma ActivateSize(slots: seq<Slot>, i: nat, c: Slot)
    requires i < |slots| && !slots[i].active && c.active
    ensures |ActiveSet(slots[i := c])| == |ActiveSet(slots)| + 1
  {
    assert ActiveSet(slots[i := c]) == ActiveSet(slots) + {i};
  }

  lemma DeactivateSize(slots: seq<Slot>, i: nat, c: Slot)
    requires i < |slots| && slots[i].active && !c.active
    ensures |ActiveSet(slots[i := c])| == |ActiveSet(slots)| - 1
  {
    assert ActiveSet(slots) == ActiveSet(slots[i := c]) + {i};
  }

  // ------------------------------------------------- the socket bookkeeping

  lemma InitSocketInv(cfg: Config, base: set<int>)
    requires ValidConfig(cfg) && ValidBase(cfg, base)
    ensures SocketInv(cfg, Init(cfg, base))
  {
    assert ActiveSet(Init(cfg, base).slots) == {};
  }

  lemma FillSlotWatched(listenSock: int, slots: seq<Slot>, socks: set<int>, i: nat, c: Slot)
    requires Watched(listenSock, slots, socks) && DistinctSocks(slots)
    requires i < |slots| && !slots[i].active && c.active && c.sock !in socks
    ensures Watched(listenSock, slots[i := c], socks + {c.sock}) && DistinctSocks(slots[i := c])
  {
    var after := slots[i := c];
    forall g | g in socks + {c.sock} && g != listenSock
      ensures FindClient(after, g) < |after|
    {
      var k := if g == c.sock then i else FindClient(slots, g);
      assert after[k].active && after[k].sock == g;
    }
  }

  lemma FreeSlotWatched(listenSock: int, slots: seq<Slot>, socks: set<int>, i: nat, c: Slot)
    requires Watched(listenSock, slots, socks) && DistinctSocks(slots)
    requires i < |slots| && slots[i].active && !c.active
    ensures Watched(listenSock, slots[i := c], socks - {slots[i].sock}) && DistinctSocks(slots[i := c])
  {
    var after := slots[i := c];
    forall g | g in socks - {slots[i].sock} && g != listenSock
      ensures FindClient(after, g) < |after|
    {
      var k := FindClient(slots, g);
      assert after[k].active && after[k].sock == g;
    }
  }

  lemma RegisterSocketInv(cfg: Config, st: State, fd: int, addr: Addr)
    requires SocketInv(cfg, st) && fd !in st.open && fd >= 0
    requires st.activeClients < cfg.maxConn - 1
    ensures SocketInv(cfg, Register(st.(open := st.open + {fd}), fd, addr))
  {
    FreeSlotExists(st.slots);
    var i := FreeSlot(st.slots);
    var c := st.slots[i].(active := true, sock := fd, addr := addr);
    var st' := Register(st.(open := st.open + {fd}), fd, addr);
    assert OpenAndBounded(st');
    assert fd !in st.socks;
    ActivateSize(st.slots, i, c);
    FillSlotWatched(cfg.listenSock, st.slots, st.socks, i, c);
    assert st'.slots == st.slots[i := c] && st'.socks == st.socks + {fd};
  }

  lemma DisconnectSocketInv(cfg: Config, st: State, fd: int, closeWorks: bool)
    requires SocketInv(cfg, st) && FindClient(st.slots, fd) < |st.slots|
    ensures SocketInv(cfg, Disconnect(cfg, st, FindClient(st.slots, fd), closeWorks))
  {
    var i := FindClient(st.slots, fd);
    var c := ClearedSlot(cfg.fixes, st.slots[i]);
    DeactivateSize(st.slots, i, c);
    assert OpenAndBounded(st) && 3 <= fd;
    FreeSlotWatched(cfg.listenSock, st.slots, st.socks, i, c);
    var st' := Disconnect(cfg, st, i, closeWorks);
    assert OpenAndBounded(st');
    assert st'.slots == st.slots[i := c] && st'.socks == st.socks - {fd};
  }

  lemma SameSocketsWatched(listenSock: int, slots: seq<Slot>, after: seq<Slot>, socks: set<int>)
    requires Watched(listenSock, slots, socks) && DistinctSocks(slots) && |slots| == |after|
    requires forall j | 0 <= j < |slots| :: after[j].active == slots[j].active && after[j].sock == slots[j].sock
    ensures Watched(listenSock, after, socks) && DistinctSocks(after) && ActiveSet(after) == ActiveSet(slots)
  {
    forall g | g in socks && g != listenSock
      ensures FindClient(after, g) < |after|
    {
      var k := FindClient(slots, g);
      assert after[k].active && after[k].sock == g;
    }
  }

  lemma MessageSocketInv(cfg: Config, st: State, i: nat, data: Bytes, memory: nat)
    requires SocketInv(cfg, st) && i < |st.slots|
    ensures SocketInv(cfg, st.(slots := AfterMessage(cfg, st.slots, i, data, memory)))
  {
    var after := AfterMessage(cfg, st.slots, i, data, memory);
    SameSocketsWatched(cfg.listenSock, st.slots, after, st.socks);
    assert OpenAndBounded(st.(slots := after));
  }

  /** A connection refused at the limit whose socket is closed and registered
      all the same. */
  predicate RegistersRefused(cfg: Config, st: State, e: Event) {
    e.Accepted? && st.activeClients == cfg.maxConn - 1 && e.closeWorks && !cfg.fixes.acceptReturns
  }

  /** One step keeps the bookkeeping, except exactly that one. */
  lemma StepKeepsSocketInvExactly(cfg: Config, st: State, e: Event)
    requires SocketInv(cfg, st) && Legal(cfg, st, e)
    ensures SocketInv(cfg, Step(cfg, st, e)) <==> !RegistersRefused(cfg, st, e)
    ensures RegistersRefused(cfg, st, e) ==> var st' := Step(cfg, st, e); e.fd in st'.socks && e.fd !in st'.open
  {
    match e
    case Accepted(fd, addr, closeWorks) =>
      if st.activeClients == cfg.maxConn - 1 {
        assert fd !in st.open;
      } else {
        RegisterSocketInv(cfg, st, fd, addr);
      }
    case Received(fd, data, _, memory) =>
      MessageSocketInv(cfg, st, FindClient(st.slots, fd), data, memory);
    case Closed(fd, closeWorks) =>
      DisconnectSocketInv(cfg, st, fd, closeWorks);
  }

  /** Some event since `from` registers a refused connection. */
  ghost predicate RefusedSince(cfg: Config, base: set<int>, from: Run, run: Run)
    requires Replay(cfg, base, run).Some?
  {
    run != from && run.Then?
    && (RefusedSince(cfg, base, from, run.before)
        || RegistersRefused(cfg, Replay(cfg, base, run.before).value, run.e))
  }

  lemma {:induction false} ReturningRefusesNone(cfg: Config, base: set<int>, from: Run, run: Run)
    requires cfg.fixes.acceptReturns && Replay(cfg, base, run).Some?
    ensures !RefusedSince(cfg, base, from, run)
  {
    if run.Then? {
      ReturningRefusesNone(cfg, base, from, run.before);
    }
  }

  /** Every state reached without that: the set of watched sockets is the listener
      plus the sockets of the active slots, pairwise distinct, open, counted and
      bounded. */
  lemma {:induction false} ReachableSocketInv(cfg: Config, base: set<int>, run: Run)
    requires ValidConfig(cfg) && ValidBase(cfg, base) && Replay(cfg, base, run).Some?
    requires cfg.fixes.acceptReturns || !RefusedSince(cfg, base, Start, run)
    ensures SocketInv(cfg, Replay(cfg, base, run).value)
  {
    match run
    case Start => InitSocketInv(cfg, base);
    case Then(before, e) =>
      ReachableSocketInv(cfg, base, before);
      StepKeepsSocketInvExactly(cfg, Replay(cfg, base, before).value, e);
  }

  ghost predicate AlwaysSocketInv(cfg: Config, base: set<int>, run: Run)
    requires Replay(cfg, base, run).Some?
  {
    SocketInv(cfg, Replay(cfg, base, run).value) && (run.Then? ==> AlwaysSocketInv(cfg, base, run.before))
  }

  /** For every run, under any repairs: the bookkeeping holds throughout exactly
      when no refused connection is registered. */
  lemma {:induction false} SocketInvThroughoutExactly(cfg: Config, base: set<int>, run: Run)
    requires ValidConfig(cfg) && ValidBase(cfg, base) && Replay(cfg, base, run).Some?
    ensures AlwaysSocketInv(cfg, base, run) <==> !RefusedSince(cfg, base, Start, run)
  {
    match run
    case Start => InitSocketInv(cfg, base);
    case Then(before, e) =>
      SocketInvThroughoutExactly(cfg, base, before);
      if AlwaysSocketInv(cfg, base, before) {
        StepKeepsSocketInvExactly(cfg, Replay(cfg, base, before).value, e);
      }
  }

  ghost predicate EverAccepted(run: Run, fd: int) {
    run.Then? && (EverAccepted(run.before, fd) || (run.e.Accepted? && run.e.fd == fd))
  }

  /** In every state at all, the loop bound covers what is watched, and is the
      listener or a descriptor that accept has returned. */
  lemma {:induction false} ReachableBound(cfg: Config, base: set<int>, run: Run)
    requires Replay(cfg, base, run).Some?
    ensures var st := Replay(cfg, base, run).value;
            && cfg.listenSock <= st.maxSocket && (forall fd | fd in st.socks :: fd <= st.maxSocket)
            && (st.maxSocket == cfg.listenSock || EverAccepted(run, st.maxSocket))
  {
    if run.Then? {
      ReachableBound(cfg, base, run.before);
    }
  }

  lemma WatchedSockets(cfg: Config, st: State)
    requires SocketInv(cfg, st)
    ensures st.socks == {cfg.listenSock}
                        + set i | 0 <= i < |st.slots| && st.slots[i].active :: st.slots[i].sock
  {
    forall fd | fd in st.socks && fd != cfg.listenSock
      ensures exists i | 0 <= i < |st.slots| && st.slots[i].active :: st.slots[i].sock == fd
    {
      var i := FindClient(st.slots, fd);
      assert st.slots[i].active && st.slots[i].sock == fd;
    }
  }

  // -------------------------------------------------------------------- ids

  ghost predicate DistinctIds(slots: seq<Slot>) {
    forall i, j | 0 <= i < j < |slots| && slots[i].active && slots[j].active
                  && slots[i].kind != Unknown && slots[j].kind != Unknown ::
      slots[i].id != slots[j].id
  }

  /** Between occupants a slot is blank, and before JOIN the id is zero. */
  ghost predicate BlankBeforeJoin(slots: seq<Slot>) {
    forall i | 0 <= i < |slots| :: Blank(slots[i])
  }

  ghost predicate Blank(c: Slot) {
    && (!c.active || c.kind == Unknown ==> c.id == 0 && c.names == [])
    && (!c.active ==> c.kind == Unknown)
  }

  lemma StepKeepsBlank(cfg: Config, st: State, e: Event)
    requires Legal(cfg, st, e) && cfg.fixes.clearResetsKind && BlankBeforeJoin(st.slots)
    ensures BlankBeforeJoin(Step(cfg, st, e).slots)
  {
    hide ParsePublish;
    var st' := Step(cfg, st, e);
    var i := if e.Accepted? then FreeSlot(st.slots) else FindClient(st.slots, e.fd);
    if i < |st.slots| {
      assert Blank(st.slots[i]);
      assert st'.slots == st.slots[i := st'.slots[i]];
    }
  }

  lemma {:induction false} ReachableBlank(cfg: Config, base: set<int>, run: Run)
    requires cfg.fixes.clearResetsKind && Replay(cfg, base, run).Some?
    ensures BlankBeforeJoin(Replay(cfg, base, run).value.slots)
  {
    if run.Then? {
      ReachableBlank(cfg, base, run.before);
      StepKeepsBlank(cfg, Replay(cfg, base, run.before).value, run.e);
    }
  }

  lemma IdTaken(slots: seq<Slot>, i: nat)
    requires DistinctIds(slots) && i < |slots| && slots[i].active && slots[i].kind != Unknown
    ensures forall j | 0 <= j < |slots| && j != i && slots[j].active && slots[j].kind != Unknown :: slots[j].id != slots[i].id
  {
  }

  /** With the scan that stops at the first active slot, a JOIN keeps ids
      distinct exactly when it is refused there or no other client has the id. */
  lemma FirstSlotJoinExactly(cfg: Config, slots: seq<Slot>, i: nat, data: Bytes)
    requires !cfg.fixes.joinScansAll && IsJoin(data)
    requires i < |slots| && slots[i].active && DistinctIds(slots)
    ensures DistinctIds(AfterMessage(cfg, slots, i, data, 0))
            <==> (slots[FirstActive(slots)].id == JoinId(data)
                  || forall j | 0 <= j < |slots| && j != i && slots[j].active && slots[j].kind != Unknown ::
                       slots[j].id != JoinId(data))
  {
    var after := AfterMessage(cfg, slots, i, data, 0);
    var id := JoinId(data);
    if slots[FirstActive(slots)].id != id {
      assert after[i].id == id && after[i].kind == Joined;
      if j :| 0 <= j < |slots| && j != i && slots[j].active && slots[j].kind != Unknown && slots[j].id == id {
        assert after[j] == slots[j];
      }
    }
  }

  function JoinRequest(id: u32): (data: Bytes)
    ensures IsJoin(data) && JoinId(data) == id
  {
    BE32RoundTrip(id);
    var data := [JOIN] + ToBE32(id);
    assert data[1..] == ToBE32(id);
    data
  }

  // ------------------------------------------------------- under any repairs

  /** A free slot has no id and no names, whether or not its type is reset. */
  ghost predicate FreeIsBlank(slots: seq<Slot>) {
    forall i | 0 <= i < |slots| && !slots[i].active :: slots[i].id == 0 && slots[i].names == []
  }

  lemma {:induction false} ReachableFreeIsBlank(cfg: Config, base: set<int>, run: Run)
    requires Replay(cfg, base, run).Some?
    ensures FreeIsBlank(Replay(cfg, base, run).value.slots)
  {
    if run.Then? {
      ReachableFreeIsBlank(cfg, base, run.before);
      StepKeepsFreeIsBlank(cfg, Replay(cfg, base, run.before).value, run.e);
    }
  }

  lemma StepKeepsFreeIsBlank(cfg: Config, st: State, e: Event)
    requires Legal(cfg, st, e) && FreeIsBlank(st.slots)
    ensures FreeIsBlank(Step(cfg, st, e).slots)
  {
    hide ParsePublish;
  }

  /** The accept puts a client into a slot. */
  predicate Fills(cfg: Config, st: State, e: Event) {
    && e.Accepted? && FreeSlot(st.slots) < |st.slots|
    && (st.activeClients == cfg.maxConn - 1 ==> e.closeWorks && !cfg.fixes.acceptReturns)
  }

  /** What an event must not do for ids to stay distinct: put a client into the
      slot of a joined one, so that it counts as joined with id 0, while a joined
      client has id 0; or accept a JOIN for the id of another joined client. */
  ghost predicate IdsClean(cfg: Config, st: State, e: Event)
    requires Legal(cfg, st, e)
  {
    && (Fills(cfg, st, e) && st.slots[FreeSlot(st.slots)].kind != Unknown ==>
          forall j | 0 <= j < |st.slots| && st.slots[j].active && st.slots[j].kind != Unknown :: st.slots[j].id != 0)
    && (e.Received? && IsJoin(e.data) && JoinAccepted(cfg.fixes, st.slots, JoinId(e.data)) ==>
          forall j | 0 <= j < |st.slots| && j != FindClient(st.slots, e.fd)
                     && st.slots[j].active && st.slots[j].kind != Unknown ::
            st.slots[j].id != JoinId(e.data))
  }

  lemma SlotChangeIdsExactly(slots: seq<Slot>, i: nat, c: Slot)
    requires DistinctIds(slots) && i < |slots|
    ensures DistinctIds(slots[i := c])
            <==> (c.active && c.kind != Unknown ==>
                    forall j | 0 <= j < |slots| && j != i && slots[j].active && slots[j].kind != Unknown :: slots[j].id != c.id)
  {
    var after := slots[i := c];
    if c.active && c.kind != Unknown && DistinctIds(after) {
      forall j | 0 <= j < |slots| && j != i && slots[j].active && slots[j].kind != Unknown
        ensures slots[j].id != c.id
      {
        assert after[j] == slots[j] && after[i] == c;
      }
    }
  }

  /** A step keeps ids distinct exactly when it does neither. */
  lemma StepKeepsIdsExactly(cfg: Config, st: State, e: Event)
    requires Legal(cfg, st, e) && DistinctIds(st.slots) && FreeIsBlank(st.slots)
    ensures DistinctIds(Step(cfg, st, e).slots) <==> IdsClean(cfg, st, e)
  {
    hide DistinctIds, ParsePublish;
    var st' := Step(cfg, st, e);
    var i := if e.Accepted? then FreeSlot(st.slots) else FindClient(st.slots, e.fd);
    if i < |st.slots| && (e.Accepted? ==> Fills(cfg, st, e)) {
      var c := st'.slots[i];
      assert st'.slots == st.slots[i := c];
      SlotChangeIdsExactly(st.slots, i, c);
      if st.slots[i].active && st.slots[i].kind != Unknown {
        IdTaken(st.slots, i);
      }
    } else {
      assert st'.slots == st.slots;
    }
  }

  ghost predicate AlwaysDistinct(cfg: Config, base: set<int>, run: Run)
    requires Replay(cfg, base, run).Some?
  {
    DistinctIds(Replay(cfg, base, run).value.slots) && (run.Then? ==> AlwaysDistinct(cfg, base, run.before))
  }

  ghost predicate AllIdsClean(cfg: Config, base: set<int>, run: Run)
    requires Replay(cfg, base, run).Some?
  {
    run.Then? ==> AllIdsClean(cfg, base, run.before) && IdsClean(cfg, Replay(cfg, base, run.before).value, run.e)
  }

  /** For every run, under any repairs: ids are distinct throughout exactly when
      every event is clean. */
  lemma {:induction false} IdsThroughoutExactly(cfg: Config, base: set<int>, run: Run)
    requires Replay(cfg, base, run).Some?
    ensures AlwaysDistinct(cfg, base, run) <==> AllIdsClean(cfg, base, run)
  {
    if run.Then? {
      IdsThroughoutExactly(cfg, base, run.before);
      if AlwaysDistinct(cfg, base, run.before) {
        ReachableFreeIsBlank(cfg, base, run.before);
        StepKeepsIdsExactly(cfg, Replay(cfg, base, run.before).value, run.e);
      }
    }
  }

  lemma {:induction false} RepairedIdsClean(cfg: Config, base: set<int>, run: Run)
    requires cfg.fixes.joinScansAll && cfg.fixes.clearResetsKind && Replay(cfg, base, run).Some?
    ensures AllIdsClean(cfg, base, run)
  {
    if run.Then? {
      RepairedIdsClean(cfg, base, run.before);
      ReachableBlank(cfg, base, run.before);
      var slots := Replay(cfg, base, run.before).value.slots;
      assert FreeSlot(slots) < |slots| ==> Blank(slots[FreeSlot(slots)]);
    }
  }

  /** With the full scan and the reset type, in every reachable state joined live
      clients have pairwise distinct ids. */
  lemma ReachableIds(cfg: Config, base: set<int>, run: Run)
    requires cfg.fixes.joinScansAll && cfg.fixes.clearResetsKind
    requires Replay(cfg, base, run).Some?
    ensures var slots := Replay(cfg, base, run).value.slots;
            DistinctIds(slots) && BlankBeforeJoin(slots)
  {
    RepairedIdsClean(cfg, base, run);
    IdsThroughoutExactly(cfg, base, run);
    ReachableBlank(cfg, base, run);
  }

  // --------------------------------------------------------------- one slot

  lemma SameFirst(slots: seq<Slot>, fd: int, i: nat, c: Slot)
    requires i < |slots| && FindClient(slots, fd) < |slots|
    requires c.active && c.sock == fd <==> slots[i].active && slots[i].sock == fd
    ensures FindClient(slots[i := c], fd) == FindClient(slots, fd)
  {
    var after, k := slots[i := c], FindClient(slots, fd);
    assert forall j | 0 <= j < |slots| :: Fits(OnSocket(fd), after[j]) <==> Fits(OnSocket(fd), slots[j]);
    assert Fits(OnSocket(fd), after[k]);
  }

  lemma FirstFits(slots: seq<Slot>, want: Want)
    ensures var i := First(slots, want);
            i <= |slots| && (i < |slots| ==> Fits(want, slots[i]))
  {
  }

  lemma MessageKeepsOthers(cfg: Config, slots: seq<Slot>, i: nat, data: Bytes, memory: nat)
    requires i < |slots|
    ensures var after := AfterMessage(cfg, slots, i, data, memory);
            |after| == |slots| && after == slots[i := after[i]]
            && after[i].active == slots[i].active && after[i].sock == slots[i].sock
  {
  }
}
