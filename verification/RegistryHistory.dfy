/**
  What the registry knows about a connection, told from the history alone: no
  slots, only the messages of that connection since its accept. The slot table
  refines this description throughout exactly the clean runs, which with the
  repairs are all of them. Under any repairs it holds what the registry took from
  each live connection since its accept, and nothing of earlier ones.
 */
module RegistryHistory {
  import opened Bytes
  import opened Wire
  import opened RegistryModel
  import opened RegistryInvariants

  /** The connections that are up: accepted under the limit and not closed. */
  ghost function Live(cfg: Config, run: Run): set<int> {
    match run
    case Start => {}
    case Then(before, Accepted(fd, _, _)) =>
      if |Live(cfg, before)| == cfg.maxConn - 1 then Live(cfg, before) else Live(cfg, before) + {fd}
    case Then(before, Received(_, _, _, _)) => Live(cfg, before)
    case Then(before, Closed(fd, _)) => Live(cfg, before) - {fd}
  }

  /** The JOIN `e` is accepted: no live connection already has the id. */
  ghost predicate Joins(cfg: Config, before: Run, e: Event)
    decreases before, 1
  {
    e.Received? && IsJoin(e.data) && forall g | g in Live(cfg, before) :: IdOf(cfg, before, g) != JoinId(e.data)
  }

  /** The id of the latest accepted JOIN since the accept, or 0. */
  ghost function IdOf(cfg: Config, run: Run, fd: int): u32
    decreases run, 0
  {
    match run
    case Start => 0
    case Then(before, e) =>
      if e.fd != fd then IdOf(cfg, before, fd)
      else if !e.Received? then 0
      else if Joins(cfg, before, e) then JoinId(e.data)
      else IdOf(cfg, before, fd)
  }

  ghost predicate JoinedOf(cfg: Config, run: Run, fd: int) {
    match run
    case Start => false
    case Then(before, e) =>
      if e.fd != fd then JoinedOf(cfg, before, fd)
      else e.Received? && (Joins(cfg, before, e) || JoinedOf(cfg, before, fd))
  }

  /** The PUBLISH `e` is accepted. */
  ghost predicate Publishes(cfg: Config, before: Run, e: Event) {
    e.Received? && JoinedOf(cfg, before, e.fd) && Published(cfg, e.data, e.memory).Some?
  }

  /** The list of the latest accepted PUBLISH since the accept, or empty. */
  ghost function NamesOf(cfg: Config, run: Run, fd: int): seq<Bytes> {
    match run
    case Start => []
    case Then(before, e) =>
      if e.fd != fd then NamesOf(cfg, before, fd)
      else if !e.Received? then []
      else if Publishes(cfg, before, e) then Published(cfg, e.data, e.memory).value
      else NamesOf(cfg, before, fd)
  }

  ghost function AddrOf(run: Run, fd: int): Addr {
    match run
    case Start => OtherFamily
    case Then(before, e) =>
      if e.fd == fd && e.Accepted? then e.addr else AddrOf(before, fd)
  }

  // ------------------------------------------------------------- refinement

  ghost predicate Describes(cfg: Config, run: Run, c: Slot) {
    && c.id == IdOf(cfg, run, c.sock)
    && (c.kind != Unknown <==> JoinedOf(cfg, run, c.sock))
    && c.names == NamesOf(cfg, run, c.sock)
    && c.addr == AddrOf(run, c.sock)
  }

  /** The slot table and the history agree on who is connected and on all that
      is known about them. */
  ghost predicate Refines(cfg: Config, run: Run, st: State) {
    && (forall i | 0 <= i < |st.slots| && st.slots[i].active ::
          st.slots[i].sock in Live(cfg, run) && Describes(cfg, run, st.slots[i]))
    && (forall fd | fd in Live(cfg, run) :: FindClient(st.slots, fd) < |st.slots|)
    && st.activeClients == |Live(cfg, run)|
  }

  predicate Repaired(fixes: Fixes) {
    fixes.acceptReturns && fixes.joinScansAll && fixes.clearResetsKind
  }

  lemma FreshDescriptor(cfg: Config, run: Run, st: State, e: Event)
    requires SocketInv(cfg, st) && e.Accepted? && Legal(cfg, st, e) && Refines(cfg, run, st)
    ensures e.fd !in Live(cfg, run)
    ensures forall j | 0 <= j < |st.slots| && st.slots[j].active ::
              st.slots[j].sock != e.fd && Describes(cfg, Then(run, e), st.slots[j])
  {
    assert e.fd !in st.socks;
    assert e.fd in Live(cfg, run) ==> FindClient(st.slots, e.fd) < |st.slots|;
    forall j | 0 <= j < |st.slots| && st.slots[j].active
      ensures st.slots[j].sock != e.fd && Describes(cfg, Then(run, e), st.slots[j])
    {
      assert st.slots[j].sock in st.socks;
      assert Describes(cfg, run, st.slots[j]);
    }
  }

  lemma NewSlotRefines(cfg: Config, run: Run, st: State, e: Event, i: nat, st': State)
    requires Refines(cfg, run, st) && e.Accepted?
    requires st.activeClients != cfg.maxConn - 1 && st'.activeClients == st.activeClients + 1
    requires e.fd !in Live(cfg, run)
    requires forall j | 0 <= j < |st.slots| && st.slots[j].active :: Describes(cfg, Then(run, e), st.slots[j])
    requires i < |st.slots| && !st.slots[i].active
    requires |st'.slots| == |st.slots| && st'.slots == st.slots[i := st'.slots[i]]
    requires st'.slots[i].active && st'.slots[i].sock == e.fd && Describes(cfg, Then(run, e), st'.slots[i])
    ensures Refines(cfg, Then(run, e), st')
  {
    forall g | g in Live(cfg, Then(run, e))
      ensures FindClient(st'.slots, g) < |st'.slots|
    {
      var k := if g == e.fd then i else FindClient(st.slots, g);
      assert st'.slots[k].active && st'.slots[k].sock == g;
    }
  }

  lemma SameSlotsRefine(cfg: Config, run: Run, st: State, e: Event, st': State)
    requires Refines(cfg, run, st) && e.Accepted? && st.activeClients == cfg.maxConn - 1
    requires forall j | 0 <= j < |st.slots| && st.slots[j].active :: Describes(cfg, Then(run, e), st.slots[j])
    requires st'.slots == st.slots && st'.activeClients == st.activeClients
    ensures Refines(cfg, Then(run, e), st')
  {
  }

  /** What an event must not do for the table to stay a refinement of the history:
      register a refused connection, fill the slot of a client that had joined, or
      accept a JOIN for an id that is in use, unless by the joined client that
      already has it. */
  predicate Clean(cfg: Config, st: State, e: Event)
    requires Legal(cfg, st, e)
  {
    match e
    case Accepted(_, _, _) =>
      if st.activeClients == cfg.maxConn - 1 then !RegistersRefused(cfg, st, e)
      else FreeSlot(st.slots) < |st.slots| ==> st.slots[FreeSlot(st.slots)].kind == Unknown
    case Received(fd, data, _, _) =>
      IsJoin(data) && JoinAccepted(cfg.fixes, st.slots, JoinId(data)) ==>
        var c := st.slots[FindClient(st.slots, fd)];
        (c.kind != Unknown && c.id == JoinId(data)) || IdUnused(st.slots, JoinId(data))
    case Closed(_, _) => true
  }

  predicate IdUnused(slots: seq<Slot>, id: u32) {
    forall j | 0 <= j < |slots| && slots[j].active :: slots[j].id != id
  }

  lemma AcceptRefinesExactly(cfg: Config, run: Run, st: State, e: Event)
    requires SocketInv(cfg, st) && FreeIsBlank(st.slots)
    requires e.Accepted? && Legal(cfg, st, e) && Refines(cfg, run, st)
    ensures Refines(cfg, Then(run, e), Step(cfg, st, e)) <==> Clean(cfg, st, e)
  {
    FreshDescriptor(cfg, run, st, e);
    FreeSlotExists(st.slots);
    var st' := Step(cfg, st, e);
    var i := FreeSlot(st.slots);
    if st.activeClients == cfg.maxConn - 1 {
      if Clean(cfg, st, e) {
        SameSlotsRefine(cfg, run, st, e, st');
      } else {
        assert st'.activeClients == cfg.maxConn;
      }
    } else if st.slots[i].kind == Unknown {
      assert Describes(cfg, Then(run, e), st'.slots[i]);
      NewSlotRefines(cfg, run, st, e, i, st');
    } else {
      assert st'.slots[i].active && !Describes(cfg, Then(run, e), st'.slots[i]);
    }
  }

  lemma CloseRefines(cfg: Config, run: Run, st: State, e: Event)
    requires SocketInv(cfg, st)
    requires e.Closed? && Legal(cfg, st, e) && Refines(cfg, run, st)
    ensures Refines(cfg, Then(run, e), Step(cfg, st, e))
  {
    var i := FindClient(st.slots, e.fd);
    var st' := Step(cfg, st, e);
    StepKeepsSocketInvExactly(cfg, st, e);
    assert st.slots[i].sock in Live(cfg, run);
    forall j | 0 <= j < |st'.slots| && st'.slots[j].active
      ensures st'.slots[j].sock in Live(cfg, Then(run, e)) && Describes(cfg, Then(run, e), st'.slots[j])
    {
      assert st'.slots[j] == st.slots[j] && st.slots[j].sock != e.fd;
    }
    forall g | g in Live(cfg, Then(run, e))
      ensures FindClient(st'.slots, g) < |st'.slots|
    {
      var k := FindClient(st.slots, g);
      assert st'.slots[k] == st.slots[k];
    }
  }

  /** The history accepts a JOIN exactly when the table has no such id. */
  lemma JoinAgrees(cfg: Config, run: Run, st: State, e: Event)
    requires Refines(cfg, run, st) && e.Received? && IsJoin(e.data)
    ensures IdUnused(st.slots, JoinId(e.data)) <==> Joins(cfg, run, e)
  {
    var id := JoinId(e.data);
    if IdUnused(st.slots, id) {
      forall g | g in Live(cfg, run)
        ensures IdOf(cfg, run, g) != id
      {
        var j := FindClient(st.slots, g);
        assert st.slots[j].active && st.slots[j].sock == g;
      }
    }
    if Joins(cfg, run, e) {
      forall j | 0 <= j < |st.slots| && st.slots[j].active
        ensures st.slots[j].id != id
      {
        assert Describes(cfg, run, st.slots[j]);
      }
    }
  }

  lemma MessageDescribesExactly(cfg: Config, run: Run, st: State, e: Event)
    requires Refines(cfg, run, st) && e.Received? && Legal(cfg, st, e)
    ensures var i := FindClient(st.slots, e.fd);
            Describes(cfg, Then(run, e), AfterMessage(cfg, st.slots, i, e.data, e.memory)[i]) <==> Clean(cfg, st, e)
  {
    hide ParsePublish, First;
    var i := FindClient(st.slots, e.fd);
    FirstFits(st.slots, OnSocket(e.fd));
    if IsJoin(e.data) {
      JoinAgrees(cfg, run, st, e);
      UnusedIsAccepted(cfg.fixes, st.slots, i, JoinId(e.data));
    }
    var c := st.slots[i];
    assert Describes(cfg, run, c) && c.sock == e.fd;
    var after := AfterMessage(cfg, st.slots, i, e.data, e.memory)[i];
    if IsJoin(e.data) && JoinAccepted(cfg.fixes, st.slots, JoinId(e.data)) {
      assert after == c.(id := JoinId(e.data), kind := Joined);
      assert NamesOf(cfg, Then(run, e), e.fd) == c.names;
      if !Joins(cfg, run, e) {
        assert Describes(cfg, Then(run, e), after) <==> JoinId(e.data) == c.id && c.kind != Unknown;
      }
    } else {
      assert Clean(cfg, st, e);
      assert !Joins(cfg, run, e);
      assert Describes(cfg, Then(run, e), after);
    }
  }

  lemma UnusedIsAccepted(fixes: Fixes, slots: seq<Slot>, i: nat, id: u32)
    requires i < |slots| && slots[i].active
    ensures IdUnused(slots, id) ==> JoinAccepted(fixes, slots, id)
  {
    assert Fits(Busy, slots[i]);
  }

  lemma OthersDescribed(cfg: Config, run: Run, st: State, e: Event, j: nat)
    requires SocketInv(cfg, st) && Refines(cfg, run, st)
    requires Legal(cfg, st, e) && !e.Accepted?
    requires j < |st.slots| && j != FindClient(st.slots, e.fd) && st.slots[j].active
    ensures st.slots[j].sock != e.fd && st.slots[j].sock in Live(cfg, run)
    ensures Describes(cfg, Then(run, e), st.slots[j])
  {
    assert Describes(cfg, run, st.slots[j]);
  }

  lemma ChangedSlotRefines(cfg: Config, run: Run, st: State, e: Event, c: Slot)
    requires SocketInv(cfg, st) && Refines(cfg, run, st)
    requires e.Received? && Legal(cfg, st, e)
    requires c.active && c.sock == e.fd && Describes(cfg, Then(run, e), c)
    ensures Refines(cfg, Then(run, e), st.(slots := st.slots[FindClient(st.slots, e.fd) := c]))
  {
    hide Describes, ParsePublish;
    var i := FindClient(st.slots, e.fd);
    var after := st.slots[i := c];
    forall j | 0 <= j < |after| && after[j].active
      ensures after[j].sock in Live(cfg, run) && Describes(cfg, Then(run, e), after[j])
    {
      if j != i {
        OthersDescribed(cfg, run, st, e, j);
      }
    }
    SameSocketsWatched(cfg.listenSock, st.slots, after, st.socks);
    forall g | g in Live(cfg, run)
      ensures FindClient(after, g) < |after|
    {
      var k := FindClient(st.slots, g);
      assert after[k].active && after[k].sock == g;
    }
  }

  lemma MessageRefinesExactly(cfg: Config, run: Run, st: State, e: Event)
    requires SocketInv(cfg, st)
    requires e.Received? && Legal(cfg, st, e) && Refines(cfg, run, st)
    ensures Refines(cfg, Then(run, e), Step(cfg, st, e)) <==> Clean(cfg, st, e)
  {
    var i := FindClient(st.slots, e.fd);
    var after := AfterMessage(cfg, st.slots, i, e.data, e.memory);
    MessageDescribesExactly(cfg, run, st, e);
    MessageKeepsOthers(cfg, st.slots, i, e.data, e.memory);
    if Clean(cfg, st, e) {
      ChangedSlotRefines(cfg, run, st, e, after[i]);
    } else {
      assert Step(cfg, st, e).slots[i] == after[i];
    }
  }

  ghost predicate AlwaysRefines(cfg: Config, base: set<int>, run: Run)
    requires Replay(cfg, base, run).Some?
  {
    Refines(cfg, run, Replay(cfg, base, run).value) && (run.Then? ==> AlwaysRefines(cfg, base, run.before))
  }

  ghost predicate AllClean(cfg: Config, base: set<int>, run: Run)
    requires Replay(cfg, base, run).Some?
  {
    run.Then? ==> AllClean(cfg, base, run.before) && Clean(cfg, Replay(cfg, base, run.before).value, run.e)
  }

  /** A clean run registers no refused connection. */
  lemma {:induction false} CleanKeepsSocketInv(cfg: Config, base: set<int>, run: Run)
    requires ValidConfig(cfg) && ValidBase(cfg, base) && Replay(cfg, base, run).Some? && AllClean(cfg, base, run)
    ensures SocketInv(cfg, Replay(cfg, base, run).value)
  {
    match run
    case Start => InitSocketInv(cfg, base);
    case Then(before, e) =>
      CleanKeepsSocketInv(cfg, base, before);
      StepKeepsSocketInvExactly(cfg, Replay(cfg, base, before).value, e);
  }

  lemma {:induction false} CleanRefusesNone(cfg: Config, base: set<int>, run: Run)
    requires Replay(cfg, base, run).Some? && AllClean(cfg, base, run)
    ensures !RefusedSince(cfg, base, Start, run)
  {
    if run.Then? {
      CleanRefusesNone(cfg, base, run.before);
    }
  }

  /** For every run, under any repairs: the table refines the history throughout
      exactly when every event is clean. */
  lemma {:induction false} RefinesThroughoutExactly(cfg: Config, base: set<int>, run: Run)
    requires ValidConfig(cfg) && ValidBase(cfg, base) && Replay(cfg, base, run).Some?
    ensures AlwaysRefines(cfg, base, run) <==> AllClean(cfg, base, run)
  {
    hide Refines, Clean, Step, Legal;
    match run
    case Start => StartRefines(cfg, base);
    case Then(before, e) =>
      RefinesThroughoutExactly(cfg, base, before);
      if AlwaysRefines(cfg, base, before) {
        EventRefinesExactly(cfg, base, before, e);
      }
  }

  lemma StartRefines(cfg: Config, base: set<int>)
    ensures Refines(cfg, Start, Init(cfg, base))
  {
  }

  lemma EventRefinesExactly(cfg: Config, base: set<int>, before: Run, e: Event)
    requires ValidConfig(cfg) && ValidBase(cfg, base) && Replay(cfg, base, Then(before, e)).Some?
    requires AllClean(cfg, base, before) && Refines(cfg, before, Replay(cfg, base, before).value)
    ensures Refines(cfg, Then(before, e), Replay(cfg, base, Then(before, e)).value)
            <==> Clean(cfg, Replay(cfg, base, before).value, e)
  {
    hide Refines;
    var st := Replay(cfg, base, before).value;
    CleanKeepsSocketInv(cfg, base, before);
    ReachableFreeIsBlank(cfg, base, before);
    match e
    case Accepted(_, _, _) => AcceptRefinesExactly(cfg, before, st, e);
    case Received(_, _, _, _) => MessageRefinesExactly(cfg, before, st, e);
    case Closed(_, _) => CloseRefines(cfg, before, st, e);
  }

  /** With the repairs every event is clean. */
  lemma {:induction false} RepairedIsClean(cfg: Config, base: set<int>, run: Run)
    requires Repaired(cfg.fixes) && Replay(cfg, base, run).Some?
    ensures AllClean(cfg, base, run)
  {
    if run.Then? {
      RepairedIsClean(cfg, base, run.before);
      ReachableBlank(cfg, base, run.before);
      var slots := Replay(cfg, base, run.before).value.slots;
      assert FreeSlot(slots) < |slots| ==> Blank(slots[FreeSlot(slots)]);
    }
  }

  /** For every clean run, and so for every run with the repairs, the slot table
      refines the description by history. */
  lemma SlotsRefineHistory(cfg: Config, base: set<int>, run: Run)
    requires ValidConfig(cfg) && ValidBase(cfg, base) && Replay(cfg, base, run).Some?
    requires Repaired(cfg.fixes) || AllClean(cfg, base, run)
    ensures Refines(cfg, run, Replay(cfg, base, run).value)
  {
    if Repaired(cfg.fixes) {
      RepairedIsClean(cfg, base, run);
    }
    RefinesThroughoutExactly(cfg, base, run);
  }

  // ----------------------------------------- the latest accepted message

  /** `run` continues `r` without an event of `fd` that `stops` picks out. */
  ghost predicate QuietSince(r: Run, run: Run, fd: int, stops: (Run, Event) -> bool) {
    run == r
    || (run.Then? && !(run.e.fd == fd && stops(run.before, run.e)) && QuietSince(r, run.before, fd, stops))
  }

  ghost function PublishOrReset(cfg: Config): (Run, Event) -> bool {
    (b: Run, e: Event) => !e.Received? || Publishes(cfg, b, e)
  }

  ghost function JoinOrReset(cfg: Config): (Run, Event) -> bool {
    (b: Run, e: Event) => !e.Received? || Joins(cfg, b, e)
  }

  /** The names of a connection are those of its latest accepted PUBLISH, with
      nothing of that connection since; without one they are empty. */
  lemma {:induction false} LatestPublish(cfg: Config, run: Run, fd: int) returns (r: Run)
    ensures QuietSince(r, run, fd, PublishOrReset(cfg))
    ensures if r.Then? && r.e.fd == fd && Publishes(cfg, r.before, r.e)
            then Published(cfg, r.e.data, r.e.memory) == Some(NamesOf(cfg, run, fd))
            else (r.Start? || (r.e.fd == fd && !r.e.Received?)) && NamesOf(cfg, run, fd) == []
  {
    r := run;
    if run.Then? && !(run.e.fd == fd && PublishOrReset(cfg)(run.before, run.e)) {
      r := LatestPublish(cfg, run.before, fd);
    }
  }

  /** The id of a connection is that of its latest accepted JOIN, or 0. */
  lemma {:induction false} LatestJoin(cfg: Config, run: Run, fd: int) returns (r: Run)
    ensures QuietSince(r, run, fd, JoinOrReset(cfg))
    ensures if r.Then? && r.e.fd == fd && Joins(cfg, r.before, r.e)
            then IdOf(cfg, run, fd) == JoinId(r.e.data) && JoinedOf(cfg, run, fd)
            else (r.Start? || (r.e.fd == fd && !r.e.Received?))
                 && IdOf(cfg, run, fd) == 0 && !JoinedOf(cfg, run, fd)
  {
    r := run;
    if run.Then? && !(run.e.fd == fd && JoinOrReset(cfg)(run.before, run.e)) {
      r := LatestJoin(cfg, run.before, fd);
    }
  }

  ghost function Arrival(): (Run, Event) -> bool {
    (b: Run, e: Event) => e.Accepted?
  }

  /** The address of a connection is that of its latest accept. */
  lemma {:induction false} LatestAccept(run: Run, fd: int) returns (r: Run)
    ensures QuietSince(r, run, fd, Arrival())
    ensures if r.Then? && r.e.fd == fd && r.e.Accepted? then AddrOf(run, fd) == r.e.addr
            else r.Start? && AddrOf(run, fd) == OtherFamily
  {
    r := run;
    if run.Then? && !(run.e.fd == fd && run.e.Accepted?) {
      r := LatestAccept(run.before, fd);
    }
  }

  ghost function ArrivalOrEnd(): (Run, Event) -> bool {
    (b: Run, e: Event) => !e.Received?
  }

  /** Who is live: those whose latest accept, with no close since, was below the
      limit of one less than the slots. */
  lemma {:induction false} LatestArrival(cfg: Config, run: Run, fd: int) returns (r: Run)
    ensures QuietSince(r, run, fd, ArrivalOrEnd())
    ensures if r.Then? && r.e.fd == fd && !r.e.Received?
            then fd in Live(cfg, run)
                 <==> r.e.Accepted? && (|Live(cfg, r.before)| + 1 != cfg.maxConn || fd in Live(cfg, r.before))
            else r.Start? && fd !in Live(cfg, run)
  {
    r := run;
    if run.Then? && !(run.e.fd == fd && !run.e.Received?) {
      r := LatestArrival(cfg, run.before, fd);
    }
  }

  // ------------------------------------------- what the registry took, any repairs

  /** The slot of a message's sender counts as joined and its PUBLISH is accepted. */
  ghost predicate TakesPublish(cfg: Config, base: set<int>, before: Run, e: Event)
    requires Replay(cfg, base, before).Some?
  {
    var slots := Replay(cfg, base, before).value.slots;
    && e.Received? && Published(cfg, e.data, e.memory).Some?
    && FindClient(slots, e.fd) < |slots| && slots[FindClient(slots, e.fd)].kind != Unknown
  }

  ghost predicate TakesJoin(cfg: Config, base: set<int>, before: Run, e: Event)
    requires Replay(cfg, base, before).Some?
  {
    && e.Received? && IsJoin(e.data)
    && JoinAccepted(cfg.fixes, Replay(cfg, base, before).value.slots, JoinId(e.data))
  }

  /** The list of the latest PUBLISH of `fd` since its accept that the registry
      took, or empty. */
  ghost function TakenNames(cfg: Config, base: set<int>, run: Run, fd: int): seq<Bytes>
    requires Replay(cfg, base, run).Some?
  {
    match run
    case Start => []
    case Then(before, e) =>
      if e.fd != fd then TakenNames(cfg, base, before, fd)
      else if !e.Received? then []
      else if TakesPublish(cfg, base, before, e) then Published(cfg, e.data, e.memory).value
      else TakenNames(cfg, base, before, fd)
  }

  /** The id of the latest JOIN of `fd` since its accept that it took, or 0. */
  ghost function TakenId(cfg: Config, base: set<int>, run: Run, fd: int): u32
    requires Replay(cfg, base, run).Some?
  {
    match run
    case Start => 0
    case Then(before, e) =>
      if e.fd != fd then TakenId(cfg, base, before, fd)
      else if !e.Received? then 0
      else if TakesJoin(cfg, base, before, e) then JoinId(e.data)
      else TakenId(cfg, base, before, fd)
  }

  ghost function TakeOrReset(cfg: Config, base: set<int>): (Run, Event) -> bool {
    (b: Run, e: Event) => !e.Received? || (Replay(cfg, base, b).Some? && TakesPublish(cfg, base, b, e))
  }

  /** Such a list is that of a PUBLISH of the connection that the registry took,
      with no other one, no accept and no close of it since; without one it is
      empty. */
  lemma {:induction false} LatestTaken(cfg: Config, base: set<int>, run: Run, fd: int) returns (r: Run)
    requires Replay(cfg, base, run).Some?
    ensures QuietSince(r, run, fd, TakeOrReset(cfg, base)) && Replay(cfg, base, r).Some?
    ensures if r.Then? && r.e.fd == fd && TakesPublish(cfg, base, r.before, r.e)
            then Published(cfg, r.e.data, r.e.memory) == Some(TakenNames(cfg, base, run, fd))
            else (r.Start? || (r.e.fd == fd && !r.e.Received?)) && TakenNames(cfg, base, run, fd) == []
  {
    r := run;
    if run.Then? && !(run.e.fd == fd && TakeOrReset(cfg, base)(run.before, run.e)) {
      r := LatestTaken(cfg, base, run.before, fd);
    }
  }

  ghost function TakeIdOrReset(cfg: Config, base: set<int>): (Run, Event) -> bool {
    (b: Run, e: Event) => !e.Received? || (Replay(cfg, base, b).Some? && TakesJoin(cfg, base, b, e))
  }

  lemma {:induction false} LatestTakenJoin(cfg: Config, base: set<int>, run: Run, fd: int) returns (r: Run)
    requires Replay(cfg, base, run).Some?
    ensures QuietSince(r, run, fd, TakeIdOrReset(cfg, base)) && Replay(cfg, base, r).Some?
    ensures if r.Then? && r.e.fd == fd && TakesJoin(cfg, base, r.before, r.e)
            then JoinId(r.e.data) == TakenId(cfg, base, run, fd)
            else (r.Start? || (r.e.fd == fd && !r.e.Received?)) && TakenId(cfg, base, run, fd) == 0
  {
    r := run;
    if run.Then? && !(run.e.fd == fd && TakeIdOrReset(cfg, base)(run.before, run.e)) {
      r := LatestTakenJoin(cfg, base, run.before, fd);
    }
  }

  ghost predicate HoldsTaken(cfg: Config, base: set<int>, run: Run, c: Slot)
    requires Replay(cfg, base, run).Some?
  {
    && c.names == TakenNames(cfg, base, run, c.sock)
    && c.id == TakenId(cfg, base, run, c.sock)
    && c.addr == AddrOf(run, c.sock)
  }

  /** Every active slot is that of a live connection and holds what was taken from
      that connection, and every live connection has one. */
  ghost predicate TableIsTaken(cfg: Config, base: set<int>, run: Run)
    requires Replay(cfg, base, run).Some?
  {
    var st := Replay(cfg, base, run).value;
    && (forall i | 0 <= i < |st.slots| && st.slots[i].active ::
          st.slots[i].sock in Live(cfg, run) && HoldsTaken(cfg, base, run, st.slots[i]))
    && (forall fd | fd in Live(cfg, run) :: FindClient(st.slots, fd) < |st.slots|)
    && st.activeClients == |Live(cfg, run)|
  }

  /** Without a registered refusal, what is watched is the listener and who is
      live. */
  lemma {:induction false} LiveIsWatched(cfg: Config, base: set<int>, run: Run)
    requires ValidConfig(cfg) && ValidBase(cfg, base) && Replay(cfg, base, run).Some?
    requires !RefusedSince(cfg, base, Start, run)
    ensures var st := Replay(cfg, base, run).value;
            Live(cfg, run) == st.socks - {cfg.listenSock} && st.activeClients == |Live(cfg, run)|
  {
    hide Replay, SocketInv;
    match run
    case Start => ReplayStart(cfg, base);
    case Then(before, e) =>
      ReplayThen(cfg, base, before, e);
      LiveIsWatched(cfg, base, before);
      ReachableSocketInv(cfg, base, before);
      ReachableSocketInv(cfg, base, run);
      LiveStep(cfg, before, Replay(cfg, base, before).value, e);
  }

  lemma ReplayStart(cfg: Config, base: set<int>)
    ensures Replay(cfg, base, Start) == Some(Init(cfg, base))
  {
  }

  lemma ReplayThen(cfg: Config, base: set<int>, before: Run, e: Event)
    requires Replay(cfg, base, Then(before, e)).Some?
    ensures var r := Replay(cfg, base, before);
            r.Some? && Legal(cfg, r.value, e) && Replay(cfg, base, Then(before, e)) == Some(Step(cfg, r.value, e))
  {
  }

  lemma SocketFacts(cfg: Config, st: State)
    requires SocketInv(cfg, st)
    ensures cfg.listenSock in st.socks && st.socks <= st.open && FreeSlot(st.slots) < |st.slots|
    ensures forall i | 0 <= i < |st.slots| && st.slots[i].active ::
              st.slots[i].sock in st.socks && st.slots[i].sock != cfg.listenSock
  {
    hide First;
    FreeSlotExists(st.slots);
    assert forall fd | fd in st.socks :: fd in st.open;
  }

  lemma SocksAfter(cfg: Config, st: State, e: Event)
    requires SocketInv(cfg, st) && Legal(cfg, st, e) && !RegistersRefused(cfg, st, e)
    ensures cfg.listenSock in st.socks
    ensures var st' := Step(cfg, st, e);
            match e
            case Accepted(fd, _, _) =>
              && fd !in st.socks
              && st'.socks == (if st.activeClients == cfg.maxConn - 1 then st.socks else st.socks + {fd})
              && st'.activeClients == st.activeClients + if st.activeClients == cfg.maxConn - 1 then 0 else 1
            case Received(_, _, _, _) => st'.socks == st.socks && st'.activeClients == st.activeClients
            case Closed(fd, _) =>
              && fd in st.socks && fd != cfg.listenSock
              && st'.socks == st.socks - {fd} && st'.activeClients == st.activeClients - 1
  {
    hide First, AfterMessage, SocketInv;
    SocketFacts(cfg, st);
    FirstFits(st.slots, OnSocket(e.fd));
  }

  lemma LiveStep(cfg: Config, before: Run, st: State, e: Event)
    requires SocketInv(cfg, st) && Legal(cfg, st, e) && !RegistersRefused(cfg, st, e)
    requires Live(cfg, before) == st.socks - {cfg.listenSock} && st.activeClients == |Live(cfg, before)|
    ensures var st' := Step(cfg, st, e);
            Live(cfg, Then(before, e)) == st'.socks - {cfg.listenSock}
            && st'.activeClients == |Live(cfg, Then(before, e))|
  {
    hide Step, Legal, SocketInv, RegistersRefused;
    SocksAfter(cfg, st, e);
  }

  /** The one slot that an event may change. */
  function ChangedSlot(st: State, e: Event): nat {
    if e.Accepted? then FreeSlot(st.slots) else FindClient(st.slots, e.fd)
  }

  lemma OthersUnchanged(cfg: Config, st: State, e: Event, j: nat)
    requires SocketInv(cfg, st) && Legal(cfg, st, e)
    requires j < |Step(cfg, st, e).slots| && Step(cfg, st, e).slots[j].active && j != ChangedSlot(st, e)
    ensures j < |st.slots| && st.slots[j] == Step(cfg, st, e).slots[j] && st.slots[j].sock != e.fd
  {
    hide First, AfterMessage;
    FirstFits(st.slots, if e.Accepted? then Free else OnSocket(e.fd));
    if e.Received? {
      MessageKeepsOthers(cfg, st.slots, ChangedSlot(st, e), e.data, e.memory);
    }
  }

  lemma ChangedHoldsTaken(cfg: Config, base: set<int>, before: Run, e: Event, i: nat)
    requires Replay(cfg, base, Then(before, e)).Some? && !RegistersRefused(cfg, Replay(cfg, base, before).value, e)
    requires var st := Replay(cfg, base, before).value;
             && i == ChangedSlot(st, e) < |st.slots|
             && FreeIsBlank(st.slots) && (st.slots[i].active ==> HoldsTaken(cfg, base, before, st.slots[i]))
    requires var st' := Replay(cfg, base, Then(before, e)).value;
             |st'.slots| == |Replay(cfg, base, before).value.slots| && st'.slots[i].active
             && (e.Accepted? ==> Replay(cfg, base, before).value.activeClients != cfg.maxConn - 1)
    ensures HoldsTaken(cfg, base, Then(before, e), Replay(cfg, base, Then(before, e)).value.slots[i])
  {
    hide First, ParsePublish;
    var st := Replay(cfg, base, before).value;
    FirstFits(st.slots, if e.Accepted? then Free else OnSocket(e.fd));
  }

  /** Over every run, under any repairs, until a refused connection is registered:
      the table holds of each live connection, and of no other, what was taken from
      it since its accept. */
  lemma {:induction false} TakenThroughout(cfg: Config, base: set<int>, run: Run)
    requires ValidConfig(cfg) && ValidBase(cfg, base) && Replay(cfg, base, run).Some?
    requires !RefusedSince(cfg, base, Start, run)
    ensures TableIsTaken(cfg, base, run)
  {
    hide First, AfterMessage, HoldsTaken, Step;
    LiveIsWatched(cfg, base, run);
    ReachableSocketInv(cfg, base, run);
    if run.Then? {
      TakenThroughout(cfg, base, run.before);
      ReachableSocketInv(cfg, base, run.before);
      ReachableFreeIsBlank(cfg, base, run.before);
      var st, st' := Replay(cfg, base, run.before).value, Replay(cfg, base, run).value;
      forall j | 0 <= j < |st'.slots| && st'.slots[j].active
        ensures HoldsTaken(cfg, base, run, st'.slots[j])
      {
        if j != ChangedSlot(st, run.e) {
          OthersUnchanged(cfg, st, run.e, j);
          UntouchedHoldsTaken(cfg, base, run.before, run.e, st.slots[j]);
        } else {
          AcceptFills(cfg, st, run.e);
          ChangedHoldsTaken(cfg, base, run.before, run.e, j);
        }
      }
    }
  }

  lemma UntouchedHoldsTaken(cfg: Config, base: set<int>, before: Run, e: Event, c: Slot)
    requires Replay(cfg, base, Then(before, e)).Some? && c.sock != e.fd && HoldsTaken(cfg, base, before, c)
    ensures HoldsTaken(cfg, base, Then(before, e), c)
  {
  }

  lemma AcceptFills(cfg: Config, st: State, e: Event)
    requires SocketInv(cfg, st) && Legal(cfg, st, e) && !RegistersRefused(cfg, st, e)
    requires ChangedSlot(st, e) < |Step(cfg, st, e).slots| && Step(cfg, st, e).slots[ChangedSlot(st, e)].active
    ensures e.Accepted? ==> st.activeClients != cfg.maxConn - 1
  {
  }
}
