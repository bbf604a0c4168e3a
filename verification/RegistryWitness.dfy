/**
  Runs of the registry, from the start, that end where the intent is not met.
 */
module RegistryWitness {
  import opened Bytes
  import opened Wire
  import opened RegistryModel
  import opened RegistryInvariants
  import opened RegistryHistory
  import opened RegistrySearch
  import opened Publish

  const BASE: set<int> := {0, 1, 2, 3}
  const HOME: Addr := IPv4([127, 0, 0, 1], [0, 80])

  /** A message that fills the front of a zeroed receive buffer. */
  function Message(fd: int, data: Bytes): Event
    requires |data| <= BUFF_SIZE
  {
    Received(fd, data, seq(BUFF_SIZE - |data|, _ => 0), 10)
  }

  function Connected(fd: int): Slot {
    Slot(true, 0, Unknown, fd, HOME, [])
  }

  /** A table of which the first slots are in use. */
  function Table(cfg: Config, used: seq<Slot>): seq<Slot>
    requires |used| <= cfg.maxConn
  {
    used + seq(cfg.maxConn - |used|, _ => EMPTY_SLOT)
  }

  ghost predicate AllActive(used: seq<Slot>) {
    forall j | 0 <= j < |used| :: used[j].active
  }

  lemma FreeAfter(cfg: Config, used: seq<Slot>, c: Slot)
    requires |used| < cfg.maxConn && AllActive(used)
    ensures |Table(cfg, used)| == cfg.maxConn
    ensures FreeSlot(Table(cfg, used)) == |used| && Table(cfg, used)[|used|] == EMPTY_SLOT
    ensures Table(cfg, used)[|used| := c] == Table(cfg, used + [c])
  {
    var slots := Table(cfg, used);
    assert Fits(Free, slots[|used|]);
    assert forall j | 0 <= j < |used| :: !Fits(Free, slots[j]);
  }

  /** A connection takes the first slot after those in use. */
  lemma Connects(cfg: Config, base: set<int>, run: Run, st: State, fd: int, used: seq<Slot>)
    requires Replay(cfg, base, run) == Some(st) && 0 <= fd && fd !in st.open
    requires st.activeClients < cfg.maxConn - 1 && |used| < cfg.maxConn
    requires st.slots == Table(cfg, used) && AllActive(used)
    ensures var st' := Step(cfg, st, Accepted(fd, HOME, true));
            && Replay(cfg, base, Then(run, Accepted(fd, HOME, true))) == Some(st')
            && st'.slots == Table(cfg, used + [Connected(fd)])
            && st'.activeClients == st.activeClients + 1 && st'.open == st.open + {fd}
  {
    hide First, Table, AllActive;
    FreeAfter(cfg, used, Connected(fd));
  }

  lemma Sends(cfg: Config, run: Run, st: State, fd: int, data: Bytes, i: nat)
    requires Replay(cfg, BASE, run) == Some(st) && 0 < |data| <= BUFF_SIZE
    requires i < |st.slots| && st.slots[i].active && st.slots[i].sock == fd
    requires forall j | 0 <= j < i :: st.slots[j].active ==> st.slots[j].sock != fd
    ensures FindClient(st.slots, fd) == i
    ensures Replay(cfg, BASE, Then(run, Message(fd, data)))
            == Some(st.(slots := AfterMessage(cfg, st.slots, i, data, 10)))
  {
    assert FindClient(st.slots, fd) == i;
  }

  lemma Joins(cfg: Config, slots: seq<Slot>, i: nat, id: u32)
    requires i < |slots| && slots[0].active && slots[0].id != id
    requires cfg.fixes.joinScansAll ==> forall j | 0 <= j < |slots| && slots[j].active :: slots[j].id != id
    ensures AfterMessage(cfg, slots, i, JoinRequest(id), 10) == slots[i := slots[i].(id := id, kind := Joined)]
  {
    assert FirstActive(slots) == 0;
  }

  const THREE: Run := Then(Then(Then(Start, Accepted(4, HOME, true)), Accepted(5, HOME, true)), Accepted(6, HOME, true))

  lemma InitTable(cfg: Config, base: set<int>)
    ensures Init(cfg, base).slots == Table(cfg, [])
  {
  }

  lemma ThreeConnected(cfg: Config)
    requires cfg.maxConn >= 4 && cfg.listenSock == 3
    ensures var r := Replay(cfg, BASE, THREE);
            r.Some? && r.value.slots == Table(cfg, [Connected(4), Connected(5), Connected(6)])
  {
    hide First, Table, Step;
    InitTable(cfg, BASE);
    var s0 := Init(cfg, BASE);
    var run1 := Then(Start, Accepted(4, HOME, true));
    Connects(cfg, BASE, Start, s0, 4, []);
    var s1 := Step(cfg, s0, Accepted(4, HOME, true));
    assert [] + [Connected(4)] == [Connected(4)];
    Connects(cfg, BASE, run1, s1, 5, [Connected(4)]);
    var s2 := Step(cfg, s1, Accepted(5, HOME, true));
    assert [Connected(4)] + [Connected(5)] == [Connected(4), Connected(5)];
    Connects(cfg, BASE, Then(run1, Accepted(5, HOME, true)), s2, 6, [Connected(4), Connected(5)]);
    assert [Connected(4), Connected(5)] + [Connected(6)] == [Connected(4), Connected(5), Connected(6)];
  }

  function TwoJoined(): Run {
    Then(Then(THREE, Message(4, JoinRequest(5))), Message(5, JoinRequest(7)))
  }

  const FIVE := Connected(4).(id := 5, kind := Joined)
  const SEVEN := Connected(5).(id := 7, kind := Joined)

  lemma TwoJoinedState(cfg: Config)
    requires cfg.maxConn >= 4 && cfg.listenSock == 3
    ensures var r := Replay(cfg, BASE, TwoJoined());
            r.Some? && r.value.slots == Table(cfg, [FIVE, SEVEN, Connected(6)])
  {
    hide AfterMessage, First, JoinRequest;
    ThreeConnected(cfg);
    var st := Replay(cfg, BASE, THREE).value;
    Sends(cfg, THREE, st, 4, JoinRequest(5), 0);
    Joins(cfg, st.slots, 0, 5);
    var st' := st.(slots := AfterMessage(cfg, st.slots, 0, JoinRequest(5), 10));
    Sends(cfg, Then(THREE, Message(4, JoinRequest(5))), st', 5, JoinRequest(7), 1);
    Joins(cfg, st'.slots, 1, 7);
  }

  /** With the scan that stops at the first active slot, a run ends with two
      joined clients of the same id. */
  lemma FirstSlotJoinDuplicates(cfg: Config)
    requires cfg.maxConn >= 4 && cfg.listenSock == 3 && !cfg.fixes.joinScansAll
    ensures var r := Replay(cfg, BASE, Then(TwoJoined(), Message(6, JoinRequest(7))));
            r.Some? && !DistinctIds(r.value.slots)
  {
    TwoJoinedState(cfg);
    var st := Replay(cfg, BASE, TwoJoined()).value;
    Sends(cfg, TwoJoined(), st, 6, JoinRequest(7), 2);
    Joins(cfg, st.slots, 2, 7);
    var after := AfterMessage(cfg, st.slots, 2, JoinRequest(7), 10);
    assert after[1].id == after[2].id == 7;
  }

  /** As written, a run in which one SEARCH without a name is answered twice. */
  lemma EmptySearchIsAnsweredTwice(cfg: Config)
    requires cfg.maxConn >= 4 && cfg.listenSock == 3 && !cfg.fixes.oneReply
    ensures var run := Then(TwoJoined(), Message(4, [SEARCH]));
            Replay(cfg, BASE, run).Some? && |Outbox(cfg, BASE, run, 4)| == |Outbox(cfg, BASE, TwoJoined(), 4)| + 20
  {
    hide TwoJoined, AfterMessage, Replies;
    TwoJoinedState(cfg);
    var st := Replay(cfg, BASE, TwoJoined()).value;
    var e := Message(4, [SEARCH]);
    Sends(cfg, TwoJoined(), st, 4, [SEARCH], 0);
    OutboxReceived(cfg, BASE, TwoJoined(), e);
    EmptyRequest(cfg.fixes, st.slots, 0, e.data, e.stale);
  }

  lemma EmptyRequest(fixes: Fixes, slots: seq<Slot>, i: nat, data: Bytes, stale: Bytes)
    requires i < |slots| && slots[i].kind != Unknown && data == [SEARCH] && !fixes.oneReply
    ensures |Replies(fixes, slots, i, data, stale)| == 20
  {
    assert data[1..] == [];
    ZeroRepliesLength(1);
  }

  /** With error replies that do not end the request, a run in which the name of a
      SEARCH has no NUL in the whole receive buffer. */
  lemma QueryWithoutNul(cfg: Config)
    requires cfg.maxConn >= 4 && cfg.listenSock == 3 && !cfg.fixes.oneReply
    ensures var st := Replay(cfg, BASE, TwoJoined());
            var data: Bytes, stale: Bytes := [SEARCH, 97], seq(BUFF_SIZE - 2, _ => 97);
            && st.Some? && FindClient(st.value.slots, 4) < |st.value.slots|
            && Replay(cfg, BASE, Then(TwoJoined(), Received(4, data, stale, 10))).Some?
            && Looked(cfg.fixes, st.value.slots[FindClient(st.value.slots, 4)], data) && !NulInside((data + stale)[1..])
  {
    hide TwoJoined, AfterMessage, First, Table;
    TwoJoinedState(cfg);
    var st := Replay(cfg, BASE, TwoJoined()).value;
    var data: Bytes, stale: Bytes := [SEARCH, 97], seq(BUFF_SIZE - 2, _ => 97);
    FourIsFirst(cfg);
    assert Legal(cfg, st, Received(4, data, stale, 10));
    NulInsideExactly((data + stale)[1..]);
  }

  lemma FourIsFirst(cfg: Config)
    requires cfg.maxConn >= 4
    ensures var slots := Table(cfg, [FIVE, SEVEN, Connected(6)]);
            |slots| == cfg.maxConn && FindClient(slots, 4) == 0 && slots[0] == FIVE
  {
  }

  const A: Bytes := [97]
  const AB: Bytes := [97, 98]

  function PublishOne(name: Bytes): (data: Bytes)
    ensures |data| == |name| + 6
  {
    EncodedOne(name);
    Publish.Message([name])
  }

  lemma EncodedOne(name: Bytes)
    ensures EncodeNames([name]) == name + [0]
  {
    assert EncodeNames([]) == [];
    assert name + [0] + [] == name + [0];
  }

  lemma Publishes(cfg: Config, slots: seq<Slot>, i: nat, name: Bytes)
    requires i < |slots| && slots[i].kind != Unknown && cfg.maxFiles >= 1
    requires Storable(name) && |name| <= 100
    ensures AfterMessage(cfg, slots, i, PublishOne(name), 10) == slots[i := slots[i].(names := [name])]
  {
    hide AfterMessage;
    PackedListStored(cfg, slots, i, [name], 10);
  }

  function BothPublished(): Run {
    Then(Then(TwoJoined(), Message(4, PublishOne(A))), Message(5, PublishOne(AB)))
  }

  lemma BothPublishedState(cfg: Config)
    requires cfg.maxConn >= 4 && cfg.maxFiles >= 1 && cfg.listenSock == 3
    ensures var r := Replay(cfg, BASE, BothPublished());
            r.Some? && r.value.slots == Table(cfg, [FIVE.(names := [A]), SEVEN.(names := [AB]), Connected(6)])
  {
    hide AfterMessage, PublishOne;
    TwoJoinedState(cfg);
    var st := Replay(cfg, BASE, TwoJoined()).value;
    Sends(cfg, TwoJoined(), st, 4, PublishOne(A), 0);
    Publishes(cfg, st.slots, 0, A);
    var st' := st.(slots := AfterMessage(cfg, st.slots, 0, PublishOne(A), 10));
    Sends(cfg, Then(TwoJoined(), Message(4, PublishOne(A))), st', 5, PublishOne(AB), 1);
    Publishes(cfg, st'.slots, 1, AB);
  }

  /** Under any repairs, a run in which "a" is published before "ab" by another
      client, and a search for "ab" is answered with the client that has "a". */
  lemma PrefixAnswersForLongerName(cfg: Config)
    requires cfg.maxConn >= 4 && cfg.maxFiles >= 1 && cfg.listenSock == 3
    ensures var r := Replay(cfg, BASE, BothPublished());
            && r.Some? && |r.value.slots| == cfg.maxConn
            && r.value.slots[0].names == [A] && r.value.slots[1].names == [AB]
            && ExactOwner(r.value.slots, AB) == 1
            && Answer(r.value.slots, AB) == [0, 0, 0, 5, 127, 0, 0, 1, 0, 80] && r.value.slots[1].id == 7
  {
    hide Replay;
    BothPublishedState(cfg);
    var slots := Replay(cfg, BASE, BothPublished()).value.slots;
    PrefixFirst(slots, A, AB);
    assert Answer(slots, AB) == ToBE32(5) + HOME.ip + HOME.port;
  }

  lemma PrefixFirst(slots: seq<Slot>, name: Bytes, longer: Bytes)
    requires |slots| >= 2 && name < longer
    requires slots[0].active && slots[0].names == [name] && slots[1].active && slots[1].names == [longer]
    ensures Owner(slots, longer) == 0 && ExactOwner(slots, longer) == 1
  {
    assert slots[0].names[0] <= longer;
    assert slots[1].names[0] == longer;
  }

  // --------------------------------------------------- the slot that is not reset

  const ONE_JOINED: Run := Then(Then(Start, Accepted(4, HOME, true)), Message(4, JoinRequest(5)))
  const REUSED: Run := Then(Then(ONE_JOINED, Closed(4, true)), Accepted(4, HOME, true))

  lemma OneJoined(cfg: Config)
    requires cfg.maxConn >= 2 && cfg.listenSock == 3
    ensures var r := Replay(cfg, BASE, ONE_JOINED);
            r.Some? && r.value.slots == Table(cfg, [FIVE]) && r.value.activeClients == 1
  {
    hide AfterMessage;
    var s0 := Init(cfg, BASE);
    InitTable(cfg, BASE);
    Connects(cfg, BASE, Start, s0, 4, []);
    var s1 := Step(cfg, s0, Accepted(4, HOME, true));
    assert s1.slots == Table(cfg, [Connected(4)]);
    Sends(cfg, Then(Start, Accepted(4, HOME, true)), s1, 4, JoinRequest(5), 0);
    Joins(cfg, s1.slots, 0, 5);
  }

  lemma FirstOf(cfg: Config, c: Slot)
    requires cfg.maxConn > 0
    ensures Table(cfg, [c])[0] == c && |Table(cfg, [c])| == cfg.maxConn
    ensures forall d :: Table(cfg, [c])[0 := d] == Table(cfg, [d])
    ensures c.active ==> FindClient(Table(cfg, [c]), c.sock) == 0
    ensures !c.active ==> FreeSlot(Table(cfg, [c])) == 0
  {
    assert forall d :: Table(cfg, [c])[0 := d] == Table(cfg, [d]);
  }

  /** Without the reset, whoever reuses the slot of a joined client counts as
      joined: the history knows no JOIN of the second connection, the table does. */
  lemma ReusedSlotIsJoined(cfg: Config)
    requires cfg.maxConn >= 2 && cfg.listenSock == 3 && !cfg.fixes.clearResetsKind
    ensures var r := Replay(cfg, BASE, REUSED);
            r.Some? && r.value.slots == Table(cfg, [Connected(4).(kind := Joined)]) && !JoinedOf(cfg, REUSED, 4)
  {
    OneJoined(cfg);
    hide First, Table, ONE_JOINED;
    var left := EMPTY_SLOT.(addr := HOME, kind := Joined);
    FirstOf(cfg, FIVE);
    FirstOf(cfg, left);
    var s2 := Replay(cfg, BASE, ONE_JOINED).value;
    var s3 := Step(cfg, s2, Closed(4, true));
    assert s3.slots == Table(cfg, [left]);
    assert Step(cfg, s3, Accepted(4, HOME, true)).slots == Table(cfg, [Connected(4).(kind := Joined)]);
  }

  // ------------------------------------------------------- the refused connection

  /** Connections one after the other. */
  function Filling(cfg: Config, n: nat): Run {
    if n == 0 then Start else Then(Filling(cfg, n - 1), Accepted(cfg.listenSock + n, HOME, true))
  }

  function Filled(cfg: Config, n: nat): (used: seq<Slot>)
    ensures |used| == n
  {
    if n == 0 then [] else Filled(cfg, n - 1) + [Connected(cfg.listenSock + n)]
  }

  lemma {:induction false} FilledNext(cfg: Config, n: nat)
    ensures AllActive(Filled(cfg, n)) && (n == 0 ==> Filled(cfg, n) == [])
    ensures n > 0 ==> Filled(cfg, n) == Filled(cfg, n - 1) + [Connected(cfg.listenSock + n)]
    ensures n > 0 ==> AllActive(Filled(cfg, n - 1))
  {
    if n > 0 {
      FilledNext(cfg, n - 1);
    }
  }

  lemma {:induction false} FillingState(cfg: Config, base: set<int>, n: nat)
    requires ValidConfig(cfg) && ValidBase(cfg, base) && n < cfg.maxConn
    requires forall fd | fd in base :: fd <= cfg.listenSock
    ensures var r := Replay(cfg, base, Filling(cfg, n));
            && r.Some? && r.value.slots == Table(cfg, Filled(cfg, n)) && r.value.activeClients == n
            && forall fd | fd in r.value.open :: fd <= cfg.listenSock + n
  {
    hide First, Table, Step, Legal, Filled;
    FilledNext(cfg, n);
    if n == 0 {
      InitTable(cfg, base);
    } else {
      FillingState(cfg, base, n - 1);
      var st := Replay(cfg, base, Filling(cfg, n - 1)).value;
      Connects(cfg, base, Filling(cfg, n - 1), st, cfg.listenSock + n, Filled(cfg, n - 1));
    }
  }

  /** As written, in a table of any size, the last connection that could still be
      numbered is refused, closed and registered: a closed descriptor is watched. */
  lemma RefusedSocketIsRegistered(cfg: Config, base: set<int>)
    requires ValidConfig(cfg) && ValidBase(cfg, base) && !cfg.fixes.acceptReturns
    requires forall fd | fd in base :: fd <= cfg.listenSock
    ensures var r := Replay(cfg, base, Filling(cfg, cfg.maxConn));
            var fd := cfg.listenSock + cfg.maxConn;
            && r.Some? && fd in r.value.socks && fd !in r.value.open && r.value.activeClients == cfg.maxConn
            && r.value.slots == Table(cfg, Filled(cfg, cfg.maxConn))
            && RefusedSince(cfg, base, Start, Filling(cfg, cfg.maxConn))
  {
    hide First, Table, Filled;
    var n := cfg.maxConn - 1;
    FillingState(cfg, base, n);
    FilledNext(cfg, cfg.maxConn);
    FreeAfter(cfg, Filled(cfg, n), Connected(cfg.listenSock + cfg.maxConn));
  }
}
