/**
  SEARCH: what is answered, to whom, and how many bytes. Answers are compared
  with a brute-force reading of the table and with the message history.
 */
module RegistrySearch {
  import opened Bytes
  import opened Wire
  import opened RegistryModel
  import opened RegistryInvariants
  import opened RegistryHistory

  // ------------------------------------------------------------ brute force

  /** C-string prefix, character by character. */
  ghost predicate PrefixOf(name: Bytes, query: Bytes) {
    |name| <= |query| && forall k | 0 <= k < |name| :: name[k] == query[k]
  }

  ghost predicate Holds(names: seq<Bytes>, query: Bytes) {
    exists n :: n in names && PrefixOf(n, query)
  }

  ghost predicate AllZero(r: Bytes) {
    forall k | 0 <= k < |r| :: r[k] == 0
  }

  /** Ten bytes: the id, most significant first, then address and port as they
      are; or ten zeros when the address is not IPv4. */
  ghost predicate Tells(r: Bytes, id: u32, addr: Addr) {
    && |r| == 10
    && if addr.IPv4? then
         && r[0] as int * 0x100_0000 + r[1] as int * 0x1_0000 + r[2] as int * 0x100 + r[3] as int == id
         && r[4..8] == addr.ip && r[8..10] == addr.port
       else AllZero(r)
  }

  lemma AnswerTells(slots: seq<Slot>, query: Bytes)
    ensures var i := Owner(slots, query);
            if i < |slots| then Tells(Answer(slots, query), slots[i].id, slots[i].addr)
            else |Answer(slots, query)| == 10 && AllZero(Answer(slots, query))
  {
    var i := Owner(slots, query);
    if i < |slots| && slots[i].addr.IPv4? {
      var r := Answer(slots, query);
      BE32RoundTrip(slots[i].id);
      assert r[..4] == ToBE32(slots[i].id);
      assert r[4..8] == slots[i].addr.ip && r[8..10] == slots[i].addr.port;
    }
  }

  /** Nothing else tells that. */
  lemma TellsUnique(a: Bytes, b: Bytes, id: u32, addr: Addr)
    requires Tells(a, id, addr) && Tells(b, id, addr)
    ensures a == b
  {
    if addr.IPv4? {
      OctetsUnique(a[0], a[1], a[2], a[3], b[0], b[1], b[2], b[3]);
      assert a == [a[0], a[1], a[2], a[3]] + a[4..8] + a[8..10];
      assert b == [b[0], b[1], b[2], b[3]] + b[4..8] + b[8..10];
    }
  }

  lemma HitIsHolds(c: Slot, query: Bytes)
    ensures Hit(c, query) <==> c.active && Holds(c.names, query)
  {
    if c.active && Holds(c.names, query) {
      var n :| n in c.names && PrefixOf(n, query);
      assert n <= query;
    }
    if Hit(c, query) {
      var k :| 0 <= k < |c.names| && c.names[k] <= query;
      assert PrefixOf(c.names[k], query);
    }
  }

  /** `r` is the reply for the lowest active slot that holds a prefix of the
      query, all zero when there is none or it is not reachable over IPv4. */
  ghost predicate BruteForce(slots: seq<Slot>, query: Bytes, r: Bytes) {
    || (exists i: nat | i < |slots| ::
          && slots[i].active && Holds(slots[i].names, query) && Tells(r, slots[i].id, slots[i].addr)
          && forall j | 0 <= j < i :: slots[j].active ==> !Holds(slots[j].names, query))
    || (|r| == 10 && AllZero(r) && forall j | 0 <= j < |slots| :: slots[j].active ==> !Holds(slots[j].names, query))
  }

  lemma AnswerIsBruteForce(slots: seq<Slot>, query: Bytes, r: Bytes)
    ensures r == Answer(slots, query) <==> BruteForce(slots, query, r)
  {
    hide First, Hit, Holds, Answer, Tells;
    var i, a := Owner(slots, query), Answer(slots, query);
    FirstIsLowest(slots, Holding(query));
    AnswerTells(slots, query);
    forall j | 0 <= j < |slots|
      ensures Fits(Holding(query), slots[j]) <==> slots[j].active && Holds(slots[j].names, query)
    {
      HitIsHolds(slots[j], query);
    }
    if BruteForce(slots, query, r) {
      if i < |slots| {
        assert Tells(r, slots[i].id, slots[i].addr);
        TellsUnique(r, a, slots[i].id, slots[i].addr);
      } else {
        assert r == a;
      }
    }
  }

  // ---------------------------------------------------------------- history

  /** A live connection whose latest PUBLISH, of those the registry took, holds a
      prefix of the query. */
  ghost predicate Offers(cfg: Config, base: set<int>, run: Run, fd: int, query: Bytes)
    requires Replay(cfg, base, run).Some?
  {
    fd in Live(cfg, run) && Holds(TakenNames(cfg, base, run, fd), query)
  }

  /** Over every run, under any repairs, until a refused connection is registered:
      the answer is the id and address of a live connection whose latest list
      holds the query, the one in the lowest slot, and all zero when there is none
      or it is not IPv4. What departed connections or superseded lists held never
      answers. */
  lemma SearchAgreesWithTaken(cfg: Config, base: set<int>, run: Run, query: Bytes)
    requires ValidConfig(cfg) && ValidBase(cfg, base) && Replay(cfg, base, run).Some?
    requires !RefusedSince(cfg, base, Start, run)
    ensures var slots := Replay(cfg, base, run).value.slots;
            var i := Owner(slots, query);
            if i < |slots| then
              && Offers(cfg, base, run, slots[i].sock, query)
              && Tells(Answer(slots, query), TakenId(cfg, base, run, slots[i].sock), AddrOf(run, slots[i].sock))
              && (forall j | 0 <= j < i && slots[j].active :: !Offers(cfg, base, run, slots[j].sock, query))
            else
              AllZero(Answer(slots, query)) && forall fd :: !Offers(cfg, base, run, fd, query)
  {
    hide First, Answer, Tells, AllZero;
    var slots := Replay(cfg, base, run).value.slots;
    TakenThroughout(cfg, base, run);
    forall i | 0 <= i < |slots|
      ensures Fits(Holding(query), slots[i]) <==> slots[i].active && Offers(cfg, base, run, slots[i].sock, query)
    {
      HitIsHolds(slots[i], query);
      if slots[i].active {
        assert HoldsTaken(cfg, base, run, slots[i]);
      }
    }
    FirstIsLowest(slots, Holding(query));
    AnswerTells(slots, query);
    if Owner(slots, query) < |slots| {
      assert HoldsTaken(cfg, base, run, slots[Owner(slots, query)]);
    } else {
      forall fd
        ensures !Offers(cfg, base, run, fd, query)
      {
        if fd in Live(cfg, run) {
          FirstFits(slots, OnSocket(fd));
          assert slots[FindClient(slots, fd)].active;
        }
      }
    }
  }

  lemma FirstIsLowest(slots: seq<Slot>, want: Want)
    ensures var i := First(slots, want);
            i <= |slots| && (i < |slots| ==> Fits(want, slots[i])) && forall j | 0 <= j < i :: !Fits(want, slots[j])
  {
  }

  /** A live connection whose latest PUBLISH in its history holds a prefix. */
  ghost predicate Serves(cfg: Config, run: Run, fd: int, query: Bytes) {
    fd in Live(cfg, run) && Holds(NamesOf(cfg, run, fd), query)
  }

  /** Over a clean run, what the registry took is what the history alone accepts. */
  lemma TakenIsHistory(cfg: Config, base: set<int>, run: Run, fd: int)
    requires ValidConfig(cfg) && ValidBase(cfg, base) && Replay(cfg, base, run).Some?
    requires AllClean(cfg, base, run) && fd in Live(cfg, run)
    ensures TakenNames(cfg, base, run, fd) == NamesOf(cfg, run, fd)
    ensures TakenId(cfg, base, run, fd) == IdOf(cfg, run, fd)
  {
    hide First;
    var slots := Replay(cfg, base, run).value.slots;
    CleanRefusesNone(cfg, base, run);
    TakenThroughout(cfg, base, run);
    SlotsRefineHistory(cfg, base, run);
    FirstFits(slots, OnSocket(fd));
    var c := slots[FindClient(slots, fd)];
    assert HoldsTaken(cfg, base, run, c) && Describes(cfg, run, c);
  }

  /** Over every clean run, the answer is therefore decided by the history alone:
      the id and address of a connection that is live and whose latest list holds
      the query, the one in the lowest slot; it is all zero exactly when no such
      connection exists or it is not IPv4. */
  lemma SearchAgreesWithHistory(cfg: Config, base: set<int>, run: Run, query: Bytes)
    requires ValidConfig(cfg) && ValidBase(cfg, base) && Replay(cfg, base, run).Some?
    requires Repaired(cfg.fixes) || AllClean(cfg, base, run)
    ensures var slots := Replay(cfg, base, run).value.slots;
            var i := Owner(slots, query);
            if i < |slots| then
              && Serves(cfg, run, slots[i].sock, query)
              && Tells(Answer(slots, query), IdOf(cfg, run, slots[i].sock), AddrOf(run, slots[i].sock))
              && (forall j | 0 <= j < i && slots[j].active :: !Serves(cfg, run, slots[j].sock, query))
            else
              AllZero(Answer(slots, query)) && forall fd :: !Serves(cfg, run, fd, query)
  {
    hide First, Answer, Tells, AllZero, NamesOf, TakenNames, IdOf, TakenId;
    if Repaired(cfg.fixes) {
      RepairedIsClean(cfg, base, run);
    }
    CleanRefusesNone(cfg, base, run);
    SearchAgreesWithTaken(cfg, base, run, query);
    forall fd
      ensures Offers(cfg, base, run, fd, query) <==> Serves(cfg, run, fd, query)
      ensures fd in Live(cfg, run) ==> TakenId(cfg, base, run, fd) == IdOf(cfg, run, fd)
    {
      if fd in Live(cfg, run) {
        TakenIsHistory(cfg, base, run, fd);
      }
    }
  }

  // ------------------------------------------------------ prefix or equality

  ghost predicate HoldsProperPrefix(names: seq<Bytes>, query: Bytes) {
    exists n :: n in names && n != query && PrefixOf(n, query)
  }

  /** Without proper prefixes of the query in a list, matching is equality. */
  lemma MatchIsEquality(names: seq<Bytes>, query: Bytes)
    requires !HoldsProperPrefix(names, query)
    ensures Holds(names, query) <==> query in names
  {
    if query in names {
      assert PrefixOf(query, query);
    }
  }

  function ExactOwner(slots: seq<Slot>, query: Bytes): nat {
    First(slots, HoldingExactly(query))
  }

  /** The slot that answers is the first one to hold the very name exactly when
      no slot before that one holds a proper prefix of it. */
  lemma ExactOwnerExactly(slots: seq<Slot>, query: Bytes)
    ensures Owner(slots, query) == ExactOwner(slots, query)
            <==> forall j | 0 <= j < ExactOwner(slots, query) && slots[j].active ::
                   !HoldsProperPrefix(slots[j].names, query)
  {
    var x := ExactOwner(slots, query);
    forall j | 0 <= j < |slots| && slots[j].active
      ensures Hit(slots[j], query) <==> query in slots[j].names || HoldsProperPrefix(slots[j].names, query)
    {
      HitIsHolds(slots[j], query);
      if query in slots[j].names {
        assert PrefixOf(query, query);
      }
    }
    assert x < |slots| ==> Hit(slots[x], query);
    forall j | 0 <= j < x && slots[j].active
      ensures query !in slots[j].names
    {
    }
  }

  // -------------------------------------------------------- replies per message

  lemma {:induction false} ZeroRepliesLength(n: nat)
    ensures |ZeroReplies(n)| == 10 * n
  {
    if n > 0 {
      ZeroRepliesLength(n - 1);
    }
  }

  lemma {:induction false} ZeroRepliesPrefix(k: nat, n: nat, part: Bytes)
    requires k < n && part <= ZERO_REPLY
    ensures ZeroReplies(k) + part <= ZeroReplies(n)
    ensures ZeroReplies(k) + ZERO_REPLY == ZeroReplies(k + 1)
  {
    if k + 1 < n {
      ZeroRepliesPrefix(k, n - 1, part);
    }
  }

  lemma {:induction false} ZeroRepliesAreZero(n: nat)
    ensures |ZeroReplies(n)| == 10 * n && AllZero(ZeroReplies(n))
  {
    if n > 0 {
      ZeroRepliesAreZero(n - 1);
    }
  }

  /** What is counted are the positions of bytes that are not ASCII. */
  lemma {:induction false} CountNonAsciiIs(s: Bytes)
    ensures CountNonAscii(s) == |set k | 0 <= k < |s| && s[k] >= 128|
  {
    var bad := set k | 0 <= k < |s| && s[k] >= 128;
    if s == [] {
      assert bad == {};
    } else {
      var n := |s| - 1;
      CountNonAsciiIs(s[..n]);
      CountNonAsciiAppend(s[..n], [s[n]]);
      assert s == s[..n] + [s[n]];
      var before := set k | 0 <= k < |s[..n]| && s[..n][k] >= 128;
      assert bad == before + if s[n] >= 128 then {n} else {};
    }
  }

  lemma {:induction false} CountNonAsciiAppend(a: Bytes, b: Bytes)
    ensures CountNonAscii(a + b) == CountNonAscii(a) + CountNonAscii(b)
  {
    if a == [] {
      assert a + b == b;
    } else {
      CountNonAsciiAppend(a[1..], b);
      assert (a + b)[1..] == a[1..] + b;
    }
  }

  /** Counting over the first `k` bytes of a payload that starts at 1. */
  lemma CountNonAsciiUpTo(mem: Bytes, k: nat, len: nat)
    requires k < len && len < |mem|
    ensures CountNonAscii(mem[1..1 + k + 1]) == CountNonAscii(mem[1..1 + k]) + (if mem[1 + k] >= 128 then 1 else 0)
    ensures CountNonAscii(mem[1..1 + k + 1]) <= CountNonAscii(mem[1..1 + len])
  {
    assert mem[1..1 + k + 1] == mem[1..1 + k] + [mem[1 + k]];
    CountNonAsciiAppend(mem[1..1 + k], [mem[1 + k]]);
    assert mem[1..1 + len] == mem[1..1 + k + 1] + mem[1 + k + 1..1 + len];
    CountNonAsciiAppend(mem[1..1 + k + 1], mem[1 + k + 1..1 + len]);
  }

  lemma {:induction false} AsciiCounts(s: Bytes)
    ensures CountNonAscii(s) == 0 <==> Ascii(s)
  {
    if s != [] {
      AsciiCounts(s[1..]);
      assert s == [s[0]] + s[1..];
    }
  }

  /** The requests the registry answers at all. */
  predicate Answerable(c: Slot, data: Bytes) {
    c.kind != Unknown && data != [] && data[0] == SEARCH && |data| - 1 < SEARCH_LIMIT
  }

  /** One ten-byte reply per answerable request and none otherwise, exactly when
      the error reply returns or the request is well formed. */
  lemma OneReplyExactly(fixes: Fixes, slots: seq<Slot>, i: nat, data: Bytes, stale: Bytes)
    requires i < |slots| && data != []
    ensures |Replies(fixes, slots, i, data, stale)| == (if Answerable(slots[i], data) then 10 else 0)
            <==> (Answerable(slots[i], data) && (!Ascii(data[1..]) || data[|data| - 1] != 0)
                  ==> fixes.oneReply)
  {
    AsciiCounts(data[1..]);
    ZeroRepliesLength(CountNonAscii(data[1..]) + (if data[|data| - 1] != 0 then 1 else 0));
  }

  /** The request gets as far as printing its name and looking for it. */
  predicate Looked(fixes: Fixes, c: Slot, data: Bytes) {
    Answerable(c, data) && !(fixes.oneReply && (!Ascii(data[1..]) || data[|data| - 1] != 0))
  }

  /** Reading the name of a request stays inside the receive buffer exactly when
      errors end the request or the buffer has a NUL after the command. */
  lemma QueryStaysInsideExactly(fixes: Fixes, c: Slot, data: Bytes, stale: Bytes)
    requires Looked(fixes, c, data)
    ensures NulInside((data + stale)[1..]) <==> fixes.oneReply || 0 in data[1..] || 0 in stale
  {
    var mem := data[1..] + stale;
    assert (data + stale)[1..] == mem;
    NulInsideExactly(mem);
    if fixes.oneReply {
      assert data[1..][|data| - 2] == 0;
    }
  }

  function SearchRequest(name: Bytes): Bytes {
    [SEARCH] + name + [0]
  }

  /** A well-formed request gets the answer for its name, whatever the rest of
      the receive buffer holds and whether or not the deviation is repaired. */
  lemma SearchRequestAnswered(fixes: Fixes, slots: seq<Slot>, i: nat, name: Bytes, stale: Bytes)
    requires i < |slots| && slots[i].kind != Unknown && Storable(name)
    ensures Replies(fixes, slots, i, SearchRequest(name), stale)
            == if |name| <= 98 then Answer(slots, name) else []
  {
    var data := SearchRequest(name);
    assert data[1..] == name + [0];
    assert (data + stale)[1..] == name + [0] + stale;
    AsciiCounts(data[1..]);
    CStringTerminated(name, stale);
  }

  // ----------------------------------------------------------------- outbox

  /** Bytes sent to `fd` since it was accepted. */
  ghost function Outbox(cfg: Config, base: set<int>, run: Run, fd: int): Bytes
    requires Replay(cfg, base, run).Some?
  {
    match run
    case Start => []
    case Then(before, e) =>
      if e.fd != fd || e.Closed? then Outbox(cfg, base, before, fd)
      else if e.Accepted? then []
      else
        var slots := Replay(cfg, base, before).value.slots;
        Outbox(cfg, base, before, fd) + Replies(cfg.fixes, slots, FindClient(slots, fd), e.data, e.stale)
  }

  /** From `from` on, the connection sends the requests for `names`, one per
      receive, while any other connections do anything. */
  ghost predicate Session(from: Run, run: Run, fd: int, names: seq<Bytes>) {
    if run == from then names == []
    else
      && run.Then?
      && if run.e.fd != fd then Session(from, run.before, fd, names)
         else
           && run.e.Received? && names != []
           && Storable(names[|names| - 1]) && run.e.data == SearchRequest(names[|names| - 1])
           && Session(from, run.before, fd, names[..|names| - 1])
  }

  /** The answer to each request of the session, at the moment it arrives. */
  ghost function Answers(cfg: Config, base: set<int>, from: Run, run: Run, fd: int): (r: seq<Bytes>)
    requires Replay(cfg, base, run).Some?
    ensures forall k | 0 <= k < |r| :: |r[k]| == 10
  {
    if run == from || run.Start? then []
    else if run.e.fd != fd || !run.e.Received? then Answers(cfg, base, from, run.before, fd)
    else
      Answers(cfg, base, from, run.before, fd)
      + [Answer(Replay(cfg, base, run.before).value.slots, CString(run.e.data[1..]))]
  }

  /** The descriptor is open and its client has joined. */
  ghost predicate Ready(st: State, fd: int) {
    && fd in st.open
    && FindClient(st.slots, fd) < |st.slots|
    && st.slots[FindClient(st.slots, fd)].kind != Unknown
  }

  /** Neither its own messages nor the events of others change that, whatever is
      or is not repaired. */
  lemma ReadyKept(cfg: Config, st: State, e: Event, fd: int)
    requires Ready(st, fd) && Legal(cfg, st, e) && (e.fd != fd || e.Received?)
    ensures Ready(Step(cfg, st, e), fd)
  {
    hide First;
    var st' := Step(cfg, st, e);
    var i := if e.Accepted? then FreeSlot(st.slots) else FindClient(st.slots, e.fd);
    FirstFits(st.slots, if e.Accepted? then Free else OnSocket(e.fd));
    FirstFits(st.slots, OnSocket(fd));
    if i < |st.slots| {
      SameFirst(st.slots, fd, i, st'.slots[i]);
      assert st'.slots == st.slots[i := st'.slots[i]];
    } else {
      assert st'.slots == st.slots;
    }
  }

  lemma {:induction false} SessionStaysReady(cfg: Config, base: set<int>, from: Run, run: Run, fd: int, names: seq<Bytes>)
    requires Replay(cfg, base, from).Some? && Replay(cfg, base, run).Some?
    requires Session(from, run, fd, names) && Ready(Replay(cfg, base, from).value, fd)
    ensures Ready(Replay(cfg, base, run).value, fd)
  {
    if run != from {
      SessionStaysReady(cfg, base, from, run.before, fd, if run.e.fd != fd then names else names[..|names| - 1]);
      ReadyKept(cfg, Replay(cfg, base, run.before).value, run.e, fd);
    }
  }

  lemma OutboxOther(cfg: Config, base: set<int>, before: Run, e: Event, fd: int)
    requires Replay(cfg, base, Then(before, e)).Some?
    ensures e.fd != fd || e.Closed? ==> Outbox(cfg, base, Then(before, e), fd) == Outbox(cfg, base, before, fd)
    ensures e.fd == fd && e.Accepted? ==> Outbox(cfg, base, Then(before, e), fd) == []
  {
  }

  lemma OutboxReceived(cfg: Config, base: set<int>, before: Run, e: Event)
    requires Replay(cfg, base, Then(before, e)).Some? && e.Received?
    ensures var slots := Replay(cfg, base, before).value.slots;
            && FindClient(slots, e.fd) < |slots| && e.data != []
            && Outbox(cfg, base, Then(before, e), e.fd)
               == Outbox(cfg, base, before, e.fd)
                  + Replies(cfg.fixes, slots, FindClient(slots, e.fd), e.data, e.stale)
  {
  }

  lemma LastReply(cfg: Config, base: set<int>, run: Run, fd: int, name: Bytes)
    requires Replay(cfg, base, run).Some? && run.Then? && run.e.Received? && run.e.fd == fd
    requires Ready(Replay(cfg, base, run.before).value, fd) && Storable(name) && |name| <= 98
    requires run.e.data == SearchRequest(name)
    ensures Outbox(cfg, base, run, fd)
            == Outbox(cfg, base, run.before, fd) + Answer(Replay(cfg, base, run.before).value.slots, name)
    ensures CString(run.e.data[1..]) == name
  {
    OutboxReceived(cfg, base, run.before, run.e);
    var slots := Replay(cfg, base, run.before).value.slots;
    SearchRequestAnswered(cfg.fixes, slots, FindClient(slots, fd), name, run.e.stale);
    assert run.e.data[1..] == name + [0] + [];
    CStringTerminated(name, []);
  }

  lemma AppendReply(sent: Bytes, answers: seq<Bytes>, last: Bytes)
    ensures sent + Concat(answers) + last == sent + Concat(answers + [last])
  {
    ConcatAppend(answers, [last]);
    assert Concat([last]) == last + Concat([]);
  }

  /** Requests and replies stay in step: the registry sends exactly the answers
      to the session's requests, ten bytes each, in order, as written and under
      any repairs. */
  lemma {:induction false} RepliesInStep(
    cfg: Config, base: set<int>, from: Run, run: Run, fd: int, names: seq<Bytes>)
    requires Replay(cfg, base, run).Some? && Replay(cfg, base, from).Some?
    requires Session(from, run, fd, names) && Ready(Replay(cfg, base, from).value, fd)
    requires forall k | 0 <= k < |names| :: |names[k]| <= 98
    ensures var answers := Answers(cfg, base, from, run, fd);
            && |answers| == |names|
            && Outbox(cfg, base, run, fd) == Outbox(cfg, base, from, fd) + Concat(answers)
  {
    if run == from {
    } else if run.e.fd != fd {
      RepliesInStep(cfg, base, from, run.before, fd, names);
    } else {
      var n := |names| - 1;
      RepliesInStep(cfg, base, from, run.before, fd, names[..n]);
      SessionStaysReady(cfg, base, from, run.before, fd, names[..n]);
      LastReply(cfg, base, run, fd, names[n]);
      var last := Answer(Replay(cfg, base, run.before).value.slots, names[n]);
      AppendReply(Outbox(cfg, base, from, fd), Answers(cfg, base, from, run.before, fd), last);
    }
  }
}
