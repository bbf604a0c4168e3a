/**
  The registry as a state machine over the events its select loop handles.

  `Fixes` says which departures from the documented intent are repaired. With
  every flag off the machine does what the code does; each theorem names the
  repairs it needs.
 */
module RegistryModel {
  import opened Bytes
  import opened Wire

  datatype ClientState = Unknown | Joined | Registered

  type Quad = s: Bytes | |s| == 4 witness [0, 0, 0, 0]

  type Pair = s: Bytes | |s| == 2 witness [0, 0]

  /** A socket address, its fields in network order as the kernel stores them. */
  datatype Addr = OtherFamily | IPv4(ip: Quad, port: Pair)

  datatype Slot = Slot(
    active: bool, id: u32, kind: ClientState, sock: int, addr: Addr, names: seq<Bytes>)

  const EMPTY_SLOT := Slot(false, 0, Unknown, 0, OtherFamily, [])

  datatype Fixes = Fixes(
    acceptReturns: bool,    // a refused connection is not registered
    joinScansAll: bool,     // JOIN looks at every active slot, not only the first
    clearResetsKind: bool,  // a freed slot goes back to Unknown
    oneReply: bool)         // an error reply ends the request

  datatype Config = Config(maxConn: nat, maxFiles: nat, listenSock: int, fixes: Fixes)

  datatype State = State(
    slots: seq<Slot>, socks: set<int>, activeClients: int, maxSocket: int, open: set<int>)

  /** What the kernel reports. `closeWorks` of an accept is about the close of a
      refused connection, and true where there is none; `stale` is the rest of
      the receive buffer and `memory` the number of string allocations that
      succeed. */
  datatype Event =
    | Accepted(fd: int, addr: Addr, closeWorks: bool)
    | Received(fd: int, data: Bytes, stale: Bytes, memory: nat)
    | Closed(fd: int, closeWorks: bool)

  const BUFF_SIZE := 2048
  const SEARCH_LIMIT := 100
  const ZERO_REPLY: Bytes := [0, 0, 0, 0, 0, 0, 0, 0, 0, 0]

  predicate ValidConfig(cfg: Config) {
    cfg.maxConn >= 1 && cfg.listenSock >= 3
  }

  // --------------------------------------------------------------- scanning

  /** Some stored name is a prefix of the query. */
  predicate Hit(c: Slot, query: Bytes) {
    c.active && exists k | 0 <= k < |c.names| :: c.names[k] <= query
  }

  /** What a scan over the slots looks for. */
  datatype Want = Free | Busy | OnSocket(fd: int) | Holding(query: Bytes) | HoldingExactly(query: Bytes)

  predicate Fits(want: Want, c: Slot) {
    match want
    case Free => !c.active
    case Busy => c.active
    case OnSocket(fd) => c.active && c.sock == fd
    case Holding(query) => Hit(c, query)
    case HoldingExactly(query) => c.active && query in c.names
  }

  /** The lowest index that fits, or the length. */
  function First(slots: seq<Slot>, want: Want): (i: nat)
    ensures i <= |slots|
    ensures i < |slots| ==> Fits(want, slots[i])
    ensures forall j | 0 <= j < i :: !Fits(want, slots[j])
  {
    if slots == [] || Fits(want, slots[0]) then 0
    else
      var k := First(slots[1..], want);
      assert forall j | 1 <= j < k + 1 :: slots[j] == slots[1..][j - 1];
      k + 1
  }

  function FreeSlot(slots: seq<Slot>): nat {
    First(slots, Free)
  }

  function FirstActive(slots: seq<Slot>): nat {
    First(slots, Busy)
  }

  function FindClient(slots: seq<Slot>, fd: int): nat {
    First(slots, OnSocket(fd))
  }

  function Owner(slots: seq<Slot>, query: Bytes): nat {
    First(slots, Holding(query))
  }

  // ------------------------------------------------------------- operations

  function Register(st: State, fd: int, addr: Addr): State {
    var st := st.(socks := st.socks + {fd},
                  maxSocket := if fd > st.maxSocket then fd else st.maxSocket);
    var i := FreeSlot(st.slots);
    if i == |st.slots| then st
    else st.(slots := st.slots[i := st.slots[i].(active := true, sock := fd, addr := addr)],
             activeClients := st.activeClients + 1)
  }

  function Accept(cfg: Config, st: State, fd: int, addr: Addr, closeWorks: bool): State {
    if st.activeClients == cfg.maxConn - 1 then
      if !closeWorks then st.(open := st.open + {fd})
      else if cfg.fixes.acceptReturns then st
      else Register(st, fd, addr)
    else
      Register(st.(open := st.open + {fd}), fd, addr)
  }

  function ClearedSlot(fixes: Fixes, c: Slot): Slot {
    c.(active := false, id := 0, sock := 0, names := [],
       kind := if fixes.clearResetsKind then Unknown else c.kind)
  }

  function Disconnect(cfg: Config, st: State, i: nat, closeWorks: bool): State
    requires i < |st.slots|
  {
    var fd := st.slots[i].sock;
    State(st.slots[i := ClearedSlot(cfg.fixes, st.slots[i])],
          st.socks - {fd}, st.activeClients - 1, st.maxSocket,
          if closeWorks then st.open - {fd} else st.open)
  }

  predicate IsJoin(data: Bytes) {
    |data| == 5 && data[0] == JOIN
  }

  function JoinId(data: Bytes): u32
    requires IsJoin(data)
  {
    FromBE32(data[1..])
  }

  predicate JoinAccepted(fixes: Fixes, slots: seq<Slot>, id: u32) {
    if fixes.joinScansAll then
      forall j | 0 <= j < |slots| :: slots[j].active ==> slots[j].id != id
    else
      var j := FirstActive(slots);
      j < |slots| && slots[j].id != id
  }

  /** The list a PUBLISH from a joined client stores, if it is accepted. */
  function Published(cfg: Config, data: Bytes, memory: nat): Option<seq<Bytes>> {
    if data == [] || data[0] != PUBLISH then None
    else
      match ParsePublish(data[1..], cfg.maxFiles)
      case None => None
      case Some(names) => if |names| <= memory then Some(names) else None
  }

  function AfterMessage(cfg: Config, slots: seq<Slot>, i: nat, data: Bytes, memory: nat): seq<Slot>
    requires i < |slots|
  {
    if IsJoin(data) then
      if JoinAccepted(cfg.fixes, slots, JoinId(data))
      then slots[i := slots[i].(id := JoinId(data), kind := Joined)]
      else slots
    else if slots[i].kind != Unknown && Published(cfg, data, memory).Some? then
      slots[i := slots[i].(names := Published(cfg, data, memory).value)]
    else
      slots
  }

  predicate Legal(cfg: Config, st: State, e: Event) {
    match e
    case Accepted(fd, _, closeWorks) =>
      fd >= 0 && fd !in st.open && (closeWorks || st.activeClients == cfg.maxConn - 1)
    case Received(fd, data, stale, _) =>
      FindClient(st.slots, fd) < |st.slots| && data != [] && |data| + |stale| == BUFF_SIZE
    case Closed(fd, _) => FindClient(st.slots, fd) < |st.slots|
  }

  function Step(cfg: Config, st: State, e: Event): State
    requires Legal(cfg, st, e)
  {
    match e
    case Accepted(fd, addr, closeWorks) => Accept(cfg, st, fd, addr, closeWorks)
    case Received(fd, data, _, memory) =>
      st.(slots := AfterMessage(cfg, st.slots, FindClient(st.slots, fd), data, memory))
    case Closed(fd, closeWorks) => Disconnect(cfg, st, FindClient(st.slots, fd), closeWorks)
  }

  // ---------------------------------------------------------------- replies

  function Answer(slots: seq<Slot>, query: Bytes): (r: Bytes)
    ensures |r| == 10
  {
    var i := Owner(slots, query);
    if i < |slots| && slots[i].addr.IPv4?
    then ToBE32(slots[i].id) + slots[i].addr.ip + slots[i].addr.port
    else ZERO_REPLY
  }

  function CountNonAscii(s: Bytes): nat {
    if s == [] then 0 else (if s[0] >= 128 then 1 else 0) + CountNonAscii(s[1..])
  }

  function ZeroReplies(n: nat): Bytes {
    if n == 0 then [] else ZeroReplies(n - 1) + ZERO_REPLY
  }

  /** Bytes sent back for one message: only SEARCH from a joined client with a
      payload under the limit is answered. `data[|data| - 1]` is what the code
      reads as the last payload byte, even when the payload is empty. */
  function Replies(fixes: Fixes, slots: seq<Slot>, i: nat, data: Bytes, stale: Bytes): Bytes
    requires i < |slots| && data != []
  {
    if data[0] != SEARCH || slots[i].kind == Unknown || |data| - 1 >= SEARCH_LIMIT then
      []
    else if fixes.oneReply && (!Ascii(data[1..]) || data[|data| - 1] != 0) then
      ZERO_REPLY
    else
      ZeroReplies(CountNonAscii(data[1..]) + (if data[|data| - 1] != 0 then 1 else 0))
      + Answer(slots, CString((data + stale)[1..]))
  }

  // ------------------------------------------------------------------- runs

  function Init(cfg: Config, base: set<int>): State {
    State(seq(cfg.maxConn, _ => EMPTY_SLOT), {cfg.listenSock}, 0, cfg.listenSock, base)
  }

  ghost predicate ValidBase(cfg: Config, base: set<int>) {
    {0, 1, 2, cfg.listenSock} <= base
  }

  datatype Run = Start | Then(before: Run, e: Event) {
    function Length(): nat {
      if Start? then 0 else 1 + before.Length()
    }
  }

  /** The state after a run, None when the kernel could not have produced it. */
  function Replay(cfg: Config, base: set<int>, run: Run): Option<State> {
    match run
    case Start => Some(Init(cfg, base))
    case Then(before, e) =>
      match Replay(cfg, base, before)
      case None => None
      case Some(st) => if Legal(cfg, st, e) then Some(Step(cfg, st, e)) else None
  }
}
