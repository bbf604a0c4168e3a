/**
  The registry as its code runs it: a table of client records, a socket set and
  counters updated in place, published files in heap blocks, driven by a select
  loop. Each handler is proved against the state machine, and the ghost `run`
  records what the kernel reported, so every property of runs holds of the
  server whenever it waits.

  A pointer to an element of the client table is its index. Handlers receive
  the whole receive buffer; the payload starts at offset 1.
 */
module RegistryServer {
  import opened Bytes
  import opened Wire
  import opened CHeap
  import opened RegistryModel
  import opened RegistryInvariants
  import opened RegistryHistory
  import opened RegistryRounds
  import opened RegistryLog
  import opened RegistrySearch
  import opened RegistryMemory
  import opened Kernel

  // ------------------------------------------------------ facts for the loops

  function Prepend(done: seq<Bytes>, rest: Option<seq<Bytes>>): Option<seq<Bytes>> {
    match rest
    case None => None
    case Some(names) => Some(done + names)
  }

  lemma NullNotLive(blocks: Blocks, recs: seq<Rec>)
    requires HeapInv(blocks, recs)
    ensures NULL !in blocks
  {
  }

  ghost predicate AllShort(names: seq<Bytes>) {
    forall k | 0 <= k < |names| :: |names[k]| + 1 < PUBLISH_LIMIT
  }

  /** What a PUBLISH does to the table, in the terms of its parser. */
  lemma PublishEffect(cfg: Config, slots: seq<Slot>, i: nat, mem: Bytes, len: nat, memory: nat)
    requires i < |slots| && len < |mem| && mem[0] == PUBLISH
    ensures var after := AfterMessage(cfg, slots, i, mem[..1 + len], memory);
            if slots[i].kind == Unknown || !(4 <= len < PUBLISH_LIMIT) then after == slots
            else
              var n := FromBE32(mem[1..5]);
              var decoded := DecodeNames(n, mem[5..1 + len]);
              if n > cfg.maxFiles || decoded == None || n > memory then after == slots
              else after == slots[i := slots[i].(names := decoded.value)]
  {
    if 4 <= len < PUBLISH_LIMIT {
      var payload := mem[..1 + len][1..];
      assert payload[..4] == mem[1..5] && payload[4..] == mem[5..1 + len];
      var n := FromBE32(mem[1..5]);
      if DecodeNames(n, payload[4..]).Some? {
        DecodeSound(n, payload[4..]);
      }
    }
  }

  lemma PrependNothing(rest: Option<seq<Bytes>>)
    ensures Prepend([], rest) == rest
  {
    if rest.Some? {
      assert [] + rest.value == rest.value;
    }
  }

  lemma NoNames()
    ensures AllStorable([]) && AllShort([])
  {
  }

  lemma NamesGrow(names: seq<Bytes>, name: Bytes)
    requires AllStorable(names) && AllShort(names) && Storable(name) && |name| + 1 < PUBLISH_LIMIT
    ensures AllStorable(names + [name]) && AllShort(names + [name])
  {
  }

  lemma ReadDone(done: seq<Bytes>, s: Bytes)
    ensures Prepend(done, DecodeNames(0, s)) == Some(done)
  {
    assert done + [] == done;
  }

  /** One more string read from `mem[p..hi]`. */
  lemma ReadOn(mem: Bytes, p: nat, hi: nat, n: nat, done: seq<Bytes>)
    requires p <= hi <= |mem| && n > 0
    ensures var name := CString(mem[p..hi]);
            Prepend(done, DecodeNames(n, mem[p..hi]))
            == if |name| == hi - p || !Ascii(name) then None
               else Prepend(done + [name], DecodeNames(n - 1, mem[p + |name| + 1..hi]))
  {
    var s := mem[p..hi];
    var name := CString(s);
    if |name| < |s| && Ascii(name) {
      assert s[|name| + 1..] == mem[p + |name| + 1..hi];
      var rest := DecodeNames(n - 1, s[|name| + 1..]);
      if rest.Some? {
        assert done + ([name] + rest.value) == done + [name] + rest.value;
      }
    }
  }

  lemma AppendPart(out: Bytes, part: Bytes, whole: Bytes)
    requires part <= whole
    ensures out + part <= out + whole
  {
  }

  lemma NoErrorsYet(mem: Bytes, len: nat)
    requires 1 + len <= |mem|
    ensures CountNonAscii(mem[1..1]) == 0 <= CountNonAscii(mem[1..1 + len]) && ZeroReplies(0) == []
  {
  }

  lemma SentMore(sent: Bytes, buf: Bytes, n: nat, k: nat)
    requires n + k <= |buf|
    ensures sent + buf[..n] + buf[n..][..k] == sent + buf[..n + k]
  {
  }

  /** The replies of one SEARCH in terms of the receive buffer: zero replies for
      the errors found, then the answer. */
  lemma SearchReplies(fixes: Fixes, slots: seq<Slot>, i: nat, mem: Bytes, len: nat)
    requires i < |slots| && len < |mem| && mem[0] == SEARCH
    ensures var r := Replies(fixes, slots, i, mem[..1 + len], mem[1 + len..]);
            var bad := CountNonAscii(mem[1..1 + len]);
            if slots[i].kind == Unknown || len >= SEARCH_LIMIT then r == []
            else if fixes.oneReply && (bad > 0 || mem[len] != 0) then r == ZeroReplies(1)
            else r == ZeroReplies(bad + if mem[len] != 0 then 1 else 0) + Answer(slots, CString(mem[1..]))
  {
    assert mem[..1 + len][1..] == mem[1..1 + len];
    assert mem[..1 + len] + mem[1 + len..] == mem;
    AsciiCounts(mem[1..1 + len]);
    assert ZeroReplies(1) == ZeroReplies(0) + ZERO_REPLY;
  }

  lemma RunGuarantees(cfg: Config, base: set<int>, run: Run)
    requires ValidConfig(cfg) && ValidBase(cfg, base) && Replay(cfg, base, run).Some?
    ensures var st := Replay(cfg, base, run).value;
            && (!RefusedSince(cfg, base, Start, run) ==> SocketInv(cfg, st) && TableIsTaken(cfg, base, run))
            && (AllIdsClean(cfg, base, run) ==> DistinctIds(st.slots))
            && (AllClean(cfg, base, run) ==> Refines(cfg, run, st))
            && (Repaired(cfg.fixes) ==>
                  && AllClean(cfg, base, run) && AllIdsClean(cfg, base, run)
                  && !RefusedSince(cfg, base, Start, run) && BlankBeforeJoin(st.slots))
  {
    hide SocketInv, Refines, DistinctIds, TableIsTaken, Replay;
    if !RefusedSince(cfg, base, Start, run) {
      TakenThroughout(cfg, base, run);
    }
    IdsThroughoutExactly(cfg, base, run);
    SocketInvThroughoutExactly(cfg, base, run);
    RefinesThroughoutExactly(cfg, base, run);
    if Repaired(cfg.fixes) {
      RepairedIsClean(cfg, base, run);
      RepairedIdsClean(cfg, base, run);
      ReturningRefusesNone(cfg, base, Start, run);
      ReachableBlank(cfg, base, run);
    }
  }

  /** The sockets of the active clients from slot `k` on. */
  ghost function SocksFrom(slots: seq<Slot>, k: nat): seq<int>
    decreases |slots| - k
  {
    if k >= |slots| then []
    else (if slots[k].active then [slots[k].sock] else []) + SocksFrom(slots, k + 1)
  }

  /** These are the sockets of exactly the active clients, one for each. */
  lemma {:induction false} SocksFromAre(slots: seq<Slot>, k: nat)
    requires k <= |slots|
    ensures forall fd :: fd in SocksFrom(slots, k) <==> exists i :: k <= i < |slots| && slots[i].active && slots[i].sock == fd
    ensures |SocksFrom(slots, k)| == |set i | k <= i < |slots| && slots[i].active|
    decreases |slots| - k
  {
    var here := set i | k <= i < |slots| && slots[i].active;
    if k < |slots| {
      SocksFromAre(slots, k + 1);
      var later := set i | k + 1 <= i < |slots| && slots[i].active;
      assert here == later + if slots[k].active then {k} else {};
    } else {
      assert here == {};
    }
  }

  ghost predicate NoneCloses(calls: seq<Call>, fd: int) {
    CloseCall(fd, true) !in calls
  }

  lemma ClosedNext(calls: seq<Call>, c: Call)
    ensures forall fd :: NoneCloses(calls + [c], fd) <==> NoneCloses(calls, fd) && c != CloseCall(fd, true)
  {
  }

  class Server {
    const cfg: Config
    const kernel: Kernel
    const heap: Heap
    const clients: array<Rec>
    var activeClients: int
    var allSocks: set<int>
    var maxSocket: int
    ghost const base: set<int>
    ghost var run: Run

    /** The client table is sized, and heap blocks are conserved. */
    ghost predicate Valid()
      reads this, heap, clients
    {
      && ValidConfig(cfg)
      && clients.Length == cfg.maxConn
      && HeapInv(heap.blocks, clients[..])
    }

    ghost function Slots(): seq<Slot>
      requires Valid()
      reads this, heap, clients
    {
      SlotsOf(heap.blocks, clients[..])
    }

    ghost function View(): State
      requires Valid()
      reads this, heap, clients, kernel
    {
      State(Slots(), allSocks, activeClients, maxSocket, kernel.open)
    }

    /** The recorded run is exactly what the kernel has reported, up to the calls
        of an event that is still being handled; the state is the one the run
        leads to; and unless a send has failed, each connection was sent exactly
        its replies. */
    ghost predicate LoggedBut(pending: seq<Call>)
      reads this, heap, clients, kernel
    {
      && Valid() && ValidBase(cfg, base)
      && Replay(cfg, base, run) == Some(View())
      && Effective(kernel.log) == CallsOf(cfg, base, run) + pending
      && (!kernel.sendFailed ==> forall fd :: kernel.Sent(fd) == Outbox(cfg, base, run, fd))
    }

    ghost predicate Logged()
      reads this, heap, clients, kernel
    {
      LoggedBut([])
    }

    /** Between rounds: all that is watched is open unless a refused connection has
        been registered. */
    ghost predicate Settled()
      reads this, heap, clients, kernel
    {
      Logged() && (allSocks <= kernel.open <==> !RefusedSince(cfg, base, Start, run))
    }

    /** Setup: 50 connections, 10 files each, the listener already bound. */
    constructor (kernel: Kernel, listenSock: int, fixes: Fixes)
      requires listenSock >= 3 && {0, 1, 2, listenSock} <= kernel.open
      requires kernel.wire == map[] && kernel.log == []
      ensures Settled() && run == Start
      ensures cfg == Config(50, 10, listenSock, fixes) && this.kernel == kernel && base == kernel.open
      ensures fresh(heap) && fresh(clients)
    {
      var table := new Rec[50](_ => EMPTY_REC);
      this.cfg := Config(50, 10, listenSock, fixes);
      this.kernel := kernel;
      this.heap := new Heap();
      this.clients := table;
      this.activeClients := 0;
      this.allSocks := {listenSock};
      this.maxSocket := listenSock;
      this.base := kernel.open;
      this.run := Start;
      new;
      assert forall i | 0 <= i < 50 :: clients[i] == EMPTY_REC;
      assert forall i | 0 <= i < 50 :: Slots()[i] == EMPTY_SLOT;
      assert Slots() == Init(cfg, base).slots;
    }

    // ------------------------------------------------------------ client data

    method ClearClientFiles(c: nat)
      requires c < clients.Length && Owns(heap.blocks, clients[c])
      modifies heap, clients
      ensures heap.blocks == old(heap.blocks) - OwnedBy(old(heap.blocks), old(clients[c]))
      ensures clients[..] == old(clients[..])[c := old(clients[c]).(files := NULL)]
    {
      OwnedLive(heap.blocks, clients[c]);
      heap.FreeList(clients[c].files, clients[c].filesLen);
      clients[c] := clients[c].(files := NULL);
    }

    method ClearClient(c: nat)
      requires Valid() && c < clients.Length
      modifies heap, clients
      ensures Valid()
      ensures Slots() == old(Slots())[c := ClearedSlot(cfg.fixes, old(Slots())[c])]
    {
      ghost var b, recs := heap.blocks, clients[..];
      ClearClientFiles(c);
      // deviation: the source leaves `type` as it was, unless clearResetsKind
      var kind := if cfg.fixes.clearResetsKind then Unknown else clients[c].kind;
      clients[c] := clients[c].(active := false, id := 0, sock := 0, filesLen := 0, kind := kind);
      OwnedLive(b, recs[c]);
      assert clients[..] == recs[c := clients[c]];
      ReplaceOwned(b, heap.blocks, recs, c, clients[c]);
    }

    // ---------------------------------------------------------------- accept

    lemma NothingSent(before: Run, e: Event)
      requires Replay(cfg, base, Then(before, e)).Some? && !e.Received?
      requires forall fd :: kernel.Sent(fd) == if e.Accepted? && fd == e.fd then [] else Outbox(cfg, base, before, fd)
      ensures forall fd :: kernel.Sent(fd) == Outbox(cfg, base, Then(before, e), fd)
    {
      forall fd
        ensures kernel.Sent(fd) == Outbox(cfg, base, Then(before, e), fd)
      {
        OutboxOther(cfg, base, before, e, fd);
      }
    }

    method ServerAccept()
      requires Logged()
      modifies this, kernel, clients
      ensures Logged()
      ensures |kernel.log| > |old(kernel.log)| && kernel.log[..|old(kernel.log)|] == old(kernel.log)
      ensures var call := kernel.log[|old(kernel.log)|];
              && call.AcceptCall?
              && if call.fd == -1 then run == old(run)
                 else run.Then? && run.before == old(run) && run.e.Accepted?
                      && run.e.fd == call.fd && run.e.addr == call.addr
      ensures AcceptCount(kernel.log) == AcceptCount(old(kernel.log)) + 1
    {
      hide HeapInv, AcceptCount, RecvFds, CloseFds, Effective, Replay, CallsOf, Outbox, First, Accept, SlotsOf;
      ghost var st, log := View(), kernel.log;
      var clientSock, clientAddr := kernel.Accept();
      EffectiveNext(log, AcceptCall(clientSock, clientAddr));
      CountNext(log, AcceptCall(clientSock, clientAddr));
      if clientSock == -1 {
        return;
      }
      ghost var asked := kernel.log;
      ghost var closed := Admit(clientSock, clientAddr, st);
      ghost var e := Accepted(clientSock, clientAddr, closed);
      if st.activeClients == cfg.maxConn - 1 {
        EffectiveNext(asked, CloseCall(clientSock, closed));
        CountNext(asked, CloseCall(clientSock, closed));
      }
      run := Then(run, e);
      Recorded(run.before, st, e);
      if !kernel.sendFailed {
        NothingSent(run.before, e);
      }
    }

    /** The rest of server_accept, for a socket that accept returned in `st`. */
    method Admit(clientSock: int, clientAddr: Addr, ghost st: State) returns (ghost closed: bool)
      requires Valid() && View() == st.(open := st.open + {clientSock}) && clientSock !in st.open
      modifies this`allSocks, this`maxSocket, this`activeClients, kernel, clients
      ensures Valid() && View() == Accept(cfg, st, clientSock, clientAddr, closed)
      ensures kernel.wire == old(kernel.wire) && kernel.sendFailed == old(kernel.sendFailed)
      ensures if st.activeClients == cfg.maxConn - 1
              then kernel.log == old(kernel.log) + [CloseCall(clientSock, closed)]
              else closed && kernel.log == old(kernel.log)
    {
      hide HeapInv, First;
      closed := true;
      if activeClients == cfg.maxConn - 1 {
        var ok := kernel.Close(clientSock);
        closed := ok;
        // deviation: the source returns only when close fails, and otherwise
        // goes on to register the closed socket
        if !ok || cfg.fixes.acceptReturns {
          assert ok ==> kernel.open == st.open;
          return;
        }
        assert kernel.open == st.open;
      }
      AddClient(clientSock, clientAddr);
    }

    /** The calls of an event, once made, are those of the run with it. */
    lemma Recorded(before: Run, st: State, e: Event)
      requires Replay(cfg, base, before) == Some(st) && Legal(cfg, st, e)
      ensures Replay(cfg, base, Then(before, e)) == Some(Step(cfg, st, e))
      ensures CallsOf(cfg, base, Then(before, e)) == CallsOf(cfg, base, before) + EventCalls(cfg, st, e)
    {
    }

    method AddClient(sock: int, addr: Addr)
      requires Valid()
      modifies this`allSocks, this`maxSocket, this`activeClients, clients
      ensures Valid() && View() == Register(old(View()), sock, addr)
    {
      hide HeapInv;
      ghost var recs := clients[..];
      forall j | 0 <= j < clients.Length
        ensures Slots()[j].active == clients[j].active
      {
        SlotFields(heap.blocks, recs, j);
      }
      ghost var slots := Slots();
      allSocks := allSocks + {sock};
      if sock > maxSocket {
        maxSocket := sock;
      }
      var index := 0;
      while index < cfg.maxConn
        invariant index <= cfg.maxConn
        invariant forall j | 0 <= j < index :: clients[j].active
      {
        if !clients[index].active {
          clients[index] := clients[index].(active := true, sock := sock, addr := addr);
          activeClients := activeClients + 1;
          break;
        }
        index := index + 1;
      }
      if index < cfg.maxConn {
        assert clients[..] == recs[index := clients[index]];
        FieldsFrame(heap.blocks, recs, index, clients[index]);
        SlotFields(heap.blocks, recs, index);
        assert FreeSlot(slots) == index;
      }
    }

    // ------------------------------------------------------------------ join

    /** The scan of handle_join: does some client stand in the way of the id? */
    method IdRefused(receivedId: u32) returns (refused: bool)
      requires Valid() && FirstActive(Slots()) < clients.Length
      ensures refused <==> !JoinAccepted(cfg.fixes, Slots(), receivedId)
    {
      hide HeapInv;
      forall j | 0 <= j < clients.Length
        ensures Slots()[j].active == clients[j].active && Slots()[j].id == clients[j].id
      {
        SlotFields(heap.blocks, clients[..], j);
      }
      var index := 0;
      while index < cfg.maxConn
        invariant index <= cfg.maxConn
        invariant forall j | 0 <= j < index :: clients[j].active ==> cfg.fixes.joinScansAll && clients[j].id != receivedId
      {
        if clients[index].active {
          if clients[index].id == receivedId {
            return true;
          }
          // deviation: the source accepts after looking at one active slot
          if !cfg.fixes.joinScansAll {
            assert FirstActive(Slots()) == index;
            return false;
          }
        }
        index := index + 1;
      }
      return false;
    }

    method HandleJoin(client: nat, buffer: array<byte>, len: nat, ghost memory: nat)
      requires Valid() && client < clients.Length && clients[client].active
      requires len < buffer.Length && buffer[0] == JOIN
      modifies clients
      ensures Valid()
      ensures Slots() == AfterMessage(cfg, old(Slots()), client, buffer[..][..1 + len], memory)
    {
      hide HeapInv;
      ghost var recs, slots, data := clients[..], Slots(), buffer[..][..1 + len];
      SlotFields(heap.blocks, recs, client);
      if len != 4 {
        return;
      }
      var receivedId := FromBE32(buffer[1..5]);
      assert data[1..] == buffer[1..5];
      var refused := IdRefused(receivedId);
      if !refused {
        clients[client] := clients[client].(id := receivedId, kind := Joined);
        assert clients[..] == recs[client := clients[client]];
        FieldsFrame(heap.blocks, recs, client, clients[client]);
      }
    }

    // --------------------------------------------------------------- publish

    /** The inner loop of handle_publish: the length of the string at `p`. */
    method ScanString(buffer: array<byte>, p: nat, len: nat) returns (foundNull: bool, strLen: nat)
      requires p + len <= buffer.Length
      ensures var name := CString(buffer[..][p..p + len]);
              foundNull <==> |name| < len && Ascii(name)
      ensures foundNull ==> strLen < len && buffer[..][p..p + strLen] == CString(buffer[..][p..p + len])
    {
      foundNull := false;
      strLen := 0;
      ghost var s := buffer[..][p..p + len];
      while strLen < len
        invariant strLen <= len
        invariant forall k | 0 <= k < strLen :: 0 < s[k] < 128
      {
        if buffer[p + strLen] == 0 {
          foundNull := true;
          break;
        } else if buffer[p + strLen] >= 128 {
          break;
        }
        strLen := strLen + 1;
      }
      ghost var name := CString(s);
      assert forall k | 0 <= k < |name| :: name[k] == s[k];
      assert |name| >= strLen;
      if foundNull {
        CStringUnique(s, strLen);
        assert s[..strLen] == buffer[..][p..p + strLen];
      }
    }

    method HandlePublish(client: nat, buffer: array<byte>, len: nat, memory: nat)
      requires Valid() && client < clients.Length && clients[client].active
      requires len < buffer.Length && buffer[0] == PUBLISH
      modifies heap, clients
      ensures Valid()
      ensures Slots() == AfterMessage(cfg, old(Slots()), client, buffer[..][..1 + len], memory)
    {
      hide HeapInv, Building;
      ghost var mem, g, recs, slots := buffer[..], heap.blocks, clients[..], Slots();
      SlotFields(g, recs, client);
      PublishEffect(cfg, slots, client, mem, len, memory);
      if clients[client].kind == Unknown || len >= PUBLISH_LIMIT || len < 4 {
        return;
      }
      var filesLen := FromBE32(buffer[1..5]);
      if filesLen > cfg.maxFiles {
        return;
      }
      NullNotLive(g, recs);
      var cleanUp, taken, files, names, ptrs := ReadNames(buffer, len, filesLen, memory);
      assert buffer[..] == mem;
      if cleanUp {
        BuildingUndone(g, heap.blocks, files, filesLen, ptrs, names);
        heap.FreeList(files, taken);
        assert heap.blocks == g && clients[..] == recs;
      } else {
        AdoptFiles(client, filesLen, files, g, ptrs, names);
      }
    }

    /** The reading loop of handle_publish. It leaves the names read so far in a
        list under construction, and on success those are all of them. */
    method ReadNames(buffer: array<byte>, len0: nat, filesLen: nat, memory: nat)
      returns (cleanUp: bool, taken: nat, files: Ptr, ghost names: seq<Bytes>, ghost ptrs: seq<Ptr>)
      requires NULL !in heap.blocks
      requires 4 <= len0 < buffer.Length && len0 < PUBLISH_LIMIT
      modifies heap
      ensures Building(old(heap.blocks), heap.blocks, files, filesLen, ptrs, names) && |ptrs| == |names| == taken
      ensures AllStorable(names) && AllShort(names)
      ensures var decoded := DecodeNames(filesLen, buffer[..][5..1 + len0]);
              if cleanUp then decoded == None || filesLen > memory
              else taken == filesLen <= memory && decoded == Some(names)
    {
      hide Building, DecodeNames, Prepend, AllStorable, AllShort, NulFree, Ascii;
      NoNames();
      ghost var g, mem, hi := heap.blocks, buffer[..], 1 + len0;
      names, ptrs, cleanUp, taken := [], [], false, 0;
      var p: nat, len: nat := 5, len0 - 4;
      PrependNothing(DecodeNames(filesLen, mem[p..hi]));
      files := heap.Calloc(PtrList(seq(filesLen, _ => NULL)));
      BuildingStarts(g, files, filesLen, seq(filesLen, _ => NULL));
      var count := 0;
      while count < filesLen
        invariant !cleanUp && count == taken == |ptrs| == |names| <= filesLen && count <= memory
        invariant p + len == hi && len < PUBLISH_LIMIT && buffer[..] == mem
        invariant Building(g, heap.blocks, files, filesLen, ptrs, names)
        invariant AllStorable(names) && AllShort(names)
        invariant DecodeNames(filesLen, mem[5..hi]) == Prepend(names, DecodeNames(filesLen - count, mem[p..hi]))
      {
        var foundNull, strLen := ScanString(buffer, p, len);
        ReadOn(mem, p, hi, filesLen - count, names);
        if !foundNull || taken == memory {
          cleanUp := true;
          break;
        }
        ghost var name := mem[p..p + strLen];
        KeepString(files, taken, buffer[p..p + strLen], g, filesLen, ptrs, names);
        NamesGrow(names, name);
        ptrs := heap.blocks[files].items[..taken + 1];
        names := names + [name];
        taken := taken + 1;
        p := p + strLen + 1;
        len := len - (strLen + 1);
        count := count + 1;
      }
      ReadDone(names, mem[p..hi]);
    }

    /** Allocates a string, fills it and hangs it into the list. */
    method KeepString(files: Ptr, taken: nat, name: Bytes,
                      ghost g: Blocks, ghost n: nat, ghost ptrs: seq<Ptr>, ghost names: seq<Bytes>)
      requires Building(g, heap.blocks, files, n, ptrs, names) && |ptrs| == taken < n
      modifies heap
      ensures files in heap.blocks && heap.blocks[files].PtrList? && |heap.blocks[files].items| > taken
      ensures Building(g, heap.blocks, files, n, heap.blocks[files].items[..taken + 1], names + [name])
    {
      hide Building;
      ghost var b := heap.blocks;
      BuildingShape(g, b, files, n, ptrs, names);
      // deviation: the source allocates str_len bytes, leaving no room for the NUL
      var str := heap.Calloc(Text(seq(|name| + 1, _ => 0)));
      heap.Copy(str, name);
      assert heap.blocks[str] == Text(name + [0]);
      heap.Store(files, taken, str);
      BuildingGrows(g, b, files, n, ptrs, names, str, name, heap.blocks);
      BuildingShape(g, heap.blocks, files, n, ptrs + [str], names + [name]);
    }

    /** The list replaces the client's previous one, whose blocks are freed. */
    method AdoptFiles(client: nat, filesLen: nat, files: Ptr,
                      ghost g: Blocks, ghost ptrs: seq<Ptr>, ghost names: seq<Bytes>)
      requires client < clients.Length && clients[client].active && clients.Length == cfg.maxConn
      requires ValidConfig(cfg) && HeapInv(g, clients[..])
      requires Building(g, heap.blocks, files, filesLen, ptrs, names) && |names| == filesLen && AllStorable(names)
      requires AllShort(names)
      modifies heap, clients
      ensures Valid()
      ensures var slots := SlotsOf(g, old(clients[..]));
              Slots() == slots[client := slots[client].(names := names)]
    {
      ghost var recs, b := clients[..], heap.blocks;
      OwnedLive(g, recs[client]);
      OwnsFrame(g, b, recs[client]);
      ClearClientFiles(client);
      clients[client] := clients[client].(filesLen := filesLen, files := files);
      assert clients[..] == recs[client := clients[client]];
      BuildingAdopted(g, b, files, ptrs, names, recs, client, clients[client], heap.blocks);
    }

    // ---------------------------------------------------------------- search

    /** Does the client hold a name that is a prefix of the C string at offset 1
        of the buffer? Reads stay inside the strings and the buffer. */
    method SearchClientFiles(find: array<byte>, client: nat) returns (found: bool)
      requires Valid() && client < clients.Length && clients[client].active
      requires find.Length == BUFF_SIZE
      ensures found <==> Hit(Slots()[client], CString(find[..][1..]))
    {
      hide HeapInv;
      SlotFields(heap.blocks, clients[..], client);
      ghost var names := Slots()[client].names;
      var fileIndex := 0;
      while fileIndex < clients[client].filesLen
        invariant fileIndex <= clients[client].filesLen
        invariant forall k | 0 <= k < fileIndex :: !(names[k] <= CString(find[..][1..]))
      {
        var text := heap.blocks[heap.blocks[clients[client].files].items[fileIndex]].bytes;
        ghost var looked;
        found, looked := TextMatches(text, find);
        if found {
          assert names[fileIndex] <= CString(find[..][1..]);
          return;
        }
        fileIndex := fileIndex + 1;
      }
      return false;
    }

    /** The comparison loop of search_client_files. It looks at the first `looked`
        bytes of the stored text, and at its NUL exactly when it matches. */
    method TextMatches(text: Bytes, find: array<byte>) returns (matches: bool, ghost looked: nat)
      requires IsCText(text) && find.Length == BUFF_SIZE
      ensures matches <==> text[..|text| - 1] <= CString(find[..][1..])
      ensures 0 < looked <= |text| && (looked == |text| <==> matches)
    {
      ghost var mem, name := find[..][1..], text[..|text| - 1];
      ghost var query := CString(mem);
      var invalid, reachedEnd := false, false;
      var index := 0;
      looked := 1;
      while true
        invariant index <= |name| && index <= |query| && looked == index + 1
        invariant forall k | 0 <= k < index :: name[k] == query[k]
        decreases |text| - index
      {
        assert index < |name| ==> text[index] == name[index] != 0;
        assert mem[index] == find[1 + index];
        assert index < |query| ==> mem[index] == query[index];
        if text[index] == 0 {
          reachedEnd := true;
          break;
        }
        if find[1 + index] == 0 {
          break;
        }
        if find[1 + index] != text[index] {
          invalid := true;
          break;
        }
        index := index + 1;
        looked := looked + 1;
      }
      return !invalid && reachedEnd, looked;
    }

    /** The scan of handle_search, stopping at the first client with a match. */
    method FindOwner(find: array<byte>) returns (owner: nat)
      requires Valid() && find.Length == BUFF_SIZE
      ensures owner == Owner(Slots(), CString(find[..][1..]))
    {
      hide HeapInv;
      owner := 0;
      while owner < cfg.maxConn
        invariant owner <= cfg.maxConn
        invariant forall j | 0 <= j < owner :: !Hit(Slots()[j], CString(find[..][1..]))
      {
        SlotFields(heap.blocks, clients[..], owner);
        if clients[owner].active {
          var found := SearchClientFiles(find, owner);
          if found {
            return;
          }
        }
        owner := owner + 1;
      }
    }

    /** Sends all the bytes, whatever parts the kernel takes, or fails having
        sent a proper prefix. */
    method SendBytes(sock: int, buf: Bytes) returns (ok: bool, ghost out: Bytes)
      modifies kernel
      ensures kernel.open == old(kernel.open) && kernel.log == old(kernel.log)
      ensures kernel.sendFailed == (old(kernel.sendFailed) || !ok)
      ensures out <= buf && (ok ==> out == buf)
      ensures kernel.Sent(sock) == old(kernel.Sent(sock)) + out
      ensures forall fd | fd != sock :: kernel.Sent(fd) == old(kernel.Sent(fd))
    {
      var totalSent := 0;
      ghost var sent0 := kernel.Sent(sock);
      assert sent0 + [] == sent0;
      while totalSent < |buf|
        invariant totalSent <= |buf|
        invariant kernel.open == old(kernel.open) && kernel.log == old(kernel.log)
        invariant kernel.sendFailed == old(kernel.sendFailed)
        invariant kernel.Sent(sock) == sent0 + buf[..totalSent]
        invariant forall fd | fd != sock :: kernel.Sent(fd) == old(kernel.Sent(fd))
      {
        var sent := kernel.Send(sock, buf[totalSent..]);
        if sent < 0 {
          return false, buf[..totalSent];
        }
        SentMore(sent0, buf, totalSent, sent);
        totalSent := totalSent + sent;
      }
      return true, buf[..totalSent];
    }

    method HandleSearch(client: nat, buffer: array<byte>, len: nat) returns (ok: bool, ghost out: Bytes)
      requires Valid() && client < clients.Length && clients[client].active
      requires buffer.Length == BUFF_SIZE && len < BUFF_SIZE && buffer[0] == SEARCH
      modifies kernel
      ensures kernel.open == old(kernel.open) && kernel.log == old(kernel.log)
      ensures kernel.sendFailed == (old(kernel.sendFailed) || !ok)
      ensures var r := Replies(cfg.fixes, Slots(), client, buffer[..][..1 + len], buffer[..][1 + len..]);
              out <= r && (ok ==> out == r)
      ensures var sock := clients[client].sock;
              && kernel.Sent(sock) == old(kernel.Sent(sock)) + out
              && forall fd | fd != sock :: kernel.Sent(fd) == old(kernel.Sent(fd))
    {
      hide HeapInv, Replies, Answer, CountNonAscii, ZeroReplies;
      ghost var mem := buffer[..];
      SlotFields(heap.blocks, clients[..], client);
      SearchReplies(cfg.fixes, Slots(), client, mem, len);
      if clients[client].kind == Unknown || len >= SEARCH_LIMIT {
        return true, [];
      }
      var sock := clients[client].sock;
      var stop;
      ok, stop, out := ReportErrors(sock, buffer, len);
      if !ok || stop {
        return;
      }
      var response := MakeResponse(buffer);
      ghost var part;
      ok, part := SendBytes(sock, response);
      AppendPart(out, part, response);
      out := out + part;
    }

    method MakeResponse(find: array<byte>) returns (response: Bytes)
      requires Valid() && find.Length == BUFF_SIZE
      ensures response == Answer(Slots(), CString(find[..][1..]))
    {
      hide HeapInv;
      var owner := FindOwner(find);
      response := ZERO_REPLY;
      if owner < cfg.maxConn {
        SlotFields(heap.blocks, clients[..], owner);
        if clients[owner].addr.IPv4? {
          response := ToBE32(clients[owner].id) + clients[owner].addr.ip + clients[owner].addr.port;
        }
      }
    }

    /** One error reply after `k` of them, when there are at least `n` > `k`. */
    method SendError(sock: int, ghost sent0: Bytes, ghost k: nat, ghost n: nat) returns (ok: bool, ghost out: Bytes)
      requires k < n && kernel.Sent(sock) == sent0 + ZeroReplies(k)
      modifies kernel
      ensures kernel.open == old(kernel.open) && kernel.log == old(kernel.log)
      ensures kernel.sendFailed == (old(kernel.sendFailed) || !ok)
      ensures out <= ZeroReplies(k + 1) <= ZeroReplies(n) && (ok ==> out == ZeroReplies(k + 1))
      ensures kernel.Sent(sock) == sent0 + out
      ensures forall fd | fd != sock :: kernel.Sent(fd) == old(kernel.Sent(fd))
    {
      hide ZeroReplies;
      ok, out := SendBytes(sock, ZERO_REPLY);
      ZeroRepliesPrefix(k, n, out);
      ZeroRepliesPrefix(k, n, ZERO_REPLY);
      ZeroRepliesPrefix(k, k + 1, out);
      assert sent0 + ZeroReplies(k) + out == sent0 + (ZeroReplies(k) + out);
      out := ZeroReplies(k) + out;
    }

    /** The two checks of handle_search. Each error is answered with ten zero
        bytes; `stop` says that the request ends there. */
    method ReportErrors(sock: int, buffer: array<byte>, len: nat) returns (ok: bool, stop: bool, ghost out: Bytes)
      requires len < SEARCH_LIMIT < buffer.Length
      modifies kernel
      ensures kernel.open == old(kernel.open) && kernel.log == old(kernel.log)
      ensures kernel.sendFailed == (old(kernel.sendFailed) || !ok)
      ensures var bad := CountNonAscii(buffer[..][1..1 + len]);
              var errors := bad + if buffer[len] != 0 then 1 else 0;
              if cfg.fixes.oneReply && errors > 0 then out <= ZeroReplies(1) && stop && (ok ==> out == ZeroReplies(1))
              else !stop && out <= ZeroReplies(errors) && (ok ==> out == ZeroReplies(errors))
      ensures AllZero(out)
      ensures var payload := buffer[..][1..1 + len];
              var errors := |set k | 0 <= k < |payload| && payload[k] >= 128| + if buffer[len] != 0 then 1 else 0;
              ok ==> |out| == if cfg.fixes.oneReply && errors > 0 then 10 else 10 * errors
      ensures kernel.Sent(sock) == old(kernel.Sent(sock)) + out
      ensures forall fd | fd != sock :: kernel.Sent(fd) == old(kernel.Sent(fd))
    {
      hide CountNonAscii, ZeroReplies;
      ghost var mem, sent0 := buffer[..], kernel.Sent(sock);
      NoErrorsYet(mem, len);
      ghost var k, errors := 0, CountNonAscii(mem[1..1 + len]) + if mem[len] != 0 then 1 else 0;
      ZeroRepliesAreZero(errors);
      ZeroRepliesAreZero(1);
      CountNonAsciiIs(mem[1..1 + len]);
      out, stop := [], false;
      assert sent0 + [] == sent0;
      var check := 0;
      while check < len
        invariant check <= len && k == CountNonAscii(mem[1..1 + check]) <= CountNonAscii(mem[1..1 + len])
        invariant kernel.open == old(kernel.open) && kernel.log == old(kernel.log)
        invariant kernel.sendFailed == old(kernel.sendFailed)
        invariant cfg.fixes.oneReply ==> k == 0
        invariant out == ZeroReplies(k) && kernel.Sent(sock) == sent0 + out
        invariant forall fd | fd != sock :: kernel.Sent(fd) == old(kernel.Sent(fd))
      {
        CountNonAsciiUpTo(mem, check, len);
        if buffer[1 + check] >= 128 {
          ok, out := SendError(sock, sent0, k, errors);
          k := k + 1;
          // deviation: the source returns only when the send fails
          if !ok || cfg.fixes.oneReply {
            stop := cfg.fixes.oneReply;
            return;
          }
        }
        check := check + 1;
      }
      ok := true;
      // for an empty payload this is the command byte before it
      if buffer[len] != 0 {
        ok, out := SendError(sock, sent0, k, errors);
        // deviation: the source returns only when the send fails
        stop := cfg.fixes.oneReply;
      }
    }

    // ---------------------------------------------------------- select loop

    lemma RepliesSent(before: Run, e: Event)
      requires Replay(cfg, base, Then(before, e)).Some? && e.Received?
      requires var slots := Replay(cfg, base, before).value.slots;
               FindClient(slots, e.fd) < |slots| && e.data != []
               && kernel.Sent(e.fd) == Outbox(cfg, base, before, e.fd)
                                       + Replies(cfg.fixes, slots, FindClient(slots, e.fd), e.data, e.stale)
      requires forall fd | fd != e.fd :: kernel.Sent(fd) == Outbox(cfg, base, before, fd)
      ensures forall fd :: kernel.Sent(fd) == Outbox(cfg, base, Then(before, e), fd)
    {
      OutboxReceived(cfg, base, before, e);
      forall fd
        ensures kernel.Sent(fd) == Outbox(cfg, base, Then(before, e), fd)
      {
        OutboxOther(cfg, base, before, e, fd);
      }
    }

    /** One message: dispatch on the command byte. Only SEARCH sends. */
    method Dispatch(client: nat, buffer: array<byte>, len: nat, memory: nat) returns (ok: bool, ghost out: Bytes)
      requires Valid() && client < clients.Length && clients[client].active
      requires buffer.Length == BUFF_SIZE && len < BUFF_SIZE
      modifies kernel, heap, clients
      ensures Valid() && kernel.open == old(kernel.open) && kernel.log == old(kernel.log)
      ensures kernel.sendFailed == (old(kernel.sendFailed) || !ok)
      ensures Slots() == AfterMessage(cfg, old(Slots()), client, buffer[..][..1 + len], memory)
      ensures var r := Replies(cfg.fixes, old(Slots()), client, buffer[..][..1 + len], buffer[..][1 + len..]);
              out <= r && (ok ==> out == r)
      ensures var sock := old(clients[client]).sock;
              && kernel.Sent(sock) == old(kernel.Sent(sock)) + out
              && forall fd | fd != sock :: kernel.Sent(fd) == old(kernel.Sent(fd))
    {
      hide HeapInv, ParsePublish, Answer, CountNonAscii, ZeroReplies;
      ok, out := true, [];
      ghost var mem := buffer[..];
      if buffer[0] == JOIN {
        HandleJoin(client, buffer, len, memory);
      } else if buffer[0] == PUBLISH {
        HandlePublish(client, buffer, len, memory);
      } else if buffer[0] == SEARCH {
        ok, out := HandleSearch(client, buffer, len);
      }
      assert buffer[..] == mem;
    }

    /** The close branch of handle_client, after a receive without bytes. */
    method DropClient(client: nat)
      requires client < clients.Length && clients[client].active
      requires LoggedBut([EndCall(clients[client].sock)])
      requires client == FindClient(Slots(), clients[client].sock)
      modifies this`run, this`allSocks, this`activeClients, kernel, heap, clients
      ensures Logged()
      ensures var sock := old(clients[client]).sock;
              exists ok :: run == Then(old(run), Closed(sock, ok)) && kernel.log == old(kernel.log) + [CloseCall(sock, ok)]
    {
      hide HeapInv, Replay, Outbox, First, Effective, CallsOf;
      ghost var st, before, log := View(), run, kernel.log;
      var sock := clients[client].sock;
      SlotFields(heap.blocks, clients[..], client);
      var ok := kernel.Close(sock);
      EffectiveNext(log, CloseCall(sock, ok));
      allSocks := allSocks - {sock};
      ClearClient(client);
      activeClients := activeClients - 1;
      ghost var e := Closed(sock, ok);
      run := Then(run, e);
      Recorded(before, st, e);
      assert View() == Step(cfg, st, e);
      if !kernel.sendFailed {
        NothingSent(before, e);
      }
    }

    /** The dispatch branch of handle_client, after a receive of `read` bytes. */
    method TakeMessage(client: nat, buffer: array<byte>, read: nat)
      requires client < clients.Length && clients[client].active
      requires buffer.Length == BUFF_SIZE && 0 < read <= BUFF_SIZE
      requires LoggedBut([RecvCall(clients[client].sock, buffer[..read], buffer[read..])])
      requires client == FindClient(Slots(), clients[client].sock)
      modifies this`run, kernel, heap, clients
      ensures Logged()
      ensures var sock := old(clients[client]).sock;
              exists memory :: run == Then(old(run), Received(sock, old(buffer[..read]), old(buffer[read..]), memory))
                               && kernel.log == old(kernel.log) + [MemoryCall(memory)]
    {
      hide HeapInv, AfterMessage, Replies, Replay, Outbox, First, Effective, CallsOf;
      ghost var st, before, log := View(), run, kernel.log;
      var sock := clients[client].sock;
      SlotFields(heap.blocks, clients[..], client);
      var memory := kernel.Memory();
      EffectiveNext(log, MemoryCall(memory));
      ghost var mem := buffer[..];
      assert buffer[..read] == mem[..read] && buffer[read..] == mem[read..];
      ghost var e := Received(sock, mem[..read], mem[read..], memory);
      var ok, out := Dispatch(client, buffer, read - 1, memory);
      assert buffer[..] == mem;
      run := Then(run, e);
      Recorded(before, st, e);
      assert View() == Step(cfg, st, e);
      if !kernel.sendFailed {
        RepliesSent(before, e);
      }
    }

    /** One ready client: one receive on its socket, and what follows from it. */
    method HandleClient(client: nat)
      requires Logged() && client < clients.Length && clients[client].active
      requires client == FindClient(Slots(), clients[client].sock)
      modifies this`run, this`allSocks, this`activeClients, kernel, heap, clients
      ensures Logged()
      ensures |kernel.log| > |old(kernel.log)| && kernel.log[..|old(kernel.log)|] == old(kernel.log)
      ensures run.Then? && run.before == old(run) && run.e.fd == old(clients[client]).sock
      ensures var call := kernel.log[|old(kernel.log)|];
              match run.e
              case Received(fd, data, stale, _) =>
                call == RecvCall(fd, data, stale) && data != [] && |data| + |stale| == 2048
              case Closed(fd, _) => call == EndCall(fd)
              case Accepted(_, _, _) => false
      ensures AcceptCount(kernel.log) == AcceptCount(old(kernel.log))
    {
      hide HeapInv, AfterMessage, Replies, Replay, Outbox, First, Effective, CallsOf, AcceptCount, RecvFds, CloseFds;
      ghost var log := kernel.log;
      var recvBuffer := new byte[BUFF_SIZE];
      var read := kernel.Recv(clients[client].sock, recvBuffer);
      ghost var got := kernel.log;
      EffectiveNext(log, got[|log|]);
      CountNext(log, got[|log|]);
      if read <= 0 {
        DropClient(client);
      } else {
        TakeMessage(client, recvBuffer, read);
      }
      CountNext(got, kernel.log[|got|]);
    }

    /** The lookup of the main loop; the table size when nobody has the socket. */
    method FindCurrent(s: int) returns (curr: nat)
      requires Valid()
      ensures curr == FindClient(Slots(), s)
      ensures curr < clients.Length ==> clients[curr].active && clients[curr].sock == s
    {
      hide HeapInv;
      curr := 0;
      while curr < cfg.maxConn
        invariant curr <= cfg.maxConn
        invariant forall j | 0 <= j < curr :: !(Slots()[j].active && Slots()[j].sock == s)
      {
        SlotFields(heap.blocks, clients[..], curr);
        if clients[curr].active && clients[curr].sock == s {
          return;
        }
        curr := curr + 1;
      }
    }

    /** One pass over the descriptors that were ready. The bound `maxSocket` is
        read again every time round, as sockets come and go.

        As written and under any repairs, each descriptor of the snapshot is received
        from exactly once, in ascending order and on its own record, the listener
        accepts once if it was ready, and the branch for an unknown descriptor is
        not taken. Afterwards all that is watched is open, and the bookkeeping holds,
        unless the round registered a refused connection. */
    method SelectRound(callSet: set<int>)
      requires Settled() && callSet <= allSocks <= kernel.open
      modifies this, kernel, heap, clients
      ensures Settled() && Extends(old(run), run) && old(kernel.log) <= kernel.log
      ensures RoundLogged(cfg.listenSock, callSet, old(kernel.log), kernel.log)
      ensures OnOwnRecords(cfg, base, old(run), run)
      ensures allSocks <= kernel.open <==> !RefusedSince(cfg, base, old(run), run)
    {
      hide HeapInv, Replay, OnOwnRecords, ClientEvents, Visited, Pending, Effective, CallsOf, AcceptCount, RecvFds, CloseFds,
           SocketInv, RefusedSince, Stray;
      ghost var from, log0 := run, kernel.log;
      ReachableSocketInv(cfg, base, run);
      RoundStarts(cfg, base, run, callSet);
      var s := 3;
      while s <= maxSocket
        invariant Logged() && log0 <= kernel.log
        invariant RoundInv(cfg, base, from, run, callSet, s)
        invariant Extends(from, run) && from.Length() <= run.Length()
        invariant AcceptCount(kernel.log)
                  == AcceptCount(log0) + if cfg.listenSock in callSet && cfg.listenSock < s then 1 else 0
        decreases s <= cfg.listenSock, maxSocket - s
      {
        ghost var before := run;
        if s !in callSet {
        } else if s == cfg.listenSock {
          ServerAccept();
          if run != before {
            RoundAccepts(cfg, base, from, before, run.e, callSet, s);
          }
        } else {
          var curr := FindCurrent(s);
          RoundKnows(cfg, base, from, run, callSet, s);
          if curr == cfg.maxConn {
            // the source logs that no client has this socket
            assert false;
          } else {
            HandleClient(curr);
            RoundHandles(cfg, base, from, before, run.e, callSet, s);
          }
        }
        if run == before {
          RoundPasses(cfg, base, from, run, callSet, s);
        }
        s := s + 1;
      }
      RoundEnds(cfg, base, from, run, callSet, s);
      RefusedInAll(cfg, base, from, run);
      ReceivesSince(cfg, base, from, log0, run, kernel.log);
    }

    // ---------------------------------------------------------- whole server

    /** What holds of any run, under any repairs, and with the repairs of every run.
        The run is the only one that the kernel's reports amount to. */
    lemma Guarantees()
      requires Logged()
      ensures HeapInv(heap.blocks, clients[..])
      ensures !RefusedSince(cfg, base, Start, run) ==> SocketInv(cfg, View()) && TableIsTaken(cfg, base, run)
      ensures AllIdsClean(cfg, base, run) ==> DistinctIds(Slots())
      ensures AllClean(cfg, base, run) ==> Refines(cfg, run, View())
      ensures Repaired(cfg.fixes) ==>
                && AllClean(cfg, base, run) && AllIdsClean(cfg, base, run)
                && !RefusedSince(cfg, base, Start, run) && BlankBeforeJoin(Slots())
      ensures forall other | Replay(cfg, base, other).Some? ::
                Effective(kernel.log) == CallsOf(cfg, base, other) ==> other == run
    {
      RunGuarantees(cfg, base, run);
      forall other | Replay(cfg, base, other).Some? && Effective(kernel.log) == CallsOf(cfg, base, other)
        ensures other == run
      {
        LogDeterminesRun(cfg, base, other, run);
      }
    }

    /** Closes the listener and every client socket, once each, and clears every
        client: no file storage is left. */
    method Shutdown()
      requires Valid()
      modifies kernel, heap, clients
      ensures Valid() && heap.blocks == map[]
      ensures forall j | 0 <= j < clients.Length :: !clients[j].active
      ensures CloseFds(kernel.log) == CloseFds(old(kernel.log)) + [cfg.listenSock] + SocksFrom(old(Slots()), 0)
      ensures ClosedSince(old(kernel.log), old(kernel.open))
    {
      hide HeapInv, CloseFds, RecvFds, AcceptCount;
      ghost var slots0, log0, open0 := Slots(), kernel.log, kernel.open;
      assert kernel.log[|log0|..] == [];
      forall j | 0 <= j < clients.Length
        ensures clients[j].active == slots0[j].active && clients[j].sock == slots0[j].sock
      {
        SlotFields(heap.blocks, clients[..], j);
      }
      CloseOne(cfg.listenSock, log0, open0);
      var index := 0;
      while index < cfg.maxConn
        invariant index <= cfg.maxConn && Valid()
        invariant forall j | 0 <= j < index :: !clients[j].active
        invariant forall j | index <= j < clients.Length ::
                    clients[j].active == slots0[j].active && clients[j].sock == slots0[j].sock
        invariant ClosedSince(log0, open0)
        invariant CloseFds(log0) + [cfg.listenSock] + SocksFrom(slots0, 0)
                  == CloseFds(kernel.log) + SocksFrom(slots0, index)
      {
        ghost var fds := CloseFds(kernel.log);
        if clients[index].active {
          CloseOne(clients[index].sock, log0, open0);
          DropRecord(index);
        }
        assert fds + SocksFrom(slots0, index)
            == fds + (if slots0[index].active then [slots0[index].sock] else []) + SocksFrom(slots0, index + 1);
        index := index + 1;
      }
      assert SocksFrom(slots0, index) == [];
      NobodyOwns(heap.blocks, clients[..]);
    }

    /** Of the descriptors that were open at a point in the log, those are still
        open that no logged close since has closed. */
    ghost predicate ClosedSince(log: seq<Call>, open: set<int>)
      reads this, kernel
    {
      && log <= kernel.log
      && forall fd :: fd in kernel.open <==> fd in open && NoneCloses(kernel.log[|log|..], fd)
    }

    method CloseOne(fd: int, ghost log: seq<Call>, ghost open: set<int>)
      requires ClosedSince(log, open)
      modifies kernel
      ensures ClosedSince(log, open) && old(kernel.log) <= kernel.log
      ensures CloseFds(kernel.log) == CloseFds(old(kernel.log)) + [fd]
    {
      hide CloseFds, RecvFds, AcceptCount, NoneCloses;
      ghost var before := kernel.log;
      var ok := kernel.Close(fd);
      CountNext(before, CloseCall(fd, ok));
      assert kernel.log[|log|..] == before[|log|..] + [CloseCall(fd, ok)];
      ClosedNext(before[|log|..], CloseCall(fd, ok));
    }

    /** clear_client, with what it leaves of the other records. */
    method DropRecord(c: nat)
      requires Valid() && c < clients.Length
      modifies heap, clients
      ensures Valid() && !clients[c].active
      ensures forall j | 0 <= j < clients.Length && j != c ::
                clients[j].active == old(clients[j]).active && clients[j].sock == old(clients[j]).sock
    {
      hide HeapInv;
      ghost var slots, recs := Slots(), clients[..];
      forall j | 0 <= j < clients.Length
        ensures slots[j].active == recs[j].active && slots[j].sock == recs[j].sock
      {
        SlotFields(heap.blocks, clients[..], j);
      }
      ClearClient(c);
      forall j | 0 <= j < clients.Length
        ensures Slots()[j].active == clients[j].active && Slots()[j].sock == clients[j].sock
      {
        SlotFields(heap.blocks, clients[..], j);
      }
    }

    /** The main loop for any number of rounds, until a signal or a failing
        pselect, and the shutdown after it, as written and under any repairs.

        Each wait is one pselect; the run at a wait is what the kernel had reported
        by then, with all that holds of it; after each wait that does not fail every
        ready descriptor is received from exactly once. A round that registers a
        refused connection is the last one. At `stop` the loop ends; what is closed
        after that is the listener and the sockets of the clients, once each. */
    method Serve(rounds: nat) returns (ghost waits: seq<Wait>, ghost stop: Point)
      requires Settled()
      modifies this, kernel, heap, clients
      ensures heap.blocks == map[]
      ensures |waits| <= rounds
      ensures forall k | 0 <= k < |waits| :: Waited(waits[k], kernel.log)
      ensures forall k | 0 <= k && k + 1 < |waits| ::
                && waits[k].num >= 0 && RoundDone(waits[k], waits[k + 1].at)
                && (RefusedBetween(waits[k].at, waits[k + 1].at) ==> waits[k + 1].num < 0)
      ensures waits != [] ==> RoundDone(waits[|waits| - 1], stop)
      ensures |waits| < rounds ==> waits != [] && waits[|waits| - 1].num < 0
      ensures Reached(stop, kernel.log)
      ensures CloseFds(kernel.log)
              == CloseFds(stop.log) + [cfg.listenSock] + SocksFrom(Replay(cfg, base, stop.run).value.slots, 0)
      ensures ClosedSince(stop.log, Replay(cfg, base, stop.run).value.open)
    {
      hide LoggedBut, SocketInv, Reached, Waited, RoundDone, RefusedBetween, CloseFds, NoneCloses, SocksFrom, Replay, HeapInv;
      waits := [];
      var left := rounds;
      while left > 0
        invariant Settled() && |waits| == rounds - left
        invariant forall k | 0 <= k < |waits| :: Waited(waits[k], kernel.log) && waits[k].num >= 0
        invariant forall k | 0 <= k && k + 1 < |waits| ::
                    RoundDone(waits[k], waits[k + 1].at) && !RefusedBetween(waits[k].at, waits[k + 1].at)
        invariant waits != [] ==>
                    var last := waits[|waits| - 1];
                    RoundDone(last, Now()) && (allSocks <= kernel.open <==> !RefusedBetween(last.at, Now()))
      {
        ghost var before, log := waits, kernel.log;
        var num, w := WaitOnce();
        forall k | 0 <= k < |before|
          ensures Waited(before[k], kernel.log)
        {
          WaitedKept(before[k], log, kernel.log);
        }
        waits := before + [w];
        if num < 0 {
          break;
        }
        left := left - 1;
      }
      stop := Now();
      LoggedIsReached();
      ghost var log := kernel.log;
      Shutdown();
      forall k | 0 <= k < |waits|
        ensures Waited(waits[k], kernel.log)
      {
        WaitedKept(waits[k], log, kernel.log);
      }
      assert Reached(stop, kernel.log) by {
        ReachedKept(stop, log, kernel.log);
      }
    }

    lemma LoggedIsReached()
      requires Logged()
      ensures Valid() && Reached(Now(), kernel.log) && Replay(cfg, base, run) == Some(View())
    {
    }

    /** One wait of the main loop, and the round after it unless pselect failed. */
    method WaitOnce() returns (num: int, ghost w: Wait)
      requires Settled()
      modifies this, kernel, heap, clients
      ensures Settled() && old(kernel.log) <= kernel.log
      ensures Waited(w, kernel.log) && w.at == old(Now()) && w.num == num && RoundDone(w, Now())
      ensures num >= 0 ==> old(allSocks <= kernel.open)
                           && (allSocks <= kernel.open <==> !RefusedBetween(w.at, Now()))
    {
      hide HeapInv, SocketInv, Refines, DistinctIds, Replay, Effective, CallsOf, RoundLogged, Outbox, First, SlotsOf,
           OnOwnRecords, Extends, AllClean, AllIdsClean, RefusedSince, BlankBeforeJoin, TableIsTaken;
      ghost var log := kernel.log;
      Guarantees();
      var ready;
      num, ready := kernel.Pselect(allSocks);
      EffectiveNext(log, SelectCall(num, ready));
      w := Wait(Point(run, log), num, ready);
      if num >= 0 {
        SelectRound(ready);
        RoundAfterSelect(cfg.listenSock, num, ready, log, kernel.log);
      }
    }

    ghost function Now(): Point
      reads this, kernel
    {
      Point(run, kernel.log)
    }

    /** The run at a point is what the log up to there amounts to. */
    ghost predicate Reached(p: Point, log: seq<Call>) {
      && p.log <= log && Replay(cfg, base, p.run).Some?
      && Effective(p.log) == CallsOf(cfg, base, p.run)
    }

    /** At a wait: the log so far, followed by the pselect, and what holds of the
        run it amounts to. When the pselect does not fail, and with the repairs
        always, the bookkeeping holds and the table is what was taken. */
    ghost predicate Waited(w: Wait, log: seq<Call>) {
      && Reached(w.at, log) && w.at.log + [SelectCall(w.num, w.ready)] <= log
      && var st := Replay(cfg, base, w.at.run).value;
      && (w.num >= 0 || Repaired(cfg.fixes) ==> SocketInv(cfg, st) && TableIsTaken(cfg, base, w.at.run))
      && (AllIdsClean(cfg, base, w.at.run) || Repaired(cfg.fixes) ==> DistinctIds(st.slots))
      && (AllClean(cfg, base, w.at.run) || Repaired(cfg.fixes) ==> Refines(cfg, w.at.run, st))
    }

    lemma ReachedKept(p: Point, log: seq<Call>, later: seq<Call>)
      requires Reached(p, log) && log <= later
      ensures Reached(p, later)
    {
    }

    lemma WaitedKept(w: Wait, log: seq<Call>, later: seq<Call>)
      requires Waited(w, log) && log <= later
      ensures Waited(w, later)
    {
    }

    /** A refused connection was registered from one point to the other. */
    ghost predicate RefusedBetween(p: Point, q: Point) {
      Replay(cfg, base, q.run).Some? && RefusedSince(cfg, base, p.run, q.run)
    }

    /** From a wait to the next point: the round that was asked for, or nothing. */
    ghost predicate RoundDone(w: Wait, next: Point) {
      if w.num < 0 then next == Point(w.at.run, w.at.log + [SelectCall(w.num, w.ready)])
      else
        && RoundLogged(cfg.listenSock, w.ready, w.at.log, next.log)
        && Extends(w.at.run, next.run) && OnOwnRecords(cfg, base, w.at.run, next.run)
    }
  }

  /** A point of the server's life: the run and the log so far. */
  datatype Point = Point(run: Run, log: seq<Call>)

  /** One wait of the main loop and what pselect said. */
  datatype Wait = Wait(at: Point, num: int, ready: set<int>)
}
