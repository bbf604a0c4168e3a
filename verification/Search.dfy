/**
  SEARCH end to end: the peer's request, the ten-byte reply read back from a
  stream split in any way, and a whole session in step with the registry.
 */
module Search {
  import opened Bytes
  import opened Wire
  import opened Streams
  import opened RegistryModel
  import opened RegistrySearch

  datatype Found = Found(id: u32, ip: Quad, port: u16)

  /** The peer's reading of a reply: id zero means that nothing was found. */
  function DecodeReply(reply: Bytes): Option<Found>
    requires |reply| == 10
  {
    var id := FromBE32(reply[..4]);
    if id == 0 then None else Some(Found(id, reply[4..8], FromBE16(reply[8..])))
  }

  /** A decoded answer is present exactly when the owner is reachable over IPv4
      and has a non-zero id, and it is that owner's id and address. */
  lemma DecodedAnswer(slots: seq<Slot>, query: Bytes)
    ensures var i := Owner(slots, query);
            DecodeReply(Answer(slots, query))
            == if i < |slots| && slots[i].addr.IPv4? && slots[i].id != 0
               then
                 var port := slots[i].addr.port;
                 Some(Found(slots[i].id, slots[i].addr.ip, port[0] as int * 256 + port[1] as int))
               else None
  {
    var i := Owner(slots, query);
    if i < |slots| && slots[i].addr.IPv4? {
      var id, ip, port := ToBE32(slots[i].id), slots[i].addr.ip, slots[i].addr.port;
      var reply := id + ip + port;
      assert reply[..4] == id && reply[4..8] == ip && reply[8..] == port;
      BE32RoundTrip(slots[i].id);
    } else {
      assert FromBE32(ZERO_REPLY[..4]) == 0;
    }
  }

  /** A request buffer for a command and a name: zeroed, so that it ends in NUL. */
  method NamedRequest(command: byte, filename: Bytes) returns (request: Bytes)
    ensures request == [command] + filename + [0]
  {
    var buf := new byte[|filename| + 2](_ => 0);
    buf[0] := command;
    for k := 0 to |filename|
      invariant buf[0] == command && buf[|filename| + 1] == 0
      invariant buf[1..1 + k] == filename[..k]
    {
      buf[1 + k] := filename[k];
    }
    request := buf[..];
    assert request == [buf[0]] + buf[1..1 + |filename|] + [buf[|filename| + 1]];
  }

  /** What a reply of ten bytes means: four of the id, none when they are 0, then
      the address and the port, all most significant first. */
  ghost predicate Means(reply: Bytes, found: Option<Found>) {
    && |reply| == 10
    && match found
       case None => forall k | 0 <= k < 4 :: reply[k] == 0
       case Some(f) =>
         && f.id == reply[0] as int * 0x100_0000 + reply[1] as int * 0x1_0000 + reply[2] as int * 0x100 + reply[3] as int
         && f.id != 0
         && f.ip == reply[4..8]
         && f.port / 256 == reply[8] as int && f.port % 256 == reply[9] as int
  }

  lemma DecodingMeans(reply: Bytes)
    requires |reply| == 10
    ensures Means(reply, DecodeReply(reply))
  {
  }

  datatype Outcome = SendError | IoError | Answered(found: Option<Found>)

  /** One search: writes the request and decodes the reply. It fails when the
      write does, having sent a proper beginning of the request, or when fewer
      than ten bytes arrive. */
  method SearchRegistry(conn: Stream, filename: Bytes) returns (outcome: Outcome)
    requires conn.Valid()
    modifies conn
    ensures conn.Valid() && conn.broken == old(conn.broken)
    ensures conn.writeFailed == (old(conn.writeFailed) || outcome.SendError?)
    ensures if outcome.SendError? then
              && conn.pending == old(conn.pending) && conn.Data() == old(conn.Data())
              && exists k: nat | k < |SearchRequest(filename)| ::
                   conn.sent == old(conn.sent) + SearchRequest(filename)[..k]
            else conn.sent == old(conn.sent) + SearchRequest(filename)
    ensures !outcome.SendError? ==> (outcome.IoError? <==> |old(conn.Data())| < 10)
    ensures outcome.IoError? ==> conn.Data() == []
    ensures outcome.Answered? ==> var data := old(conn.Data());
              && outcome.found == DecodeReply(data[..10]) && Means(data[..10], outcome.found)
              && conn.Data() == data[10..]
    ensures !outcome.SendError? ==> conn.sent == old(conn.sent) + [2] + filename + [0]
  {
    hide Concat;
    var searchBuf := NamedRequest(SEARCH, filename);
    assert searchBuf == SearchRequest(filename);
    var wrote := conn.WriteAll(searchBuf);
    if !wrote {
      ghost var k: nat :| k < |searchBuf| && conn.sent == old(conn.sent) + searchBuf[..k];
      assert conn.sent == old(conn.sent) + SearchRequest(filename)[..k];
      return SendError;
    }
    var peerBuf := new byte[10];
    ghost var data := conn.Data();
    var filled, ended := conn.Fill(peerBuf);
    if ended {
      assert data == peerBuf[..filled];
      assert old(conn.sent) + SearchRequest(filename) == old(conn.sent) + [2] + filename + [0];
      return IoError;
    }
    assert peerBuf[..filled] == peerBuf[..];
    assert data[..10] == peerBuf[..] && data[10..] == conn.Data();
    var id := FromBE32(peerBuf[..4]);
    assert peerBuf[..4] == peerBuf[..][..4] && peerBuf[4..8] == peerBuf[..][4..8] && peerBuf[8..] == peerBuf[..][8..];
    DecodingMeans(data[..10]);
    assert old(conn.sent) + SearchRequest(filename) == old(conn.sent) + [2] + filename + [0];
    outcome := Answered(if id == 0 then None else Some(Found(id, peerBuf[4..8], FromBE16(peerBuf[8..]))));
  }

  /** The requests for some names, one after the other. */
  function Requests(names: seq<Bytes>): Bytes {
    if names == [] then [] else Requests(names[..|names| - 1]) + SearchRequest(names[|names| - 1])
  }

  /** A whole session. The registry's run holds the first `taken` of the requests,
      and the connection carries, in any pieces, what it sends to `fd` after `from`.
      The i-th search decodes to the registry's answer to that very request while
      requests reached it, and fails after that. A failing write ends the session:
      the requests before it were written in full, that one was not. So with as
      many requests taken as were written in full, every search before the failing
      write, or every one when none fails, is answered and nothing is left over. */
  method SearchSession(conn: Stream, names: seq<Bytes>, cfg: Config, ghost base: set<int>,
                       ghost from: Run, ghost run: Run, fd: int, ghost taken: nat)
    returns (results: seq<Outcome>)
    requires Replay(cfg, base, run).Some? && Replay(cfg, base, from).Some? && taken <= |names|
    requires Session(from, run, fd, names[..taken]) && Ready(Replay(cfg, base, from).value, fd)
    requires forall k | 0 <= k < |names| :: |names[k]| <= 98
    requires conn.Valid() && !conn.writeFailed
    requires Outbox(cfg, base, run, fd) == Outbox(cfg, base, from, fd) + conn.Data()
    modifies conn
    ensures |results| <= |names| && |Answers(cfg, base, from, run, fd)| == taken
    ensures if conn.writeFailed then results != [] else |results| == |names|
    ensures var written := if conn.writeFailed then |results| - 1 else |results|;
            && (forall k | 0 <= k < written ::
                  results[k] == if k < taken then Answered(DecodeReply(Answers(cfg, base, from, run, fd)[k])) else IoError)
            && (conn.writeFailed ==> results[written] == SendError)
            && (taken <= written ==> conn.Data() == [])
            && old(conn.sent) + Requests(names[..written]) <= conn.sent
            && if conn.writeFailed
               then |conn.sent| < |old(conn.sent) + Requests(names[..written + 1])|
               else conn.sent == old(conn.sent) + Requests(names)
  {
    hide *;
    ghost var answers, sent0 := Answers(cfg, base, from, run, fd), conn.sent;
    RepliesInStep(cfg, base, from, run, fd, names[..taken]);
    SameRest(Outbox(cfg, base, from, fd), conn.Data(), Concat(answers));
    results := [];
    assert answers[0..] == answers;
    NoRequests(sent0);
    for k := 0 to |names|
      invariant |answers| == taken && |results| == k && conn.Valid() && !conn.writeFailed
      invariant conn.Data() == Concat(answers[if k < taken then k else taken..])
      invariant conn.sent == sent0 + Requests(names[..k])
      invariant forall j | 0 <= j < k ::
                  results[j] == if j < taken then Answered(DecodeReply(answers[j])) else IoError
    {
      if k < taken {
        FirstPart(answers, k);
      } else {
        NoParts(answers);
      }
      NextRequest(sent0, names, k);
      var outcome := SearchRegistry(conn, names[k]);
      results := results + [outcome];
      if outcome.SendError? {
        NoParts(answers);
        return;
      }
    }
    NoParts(answers);
    assert names[..|names|] == names;
  }

  lemma NoRequests(sent: Bytes)
    ensures forall names: seq<Bytes> :: sent + Requests(names[..0]) == sent
  {
  }

  lemma NextRequest(sent: Bytes, names: seq<Bytes>, k: nat)
    requires k < |names|
    ensures sent + Requests(names[..k + 1]) == sent + Requests(names[..k]) + SearchRequest(names[k])
  {
    assert names[..k + 1][..k] == names[..k];
  }

  lemma SameRest(head: Bytes, a: Bytes, b: Bytes)
    requires head + a == head + b
    ensures a == b
  {
    assert a == (head + a)[|head|..] && b == (head + b)[|head|..];
  }

  lemma FirstPart(parts: seq<Bytes>, k: nat)
    requires k < |parts|
    ensures Concat(parts[k..]) == parts[k] + Concat(parts[k + 1..])
    ensures var data := Concat(parts[k..]);
            |data| >= |parts[k]| && data[..|parts[k]|] == parts[k] && data[|parts[k]|..] == Concat(parts[k + 1..])
  {
    assert parts[k..][1..] == parts[k + 1..];
  }

  lemma NoParts(parts: seq<Bytes>)
    ensures Concat(parts[|parts|..]) == []
  {
  }
}
