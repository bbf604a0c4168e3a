/**
  What a message does at the registry, told in its bytes: which ones change the
  table and how, and what is sent back.
 */
module RegistryWire {
  import opened Bytes
  import opened Wire
  import opened RegistryModel
  import opened RegistryInvariants
  import opened RegistrySearch

  /** Only a first byte of 0 or 1 can change the table. */
  lemma OtherCommandsChangeNothing(cfg: Config, slots: seq<Slot>, i: nat, data: Bytes, memory: nat)
    requires i < |slots| && (data == [] || data[0] > 1)
    ensures AfterMessage(cfg, slots, i, data, memory) == slots
  {
  }

  /** JOIN, first byte 0: with any other length than five nothing changes. With
      five, the id is the big-endian number in the last four. If it is accepted
      the client gets it and has joined. An id that no active client has is
      accepted, and one that the first active client has is not. */
  lemma JoinBytes(cfg: Config, slots: seq<Slot>, i: nat, data: Bytes, memory: nat)
    requires i < |slots| && slots[i].active && data != [] && data[0] == 0
    ensures |data| != 5 ==> AfterMessage(cfg, slots, i, data, memory) == slots
    ensures |data| == 5 ==>
              var id := data[1] as int * 0x100_0000 + data[2] as int * 0x1_0000 + data[3] as int * 0x100 + data[4];
              var after := AfterMessage(cfg, slots, i, data, memory);
              && after == (if JoinAccepted(cfg.fixes, slots, id) then slots[i := slots[i].(id := id, kind := Joined)] else slots)
              && ((forall j | 0 <= j < |slots| && slots[j].active :: slots[j].id != id) ==> JoinAccepted(cfg.fixes, slots, id))
              && (forall j | 0 <= j < |slots| && slots[j].active && slots[j].id == id
                             && (cfg.fixes.joinScansAll || forall h | 0 <= h < j :: !slots[h].active) ::
                    !JoinAccepted(cfg.fixes, slots, id))
  {
    hide First;
    FirstIsLowest(slots, Busy);
    assert Fits(Busy, slots[i]);
    if |data| == 5 {
      assert data[1..] == [data[1], data[2], data[3], data[4]];
    }
  }

  /** PUBLISH, first byte 1, from a joined client: 5 to 1199 bytes, a big-endian
      count of at most `maxFiles` that memory suffices for, and that many strings
      of bytes 1 to 127, each with a 0 after it, then anything. These are stored;
      any other message changes nothing, and none does before a JOIN. */
  lemma PublishBytes(cfg: Config, slots: seq<Slot>, i: nat, data: Bytes, memory: nat)
    requires i < |slots| && data != [] && data[0] == 1
    ensures slots[i].kind == Unknown || |data| < 5 || |data| > 1199 ==>
              AfterMessage(cfg, slots, i, data, memory) == slots
    ensures slots[i].kind != Unknown && 5 <= |data| <= 1199 ==>
              var n := data[1] as int * 0x100_0000 + data[2] as int * 0x1_0000 + data[3] as int * 0x100 + data[4];
              var after := AfterMessage(cfg, slots, i, data, memory);
              && (forall names: seq<Bytes> | Strings(names) && |names| == n && EncodeNames(names) <= data[5..] ::
                    after == if n <= cfg.maxFiles && n <= memory then slots[i := slots[i].(names := names)] else slots)
              && ((forall names: seq<Bytes> | Strings(names) && |names| == n :: !(EncodeNames(names) <= data[5..]))
                  ==> after == slots)
  {
    var payload := data[1..];
    if slots[i].kind != Unknown && 5 <= |data| <= 1199 {
      var n := data[1] as int * 0x100_0000 + data[2] as int * 0x1_0000 + data[3] as int * 0x100 + data[4];
      assert payload[4..] == data[5..];
      forall names: seq<Bytes> | Strings(names) && |names| == n && EncodeNames(names) <= data[5..]
        ensures AfterMessage(cfg, slots, i, data, memory)
                == if n <= cfg.maxFiles && n <= memory then slots[i := slots[i].(names := names)] else slots
      {
        assert AllStorable(names);
        PublishGrammar(payload, cfg.maxFiles, names);
        if ParsePublish(payload, cfg.maxFiles).Some? {
          PublishGrammar(payload, cfg.maxFiles, ParsePublish(payload, cfg.maxFiles).value);
        }
      }
      if ParsePublish(payload, cfg.maxFiles).Some? {
        var names := ParsePublish(payload, cfg.maxFiles).value;
        PublishGrammar(payload, cfg.maxFiles, names);
        assert Strings(names);
      }
    }
  }

  ghost predicate Strings(names: seq<Bytes>) {
    forall k, c | 0 <= k < |names| && 0 <= c < |names[k]| :: 0 < names[k][c] < 128
  }

  /** What the encoding of names is: each with a 0 after it. */
  lemma EncodedBytes(names: seq<Bytes>, name: Bytes)
    ensures EncodeNames([]) == []
    ensures EncodeNames(names + [name]) == EncodeNames(names) + name + [0]
  {
    EncodeNamesAppend(names, name);
  }

  /** SEARCH, first byte 2, in a receive buffer of 2048 bytes. Only a joined
      client's request of at most 100 bytes is answered at all. Without the
      repair, ten zeros are sent for each byte of 128 or more in the payload and
      ten when the last byte of the request is not 0, and then the answer; with it
      ten zeros if there is any of these, and the answer otherwise. */
  lemma SearchBytes(fixes: Fixes, slots: seq<Slot>, i: nat, data: Bytes, stale: Bytes)
    requires i < |slots| && data != [] && |data| + |stale| == 2048
    ensures data[0] != 2 || slots[i].kind == Unknown || |data| > 100 ==> Replies(fixes, slots, i, data, stale) == []
    ensures data[0] == 2 && slots[i].kind != Unknown && |data| <= 100 ==>
              var r := Replies(fixes, slots, i, data, stale);
              var errors := |set k | 0 <= k < |data| - 1 && data[1..][k] >= 128| + if data[|data| - 1] != 0 then 1 else 0;
              if fixes.oneReply && errors > 0 then |r| == 10 && AllZero(r)
              else
                && |r| == 10 * errors + 10 && AllZero(r[..10 * errors])
                && forall e | 1 <= e <= 2048 && (forall k | 1 <= k < e :: (data + stale)[k] != 0)
                              && (e < 2048 ==> (data + stale)[e] == 0) ::
                     BruteForce(slots, (data + stale)[1..e], r[10 * errors..])
  {
    hide BruteForce, CString, CountNonAscii, ZeroReplies, Answer;
    if data[0] == 2 && slots[i].kind != Unknown && |data| <= 100 {
      var mem := data + stale;
      CountNonAsciiIs(data[1..]);
      AsciiCounts(data[1..]);
      var bad := CountNonAscii(data[1..]);
      var errors := bad + if data[|data| - 1] != 0 then 1 else 0;
      ZeroRepliesAreZero(errors);
      ZeroRepliesAreZero(1);
      var r := Replies(fixes, slots, i, data, stale);
      var a := Answer(slots, CString(mem[1..]));
      if !(fixes.oneReply && errors > 0) {
        assert r == ZeroReplies(errors) + a;
        assert r[..10 * errors] == ZeroReplies(errors) && r[10 * errors..] == a;
        forall e | 1 <= e <= 2048 && (forall k | 1 <= k < e :: mem[k] != 0) && (e < 2048 ==> mem[e] == 0)
          ensures BruteForce(slots, mem[1..e], a)
        {
          assert mem[1..][..e - 1] == mem[1..e];
          CStringUnique(mem[1..], e - 1);
          AnswerIsBruteForce(slots, mem[1..e], a);
        }
      } else {
        assert r == ZERO_REPLY;
      }
    }
  }
}
