/**
  PUBLISH end to end: the two packing loops, each filling a 1200-byte buffer
  from the file names of a directory, against the registry that reads them.
 */
module Publish {
  import opened Bytes
  import opened Wire
  import opened RegistryModel

  const BUFFER := 1200

  function Message(names: seq<Bytes>): Bytes
    requires |names| < 0x1_0000_0000
  {
    [PUBLISH] + ToBE32(|names|) + EncodeNames(names)
  }

  function AsciiOnly(names: seq<Bytes>): seq<Bytes> {
    if names == [] then []
    else if Ascii(names[0]) then [names[0]] + AsciiOnly(names[1..])
    else AsciiOnly(names[1..])
  }

  /** `kept` is the longest prefix of `all` whose encoding fits the room. */
  ghost predicate LongestFitting(all: seq<Bytes>, kept: seq<Bytes>, room: nat) {
    && kept <= all
    && |EncodeNames(kept)| <= room
    && (|kept| < |all| ==> |EncodeNames(all[..|kept| + 1])| > room)
  }

  /** The names kept when they are taken in order until one does not fit. */
  function Longest(all: seq<Bytes>, room: nat): (kept: seq<Bytes>)
    ensures |kept| <= room
  {
    if all == [] || |all[0]| + 1 > room then []
    else [all[0]] + Longest(all[1..], room - |all[0]| - 1)
  }

  lemma {:induction false} LongestIsLongest(all: seq<Bytes>, room: nat)
    ensures LongestFitting(all, Longest(all, room), room)
  {
    if all != [] {
      assert EncodeNames(all[..1]) == all[0] + [0] + EncodeNames([]);
      if |all[0]| + 1 <= room {
        var rest := Longest(all[1..], room - |all[0]| - 1);
        LongestIsLongest(all[1..], room - |all[0]| - 1);
        assert ([all[0]] + rest)[1..] == rest;
        assert all == [all[0]] + all[1..];
        if |rest| < |all[1..]| {
          assert all[..|rest| + 2][1..] == all[1..][..|rest| + 1];
        }
      }
    }
  }

  /** The names kept are those of ASCII bytes, at `at`, in their order. */
  lemma {:induction false} AsciiOnlyPlaces(names: seq<Bytes>) returns (at: seq<nat>)
    ensures |at| == |AsciiOnly(names)|
    ensures forall j, k | 0 <= j < k < |at| :: at[j] < at[k]
    ensures forall k | 0 <= k < |at| :: at[k] < |names| && AsciiOnly(names)[k] == names[at[k]]
    ensures forall i | 0 <= i < |names| :: i in at <==> forall c | 0 <= c < |names[i]| :: names[i][c] < 128
  {
    if names == [] {
      at := [];
    } else {
      var n := |names| - 1;
      at := AsciiOnlyPlaces(names[..n]);
      AsciiOnlyAppend(names[..n], names[n]);
      assert names == names[..n] + [names[n]];
      ghost var before := at;
      if Ascii(names[n]) {
        at := at + [n];
      }
      forall i | 0 <= i < |names|
        ensures i in at <==> Ascii(names[i])
      {
        if i < n {
          assert names[..n][i] == names[i];
        }
      }
    }
  }

  lemma {:induction false} AsciiOnlyAppend(names: seq<Bytes>, name: Bytes)
    ensures AsciiOnly(names + [name]) == AsciiOnly(names) + (if Ascii(name) then [name] else [])
  {
    if names == [] {
      assert names + [name] == [name];
    } else {
      AsciiOnlyAppend(names[1..], name);
      assert (names + [name])[1..] == names[1..] + [name];
    }
  }

  lemma {:induction false} AsciiOnlyPrefix(names: seq<Bytes>, k: nat)
    requires k <= |names|
    ensures AsciiOnly(names[..k]) <= AsciiOnly(names)
    decreases |names| - k
  {
    if k == |names| {
      assert names[..k] == names;
    } else {
      AsciiOnlyPrefix(names, k + 1);
      assert names[..k + 1] == names[..k] + [names[k]];
      AsciiOnlyAppend(names[..k], names[k]);
    }
  }

  lemma {:induction false} EncodingGrows(names: seq<Bytes>, k: nat)
    requires k <= |names|
    ensures |EncodeNames(names[..k])| <= |EncodeNames(names)|
    decreases |names| - k
  {
    if k == |names| {
      assert names[..k] == names;
    } else {
      EncodingGrows(names, k + 1);
      assert names[..k + 1] == names[..k] + [names[k]];
      EncodeNamesAppend(names[..k], names[k]);
    }
  }

  /** The longest fitting prefix is unique. */
  lemma LongestFittingUnique(all: seq<Bytes>, a: seq<Bytes>, b: seq<Bytes>, room: nat)
    requires LongestFitting(all, a, room) && LongestFitting(all, b, room)
    ensures a == b
  {
    assert a == all[..|a|] && b == all[..|b|];
    if |a| < |b| {
      assert b[..|a| + 1] == all[..|a| + 1];
      EncodingGrows(b, |a| + 1);
    } else if |b| < |a| {
      assert a[..|b| + 1] == all[..|b| + 1];
      EncodingGrows(a, |b| + 1);
    }
  }

  predicate AllNulFree(names: seq<Bytes>) {
    forall k | 0 <= k < |names| :: NulFree(names[k])
  }

  // ---------------------------------------------------------- the two packers

  /** The bytes of a message of at most `size`: command 1, the number of names kept
      in four bytes, most significant first, and these, each with a 0 after it;
      they are the first of the names, and the next one would not fit. */
  ghost predicate Packed(message: Bytes, names: seq<Bytes>, size: nat) {
    exists kept ::
      && kept <= names && 5 <= |message| <= size
      && message[..3] == [1, 0, 0] && message[3] as int * 256 + message[4] as int == |kept|
      && message[5..] == EncodeNames(kept)
      && (|kept| < |names| ==> |message| + |names[|kept|]| + 1 > size)
  }

  lemma MessagePacked(names: seq<Bytes>, size: nat)
    requires 5 <= size <= 1200
    ensures |Longest(names, size - 5)| < 0x1_0000
    ensures Packed(Message(Longest(names, size - 5)), names, size)
  {
    hide EncodeNames, Longest;
    var kept := Longest(names, size - 5);
    var message := Message(kept);
    LongestIsLongest(names, size - 5);
    BE32RoundTrip(|kept|);
    assert message[..3] == [PUBLISH] + ToBE32(|kept|)[..2] && message[5..] == EncodeNames(kept);
    var o := ToBE32(|kept|);
    assert message[3] == o[2] && message[4] == o[3];
    SmallOctets(|kept|);
    if |kept| < |names| {
      KeepOne(names, kept, names[|kept|], |EncodeNames(kept)|);
    }
  }

  lemma SmallOctets(x: u32)
    requires x < 0x1_0000
    ensures var o := ToBE32(x);
            o[0] == 0 && o[1] == 0 && o[2] as int * 256 + o[3] as int == x
  {
  }

  lemma PackingStarts(names: seq<Bytes>)
    ensures AsciiOnly(names[..0]) == [] && EncodeNames([]) == []
  {
  }

  lemma KeepOne(all: seq<Bytes>, kept: seq<Bytes>, name: Bytes, written: nat)
    requires kept + [name] <= all && written == |EncodeNames(kept)|
    ensures EncodeNames(kept + [name]) == EncodeNames(kept) + name + [0]
    ensures all[..|kept| + 1] == kept + [name]
    ensures |EncodeNames(all[..|kept| + 1])| == written + |name| + 1
  {
    EncodeNamesAppend(kept, name);
  }

  /** A prefix that cannot be extended is the one kept. */
  lemma KeptIsLongest(all: seq<Bytes>, kept: seq<Bytes>, room: nat)
    requires LongestFitting(all, kept, room)
    ensures kept == Longest(all, room)
  {
    LongestIsLongest(all, room);
    LongestFittingUnique(all, kept, Longest(all, room), room);
  }

  /** The packing loop of the Rust peer: names that are not ASCII are skipped,
      the first that does not fit ends the loop, and the NULs come from the zero
      fill of the buffer. */
  method PackRust(names: seq<Bytes>) returns (message: Bytes)
    ensures message == Message(Longest(AsciiOnly(names), BUFFER - 5))
    ensures Packed(message, AsciiOnly(names), 1200)
  {
    hide AsciiOnly, EncodeNames, Longest;
    var buffer := new byte[BUFFER](_ => 0);
    var wroteBytes, count := 5, 0;
    buffer[0] := PUBLISH;
    ghost var kept: seq<Bytes> := [];
    PackingStarts(names);
    var index := 0;
    ghost var full := false;
    while index < |names|
      invariant index <= |names| && !full
      invariant kept == AsciiOnly(names[..index]) && count == |kept| <= wroteBytes - 5
      invariant 5 <= wroteBytes <= BUFFER
      invariant buffer[..5] == [PUBLISH, 0, 0, 0, 0]
      invariant buffer[5..wroteBytes] == EncodeNames(kept)
      invariant forall k | wroteBytes <= k < BUFFER :: buffer[k] == 0
    {
      var bytes := names[index];
      assert names[..index + 1] == names[..index] + [bytes];
      AsciiOnlyAppend(names[..index], bytes);
      if Ascii(bytes) {
        AsciiOnlyPrefix(names, index + 1);
        KeepOne(AsciiOnly(names), kept, bytes, wroteBytes - 5);
        var bytesNullLen := |bytes| + 1;
        if bytesNullLen > BUFFER - wroteBytes {
          full := true;
          break;
        }
        CopyName(buffer, wroteBytes, bytes, kept);
        wroteBytes := wroteBytes + bytesNullLen;
        count := count + 1;
        kept := kept + [bytes];
      }
      index := index + 1;
    }
    if !full {
      assert names[..index] == names;
    } else {
      AsciiOnlyPrefix(names, index);
    }
    KeptIsLongest(AsciiOnly(names), kept, BUFFER - 5);
    MessagePacked(AsciiOnly(names), BUFFER);
    message := WriteCount(buffer, count, wroteBytes, kept);
  }

  method CopyName(buffer: array<byte>, at: nat, bytes: Bytes, ghost kept: seq<Bytes>)
    requires buffer.Length == BUFFER && 5 <= at && at + |bytes| < BUFFER
    requires buffer[5..at] == EncodeNames(kept) && buffer[at + |bytes|] == 0
    modifies buffer
    ensures buffer[..5] == old(buffer[..5])
    ensures buffer[5..at + |bytes| + 1] == EncodeNames(kept + [bytes])
    ensures forall k | at + |bytes| < k < BUFFER :: buffer[k] == old(buffer[k])
  {
    for k := 0 to |bytes|
      invariant buffer[..at] == old(buffer[..at])
      invariant buffer[at..at + k] == bytes[..k]
      invariant forall j | at + |bytes| <= j < BUFFER :: buffer[j] == old(buffer[j])
    {
      buffer[at + k] := bytes[k];
    }
    EncodeNamesAppend(kept, bytes);
    assert buffer[5..at] == old(buffer[..at])[5..at] == old(buffer[5..at]);
    assert buffer[5..at + |bytes| + 1]
        == buffer[5..at] + buffer[at..at + |bytes|] + buffer[at + |bytes|..at + |bytes| + 1];
  }

  method WriteCount(buffer: array<byte>, count: nat, wrote: nat, ghost kept: seq<Bytes>) returns (message: Bytes)
    requires buffer.Length == BUFFER && 5 <= wrote <= BUFFER && count == |kept| < BUFFER
    requires buffer[0] == PUBLISH && buffer[5..wrote] == EncodeNames(kept)
    modifies buffer
    ensures message == Message(kept)
  {
    var be := ToBE32(count);
    ghost var rest := buffer[5..wrote];
    buffer[1], buffer[2], buffer[3], buffer[4] := be[0], be[1], be[2], be[3];
    assert buffer[5..wrote] == rest;
    message := buffer[..wrote];
    assert message == [buffer[0]] + [buffer[1], buffer[2], buffer[3], buffer[4]] + buffer[5..wrote];
  }

  /** The packing loop of the C peer: no ASCII check, a buffer that starts with
      any contents, NULs written by strcpy and one byte always left over. */
  method PackC(names: seq<Bytes>) returns (message: Bytes)
    ensures message == Message(Longest(names, BUFFER - 6))
    ensures Packed(message, names, 1199)
  {
    hide EncodeNames, Longest;
    var buffer := new byte[BUFFER];
    var offset, fileCount := 5, 0;
    ghost var kept: seq<Bytes> := [];
    PackingStarts(names);
    var index := 0;
    while index < |names| && offset < BUFFER
      invariant index <= |names|
      invariant kept == names[..index] && fileCount == |kept| <= offset - 5
      invariant 5 <= offset < BUFFER
      invariant buffer[5..offset] == EncodeNames(kept)
    {
      var nameLen := |names[index]|;
      assert names[..index + 1] == kept + [names[index]];
      KeepOne(names, kept, names[index], offset - 5);
      if offset + nameLen + 1 < BUFFER {
        buffer[offset + nameLen] := 0;
        CopyName(buffer, offset, names[index], kept);
        offset := offset + nameLen + 1;
        fileCount := fileCount + 1;
        kept := kept + [names[index]];
      } else {
        break;
      }
      index := index + 1;
    }
    KeptIsLongest(names, kept, BUFFER - 6);
    MessagePacked(names, BUFFER - 1);
    buffer[0] := PUBLISH;
    message := WriteCount(buffer, fileCount, offset, kept);
  }

  // -------------------------------------------------------------- round trip

  lemma {:induction false} DecodeEncoded(names: seq<Bytes>)
    requires AllNulFree(names)
    ensures DecodeNames(|names|, EncodeNames(names)) == if AllStorable(names) then Some(names) else None
  {
    if AllStorable(names) {
      DecodeComplete(names, EncodeNames(names));
    } else {
      var s := EncodeNames(names);
      var rest := EncodeNames(names[1..]);
      assert s == names[0] + [0] + rest;
      CStringTerminated(names[0], rest);
      assert s[|names[0]| + 1..] == rest;
      DecodeEncoded(names[1..]);
      assert Storable(names[0]) && AllStorable(names[1..]) ==> AllStorable(names);
    }
  }

  /** A packed list is recovered exactly when it has at most `maxFiles` names,
      all ASCII, in a message of at most 1199 bytes; otherwise it is refused. */
  lemma PackedListParses(names: seq<Bytes>, maxFiles: nat)
    requires AllNulFree(names) && |names| < BUFFER
    ensures ParsePublish(Message(names)[1..], maxFiles)
            == if |names| <= maxFiles && AllStorable(names) && |Message(names)| <= 1199 then Some(names) else None
  {
    var payload := Message(names)[1..];
    assert payload == ToBE32(|names|) + EncodeNames(names);
    assert payload[..4] == ToBE32(|names|) && payload[4..] == EncodeNames(names);
    BE32RoundTrip(|names|);
    DecodeEncoded(names);
  }

  /** A packed message at the registry, for a joined client. */
  lemma PackedListStored(cfg: Config, slots: seq<Slot>, i: nat, names: seq<Bytes>, memory: nat)
    requires i < |slots| && slots[i].kind != Unknown
    requires AllNulFree(names) && |names| < BUFFER && |names| <= memory
    ensures AfterMessage(cfg, slots, i, Message(names), memory)
            == if |names| <= cfg.maxFiles && AllStorable(names) && |Message(names)| <= 1199
               then slots[i := slots[i].(names := names)] else slots
  {
    hide ParsePublish, EncodeNames;
    PackedListParses(names, cfg.maxFiles);
  }

  lemma {:induction false} AsciiOnlyStorable(names: seq<Bytes>)
    requires AllNulFree(names)
    ensures AllStorable(AsciiOnly(names))
  {
    if names != [] {
      AsciiOnlyStorable(names[1..]);
    }
  }

  /** From the Rust peer to the registry's table: a joined client's list becomes
      exactly what was packed if there are at most `maxFiles` names and the
      packer did not fill its buffer to the last byte; else nothing changes. */
  lemma RustRoundTrip(cfg: Config, slots: seq<Slot>, i: nat, names: seq<Bytes>, memory: nat)
    requires i < |slots| && slots[i].kind != Unknown && AllNulFree(names)
    requires |Longest(AsciiOnly(names), BUFFER - 5)| <= memory
    ensures var kept := Longest(AsciiOnly(names), BUFFER - 5);
            && 5 <= |Message(kept)| <= 1200
            && AfterMessage(cfg, slots, i, Message(kept), memory)
               == if |kept| <= cfg.maxFiles && |Message(kept)| != 1200
                  then slots[i := slots[i].(names := kept)] else slots
  {
    hide AfterMessage, Longest, AsciiOnly, EncodeNames;
    var kept := Longest(AsciiOnly(names), BUFFER - 5);
    LongestIsLongest(AsciiOnly(names), BUFFER - 5);
    AsciiOnlyStorable(names);
    assert AllStorable(kept) by {
      assert forall k | 0 <= k < |kept| :: kept[k] == AsciiOnly(names)[k];
    }
    PackedListStored(cfg, slots, i, kept, memory);
  }

  /** From the C peer: the size bound always holds, so only the number of files
      and names that are not ASCII make the registry refuse. */
  lemma CRoundTrip(cfg: Config, slots: seq<Slot>, i: nat, names: seq<Bytes>, memory: nat)
    requires i < |slots| && slots[i].kind != Unknown && AllNulFree(names)
    requires |Longest(names, BUFFER - 6)| <= memory
    ensures var kept := Longest(names, BUFFER - 6);
            && |Message(kept)| < 1200
            && AfterMessage(cfg, slots, i, Message(kept), memory)
               == if |kept| <= cfg.maxFiles && AllStorable(kept)
                  then slots[i := slots[i].(names := kept)] else slots
  {
    hide AfterMessage, Longest, EncodeNames;
    var kept := Longest(names, BUFFER - 6);
    LongestIsLongest(names, BUFFER - 6);
    assert AllNulFree(kept) by {
      assert forall k | 0 <= k < |kept| :: kept[k] == names[k];
    }
    PackedListStored(cfg, slots, i, kept, memory);
  }

  /** For a joined client with memory to spare, any payload at all: accepted
      exactly when it follows the grammar, with the list it stands for, and on
      rejection the previous list is untouched. */
  lemma PublishAcceptedExactly(cfg: Config, slots: seq<Slot>, i: nat, payload: Bytes, memory: nat)
    requires i < |slots| && slots[i].kind != Unknown && memory >= cfg.maxFiles
    ensures forall names | Publication(payload, cfg.maxFiles, names) ::
              AfterMessage(cfg, slots, i, [1] + payload, memory) == slots[i := slots[i].(names := names)]
    ensures !(exists names :: Publication(payload, cfg.maxFiles, names))
            ==> AfterMessage(cfg, slots, i, [1] + payload, memory) == slots
  {
    var data := [PUBLISH] + payload;
    assert data[1..] == payload;
    forall names | Publication(payload, cfg.maxFiles, names)
      ensures AfterMessage(cfg, slots, i, data, memory) == slots[i := slots[i].(names := names)]
    {
      PublishGrammar(payload, cfg.maxFiles, names);
    }
    if ParsePublish(payload, cfg.maxFiles).Some? {
      PublishGrammar(payload, cfg.maxFiles, ParsePublish(payload, cfg.maxFiles).value);
    }
  }
}
