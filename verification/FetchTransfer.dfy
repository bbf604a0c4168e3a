/**
  FETCH end to end: the chunked file sender, two receivers that strip the status
  byte, and the whole exchange over streams split in any way, with reads and
  writes that may fail.

  As written, the sender's first chunk is one byte short. `FullSlice` is the
  intended slice.
 */
module FetchTransfer {
  import opened Bytes
  import opened Wire
  import opened Streams
  import opened FetchRequest
  import opened Paths
  import Search

  datatype Slice = AsWritten | FullSlice

  /** `s` without the byte at `k`. */
  function Without(s: Bytes, k: nat): Bytes
    requires k < |s|
  {
    s[..k] + s[k + 1..]
  }

  /** What arrives of a file whose first read returned `first` bytes: all of it,
      or, as written, all but the last byte of that read. */
  function Delivered(slice: Slice, content: Bytes, first: nat): Bytes
    requires content != [] ==> 0 < first <= |content|
  {
    if slice == FullSlice || content == [] then content else Without(content, first - 1)
  }

  /** The bytes that the first file read returns. */
  function FirstRead(parts: seq<Bytes>): (n: nat)
    requires Pieces(parts)
    ensures Concat(parts) != [] ==> 0 < n <= |Concat(parts)|
  {
    TakenLeft(parts, BUFFER - 1);
    ConcatEmpty(parts);
    |Taken(parts, BUFFER - 1)|
  }

  lemma FirstReadIs(parts: seq<Bytes>)
    requires Pieces(parts) && parts != []
    ensures FirstRead(parts) == if |parts[0]| > 2047 then 2047 else |parts[0]|
  {
  }

  /** What a transfer sends: a status byte and the content. A file whose first
      read fails gives nothing. */
  ghost function Transfer(slice: Slice, parts: seq<Bytes>, broken: bool): Bytes
    requires Pieces(parts)
  {
    if Concat(parts) == [] && broken then []
    else [Code(SUCCESS)] + Delivered(slice, Concat(parts), FirstRead(parts))
  }

  /** Nothing when the first read fails; else a 0 and the content, of which, as
      written, the last byte of the first read is missing. */
  ghost predicate Sent(slice: Slice, content: Bytes, broken: bool, first: nat, out: Bytes) {
    if content == [] then out == if broken then [] else [0]
    else
      && out != [] && out[0] == 0 && 0 < first <= |content|
      && if slice == FullSlice then out[1..] == content
         else
           && |out| == |content|
           && (forall k | 0 <= k < first - 1 :: out[k + 1] == content[k])
           && (forall k | first <= k < |content| :: out[k] == content[k])
  }

  lemma TransferBytes(slice: Slice, parts: seq<Bytes>, broken: bool)
    requires Pieces(parts)
    ensures Sent(slice, Concat(parts), broken, FirstRead(parts), Transfer(slice, parts, broken))
  {
    var content, first := Concat(parts), FirstRead(parts);
    var out := Transfer(slice, parts, broken);
    CopyIsExactly(slice, content, first);
    if content != [] {
      assert out[1..] == Delivered(slice, content, first);
      assert forall k | 0 <= k < |out| - 1 :: out[k + 1] == out[1..][k];
    }
  }

  /** Sends a status byte and the file, in chunks of whatever the file reads
      return. A failing read ends the transfer after the bytes already read, and
      a failing write leaves a beginning of it. */
  method HandleFetch(stream: Stream, file: Stream, slice: Slice) returns (ok: bool, ghost out: Bytes)
    requires file.Valid() && stream != file && !stream.writeFailed
    modifies file`pending, stream`sent, stream`writeFailed
    ensures ok <==> !file.broken && !stream.writeFailed
    ensures stream.sent == old(stream.sent) + out
    ensures var whole := Transfer(slice, old(file.pending), file.broken);
            out <= whole && (!stream.writeFailed ==> out == whole)
  {
    hide Concat, Delivered, Left, Taken, Pieces;
    ghost var parts, content, sent0 := file.pending, file.Data(), stream.sent;
    ConcatEmpty(parts);
    NothingDelivered(slice);
    ghost var whole := [Code(SUCCESS)] + Delivered(slice, content, FirstRead(parts));
    var totalWrote, offset := 0, 1;
    var buffer := new byte[BUFFER](_ => 0);
    out := [];
    assert sent0 + [] == sent0;
    buffer[0] := Code(SUCCESS);
    ghost var wrote;
    while true
      invariant file.Valid() && 0 <= offset <= 1 && !stream.writeFailed && stream.sent == sent0 + out
      invariant offset == 1 ==> totalWrote == 0 && out == [] && buffer[0] == Code(SUCCESS) && file.pending == parts
      invariant offset == 0 ==> content != [] && totalWrote > 0 && out + file.Data() == whole
      decreases |file.Data()|
    {
      ConcatEmpty(file.pending);
      var read := file.Read(buffer, offset, BUFFER - offset);
      if read <= 0 {
        assert out + [] == out;
        if read < 0 {
          return false, out;
        }
        break;
      }
      // deviation: the source sends buffer[0..read] the first time as well
      var chunk := if slice == FullSlice then buffer[0..offset + read] else buffer[0..read];
      if offset == 1 {
        FirstChunk(slice, content, buffer[..], read, file.Data());
        assert chunk == if slice == FullSlice then buffer[..][0..1 + read] else buffer[..][0..read];
        assert [] + chunk + file.Data() == chunk + file.Data();
      } else {
        NextChunk(out, buffer[0..read], file.Data());
      }
      ok, wrote := WriteChunk(stream, chunk, sent0, out);
      PartOfWhole(out, wrote, chunk, file.Data(), whole);
      out := out + wrote;
      if !ok {
        return;
      }
      offset := 0;
      totalWrote := totalWrote + read;
    }
    ok := true;
    if totalWrote == 0 {
      ok, wrote := WriteChunk(stream, buffer[0..1], sent0, out);
      out := out + wrote;
    }
  }

  /** One write_all, after `out` has been written since `sent0`. */
  method WriteChunk(stream: Stream, chunk: Bytes, ghost sent0: Bytes, ghost out: Bytes)
    returns (ok: bool, ghost wrote: Bytes)
    requires stream.sent == sent0 + out && !stream.writeFailed
    modifies stream`sent, stream`writeFailed
    ensures wrote <= chunk && (ok ==> wrote == chunk) && stream.writeFailed == !ok
    ensures stream.sent == sent0 + (out + wrote)
  {
    ok := stream.WriteAll(chunk);
    if ok {
      wrote := chunk;
    } else {
      ghost var k: nat :| k < |chunk| && stream.sent == sent0 + out + chunk[..k];
      wrote := chunk[..k];
    }
    assert sent0 + out + wrote == sent0 + (out + wrote);
  }

  lemma PartOfWhole(out: Bytes, wrote: Bytes, chunk: Bytes, rest: Bytes, whole: Bytes)
    requires wrote <= chunk && out + chunk + rest == whole
    ensures out + wrote <= whole
  {
    assert chunk == wrote + chunk[|wrote|..];
    assert whole == out + wrote + (chunk[|wrote|..] + rest);
  }

  lemma NothingDelivered(slice: Slice)
    ensures Delivered(slice, [], 0) == []
    ensures forall first: nat :: Delivered(slice, [], first) == []
  {
  }

  lemma NextChunk(sent: Bytes, chunk: Bytes, rest: Bytes)
    ensures sent + (chunk + rest) == sent + chunk + rest
  {
  }

  lemma FirstChunk(slice: Slice, content: Bytes, mem: Bytes, read: nat, rest: Bytes)
    requires 0 < read && 1 + read <= |mem| && mem[0] == Code(SUCCESS)
    requires content == mem[1..1 + read] + rest
    ensures 0 < read <= |content|
    ensures (if slice == FullSlice then mem[0..1 + read] else mem[0..read]) + rest
            == [Code(SUCCESS)] + Delivered(slice, content, read)
  {
    assert mem[0..1 + read] == [mem[0]] + mem[1..1 + read];
    assert mem[0..read] == [mem[0]] + mem[1..read];
    assert content[..read - 1] == mem[1..read] && content[read..] == rest;
  }

  datatype Received = NoData | BadStatus(code: byte) | Interrupted | Complete

  /** The Rust receiver: refuses an empty stream or a non-zero status, strips the
      status byte from the first read and appends every later read. */
  method ReceiveRust(peer: Stream) returns (r: Received, file: Bytes)
    requires peer.Valid()
    modifies peer`pending
    ensures var data := old(peer.Data());
            if data == [] then r == (if peer.broken then Interrupted else NoData) && file == []
            else if data[0] != 0 then r == BadStatus(data[0]) && file == []
            else file == data[1..] && r == if peer.broken then Interrupted else Complete
  {
    ghost var data := peer.Data();
    ConcatEmpty(peer.pending);
    var readBuf := new byte[BUFFER];
    file := [];
    var read := peer.Read(readBuf, 0, BUFFER);
    if read <= 0 {
      return if read == 0 then NoData else Interrupted, file;
    }
    assert data == readBuf[0..read] + peer.Data();
    if readBuf[0] != Code(SUCCESS) {
      return BadStatus(readBuf[0]), file;
    }
    file := file + readBuf[1..read];
    assert data[1..] == file + peer.Data();
    while true
      invariant peer.Valid() && data != [] && data[0] == Code(SUCCESS)
      invariant data[1..] == file + peer.Data()
      decreases |peer.Data()|
    {
      ConcatEmpty(peer.pending);
      read := peer.Read(readBuf, 0, BUFFER);
      if read <= 0 {
        assert file + [] == file;
        return if read == 0 then Complete else Interrupted, file;
      }
      assert file + (readBuf[0..0 + read] + peer.Data()) == file + readBuf[..read] + peer.Data();
      file := file + readBuf[..read];
    }
  }

  /** The C receiver: strips the first byte without looking at it. */
  method ReceiveC(peer: Stream) returns (ok: bool, file: Bytes)
    requires peer.Valid()
    modifies peer`pending
    ensures ok <==> !peer.broken
    ensures var data := old(peer.Data());
            file == if data == [] then [] else data[1..]
  {
    ghost var data := peer.Data();
    var fileBuffer := new byte[4096];
    var firstChunk := true;
    file := [];
    while true
      invariant peer.Valid()
      invariant firstChunk ==> file == [] && peer.Data() == data
      invariant !firstChunk ==> data != [] && data[1..] == file + peer.Data()
      decreases |peer.Data()|
    {
      ghost var rest := peer.Data();
      ConcatEmpty(peer.pending);
      var received := peer.Read(fileBuffer, 0, 4096);
      if received <= 0 {
        assert file + [] == file;
        return received == 0, file;
      }
      assert rest == fileBuffer[0..received] + peer.Data();
      if firstChunk {
        file := file + fileBuffer[1..received];
        firstChunk := false;
      } else {
        assert file + (fileBuffer[0..received] + peer.Data()) == file + fileBuffer[..received] + peer.Data();
        file := file + fileBuffer[..received];
      }
    }
  }

  /** The copy is the file exactly when the slice is the intended one or the file
      is empty. */
  lemma CopyIsExactly(slice: Slice, content: Bytes, first: nat)
    requires content != [] ==> 0 < first <= |content|
    ensures Delivered(slice, content, first) == content <==> slice == FullSlice || content == []
    ensures slice == AsWritten && content != [] ==>
              var copy := Delivered(slice, content, first);
              && |copy| == |content| - 1
              && (forall k | 0 <= k < first - 1 :: copy[k] == content[k])
              && (forall k | first <= k < |content| :: copy[k - 1] == content[k])
  {
  }

  method AnySplitOf(data: Bytes) returns (pieces: seq<Bytes>)
    requires data != []
    ensures Pieces(pieces) && Concat(pieces) == data
    ensures forall k | 0 <= k < |pieces| :: |pieces[k]| <= BUFFER
  {
    pieces := [];
    var sent := 0;
    assert data[..0] == [];
    while sent < |data|
      invariant sent <= |data| && Pieces(pieces) && Concat(pieces) == data[..sent]
      invariant forall k | 0 <= k < |pieces| :: |pieces[k]| <= BUFFER
    {
      var n: nat := *;
      if !(0 < n <= BUFFER && sent + n <= |data|) {
        n := 1;
      }
      ConcatAppend(pieces, [data[sent..sent + n]]);
      assert Concat([data[sent..sent + n]]) == data[sent..sent + n] + Concat([]);
      assert data[..sent] + data[sent..sent + n] == data[..sent + n];
      pieces := pieces + [data[sent..sent + n]];
      sent := sent + n;
    }
    assert data[..sent] == data;
  }

  /** What the listener answers a parsed request with. `first` is the length of
      the first read of the file. */
  ghost function Reply(parsed: Parsed, shared: map<seq<Bytes>, Bytes>, slice: Slice, first: nat): Bytes
    requires first > 0
  {
    match parsed
    case Refused(response) => [Code(response)]
    case Fetch(name) =>
      (match Resolve(name)
       case None => [Code(INVALID_DATA)]
       case Some(path) =>
         if path !in shared then [Code(ERROR)]
         else
           var content := shared[path];
           [Code(SUCCESS)] + Delivered(slice, content, if first <= |content| then first else |content|))
    case _ => []
  }

  /** The answers in bytes: nothing to nothing, one byte to every refusal, and 0 and
      the file otherwise. */
  lemma ReplyBytes(parsed: Parsed, shared: map<seq<Bytes>, Bytes>, slice: Slice, first: nat)
    requires first > 0
    ensures var r := Reply(parsed, shared, slice, first);
            match parsed
            case Nothing => r == []
            case ReadError => r == []
            case Refused(UNKNOWN_ACTION) => r == [2]
            case Refused(UNHANDLED_ACTION) => r == [3]
            case Refused(TOO_MUCH_DATA) => r == [5]
            case Refused(_) => |r| == 1
            case Fetch(name) =>
              if Resolve(name) == None then r == [6]
              else if Resolve(name).value !in shared then r == [1]
              else
                var content := shared[Resolve(name).value];
                r != [] && r[0] == 0 && (slice == FullSlice || content == [] ==> r[1..] == content)
  {
  }

  /** The listener's side of one connection: parse the request, then answer with
      an error code or the file. `shared` maps the paths that can be opened to
      their contents. A failing write leaves a beginning of the answer. */
  method HandleConn(stream: Stream, shared: map<seq<Bytes>, Bytes>, slice: Slice) returns (ghost first: nat)
    requires stream.Valid() && !stream.broken && !stream.writeFailed && stream.sent == []
    requires forall k | 0 <= k < |stream.pending| :: |stream.pending[k]| <= BUFFER
    modifies stream
    ensures first > 0
    ensures var reply := Reply(Parse(old(stream.pending), false), shared, slice, first);
            stream.sent <= reply && (!stream.writeFailed ==> stream.sent == reply)
  {
    hide Concat, Parse, Delivered;
    first := 1;
    var action, answered := GetAction(stream);
    if !action.Fetch? {
      return;
    }
    var path := ResolvePath(action.name);
    if path == None {
      answered := SendResponse(stream, INVALID_DATA);
      return;
    }
    if path.value !in shared {
      answered := SendResponse(stream, ERROR);
      return;
    }
    var content := shared[path.value];
    var parts: seq<Bytes> := [];
    if content != [] {
      parts := AnySplitOf(content);
    }
    NoPieces(parts);
    var file := new Stream(parts, false);
    ghost var n := FirstRead(parts);
    NothingDelivered(slice);
    if content != [] {
      first := n;
    }
    var ok, out := HandleFetch(stream, file, slice);
  }

  lemma NoPieces(parts: seq<Bytes>)
    ensures parts == [] ==> Concat(parts) == []
  {
  }

  /** The file that a storable name leads to, if it can be fetched. */
  ghost predicate Fetchable(name: Bytes, shared: map<seq<Bytes>, Bytes>) {
    |name| <= 99 && Resolve(name).Some? && Resolve(name).value in shared
  }

  /** The whole exchange for a NUL-free ASCII name, both streams split in any way.

      If no write of the listener fails, the fetch completes exactly for a name of
      at most 99 bytes whose path can be opened, and the copy is the shared file
      exactly with the intended slice or an empty file; otherwise the receiver
      sees the code of the refusal. If a write fails, the copy is a beginning of
      what would have been delivered. */
  method FetchFile(name: Bytes, shared: map<seq<Bytes>, Bytes>, slice: Slice)
    returns (r: Received, file: Bytes, writeFailed: bool, ghost first: nat)
    requires Storable(name)
    ensures !writeFailed && |name| > 99 ==> r == BadStatus(5) && file == []
    ensures !writeFailed && |name| <= 99 && Resolve(name) == None ==> r == BadStatus(6) && file == []
    ensures !writeFailed && |name| <= 99 && Resolve(name).Some? && Resolve(name).value !in shared ==>
              r == BadStatus(1) && file == []
    ensures !writeFailed && Fetchable(name, shared) ==>
              var content := shared[Resolve(name).value];
              && r == Complete
              && (content != [] ==> 0 < first <= |content|)
              && file == Delivered(slice, content, first)
              && (file == content <==> slice == FullSlice || content == [])
    ensures writeFailed && !Fetchable(name, shared) ==> file == []
    ensures writeFailed && Fetchable(name, shared) ==>
              var content := shared[Resolve(name).value];
              && (content != [] ==> 0 < first <= |content|)
              && file <= Delivered(slice, content, first)
  {
    hide Concat, Parse, Resolve, Delivered;
    var request := Search.NamedRequest(FETCH, name);
    assert request == FetchRequestFor(name);
    var pieces := AnySplitOf(request);
    ParseIgnoresSplit(name, pieces, false);
    var listener := new Stream(pieces, false);
    first := HandleConn(listener, shared, slice);
    writeFailed := listener.writeFailed;
    var back: seq<Bytes> := [];
    if listener.sent != [] {
      back := AnySplitOf(listener.sent);
    }
    NoPieces(back);
    var peer := new Stream(back, false);
    r, file := ReceiveRust(peer);
    if Fetchable(name, shared) {
      var content := shared[Resolve(name).value];
      NothingDelivered(slice);
      first := if first <= |content| then first else |content|;
      CopyIsExactly(slice, content, first);
    }
  }
}
