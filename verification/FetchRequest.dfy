/**
  The listener's parser of a request that arrives in pieces. It collects the
  name of a FETCH into a string of capacity 100 and stops at the NUL.
 */
module FetchRequest {
  import opened Bytes
  import opened Wire
  import opened Streams

  datatype Response = SUCCESS | ERROR | UNKNOWN_ACTION | UNHANDLED_ACTION | NO_DATA | TOO_MUCH_DATA | INVALID_DATA

  datatype Parsed =
    | Nothing                      // the peer closed without sending
    | Fetch(name: Bytes)
    | Refused(response: Response)  // answered with one byte, then an error
    | ReadError

  function Code(r: Response): byte {
    match r
    case SUCCESS => 0
    case ERROR => 1
    case UNKNOWN_ACTION => 2
    case UNHANDLED_ACTION => 3
    case NO_DATA => 4
    case TOO_MUCH_DATA => 5
    case INVALID_DATA => 6
  }

  const BUFFER := 2048
  const CAPACITY := 100

  /** The string being collected: its characters, its length in UTF-8 bytes and
      its capacity, which doubles when a character no longer fits. */
  datatype Collected = Collected(chars: Bytes, len: nat, capacity: nat) {
    predicate Full() {
      len == capacity
    }

    function Push(b: byte): Collected {
      var len' := len + if b < 128 then 1 else 2;
      Collected(chars + [b], len',
                if len' <= capacity then capacity else if 2 * capacity > len' then 2 * capacity else len')
    }
  }

  const EMPTY := Collected([], 0, CAPACITY)

  datatype Scanned = More(collected: Collected) | Done(name: Bytes) | TooMuch

  /** One piece, from its first unread byte. */
  function ScanPiece(c: Collected, piece: Bytes): Scanned
    decreases |piece|
  {
    if piece == [] then More(c)
    else if c.Full() then TooMuch
    else if piece[0] == 0 then if |piece| == 1 then Done(c.chars) else TooMuch
    else ScanPiece(c.Push(piece[0]), piece[1..])
  }

  function ScanPieces(c: Collected, pieces: seq<Bytes>, broken: bool): Parsed
    decreases |pieces|
  {
    if pieces == [] then
      if broken then ReadError else Fetch(c.chars)
    else
      match ScanPiece(c, pieces[0])
      case More(c') => ScanPieces(c', pieces[1..], broken)
      case Done(name) => Fetch(name)
      case TooMuch => Refused(TOO_MUCH_DATA)
  }

  function Parse(pieces: seq<Bytes>, broken: bool): Parsed
    requires Pieces(pieces)
  {
    if pieces == [] then if broken then ReadError else Nothing
    else if pieces[0][0] > REGISTER then Refused(UNKNOWN_ACTION)
    else if pieces[0][0] != FETCH then Refused(UNHANDLED_ACTION)
    else ScanPieces(EMPTY, [pieces[0][1..]] + pieces[1..], broken)
  }

  /** The loop over one read of the buffer. */
  method ScanBuffer(c: Collected, buffer: array<byte>, offset: nat, read: nat) returns (r: Scanned)
    requires offset <= read <= buffer.Length
    ensures r == ScanPiece(c, buffer[..][offset..read])
  {
    var collected := c;
    ghost var mem := buffer[..];
    for index := offset to read
      invariant ScanPiece(c, mem[offset..read]) == ScanPiece(collected, mem[index..read])
    {
      assert mem[index..read][1..] == mem[index + 1..read];
      if collected.len == collected.capacity {
        return TooMuch;
      }
      if buffer[index] == 0 {
        return if index != read - 1 then TooMuch else Done(collected.chars);
      }
      collected := collected.Push(buffer[index]);
    }
    return More(collected);
  }

  /** Answers with one byte; the request has failed either way. */
  method SendResponse(stream: Stream, response: Response) returns (answered: bool)
    modifies stream`sent, stream`writeFailed
    ensures stream.sent == old(stream.sent) + if answered then [Code(response)] else []
    ensures stream.writeFailed == (old(stream.writeFailed) || !answered)
  {
    answered := stream.WriteAll([Code(response)]);
    if !answered {
      assert [Code(response)][..0] == [];
    }
  }

  /** The parser of the listener over a stream whose pieces fit its buffer. A
      refusal is answered unless that write fails. */
  method GetAction(stream: Stream) returns (r: Parsed, answered: bool)
    requires stream.Valid()
    requires forall k | 0 <= k < |stream.pending| :: |stream.pending[k]| <= BUFFER
    modifies stream`pending, stream`sent, stream`writeFailed
    ensures r == Parse(old(stream.pending), stream.broken)
    ensures answered ==> r.Refused?
    ensures stream.sent == old(stream.sent) + if answered then [Code(r.response)] else []
    ensures stream.writeFailed == (old(stream.writeFailed) || (r.Refused? && !answered))
    ensures r.Refused? && answered ==>
              var pieces := old(stream.pending);
              && pieces != []
              && stream.sent == old(stream.sent) + [if pieces[0][0] > 4 then 2 else if pieces[0][0] != 3 then 3 else 5]
    ensures var pieces := old(stream.pending);
            && (pieces == [] ==> r == if stream.broken then ReadError else Nothing)
            && (pieces != [] && pieces[0][0] != 3 ==> r.Refused?)
            && (pieces != [] && pieces[0][0] == 3 && r.Refused? ==> r.response == TOO_MUCH_DATA)
  {
    OnlyTooMuch(stream.pending, stream.broken);
    r := ReadAction(stream);
    answered := false;
    if r.Refused? {
      answered := SendResponse(stream, r.response);
    }
  }

  /** The reading of get_action. */
  method ReadAction(stream: Stream) returns (r: Parsed)
    requires stream.Valid()
    requires forall k | 0 <= k < |stream.pending| :: |stream.pending[k]| <= BUFFER
    modifies stream`pending
    ensures r == Parse(old(stream.pending), stream.broken)
  {
    var buffer := new byte[BUFFER];
    ghost var pieces := stream.pending;
    var read := stream.Read(buffer, 0, BUFFER);
    if read < 0 {
      return ReadError;
    }
    if read == 0 {
      return Nothing;
    }
    assert buffer[..][0..read] == buffer[0..0 + read] == pieces[0];
    if buffer[0] > REGISTER {
      return Refused(UNKNOWN_ACTION);
    }
    if buffer[0] != FETCH {
      return Refused(UNHANDLED_ACTION);
    }
    var collected, offset := EMPTY, 1;
    ghost var rest := [pieces[0][1..]] + pieces[1..];
    while true
      invariant stream.Valid() && offset <= read <= BUFFER
      invariant forall k | 0 <= k < |stream.pending| :: |stream.pending[k]| <= BUFFER
      invariant Parse(pieces, stream.broken)
                == ScanPieces(collected, [buffer[..][offset..read]] + stream.pending, stream.broken)
      decreases |stream.pending|
    {
      ghost var piece, pending := buffer[..][offset..read], stream.pending;
      assert ([piece] + pending)[1..] == pending;
      var scanned := ScanBuffer(collected, buffer, offset, read);
      match scanned {
        case Done(name) => return Fetch(name);
        case TooMuch => return Refused(TOO_MUCH_DATA);
        case More(c) => collected := c;
      }
      read := stream.Read(buffer, 0, BUFFER);
      if read < 0 {
        return ReadError;
      }
      if read == 0 {
        return Fetch(collected.chars);
      }
      offset := 0;
      assert buffer[..][0..read] == pending[0];
      assert [pending[0]] + pending[1..] == pending;
    }
  }

  /** A FETCH is refused only for its length. */
  lemma {:induction false} ScanRefuses(c: Collected, pieces: seq<Bytes>, broken: bool)
    ensures var r := ScanPieces(c, pieces, broken);
            r.Refused? ==> r.response == TOO_MUCH_DATA
    decreases |pieces|
  {
    if pieces != [] && ScanPiece(c, pieces[0]).More? {
      ScanRefuses(ScanPiece(c, pieces[0]).collected, pieces[1..], broken);
    }
  }

  lemma OnlyTooMuch(pieces: seq<Bytes>, broken: bool)
    requires Pieces(pieces)
    ensures pieces != [] && pieces[0][0] == 3 && Parse(pieces, broken).Refused? ==>
              Parse(pieces, broken).response == TOO_MUCH_DATA
  {
    if pieces != [] && pieces[0][0] == 3 {
      ScanRefuses(EMPTY, [pieces[0][1..]] + pieces[1..], broken);
    }
  }

  // ------------------------------------------------- independence of the split

  /** The request that the fetching peer writes for a name. */
  function FetchRequestFor(name: Bytes): Bytes {
    [FETCH] + name + [0]
  }

  /** The length in UTF-8 of bytes taken as characters. */
  function Utf8Length(text: Bytes): nat {
    if text == [] then 0
    else Utf8Length(text[..|text| - 1]) + if text[|text| - 1] < 128 then 1 else 2
  }

  /** 100, 200, 400 and so on: the capacities that the string goes through. */
  predicate IsCapacity(n: nat) {
    n == 100 || (n > 100 && n % 2 == 0 && IsCapacity(n / 2))
  }

  lemma {:induction false} CapacitiesApart(a: nat, b: nat)
    requires IsCapacity(a) && IsCapacity(b) && a <= b < 2 * a
    ensures a == b
  {
    if a > 100 {
      CapacitiesApart(a / 2, b / 2);
    }
  }

  /** The string is exactly full before some character from `lo` to `hi`. */
  ghost predicate FullWithin(text: Bytes, lo: nat, hi: nat) {
    exists k :: lo <= k < hi && k <= |text| && IsCapacity(Utf8Length(text[..k]))
  }

  ghost predicate Sound(c: Collected) {
    && IsCapacity(c.capacity) && c.len == Utf8Length(c.chars) <= c.capacity
    && (c.capacity == 100 || c.capacity < 2 * c.len)
  }

  lemma FullIs(c: Collected)
    requires Sound(c)
    ensures c.Full() <==> IsCapacity(c.len)
  {
    if IsCapacity(c.len) {
      CapacitiesApart(c.len, c.capacity);
    }
  }

  lemma PushSound(c: Collected, b: byte)
    requires Sound(c) && !c.Full()
    ensures Sound(c.Push(b)) && c.Push(b).chars == c.chars + [b]
  {
    assert (c.chars + [b])[..|c.chars|] == c.chars;
  }

  lemma FullStep(text: Bytes, lo: nat, hi: nat)
    requires lo < hi && lo <= |text|
    ensures FullWithin(text, lo, hi) <==> IsCapacity(Utf8Length(text[..lo])) || FullWithin(text, lo + 1, hi)
  {
  }

  /** A piece inside the text is collected, or finds the string full. */
  lemma {:induction false} ScanText(c: Collected, text: Bytes, lo: nat, hi: nat)
    requires Sound(c) && NulFree(text) && lo <= hi <= |text| && c.chars == text[..lo]
    ensures var r := ScanPiece(c, text[lo..hi]);
            if FullWithin(text, lo, hi) then r == TooMuch
            else r.More? && Sound(r.collected) && r.collected.chars == text[..hi]
    decreases hi - lo
  {
    if lo < hi {
      FullIs(c);
      FullStep(text, lo, hi);
      assert text[lo..hi][0] == text[lo] && text[lo..hi][1..] == text[lo + 1..hi];
      if !c.Full() {
        PushSound(c, text[lo]);
        assert text[..lo] + [text[lo]] == text[..lo + 1];
        ScanText(c.Push(text[lo]), text, lo + 1, hi);
      }
    }
  }

  /** The piece with the terminator, and more after it. */
  lemma {:induction false} ScanEnd(c: Collected, text: Bytes, lo: nat, more: Bytes)
    requires Sound(c) && NulFree(text) && lo <= |text| && c.chars == text[..lo]
    ensures ScanPiece(c, text[lo..] + [0] + more)
            == if FullWithin(text, lo, |text| + 1) || more != [] then TooMuch else Done(text)
    decreases |text| - lo
  {
    var piece := text[lo..] + [0] + more;
    FullIs(c);
    FullStep(text, lo, |text| + 1);
    if lo == |text| {
      assert text[..lo] == text && piece == [0] + more;
    } else {
      assert piece[0] == text[lo] && piece[1..] == text[lo + 1..] + [0] + more;
      if !c.Full() {
        PushSound(c, text[lo]);
        assert text[..lo] + [text[lo]] == text[..lo + 1];
        ScanEnd(c.Push(text[lo]), text, lo + 1, more);
      }
    }
  }

  /** A read ends right after the first `n` bytes. */
  predicate EndsAfter(pieces: seq<Bytes>, n: nat)
    decreases |pieces|
  {
    n == 0 || (pieces != [] && |pieces[0]| <= n && EndsAfter(pieces[1..], n - |pieces[0]|))
  }

  /** The first of the pieces that make up some text, a terminator and a tail. */
  lemma CutPiece(pieces: seq<Bytes>, text: Bytes, lo: nat, tail: Bytes)
    requires pieces != [] && lo <= |text| && Concat(pieces) == text[lo..] + [0] + tail
    ensures var k := lo + |pieces[0]|;
            if k <= |text| then pieces[0] == text[lo..k] && Concat(pieces[1..]) == text[k..] + [0] + tail
            else k - |text| - 1 <= |tail| && pieces[0] == text[lo..] + [0] + tail[..k - |text| - 1]
  {
    var head, rest, whole := pieces[0], Concat(pieces[1..]), text[lo..] + [0] + tail;
    assert head == whole[..|head|] && rest == whole[|head|..];
  }

  lemma {:induction false} AnyTerminated(c: Collected, pieces: seq<Bytes>, text: Bytes, lo: nat, tail: Bytes, broken: bool)
    requires Sound(c) && NulFree(text) && lo <= |text| && c.chars == text[..lo]
    requires Concat(pieces) == text[lo..] + [0] + tail
    ensures ScanPieces(c, pieces, broken)
            == if FullWithin(text, lo, |text| + 1) || !EndsAfter(pieces, |text| + 1 - lo) then Refused(TOO_MUCH_DATA)
               else Fetch(text)
    decreases |pieces|
  {
    hide FullWithin, ScanPiece, Sound, NulFree;
    CutPiece(pieces, text, lo, tail);
    var k := lo + |pieces[0]|;
    if k > |text| {
      ScanEnd(c, text, lo, tail[..k - |text| - 1]);
    } else {
      ScanText(c, text, lo, k);
      FullSplit(text, lo, k, |text| + 1);
      if !FullWithin(text, lo, k) {
        AnyTerminated(ScanPiece(c, pieces[0]).collected, pieces[1..], text, k, tail, broken);
      }
    }
  }

  lemma FullSplit(text: Bytes, lo: nat, k: nat, hi: nat)
    requires lo <= k <= hi
    ensures FullWithin(text, lo, hi) <==> FullWithin(text, lo, k) || FullWithin(text, k, hi)
  {
  }

  lemma {:induction false} AnyUnterminated(c: Collected, pieces: seq<Bytes>, text: Bytes, lo: nat, broken: bool)
    requires Sound(c) && NulFree(text) && lo <= |text| && c.chars == text[..lo]
    requires Concat(pieces) == text[lo..]
    ensures ScanPieces(c, pieces, broken)
            == if FullWithin(text, lo, |text|) then Refused(TOO_MUCH_DATA)
               else if broken then ReadError else Fetch(text)
    decreases |pieces|
  {
    hide ScanPiece, Sound, NulFree;
    if pieces == [] {
      assert lo == |text| && text[..lo] == text;
    } else {
      var head, rest := pieces[0], Concat(pieces[1..]);
      var k := lo + |head|;
      assert head + rest == text[lo..];
      assert head == text[lo..][..|head|] == text[lo..k] && rest == text[lo..][|head|..] == text[k..];
      ScanText(c, text, lo, k);
      FullSplit(text, lo, k, |text|);
      if !FullWithin(text, lo, k) {
        AnyUnterminated(ScanPiece(c, head).collected, pieces[1..], text, k, broken);
      }
    }
  }

  /** The pieces of a request without its first byte. */
  lemma BodyPieces(pieces: seq<Bytes>, body: Bytes, n: nat)
    requires Pieces(pieces) && Concat(pieces) == [3] + body
    ensures pieces != [] && pieces[0] != [] && pieces[0][0] == FETCH
    ensures var rest := [pieces[0][1..]] + pieces[1..];
            Concat(rest) == body && (n > 0 ==> (EndsAfter(rest, n) <==> EndsAfter(pieces, n + 1)))
  {
    var data := Concat(pieces);
    assert pieces[0][0] == data[0] == FETCH;
    var rest := [pieces[0][1..]] + pieces[1..];
    assert rest[1..] == pieces[1..];
    assert Concat(rest) == data[1..] == body;
  }

  /** Any request for a file that has its terminator, any bytes after that and any
      split: the name is the text, unless the string is exactly full before one of
      its characters or the terminator, or no read ends right after that. */
  lemma TerminatedExactly(text: Bytes, tail: Bytes, pieces: seq<Bytes>, broken: bool)
    requires NulFree(text) && Pieces(pieces) && Concat(pieces) == [3] + text + [0] + tail
    ensures Parse(pieces, broken)
            == if FullWithin(text, 0, |text| + 1) || !EndsAfter(pieces, |text| + 2) then Refused(TOO_MUCH_DATA)
               else Fetch(text)
  {
    hide ScanPieces, FullWithin, Concat, EndsAfter;
    assert [3] + text + [0] + tail == [3] + (text[0..] + [0] + tail);
    BodyPieces(pieces, text[0..] + [0] + tail, |text| + 1);
    AnyTerminated(EMPTY, [pieces[0][1..]] + pieces[1..], text, 0, tail, broken);
  }

  /** Any request for a file that ends before its terminator, and any split: the
      peer that closes there has asked for the text, unless the string is exactly
      full before one of its characters; a broken connection is an error. */
  lemma UnterminatedExactly(text: Bytes, pieces: seq<Bytes>, broken: bool)
    requires NulFree(text) && Pieces(pieces) && Concat(pieces) == [3] + text
    ensures Parse(pieces, broken)
            == if FullWithin(text, 0, |text|) then Refused(TOO_MUCH_DATA)
               else if broken then ReadError else Fetch(text)
  {
    hide ScanPieces, FullWithin, Concat, EndsAfter;
    assert text[0..] == text;
    BodyPieces(pieces, text, 0);
    AnyUnterminated(EMPTY, [pieces[0][1..]] + pieces[1..], text, 0, broken);
  }

  lemma {:induction false} AsciiLength(text: Bytes)
    requires Ascii(text)
    ensures Utf8Length(text) == |text|
  {
    if text != [] {
      AsciiLength(text[..|text| - 1]);
    }
  }

  lemma AsciiFull(text: Bytes, hi: nat)
    requires Ascii(text) && hi <= |text| + 1
    ensures FullWithin(text, 0, hi) <==> hi > 100
  {
    forall k | 0 <= k <= |text|
      ensures Utf8Length(text[..k]) == k
    {
      AsciiLength(text[..k]);
    }
    if hi > 100 {
      assert Utf8Length(text[..100]) == 100;
    }
  }

  /** An ASCII name without its terminator: fetched up to 100 bytes if the peer
      closes, a read error if the connection breaks, and too much above that. */
  lemma UnterminatedName(name: Bytes, pieces: seq<Bytes>, broken: bool)
    requires Storable(name) && Pieces(pieces) && Concat(pieces) == [3] + name
    ensures Parse(pieces, broken)
            == if |name| > 100 then Refused(TOO_MUCH_DATA) else if broken then ReadError else Fetch(name)
  {
    AsciiFull(name, |name|);
    UnterminatedExactly(name, pieces, broken);
  }

  /** An ASCII name with its terminator and any bytes after that: the request is
      accepted exactly when the name fits and some read ends right after it. */
  lemma ParseExactly(name: Bytes, tail: Bytes, pieces: seq<Bytes>, broken: bool)
    requires Storable(name) && Pieces(pieces) && Concat(pieces) == FetchRequestFor(name) + tail
    ensures Parse(pieces, broken)
            == if |name| <= 99 && EndsAfter(pieces, |name| + 2) then Fetch(name) else Refused(TOO_MUCH_DATA)
  {
    AsciiFull(name, |name| + 1);
    TerminatedExactly(name, tail, pieces, broken);
  }

  lemma {:induction false} AllEndsAfter(pieces: seq<Bytes>)
    ensures EndsAfter(pieces, |Concat(pieces)|)
  {
    if pieces != [] {
      AllEndsAfter(pieces[1..]);
    }
  }

  /** Every split of the encoded request into non-empty reads gives the same
      result: the name when it has at most 99 bytes, else TOO_MUCH_DATA. */
  lemma ParseIgnoresSplit(name: Bytes, pieces: seq<Bytes>, broken: bool)
    requires Storable(name) && Pieces(pieces) && Concat(pieces) == FetchRequestFor(name)
    ensures Parse(pieces, broken) == if |name| <= 99 then Fetch(name) else Refused(TOO_MUCH_DATA)
  {
    AllEndsAfter(pieces);
    assert FetchRequestFor(name) + [] == FetchRequestFor(name);
    ParseExactly(name, [], pieces, broken);
  }

  // ------------------------------------------------------ bytes after the name

  /** What the parser can be given of the data: pieces that fit its buffer. */
  ghost predicate SplitOf(pieces: seq<Bytes>, data: Bytes) {
    Pieces(pieces) && Concat(pieces) == data && forall k | 0 <= k < |pieces| :: |pieces[k]| <= BUFFER
  }

  function Singles(data: Bytes): seq<Bytes> {
    if data == [] then [] else [[data[0]]] + Singles(data[1..])
  }

  lemma {:induction false} SinglesSplit(data: Bytes)
    ensures SplitOf(Singles(data), data)
  {
    if data != [] {
      SinglesSplit(data[1..]);
      var rest := Singles(data[1..]);
      assert ([[data[0]]] + rest)[1..] == rest;
      assert [data[0]] + data[1..] == data;
    }
  }

  /** A first read of `head`, and then single bytes. */
  lemma HeadSplit(head: Bytes, tail: Bytes)
    requires 0 < |head| <= BUFFER
    ensures SplitOf([head] + Singles(tail), head + tail)
    ensures ([head] + Singles(tail))[1..] == Singles(tail)
  {
    SinglesSplit(tail);
    assert ([head] + Singles(tail))[1..] == Singles(tail);
  }

  /** One byte too many in the first read, or just enough. */
  lemma TwoSplits(name: Bytes, tail: Bytes)
    requires Storable(name) && |name| <= 99 && tail != []
    ensures var data := FetchRequestFor(name) + tail;
            exists a, b | SplitOf(a, data) && SplitOf(b, data) ::
              Parse(a, false) == Refused(TOO_MUCH_DATA) && Parse(b, false) == Fetch(name)
  {
    hide Parse, Concat, Singles, Pieces;
    var request := FetchRequestFor(name);
    var a, b := [request + tail[..1]] + Singles(tail[1..]), [request] + Singles(tail);
    HeadSplit(request + tail[..1], tail[1..]);
    HeadSplit(request, tail);
    assert request + tail[..1] + tail[1..] == request + tail;
    ParseExactly(name, tail, a, false);
    ParseExactly(name, tail, b, false);
    assert !EndsAfter(a, |name| + 2) && EndsAfter(b, |name| + 2);
  }

  /** The result is the same for every split exactly when the name is too long
      or nothing follows the terminator. */
  lemma SplitsAgreeExactly(name: Bytes, tail: Bytes)
    requires Storable(name)
    ensures (forall a, b | SplitOf(a, FetchRequestFor(name) + tail) && SplitOf(b, FetchRequestFor(name) + tail) ::
               Parse(a, false) == Parse(b, false))
            <==> |name| > 99 || tail == []
  {
    hide Parse, Concat;
    var request := FetchRequestFor(name);
    if |name| > 99 || tail == [] {
      forall a | SplitOf(a, request + tail)
        ensures Parse(a, false) == if |name| <= 99 then Fetch(name) else Refused(TOO_MUCH_DATA)
      {
        if tail == [] {
          assert request + tail == request;
          ParseIgnoresSplit(name, a, false);
        } else {
          ParseExactly(name, tail, a, false);
        }
      }
    } else {
      TwoSplits(name, tail);
    }
  }
}
