/**
  A byte stream as its reader meets it: the pieces in which the data arrives
  are arbitrary, and the end of the data is either a close or an error. Every
  fragmentation of a stream is some value of `pending`.
 */
module Streams {
  import opened Bytes

  predicate Pieces(pending: seq<Bytes>) {
    forall i | 0 <= i < |pending| :: pending[i] != []
  }

  /** What one read with room for `cap` bytes returns. */
  function Taken(pending: seq<Bytes>, cap: nat): Bytes {
    if pending == [] then []
    else if |pending[0]| <= cap then pending[0]
    else pending[0][..cap]
  }

  function Left(pending: seq<Bytes>, cap: nat): (r: seq<Bytes>)
    requires Pieces(pending)
    ensures Pieces(r)
  {
    if pending == [] then []
    else if |pending[0]| <= cap then pending[1..]
    else [pending[0][cap..]] + pending[1..]
  }

  lemma TakenLeft(pending: seq<Bytes>, cap: nat)
    requires Pieces(pending)
    ensures Concat(pending) == Taken(pending, cap) + Concat(Left(pending, cap))
    ensures |Taken(pending, cap)| <= cap
    ensures pending != [] && cap > 0 ==> |Taken(pending, cap)| > 0
  {
    if pending != [] && |pending[0]| > cap {
      var head := pending[0];
      assert Left(pending, cap)[1..] == pending[1..];
      assert head == head[..cap] + head[cap..];
      assert head + Concat(pending[1..]) == head[..cap] + (head[cap..] + Concat(pending[1..]));
    }
  }

  lemma ConcatEmpty(pending: seq<Bytes>)
    requires Pieces(pending)
    ensures Concat(pending) == [] <==> pending == []
  {
  }

  class Stream {
    var pending: seq<Bytes>
    var broken: bool
    // what this side has written, and whether a write has failed
    var sent: Bytes
    var writeFailed: bool

    ghost predicate Valid()
      reads this
    {
      Pieces(pending)
    }

    ghost function Data(): Bytes
      reads this
    {
      Concat(pending)
    }

    constructor (pending: seq<Bytes>, broken: bool)
      requires Pieces(pending)
      ensures Valid() && this.pending == pending && this.broken == broken
      ensures sent == [] && !writeFailed
    {
      this.pending := pending;
      this.broken := broken;
      this.sent := [];
      this.writeFailed := false;
    }

    /** Writes all the data, or fails having written a proper beginning of it. */
    method WriteAll(data: Bytes) returns (ok: bool)
      modifies this`sent, this`writeFailed
      ensures writeFailed == (old(writeFailed) || !ok)
      ensures if ok then sent == old(sent) + data
              else exists k: nat | k < |data| :: sent == old(sent) + data[..k]
    {
      var k: int := *;
      ok := !(0 <= k < |data|);
      if ok {
        sent := sent + data;
      } else {
        sent := sent + data[..k];
        writeFailed := true;
      }
    }

    /** `recv(buf + off, cap)`: 0 at a close and -1 at an error. */
    method Read(buf: array<byte>, off: nat, cap: nat) returns (n: int)
      requires Valid() && 0 < cap && off + cap <= buf.Length
      modifies this`pending, buf
      ensures Valid()
      ensures old(pending) == [] ==> n == (if broken then -1 else 0) && pending == [] && buf[..] == old(buf[..])
      ensures old(pending) != [] ==> 0 < n <= cap && pending == Left(old(pending), cap)
      ensures old(pending) != [] ==> Taken(old(pending), cap) == buf[off..off + n]
      ensures old(pending) != [] ==> old(Data()) == buf[off..off + n] + Data()
      ensures buf[..off] == old(buf[..off])
    {
      if pending == [] {
        return if broken then -1 else 0;
      }
      TakenLeft(pending, cap);
      var piece := Taken(pending, cap);
      n := |piece|;
      for k := 0 to n
        invariant pending == old(pending)
        invariant buf[..off] == old(buf[..off])
        invariant buf[off..off + k] == piece[..k]
      {
        buf[off + k] := piece[k];
      }
      pending := Left(pending, cap);
    }

    /** Reads until the buffer is full, or until the data `ended` before that. */
    method Fill(buf: array<byte>) returns (filled: nat, ended: bool)
      requires Valid()
      modifies this`pending, buf
      ensures Valid() && filled <= buf.Length
      ensures old(Data()) == buf[..filled] + Data()
      ensures if ended then filled < buf.Length && pending == [] && Data() == [] else filled == buf.Length
    {
      hide Concat;
      ghost var data := Data();
      filled, ended := 0, false;
      while filled != buf.Length
        invariant filled <= buf.Length && Valid()
        invariant data == buf[..filled] + Data()
      {
        ConcatEmpty(pending);
        var read := Read(buf, filled, buf.Length - filled);
        if read <= 0 {
          ended := true;
          return;
        }
        assert buf[..filled + read] == buf[..filled] + buf[filled..filled + read];
        filled := filled + read;
      }
    }
  }
}
