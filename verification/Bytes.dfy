/**
  Byte strings as both peers and the registry see them: octets, network-order
  integers and the C view of memory as NUL-terminated text.
 */
module Bytes {

  type byte = x: int | 0 <= x < 256

  type u16 = x: int | 0 <= x < 0x1_0000

  type u32 = x: int | 0 <= x < 0x1_0000_0000

  type Bytes = seq<byte>

  datatype Option<+T> = None | Some(value: T)

  predicate Ascii(s: Bytes) {
    forall i | 0 <= i < |s| :: s[i] < 128
  }

  predicate NulFree(s: Bytes) {
    forall i | 0 <= i < |s| :: s[i] != 0
  }

  /** A name that can be stored: what a NUL-terminated ASCII string can hold. */
  predicate Storable(s: Bytes) {
    Ascii(s) && NulFree(s)
  }

  function ToBE32(x: u32): (r: Bytes)
    ensures |r| == 4
  {
    [x / 0x100_0000, x / 0x1_0000 % 256, x / 256 % 256, x % 256]
  }

  function FromBE32(s: Bytes): u32
    requires |s| == 4
  {
    var a: int, b: int, c: int, d: int := s[0], s[1], s[2], s[3];
    a * 0x100_0000 + b * 0x1_0000 + c * 256 + d
  }

  function FromBE16(s: Bytes): u16
    requires |s| == 2
  {
    var a: int, b: int := s[0], s[1];
    a * 256 + b
  }

  lemma BE32RoundTrip(x: u32)
    ensures FromBE32(ToBE32(x)) == x
  {
    var q, r := x / 256, x / 0x1_0000;
    assert r == q / 256 && x / 0x100_0000 == r / 256;
    assert x == q * 256 + x % 256;
    assert q == r * 256 + q % 256;
    assert r == r / 256 * 256 + r % 256;
  }

  lemma OctetsUnique(a: byte, b: byte, c: byte, d: byte, a': byte, b': byte, c': byte, d': byte)
    requires a as int * 0x100_0000 + b as int * 0x1_0000 + c as int * 0x100 + d as int
             == a' as int * 0x100_0000 + b' as int * 0x1_0000 + c' as int * 0x100 + d' as int
    ensures a == a' && b == b' && c == c' && d == d'
  {
  }

  /** The bytes before the first NUL, or all of them when there is none. */
  function CString(s: Bytes): (r: Bytes)
    ensures r <= s && NulFree(r)
    ensures |r| < |s| ==> s[|r|] == 0
  {
    if s == [] || s[0] == 0 then [] else [s[0]] + CString(s[1..])
  }

  /** Those two facts pin the C string down. */
  lemma {:induction false} CStringUnique(s: Bytes, k: nat)
    requires k <= |s| && NulFree(s[..k])
    requires k < |s| ==> s[k] == 0
    ensures CString(s) == s[..k]
  {
    var r := CString(s);
    assert forall i | 0 <= i < k :: s[..k][i] == s[i];
    assert forall i | 0 <= i < |r| :: r[i] == s[i];
  }

  lemma CStringTerminated(name: Bytes, tail: Bytes)
    requires NulFree(name)
    ensures CString(name + [0] + tail) == name
  {
    var s := name + [0] + tail;
    assert s[..|name|] == name;
    CStringUnique(s, |name|);
  }

  /** Reading the string in the memory up to its NUL stays inside it. */
  predicate NulInside(mem: Bytes) {
    |CString(mem)| < |mem|
  }

  lemma NulInsideExactly(mem: Bytes)
    ensures NulInside(mem) <==> 0 in mem
  {
    if |CString(mem)| == |mem| {
      assert CString(mem) == mem;
    }
  }

  function Concat(parts: seq<Bytes>): Bytes {
    if parts == [] then [] else parts[0] + Concat(parts[1..])
  }

  lemma {:induction false} ConcatAppend(a: seq<Bytes>, b: seq<Bytes>)
    ensures Concat(a + b) == Concat(a) + Concat(b)
  {
    if a == [] {
      assert a + b == b;
    } else {
      assert (a + b)[0] == a[0] && (a + b)[1..] == a[1..] + b;
      ConcatAppend(a[1..], b);
    }
  }
}
