/**
  The request formats shared by the peers and the registry, and the grammar
  that a PUBLISH payload has to follow.
 */
module Wire {
  import opened Bytes

  const JOIN: byte := 0
  const PUBLISH: byte := 1
  const SEARCH: byte := 2
  const FETCH: byte := 3
  const REGISTER: byte := 4

  /** A payload of this many bytes or more is refused by the registry. */
  const PUBLISH_LIMIT := 1199

  /** Each name followed by its NUL. */
  function EncodeNames(names: seq<Bytes>): Bytes {
    if names == [] then [] else names[0] + [0] + EncodeNames(names[1..])
  }

  predicate AllStorable(names: seq<Bytes>) {
    forall i | 0 <= i < |names| :: Storable(names[i])
  }

  /** The grammar of an accepted payload: a big-endian count, that many
      NUL-terminated ASCII strings, and any tail. */
  predicate Publication(payload: Bytes, maxFiles: nat, names: seq<Bytes>) {
    && 4 <= |payload| < PUBLISH_LIMIT
    && payload[0] as int * 0x100_0000 + payload[1] as int * 0x1_0000 + payload[2] as int * 0x100 + payload[3] == |names| <= maxFiles
    && AllStorable(names)
    && EncodeNames(names) <= payload[4..]
  }

  /** Reads `n` strings from the front of `s`. */
  function DecodeNames(n: nat, s: Bytes): Option<seq<Bytes>> {
    if n == 0 then
      Some([])
    else
      var name := CString(s);
      if |name| == |s| || !Ascii(name) then
        None
      else
        match DecodeNames(n - 1, s[|name| + 1..])
        case None => None
        case Some(rest) => Some([name] + rest)
  }

  function ParsePublish(payload: Bytes, maxFiles: nat): Option<seq<Bytes>> {
    if |payload| < 4 || |payload| >= PUBLISH_LIMIT then
      None
    else
      var n := FromBE32(payload[..4]);
      if n > maxFiles then None else DecodeNames(n, payload[4..])
  }

  lemma PrefixUnder(head: Bytes, a: Bytes, b: Bytes)
    requires a <= b
    ensures head + a <= head + b
  {
    assert b == a + b[|a|..];
    assert head + b == head + a + b[|a|..];
  }

  lemma PrefixWithout(head: Bytes, a: Bytes, s: Bytes)
    requires head + a <= s
    ensures s == head + s[|head|..] && a <= s[|head|..]
  {
    assert s == head + a + s[|head + a|..];
    assert s[|head|..] == a + s[|head + a|..];
  }

  lemma EncodeCons(name: Bytes, names: seq<Bytes>, rest: Bytes)
    requires Storable(name) && AllStorable(names) && EncodeNames(names) <= rest
    ensures AllStorable([name] + names)
    ensures EncodeNames([name] + names) <= name + [0] + rest
  {
    assert ([name] + names)[1..] == names;
    PrefixUnder(name + [0], EncodeNames(names), rest);
  }

  lemma CStringSplit(s: Bytes)
    requires |CString(s)| < |s|
    ensures s == CString(s) + [0] + s[|CString(s)| + 1..]
  {
    var name := CString(s);
    assert s == s[..|name|] + [s[|name|]] + s[|name| + 1..];
  }

  lemma {:induction false} DecodeSound(n: nat, s: Bytes)
    requires DecodeNames(n, s).Some?
    ensures |DecodeNames(n, s).value| == n && AllStorable(DecodeNames(n, s).value)
    ensures EncodeNames(DecodeNames(n, s).value) <= s
  {
    if n > 0 {
      var name := CString(s);
      var rest := s[|name| + 1..];
      DecodeSound(n - 1, rest);
      CStringSplit(s);
      EncodeCons(name, DecodeNames(n - 1, rest).value, rest);
    }
  }

  lemma {:induction false} DecodeComplete(names: seq<Bytes>, s: Bytes)
    requires AllStorable(names) && EncodeNames(names) <= s
    ensures DecodeNames(|names|, s) == Some(names)
  {
    if names != [] {
      var head := names[0] + [0];
      PrefixWithout(head, EncodeNames(names[1..]), s);
      var tail := s[|head|..];
      CStringTerminated(names[0], tail);
      DecodeComplete(names[1..], tail);
      assert names == [names[0]] + names[1..];
    }
  }

  /** The parser accepts exactly the grammar, and what it returns is the one
      list the payload can stand for. */
  lemma PublishGrammar(payload: Bytes, maxFiles: nat, names: seq<Bytes>)
    ensures ParsePublish(payload, maxFiles) == Some(names) <==> Publication(payload, maxFiles, names)
  {
    if ParsePublish(payload, maxFiles) == Some(names) {
      DecodeSound(FromBE32(payload[..4]), payload[4..]);
    }
    if Publication(payload, maxFiles, names) {
      DecodeComplete(names, payload[4..]);
    }
  }

  lemma PublicationUnique(payload: Bytes, maxFiles: nat, a: seq<Bytes>, b: seq<Bytes>)
    requires Publication(payload, maxFiles, a) && Publication(payload, maxFiles, b)
    ensures a == b
  {
    PublishGrammar(payload, maxFiles, a);
    PublishGrammar(payload, maxFiles, b);
  }

  lemma {:induction false} EncodeNamesAppend(a: seq<Bytes>, name: Bytes)
    ensures EncodeNames(a + [name]) == EncodeNames(a) + name + [0]
  {
    if a == [] {
      assert a + [name] == [name];
      assert EncodeNames([name]) == name + [0] + EncodeNames([]);
    } else {
      EncodeNamesAppend(a[1..], name);
      assert (a + [name])[1..] == a[1..] + [name];
    }
  }
}
