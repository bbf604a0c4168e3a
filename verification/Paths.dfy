/**
  The requested name as a path below the shared directory: the components that
  the listener walks, and the ones for which it refuses the request.
 */
module Paths {
  import opened Bytes

  const SLASH: byte := 47
  const DOT: Bytes := [46]
  const DOTDOT: Bytes := [46, 46]

  datatype Component = RootDir | CurDir | ParentDir | Normal(name: Bytes)

  /** The text before the first slash. */
  function Head(name: Bytes): (h: Bytes)
    ensures h <= name && SLASH !in h
    ensures |h| < |name| ==> name[|h|] == SLASH
  {
    if name == [] || name[0] == SLASH then [] else [name[0]] + Head(name[1..])
  }

  /** The texts between slashes. */
  function Segments(name: Bytes): seq<Bytes>
    decreases |name|
  {
    var h := Head(name);
    if |h| == |name| then [h] else [h] + Segments(name[|h| + 1..])
  }

  /** A leading "." is a component; later ones and empty ones are skipped. */
  function Walk(segments: seq<Bytes>, first: bool): seq<Component> {
    if segments == [] then []
    else
      (if segments[0] == [] then []
       else if segments[0] == DOT then if first then [CurDir] else []
       else if segments[0] == DOTDOT then [ParentDir]
       else [Normal(segments[0])])
      + Walk(segments[1..], false)
  }

  function Components(name: Bytes): seq<Component> {
    if name != [] && name[0] == SLASH then [RootDir] + Walk(Segments(name), false)
    else Walk(Segments(name), true)
  }

  predicate Ordinary(segment: Bytes) {
    segment != [] && segment != DOT && segment != DOTDOT && SLASH !in segment
  }

  function OrdinaryOnly(segments: seq<Bytes>): seq<Bytes> {
    if segments == [] then []
    else (if Ordinary(segments[0]) then [segments[0]] else []) + OrdinaryOnly(segments[1..])
  }

  /** Where a name leads below the shared directory: nowhere if it starts at the
      root or goes up, and otherwise along its ordinary segments. */
  function Resolve(name: Bytes): Option<seq<Bytes>> {
    if (name != [] && name[0] == SLASH) || DOTDOT in Segments(name) then None
    else Some(OrdinaryOnly(Segments(name)))
  }

  lemma {:induction false} SegmentsHaveNoSlash(name: Bytes)
    ensures forall k | 0 <= k < |Segments(name)| :: SLASH !in Segments(name)[k]
    decreases |name|
  {
    var h := Head(name);
    if |h| < |name| {
      SegmentsHaveNoSlash(name[|h| + 1..]);
    }
  }

  /** The ordinary names among components, unless one is the root or goes up. */
  function Kept(components: seq<Component>): Option<seq<Bytes>> {
    if components == [] then Some([])
    else
      match components[0]
      case RootDir => None
      case ParentDir => None
      case CurDir => Kept(components[1..])
      case Normal(name) =>
        match Kept(components[1..])
        case None => None
        case Some(rest) => Some([name] + rest)
  }

  lemma {:induction false} WalkKeeps(segments: seq<Bytes>, first: bool)
    requires forall k | 0 <= k < |segments| :: SLASH !in segments[k]
    ensures Kept(Walk(segments, first)) == if DOTDOT in segments then None else Some(OrdinaryOnly(segments))
  {
    if segments != [] {
      var rest := Walk(segments[1..], false);
      WalkKeeps(segments[1..], false);
      assert DOTDOT in segments <==> segments[0] == DOTDOT || DOTDOT in segments[1..];
      var kept := OrdinaryOnly(segments[1..]);
      assert [] + kept == kept;
      var walked := Walk(segments, first);
      if segments[0] == [] || (segments[0] == DOT && !first) {
        assert walked == rest;
      } else {
        assert walked[1..] == rest;
      }
    }
  }

  /** The loop of the listener over the components. */
  method ResolvePath(name: Bytes) returns (path: Option<seq<Bytes>>)
    ensures path == Resolve(name)
  {
    var components := Components(name);
    ComponentsKeep(name);
    var pushed := [];
    var index := 0;
    while index < |components|
      invariant index <= |components|
      invariant Kept(components) == Prefixed(pushed, Kept(components[index..]))
    {
      assert components[index..][1..] == components[index + 1..];
      PrefixedStep(pushed, components[index..]);
      match components[index] {
        case Normal(segment) => pushed := pushed + [segment];
        case CurDir =>
        case RootDir => return None;
        case ParentDir => return None;
      }
      index := index + 1;
    }
    assert pushed + [] == pushed;
    return Some(pushed);
  }

  function Prefixed(done: seq<Bytes>, rest: Option<seq<Bytes>>): Option<seq<Bytes>> {
    match rest
    case None => None
    case Some(names) => Some(done + names)
  }

  lemma PrefixedStep(done: seq<Bytes>, components: seq<Component>)
    requires components != []
    ensures Prefixed(done, Kept(components))
            == match components[0]
               case RootDir => None
               case ParentDir => None
               case CurDir => Prefixed(done, Kept(components[1..]))
               case Normal(name) => Prefixed(done + [name], Kept(components[1..]))
    ensures Prefixed([], Kept(components)) == Kept(components)
  {
    var rest := Kept(components[1..]);
    if components[0].Normal? && rest.Some? {
      assert done + ([components[0].name] + rest.value) == done + [components[0].name] + rest.value;
    }
    if Kept(components).Some? {
      assert [] + Kept(components).value == Kept(components).value;
    }
  }

  lemma ComponentsKeep(name: Bytes)
    ensures Kept(Components(name)) == Resolve(name)
    ensures Prefixed([], Kept(Components(name)[0..])) == Kept(Components(name))
  {
    SegmentsHaveNoSlash(name);
    WalkKeeps(Segments(name), true);
    var all := Components(name);
    assert all[0..] == all;
    if all != [] {
      PrefixedStep([], all);
    }
  }

  /** What a resolved name consists of: it stays below the shared directory. */
  lemma {:induction false} OrdinaryOnlyIs(segments: seq<Bytes>)
    ensures forall k | 0 <= k < |OrdinaryOnly(segments)| :: Ordinary(OrdinaryOnly(segments)[k])
  {
    if segments != [] {
      OrdinaryOnlyIs(segments[1..]);
    }
  }

  lemma ResolvedStaysBelow(name: Bytes)
    requires Resolve(name).Some?
    ensures forall k | 0 <= k < |Resolve(name).value| :: Ordinary(Resolve(name).value[k])
  {
    OrdinaryOnlyIs(Segments(name));
  }

  /** A plain file name is its own path. */
  lemma PlainNameResolves(name: Bytes)
    requires Ordinary(name)
    ensures Resolve(name) == Some([name])
  {
    var h := Head(name);
    assert forall k | 0 <= k < |name| :: name[k] in name;
    assert h == name[..|h|] == name;
    assert Segments(name) == [name];
    assert OrdinaryOnly([name][1..]) == [] && [name] + [] == [name];
    assert OrdinaryOnly([name]) == [name];
    assert DOTDOT !in [name];
  }

  // ------------------------------------------------------ on the name itself

  /** A stretch of the name between slashes or its ends. */
  predicate Stretch(name: Bytes, lo: nat, hi: nat): (b: bool)
    ensures b ==> lo <= hi <= |name|
  {
    && lo <= hi <= |name|
    && (lo == 0 || name[lo - 1] == 47) && (hi == |name| || name[hi] == 47)
    && forall k | lo <= k < hi :: name[k] != 47
  }

  lemma StretchInRest(name: Bytes, n: nat, lo: nat, hi: nat)
    requires n < |name| && name[n] == 47 && lo > n && hi > n
    ensures Stretch(name, lo, hi) <==> Stretch(name[n + 1..], lo - n - 1, hi - n - 1)
    ensures lo <= hi <= |name| ==> name[lo..hi] == name[n + 1..][lo - n - 1..hi - n - 1]
  {
    var rest := name[n + 1..];
    assert forall k | n < k < |name| :: name[k] == rest[k - n - 1];
    assert forall k | 0 <= k < |rest| :: rest[k] == name[k + n + 1];
  }

  lemma HeadIs(name: Bytes)
    ensures var n := |Head(name)|;
            && Head(name) == name[..n] == name[0..n] && Stretch(name, 0, n) && (n < |name| ==> name[n] == 47)
  {
    var h := Head(name);
    assert forall k | 0 <= k < |h| :: h[k] in h && name[k] == h[k];
  }

  /** A stretch is the first one, or lies in what follows the first slash. */
  lemma FirstStretch(name: Bytes, lo: nat, hi: nat)
    requires Stretch(name, lo, hi)
    ensures var n := |Head(name)|;
            if lo <= n then lo == 0 && hi == n else n < |name| && name[n] == 47 && hi > n
  {
    HeadIs(name);
  }

  lemma {:induction false} StretchIsSegment(name: Bytes, lo: nat, hi: nat)
    requires Stretch(name, lo, hi)
    ensures name[lo..hi] in Segments(name)
    decreases |name|
  {
    hide Stretch;
    HeadIs(name);
    FirstStretch(name, lo, hi);
    var n := |Head(name)|;
    if lo > n {
      StretchInRest(name, n, lo, hi);
      StretchIsSegment(name[n + 1..], lo - n - 1, hi - n - 1);
    }
  }

  lemma {:induction false} SegmentIsStretch(name: Bytes, segment: Bytes) returns (lo: nat, hi: nat)
    requires segment in Segments(name)
    ensures Stretch(name, lo, hi) && lo <= hi <= |name| && name[lo..hi] == segment
    decreases |name|
  {
    hide Stretch, Head;
    HeadIs(name);
    var n := |Head(name)|;
    if segment == Head(name) {
      lo, hi := 0, n;
    } else {
      var l, r := SegmentIsStretch(name[n + 1..], segment);
      lo, hi := l + n + 1, r + n + 1;
      StretchInRest(name, n, lo, hi);
    }
  }

  /** Two dots between slashes or ends, at `i`. */
  predicate DotsAt(name: Bytes, i: nat) {
    && i + 2 <= |name| && name[i] == 46 && name[i + 1] == 46
    && (i == 0 || name[i - 1] == 47) && (i + 2 == |name| || name[i + 2] == 47)
  }

  /** A request is refused exactly when its name starts with a slash or has two
      dots between slashes or ends. */
  lemma RefusedExactly(name: Bytes)
    ensures Resolve(name) == None <==> (name != [] && name[0] == 47) || exists i: nat :: DotsAt(name, i)
  {
    if DOTDOT in Segments(name) {
      var lo, hi := SegmentIsStretch(name, DOTDOT);
      assert name[lo..hi][0] == name[lo] && name[lo..hi][1] == name[lo + 1];
      assert DotsAt(name, lo);
    }
    if i: nat :| DotsAt(name, i) {
      assert name[i..i + 2] == DOTDOT;
      StretchIsSegment(name, i, i + 2);
    }
  }

  /** `path` is made of whole stretches of the name, at `at` and in that order, and
      only the empty ones, "." and ".." are left out. */
  ghost predicate Places(name: Bytes, path: seq<Bytes>, at: seq<nat>) {
    && |at| == |path|
    && (forall j, k | 0 <= j < k < |at| :: at[j] < at[k])
    && (forall k | 0 <= k < |at| :: PartAt(name, path[k], at[k]))
    && (forall lo: nat, hi: nat | Stretch(name, lo, hi) :: lo in at <==> Counts(name[lo..hi]))
  }

  predicate PartAt(name: Bytes, part: Bytes, lo: nat) {
    Stretch(name, lo, lo + |part|) && name[lo..lo + |part|] == part
  }

  predicate Counts(part: Bytes) {
    part != [] && part != [46] && part != [46, 46]
  }

  lemma {:induction false} ResolvedPlaces(name: Bytes) returns (at: seq<nat>)
    ensures Places(name, OrdinaryOnly(Segments(name)), at)
    decreases |name|
  {
    hide Places;
    HeadIs(name);
    var n := |Head(name)|;
    if n < |name| {
      var more := ResolvedPlaces(name[n + 1..]);
      PathOf(name, Head(name), name[n + 1..]);
      at := PlacesAfter(name, n, OrdinaryOnly(Segments(name[n + 1..])), more);
    } else {
      PathOfLast(name);
      at := PlacesLast(name);
    }
  }

  lemma OrdinaryCounts(name: Bytes, lo: nat, hi: nat)
    requires Stretch(name, lo, hi)
    ensures Ordinary(name[lo..hi]) <==> Counts(name[lo..hi])
  {
    assert forall k | lo <= k < hi :: name[lo..hi][k - lo] == name[k];
  }

  lemma PlacesLast(name: Bytes) returns (at: seq<nat>)
    requires Head(name) == name
    ensures Places(name, if Ordinary(name) then [name] else [], at)
  {
    at := if Ordinary(name) then [0] else [];
    HeadIs(name);
    forall lo: nat, hi: nat | Stretch(name, lo, hi)
      ensures lo in at <==> Counts(name[lo..hi])
    {
      FirstStretch(name, lo, hi);
      OrdinaryCounts(name, lo, hi);
    }
  }

  lemma PartAfter(name: Bytes, n: nat, part: Bytes, lo: nat)
    requires n < |name| && name[n] == 47 && PartAt(name[n + 1..], part, lo)
    ensures PartAt(name, part, lo + n + 1)
  {
    StretchInRest(name, n, lo + n + 1, lo + n + 1 + |part|);
  }

  lemma PlacesAfter(name: Bytes, n: nat, path: seq<Bytes>, more: seq<nat>) returns (at: seq<nat>)
    requires n == |Head(name)| < |name| && Places(name[n + 1..], path, more)
    ensures Places(name, (if Ordinary(Head(name)) then [Head(name)] else []) + path, at)
  {
    hide Stretch, Ordinary, Counts, PartAt, Head;
    HeadIs(name);
    OrdinaryCounts(name, 0, n);
    var h := Head(name);
    HeadPart(name);
    var shifted := Shifted(more, n + 1);
    var first: seq<nat> := if Ordinary(h) then [0] else [];
    at := first + shifted;
    var whole := (if Ordinary(h) then [h] else []) + path;
    forall k | 0 <= k < |at|
      ensures PartAt(name, whole[k], at[k])
    {
      if k >= |first| {
        PartAfter(name, n, path[k - |first|], more[k - |first|]);
      }
    }
    forall lo: nat, hi: nat | Stretch(name, lo, hi)
      ensures lo in at <==> Counts(name[lo..hi])
    {
      FirstStretch(name, lo, hi);
        if lo > n {
        StretchInRest(name, n, lo, hi);
        InShifted(more, shifted, n + 1, lo);
      }
    }
  }

  lemma HeadPart(name: Bytes)
    ensures PartAt(name, Head(name), 0)
  {
    HeadIs(name);
  }

  function Shifted(at: seq<nat>, n: nat): (r: seq<nat>)
    ensures |r| == |at| && forall k | 0 <= k < |at| :: r[k] == at[k] + n
  {
    seq(|at|, k requires 0 <= k < |at| => at[k] + n)
  }

  lemma InShifted(a: seq<nat>, b: seq<nat>, n: nat, x: nat)
    requires |a| == |b| && (forall k | 0 <= k < |a| :: b[k] == a[k] + n) && x >= n
    ensures x in b <==> x - n in a
  {
    if x - n in a {
      var k :| 0 <= k < |a| && a[k] == x - n;
      assert b[k] == x;
    }
  }

  lemma PathOf(name: Bytes, h: Bytes, rest: Bytes)
    requires h == Head(name) && |h| < |name| && rest == name[|h| + 1..]
    ensures OrdinaryOnly(Segments(name)) == (if Ordinary(h) then [h] else []) + OrdinaryOnly(Segments(rest))
  {
    assert Segments(name)[1..] == Segments(rest);
  }

  lemma PathOfLast(name: Bytes)
    requires Head(name) == name
    ensures OrdinaryOnly(Segments(name)) == if Ordinary(name) then [name] else []
  {
    assert Segments(name) == [name] && [name][1..] == [];
  }

  /** The segments put together again are the name, one more than it has slashes. */
  lemma {:induction false} SegmentsJoin(name: Bytes)
    ensures Joined(Segments(name)) == name && |Segments(name)| == multiset(name)[47] + 1
    decreases |name|
  {
    hide Joined, Head;
    HeadIs(name);
    var n := |Head(name)|;
    SlashesAfter(name, n);
    if n < |name| {
      SegmentsJoin(name[n + 1..]);
      JoinStep(name[..n], Segments(name[n + 1..]));
    } else {
      assert name[..n] == name;
      JoinOne(name);
    }
  }

  lemma JoinOne(segment: Bytes)
    ensures Joined([segment]) == segment
  {
  }

  lemma SlashesAfter(name: Bytes, n: nat)
    requires n <= |name| && Stretch(name, 0, n)
    ensures multiset(name)[47] == if n == |name| then 0 else 1 + multiset(name[n + 1..])[47]
    ensures n < |name| ==> name == name[..n] + [47] + name[n + 1..]
  {
    assert 47 !in multiset(name[..n]) by {
      assert 47 !in name[..n];
    }
    if n < |name| {
      assert name == name[..n] + [name[n]] + name[n + 1..];
      assert multiset(name) == multiset(name[..n]) + multiset([name[n]]) + multiset(name[n + 1..]);
    } else {
      assert name[..n] == name;
    }
  }

  lemma JoinStep(h: Bytes, segments: seq<Bytes>)
    requires segments != []
    ensures Joined([h] + segments) == h + [47] + Joined(segments)
  {
    assert ([h] + segments)[1..] == segments;
  }

  function Joined(segments: seq<Bytes>): Bytes {
    if segments == [] then []
    else if |segments| == 1 then segments[0]
    else segments[0] + [SLASH] + Joined(segments[1..])
  }
}
