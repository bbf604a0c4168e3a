/**
  The tag counter: a substring count whose inner loop advances the outer index,
  run over chunks of a stream. The count is characterised exactly for every
  text, and compared with the true number of occurrences.
 */
module TagCounter {
  import opened Bytes
  import opened Streams

  // -------------------------------------------------------------- occurrences

  predicate Agree(text: Bytes, needle: Bytes, i: nat, k: nat) {
    i + k <= |text| && k <= |needle| && forall j | 0 <= j < k :: needle[j] == text[i + j]
  }

  predicate OccursAt(text: Bytes, needle: Bytes, i: nat) {
    Agree(text, needle, i, |needle|)
  }

  function Occurrences(text: Bytes, needle: Bytes): set<nat> {
    set i: nat | i <= |text| && OccursAt(text, needle, i)
  }

  /** How many characters of the needle the text matches at `i`, given `k`. */
  function MatchFrom(text: Bytes, needle: Bytes, i: nat, k: nat): (m: nat)
    requires Agree(text, needle, i, k)
    ensures Agree(text, needle, i, m)
    ensures m < |needle| && i + m < |text| ==> needle[m] != text[i + m]
    decreases |needle| - k
  {
    if k < |needle| && i + k < |text| && needle[k] == text[i + k]
    then MatchFrom(text, needle, i, k + 1)
    else k
  }

  function MatchLength(text: Bytes, needle: Bytes, i: nat): nat
    requires i <= |text|
  {
    MatchFrom(text, needle, i, 0)
  }

  /** The scan looks at `i` afresh and finds the first character there. */
  ghost predicate Candidate(text: Bytes, needle: Bytes, i: nat) {
    i < |text| && needle != [] && text[i] == needle[0]
  }

  /** Position `j` is swallowed: some earlier candidate that is itself not
      swallowed matches up to `j` or ends in a mismatch there. */
  ghost predicate Swallowed(text: Bytes, needle: Bytes, j: nat)
    decreases j
  {
    exists i: nat | i < j ::
      Candidate(text, needle, i) && j <= i + MatchLength(text, needle, i) && !Swallowed(text, needle, i)
  }

  ghost function Counted(text: Bytes, needle: Bytes): set<nat> {
    set i | i in Occurrences(text, needle) && !Swallowed(text, needle, i)
  }

  ghost function CountedBelow(text: Bytes, needle: Bytes, x: nat): set<nat> {
    set i | i in Counted(text, needle) && i < x
  }

  /** Nothing looked at before `x` reaches `x`. */
  ghost predicate Clear(text: Bytes, needle: Bytes, x: nat) {
    forall i: nat | i < x && Candidate(text, needle, i) && !Swallowed(text, needle, i) ::
      i + MatchLength(text, needle, i) < x
  }

  lemma OccurrenceMatches(text: Bytes, needle: Bytes, i: nat)
    requires needle != [] && i < |text|
    ensures OccursAt(text, needle, i) <==> MatchLength(text, needle, i) == |needle|
    ensures OccursAt(text, needle, i) ==> Candidate(text, needle, i)
  {
    hide MatchFrom;
  }

  lemma MatchLengthIs(text: Bytes, needle: Bytes, i: nat, k: nat)
    requires Agree(text, needle, i, k)
    requires k < |needle| && i + k < |text| ==> needle[k] != text[i + k]
    ensures MatchLength(text, needle, i) == k
  {
    assert Agree(text, needle, i, MatchLength(text, needle, i));
  }

  lemma ScanStarts(text: Bytes, needle: Bytes)
    ensures Clear(text, needle, 0) && CountedBelow(text, needle, 0) == {}
  {
  }

  lemma NotYetCounted(text: Bytes, needle: Bytes, x: nat)
    ensures |CountedBelow(text, needle, x) + {x}| == |CountedBelow(text, needle, x)| + 1
  {
  }

  lemma ScanEnds(text: Bytes, needle: Bytes, x: nat)
    requires x >= |text| && needle != []
    ensures CountedBelow(text, needle, x) == Counted(text, needle)
  {
  }

  /** The scan passes a position without a candidate. */
  lemma PassOver(text: Bytes, needle: Bytes, x: nat)
    requires needle != [] && x < |text| && Clear(text, needle, x) && !Candidate(text, needle, x)
    ensures Clear(text, needle, x + 1)
    ensures CountedBelow(text, needle, x + 1) == CountedBelow(text, needle, x)
  {
    OccurrenceMatches(text, needle, x);
  }

  /** The scan tries a candidate, matches `k` characters and resumes after the
      next one. */
  lemma TryCandidate(text: Bytes, needle: Bytes, x: nat)
    requires Clear(text, needle, x) && Candidate(text, needle, x)
    ensures var k := MatchLength(text, needle, x);
            && Clear(text, needle, x + k + 1)
            && CountedBelow(text, needle, x + k + 1)
               == CountedBelow(text, needle, x) + (if k == |needle| then {x} else {})
  {
    hide MatchFrom;
    var k := MatchLength(text, needle, x);
    assert !Swallowed(text, needle, x);
    assert forall j: nat | x < j <= x + k :: Swallowed(text, needle, j);
    OccurrenceMatches(text, needle, x);
  }

  method CountOccurrences(haystack: array<byte>, haystackLen: nat, needle: Bytes) returns (count: nat)
    requires haystackLen <= haystack.Length
    ensures count == Count(haystack[..haystackLen], needle)
  {
    hide MatchFrom, Swallowed, Clear, CountedBelow;
    count := 0;
    if |needle| == 0 {
      return;
    }
    ghost var text := haystack[..haystackLen];
    ScanStarts(text, needle);
    var index := 0;
    while index < haystackLen
      invariant Clear(text, needle, index)
      invariant count == |CountedBelow(text, needle, index)|
    {
      ghost var start := index;
      if haystack[index] == needle[0] {
        var checkRead := 0;
        while checkRead < |needle| && index < haystackLen
          invariant checkRead <= |needle| && index == start + checkRead <= haystackLen
          invariant Agree(text, needle, start, checkRead)
        {
          if needle[checkRead] != haystack[index] {
            break;
          }
          index := index + 1;
          checkRead := checkRead + 1;
        }
        MatchLengthIs(text, needle, start, checkRead);
        TryCandidate(text, needle, start);
        if checkRead == |needle| {
          NotYetCounted(text, needle, start);
          count := count + 1;
        }
      } else {
        PassOver(text, needle, start);
      }
      index := index + 1;
    }
    ScanEnds(text, needle, index);
  }

  ghost function Count(text: Bytes, needle: Bytes): nat {
    if needle == [] then 0 else |Counted(text, needle)|
  }

  /** The count is the size of a set of genuine occurrences that are pairwise
      disjoint, with a gap between any two. */
  lemma CountedAreDisjoint(text: Bytes, needle: Bytes, i: nat, j: nat)
    requires needle != [] && i in Counted(text, needle) && j in Counted(text, needle) && i < j
    ensures OccursAt(text, needle, i) && OccursAt(text, needle, j) && i + |needle| < j
  {
    OccurrenceMatches(text, needle, i);
  }

  lemma {:induction false} SubsetSize(a: set<nat>, b: set<nat>)
    requires a <= b
    ensures |a| <= |b| && (|a| == |b| <==> a == b)
  {
    assert b == a + (b - a);
  }

  /** Any two places with the first character of the needle are more than its
      length apart. */
  ghost predicate Spaced(text: Bytes, needle: Bytes)
    requires needle != []
  {
    forall i, j | 0 <= i < j < |text| && text[i] == needle[0] && text[j] == needle[0] :: j - i > |needle|
  }

  lemma SpacedIsExact(text: Bytes, needle: Bytes)
    requires needle != [] && Spaced(text, needle)
    ensures Counted(text, needle) == Occurrences(text, needle)
    ensures Count(text, needle) == |Occurrences(text, needle)|
  {
    hide MatchFrom;
    forall j | j in Occurrences(text, needle)
      ensures !Swallowed(text, needle, j)
    {
      assert needle[0] == text[j + 0];
    }
  }

  // ------------------------------------------------ chains of touching matches

  /** The first byte of the needle does not recur in it, as in "<h1>". */
  ghost predicate FirstIsUnique(needle: Bytes) {
    needle != [] && forall k | 0 < k < |needle| :: needle[k] != needle[0]
  }

  /** The text from `i` up to `j` is a non-empty beginning of the needle. */
  ghost predicate Touches(text: Bytes, needle: Bytes, i: nat, j: nat) {
    i < j && Agree(text, needle, i, j - i)
  }

  /** How many beginnings of the needle touch one after the other and end at `j`. */
  ghost function Chain(text: Bytes, needle: Bytes, j: nat): nat
    decreases j
  {
    if i: nat :| i < j && Touches(text, needle, i, j) then 1 + Chain(text, needle, i) else 0
  }

  lemma AgreeAt(text: Bytes, needle: Bytes, i: nat, n: nat, k: nat)
    requires Agree(text, needle, i, n) && k < n
    ensures needle[k] == text[i + k]
  {
  }

  lemma NotFirst(text: Bytes, needle: Bytes, i: nat, j: nat, k: nat)
    requires FirstIsUnique(needle) && Touches(text, needle, i, j) && i < k < j
    ensures text[k] != needle[0]
  {
    AgreeAt(text, needle, i, j - i, k - i);
  }

  /** Where the needle can begin, at most one beginning of it ends. */
  lemma TouchesOnce(text: Bytes, needle: Bytes, i: nat, k: nat, j: nat)
    requires FirstIsUnique(needle) && Touches(text, needle, i, j) && Touches(text, needle, k, j)
    ensures i == k
  {
    assert needle[0] == text[i + 0] && needle[0] == text[k + 0];
    if i < k {
      NotFirst(text, needle, i, j, k);
    } else if k < i {
      NotFirst(text, needle, k, j, i);
    }
  }

  lemma ChainStep(text: Bytes, needle: Bytes, i: nat, j: nat)
    requires FirstIsUnique(needle) && Touches(text, needle, i, j)
    ensures Chain(text, needle, j) == 1 + Chain(text, needle, i)
  {
    var k: nat :| k < j && Touches(text, needle, k, j) && Chain(text, needle, j) == 1 + Chain(text, needle, k);
    TouchesOnce(text, needle, i, k, j);
  }

  /** A candidate reaches a later candidate exactly by touching it. */
  lemma ReachesIsTouches(text: Bytes, needle: Bytes, i: nat, j: nat)
    requires FirstIsUnique(needle) && i < j && Candidate(text, needle, j)
    ensures Candidate(text, needle, i) && j <= i + MatchLength(text, needle, i) <==> Touches(text, needle, i, j)
  {
    hide MatchFrom;
    if Candidate(text, needle, i) && j <= i + MatchLength(text, needle, i) {
      var m := MatchLength(text, needle, i);
      assert Agree(text, needle, i, m);
      assert Agree(text, needle, i, j - i);
    }
    if Touches(text, needle, i, j) {
      var m := MatchLength(text, needle, i);
      assert needle[0] == text[i + 0];
      assert Agree(text, needle, i, m);
      if m < j - i {
        AgreeAt(text, needle, i, j - i, m);
      }
    }
  }

  /** A place where the needle can begin is passed over exactly when the chain
      that ends there is odd. */
  lemma {:induction false} SwallowedIsOddChain(text: Bytes, needle: Bytes, j: nat)
    requires FirstIsUnique(needle) && Candidate(text, needle, j)
    ensures Swallowed(text, needle, j) <==> Chain(text, needle, j) % 2 == 1
    decreases j
  {
    hide MatchFrom;
    if i: nat :| i < j && Touches(text, needle, i, j) {
      ChainStep(text, needle, i, j);
      ReachesIsTouches(text, needle, i, j);
      SwallowedIsOddChain(text, needle, i);
      forall k: nat | k < j && Candidate(text, needle, k) && j <= k + MatchLength(text, needle, k)
        ensures k == i
      {
        ReachesIsTouches(text, needle, k, j);
        TouchesOnce(text, needle, i, k, j);
      }
    } else {
      forall k: nat | k < j
        ensures !(Candidate(text, needle, k) && j <= k + MatchLength(text, needle, k))
      {
        ReachesIsTouches(text, needle, k, j);
      }
    }
  }

  /** An occurrence is missed exactly when an odd chain ends at it. */
  lemma MissedExactly(text: Bytes, needle: Bytes, i: nat)
    requires FirstIsUnique(needle) && i in Occurrences(text, needle)
    ensures i !in Counted(text, needle) <==> Chain(text, needle, i) % 2 == 1
  {
    assert needle[0] == text[i + 0];
    SwallowedIsOddChain(text, needle, i);
  }

  ghost function EvenChained(text: Bytes, needle: Bytes): set<nat> {
    set i | i in Occurrences(text, needle) && Chain(text, needle, i) % 2 == 0
  }

  /** The count is the number of occurrences exactly when no occurrence follows
      an odd chain of touching beginnings of the needle. */
  lemma CountIsExactly(text: Bytes, needle: Bytes)
    requires FirstIsUnique(needle)
    ensures Count(text, needle) == |EvenChained(text, needle)|
    ensures Count(text, needle) == |Occurrences(text, needle)|
            <==> forall i | i in Occurrences(text, needle) :: Chain(text, needle, i) % 2 == 0
  {
    hide Swallowed, Chain, Agree;
    forall i | i in Occurrences(text, needle)
      ensures i in Counted(text, needle) <==> Chain(text, needle, i) % 2 == 0
    {
      MissedExactly(text, needle, i);
    }
    assert Counted(text, needle) == EvenChained(text, needle);
    SubsetSize(Counted(text, needle), Occurrences(text, needle));
    if Counted(text, needle) == Occurrences(text, needle) {
      assert forall i | i in Occurrences(text, needle) :: i in Counted(text, needle);
    }
  }

  const TAG: Bytes := [60, 104, 49, 62]

  lemma TagFirstIsUnique()
    ensures FirstIsUnique(TAG)
  {
  }

  /** The same for the needle of the program. */
  lemma TagCountIsExactly(text: Bytes)
    ensures Count(text, TAG) == |EvenChained(text, TAG)|
    ensures Count(text, TAG) == |Occurrences(text, TAG)|
            <==> forall i | i in Occurrences(text, TAG) :: Chain(text, TAG, i) % 2 == 0
  {
    TagFirstIsUnique();
    CountIsExactly(text, TAG);
  }

  /** A needle after its own first byte, as in "<<h1>", is not counted. */
  lemma DoubledBracketIsMissed(needle: Bytes)
    requires FirstIsUnique(needle) && |needle| > 1
    ensures var text := needle[..1] + needle;
            Occurrences(text, needle) == {1} && Count(text, needle) == 0
  {
    var text := needle[..1] + needle;
    hide Swallowed, MatchLength;
    assert Touches(text, needle, 0, 1);
    ChainStep(text, needle, 0, 1);
    assert OccursAt(text, needle, 1);
    forall i | i in Occurrences(text, needle)
      ensures i == 1
    {
      assert needle[0] == text[i + 0] && needle[1] == text[i + 1];
    }
    MissedExactly(text, needle, 1);
  }

  /** Of two adjacent needles, as in "<h1><h1>", the second is not counted. */
  lemma AdjacentTagIsMissed(needle: Bytes)
    requires FirstIsUnique(needle)
    ensures var text := needle + needle;
            Occurrences(text, needle) == {0, |needle|} && Counted(text, needle) == {0}
  {
    var text := needle + needle;
    hide Swallowed, MatchLength;
    assert Touches(text, needle, 0, |needle|);
    ChainStep(text, needle, 0, |needle|);
    assert OccursAt(text, needle, 0) && OccursAt(text, needle, |needle|);
    forall i | i in Occurrences(text, needle)
      ensures i == 0 || i == |needle|
    {
      assert needle[0] == text[i + 0];
    }
    MissedExactly(text, needle, 0);
    MissedExactly(text, needle, |needle|);
  }

  // ------------------------------------------------------------------- chunks

  /** The total over consecutive chunks of `b` bytes, the last perhaps shorter. */
  ghost function ChunkTotal(text: Bytes, b: nat, needle: Bytes): nat
    requires b > 0
    decreases |text|
  {
    if |text| <= b then Count(text, needle)
    else Count(text[..b], needle) + ChunkTotal(text[b..], b, needle)
  }

  /** The occurrences that lie within one chunk. */
  function Inside(text: Bytes, b: nat, needle: Bytes): set<nat>
    requires b > 0
  {
    set i | i in Occurrences(text, needle) && i / b == (i + |needle| - 1) / b
  }

  function Boundaries(n: nat, b: nat): nat
    requires b > 0
  {
    if n == 0 then 0 else (n - 1) / b
  }

  function Shift(s: set<nat>, b: nat): set<nat> {
    set i | i in s :: i + b
  }

  lemma ShiftMember(s: set<nat>, b: nat, x: nat)
    ensures x in Shift(s, b) <==> x >= b && x - b in s
  {
    if x >= b && x - b in s {
      assert (x - b) + b == x;
    }
  }

  lemma {:induction false} ShiftSize(s: set<nat>, b: nat)
    ensures |Shift(s, b)| == |s|
    decreases |s|
  {
    if i: nat :| i in s {
      ShiftSize(s - {i}, b);
      forall x: nat
        ensures x in Shift(s, b) <==> x in Shift(s - {i}, b) + {i + b}
      {
        ShiftMember(s, b, x);
        ShiftMember(s - {i}, b, x);
      }
      ShiftMember(s - {i}, b, i + b);
      assert Shift(s, b) == Shift(s - {i}, b) + {i + b};
      assert s == s - {i} + {i};
    } else {
      assert s == {} && Shift(s, b) == {};
    }
  }

  lemma MultipleIsFar(d: int, b: nat)
    ensures d >= 1 ==> d * b >= b
    ensures d <= -1 ==> d * b + b <= 0
  {
  }

  lemma DivUnique(x: nat, b: nat, q: nat, r: nat)
    requires r < b && x == b * q + r
    ensures x / b == q
  {
    var q', r' := x / b, x % b;
    assert x == b * q' + r';
    assert (q' - q) * b == b * q' - b * q == r - r';
    MultipleIsFar(q' - q, b);
  }

  lemma DivShift(x: nat, b: nat)
    requires b > 0
    ensures (x + b) / b == x / b + 1
  {
    var q, r := x / b, x % b;
    assert x + b == b * q + b + r == b * (q + 1) + r;
    DivUnique(x + b, b, q + 1, r);
  }

  ghost function Crossing(text: Bytes, b: nat, needle: Bytes): set<nat> {
    set i | i in Occurrences(text, needle) && i < b < i + |needle|
  }

  lemma OccursInHead(text: Bytes, needle: Bytes, b: nat, i: nat)
    requires b <= |text| && needle != []
    ensures i in Occurrences(text[..b], needle) <==> i in Occurrences(text, needle) && i + |needle| <= b
  {
    if i + |needle| <= b {
      assert forall j | 0 <= j < |needle| :: needle[j] == text[..b][i + j] <==> needle[j] == text[i + j];
    }
  }

  lemma OccursInTail(text: Bytes, needle: Bytes, b: nat, i: nat)
    requires b <= |text| && needle != []
    ensures i in Occurrences(text[b..], needle) <==> i + b in Occurrences(text, needle)
  {
    if i + |needle| <= |text| - b {
      assert forall j | 0 <= j < |needle| :: needle[j] == text[b..][i + j] <==> needle[j] == text[i + b + j];
    }
  }

  lemma SplitOccurrences(text: Bytes, needle: Bytes, b: nat)
    requires 0 < b < |text| && needle != []
    ensures Occurrences(text, needle)
            == Occurrences(text[..b], needle) + Crossing(text, b, needle) + Shift(Occurrences(text[b..], needle), b)
  {
    forall i: nat
      ensures i in Occurrences(text, needle)
              <==> i in Occurrences(text[..b], needle) + Crossing(text, b, needle) + Shift(Occurrences(text[b..], needle), b)
    {
      OccursInHead(text, needle, b, i);
      ShiftMember(Occurrences(text[b..], needle), b, i);
      if i >= b {
        OccursInTail(text, needle, b, i - b);
      }
    }
  }

  /** Whether a stretch of `n` > 0 bytes from `i` stays in one chunk. */
  lemma OneChunk(i: nat, n: nat, b: nat)
    requires b > 0 && n > 0
    ensures i < b ==> (i / b == (i + n - 1) / b <==> i + n <= b)
    ensures i >= b ==> (i / b == (i + n - 1) / b <==> (i - b) / b == (i - b + n - 1) / b)
  {
    if i < b {
      DivUnique(i, b, 0, i);
      if i + n <= b {
        DivUnique(i + n - 1, b, 0, i + n - 1);
      } else {
        DivShift(i + n - 1 - b, b);
      }
    } else {
      DivShift(i - b, b);
      DivShift(i - b + n - 1, b);
    }
  }

  lemma SplitInside(text: Bytes, needle: Bytes, b: nat)
    requires 0 < b < |text| && needle != []
    ensures Inside(text, b, needle)
            == Occurrences(text[..b], needle) + Shift(Inside(text[b..], b, needle), b)
  {
    hide Agree;
    forall i: nat
      ensures i in Inside(text, b, needle)
              <==> i in Occurrences(text[..b], needle) + Shift(Inside(text[b..], b, needle), b)
    {
      OccursInHead(text, needle, b, i);
      ShiftMember(Inside(text[b..], b, needle), b, i);
      OneChunk(i, |needle|, b);
      if i >= b {
        OccursInTail(text, needle, b, i - b);
      }
    }
  }

  lemma HeadAndTailDisjoint(text: Bytes, needle: Bytes, b: nat, tail: set<nat>)
    requires b <= |text| && needle != []
    ensures Occurrences(text[..b], needle) !! Shift(tail, b)
    ensures Crossing(text, b, needle) !! Shift(tail, b)
    ensures Occurrences(text[..b], needle) !! Crossing(text, b, needle)
  {
    forall i | i in Occurrences(text[..b], needle)
      ensures i + |needle| <= b
    {
      OccursInHead(text, needle, b, i);
    }
  }

  lemma SpacedParts(text: Bytes, needle: Bytes, b: nat)
    requires b <= |text| && needle != [] && Spaced(text, needle)
    ensures Spaced(text[..b], needle) && Spaced(text[b..], needle)
    ensures |Crossing(text, b, needle)| <= 1
  {
    var c := Crossing(text, b, needle);
    if i :| i in c {
      forall j | j in c
        ensures j == i
      {
        assert needle[0] == text[i + 0] && needle[0] == text[j + 0];
      }
      assert c == {i};
    }
  }

  /** With spacing, the chunked total counts exactly the occurrences that
      straddle no chunk boundary, and misses at most one for each boundary. */
  lemma {:induction false} ChunkedTotal(text: Bytes, b: nat, needle: Bytes)
    requires b > 0 && needle != [] && Spaced(text, needle)
    ensures ChunkTotal(text, b, needle) == |Inside(text, b, needle)|
    ensures |Occurrences(text, needle)| - Boundaries(|text|, b) <= ChunkTotal(text, b, needle)
            <= |Occurrences(text, needle)|
    decreases |text|
  {
    if |text| <= b {
      SpacedIsExact(text, needle);
      AllInside(text, b, needle);
    } else {
      SpacedParts(text, needle, b);
      SpacedIsExact(text[..b], needle);
      ChunkedTotal(text[b..], b, needle);
      SplitSizes(text, b, needle);
    }
  }

  /** Whatever the text, the chunked total never counts too much. */
  lemma {:induction false} ChunkedNeverOver(text: Bytes, b: nat, needle: Bytes)
    requires b > 0 && needle != []
    ensures ChunkTotal(text, b, needle) <= |Inside(text, b, needle)| <= |Occurrences(text, needle)|
    decreases |text|
  {
    hide Swallowed, Agree;
    SubsetSize(Inside(text, b, needle), Occurrences(text, needle));
    if |text| <= b {
      SubsetSize(Counted(text, needle), Occurrences(text, needle));
      AllInside(text, b, needle);
    } else {
      SubsetSize(Counted(text[..b], needle), Occurrences(text[..b], needle));
      ChunkedNeverOver(text[b..], b, needle);
      SplitSizes(text, b, needle);
    }
  }

  lemma AllInside(text: Bytes, b: nat, needle: Bytes)
    requires |text| <= b && b > 0 && needle != []
    ensures Inside(text, b, needle) == Occurrences(text, needle)
  {
    forall i | i in Occurrences(text, needle)
      ensures i in Inside(text, b, needle)
    {
      OneChunk(i, |needle|, b);
    }
  }

  lemma SplitSizes(text: Bytes, b: nat, needle: Bytes)
    requires 0 < b < |text| && needle != []
    ensures |Inside(text, b, needle)| == |Occurrences(text[..b], needle)| + |Inside(text[b..], b, needle)|
    ensures |Occurrences(text, needle)|
            == |Occurrences(text[..b], needle)| + |Crossing(text, b, needle)| + |Occurrences(text[b..], needle)|
    ensures Boundaries(|text|, b) == 1 + Boundaries(|text| - b, b)
  {
    hide Occurrences, Inside, Crossing, Shift;
    var head, inTail, tail := Occurrences(text[..b], needle), Inside(text[b..], b, needle), Occurrences(text[b..], needle);
    SplitInside(text, needle, b);
    SplitOccurrences(text, needle, b);
    HeadAndTailDisjoint(text, needle, b, inTail);
    HeadAndTailDisjoint(text, needle, b, tail);
    ShiftSize(inTail, b);
    ShiftSize(tail, b);
    DivShift(|text| - b - 1, b);
  }

  // ---------------------------------------------------------------- main loop

  /** The total when each read is counted by itself. */
  ghost function ReadTotal(pending: seq<Bytes>, cap: nat, needle: Bytes): nat
    requires Pieces(pending) && cap > 0
    decreases |Concat(pending)|
  {
    if pending == [] then 0
    else
      TakenLeft(pending, cap);
      Count(Taken(pending, cap), needle) + ReadTotal(Left(pending, cap), cap, needle)
  }

  /** The read loop of main. With `fillBuffer` the totals depend only on the
      data, however it is split and whether it ends in a close or an error; the
      last partial chunk is counted once. Without it every read is a chunk. */
  method CountTags(stream: Stream, bufferLen: nat, needle: Bytes, fillBuffer: bool)
    returns (needleCount: nat, totalRead: nat)
    requires stream.Valid() && bufferLen > 0
    modifies stream
    ensures totalRead == |old(stream.Data())|
    ensures fillBuffer ==> needleCount == ChunkTotal(old(stream.Data()), bufferLen, needle)
    ensures !fillBuffer ==> needleCount == ReadTotal(old(stream.pending), bufferLen, needle)
  {
    hide Count, Concat, Taken, Left, ChunkTotal;
    ghost var data0, pending0 := stream.Data(), stream.pending;
    var buffer := new byte[bufferLen];
    var fillRead := 0;
    needleCount, totalRead := 0, 0;
    while true
      invariant stream.Valid() && totalRead + |stream.Data()| == |data0|
      invariant fillBuffer ==> needleCount + ChunkTotal(stream.Data(), bufferLen, needle)
                               == ChunkTotal(data0, bufferLen, needle)
      invariant !fillBuffer ==> needleCount + ReadTotal(stream.pending, bufferLen, needle)
                                == ReadTotal(pending0, bufferLen, needle)
      decreases |stream.Data()|
    {
      ghost var data := stream.Data();
      if fillBuffer {
        var ended;
        fillRead, ended := stream.Fill(buffer);
        totalRead := totalRead + fillRead;
        if ended {
          LastChunk(data, buffer[..fillRead], bufferLen, needle);
          break;
        }
        FullChunk(data, buffer[..fillRead], stream.Data(), needle);
      } else {
        var read := stream.Read(buffer, 0, bufferLen);
        if read <= 0 {
          ConcatEmpty(stream.pending);
          break;
        }
        totalRead := totalRead + read;
        fillRead := read;
        assert buffer[..fillRead] == buffer[0..0 + read];
      }
      var found := CountOccurrences(buffer, fillRead, needle);
      needleCount := needleCount + found;
    }
    if fillBuffer && fillRead > 0 {
      var found := CountOccurrences(buffer, fillRead, needle);
      needleCount := needleCount + found;
    }
  }

  lemma NothingCounts(needle: Bytes)
    ensures Count([], needle) == 0
  {
    if needle != [] {
      assert Occurrences([], needle) == {};
    }
  }

  lemma FullChunk(data: Bytes, chunk: Bytes, rest: Bytes, needle: Bytes)
    requires data == chunk + rest && |chunk| > 0
    ensures ChunkTotal(data, |chunk|, needle) == Count(chunk, needle) + ChunkTotal(rest, |chunk|, needle)
  {
    NothingCounts(needle);
    assert data[..|chunk|] == chunk && data[|chunk|..] == rest;
    if rest == [] {
      assert data == chunk;
    }
  }

  lemma LastChunk(data: Bytes, chunk: Bytes, b: nat, needle: Bytes)
    requires data == chunk + [] && |chunk| < b
    ensures data == chunk && ChunkTotal(data, b, needle) == Count(chunk, needle)
    ensures chunk == [] ==> Count(chunk, needle) == 0
  {
    NothingCounts(needle);
  }

  // ------------------------------------------------- reads that are not filled

  /** The pieces that successive reads with room for `cap` bytes return. */
  ghost function Reads(pending: seq<Bytes>, cap: nat): seq<Bytes>
    requires Pieces(pending) && cap > 0
    decreases |Concat(pending)|
  {
    if pending == [] then []
    else
      TakenLeft(pending, cap);
      [Taken(pending, cap)] + Reads(Left(pending, cap), cap)
  }

  /** Pieces that fit the buffer are the reads, and of a longer one the first read
      takes what fits. */
  lemma {:induction false} ReadsAre(pending: seq<Bytes>, cap: nat)
    requires Pieces(pending) && cap > 0
    ensures (forall k | 0 <= k < |pending| :: |pending[k]| <= cap) ==> Reads(pending, cap) == pending
    ensures pending != [] ==> Reads(pending, cap) != []
                              && Reads(pending, cap)[0] == if |pending[0]| <= cap then pending[0] else pending[0][..cap]
    decreases |pending|
  {
    if pending != [] && |pending[0]| <= cap {
      assert Left(pending, cap) == pending[1..] && Taken(pending, cap) == pending[0];
      ReadsAre(pending[1..], cap);
      assert [pending[0]] + pending[1..] == pending;
    }
  }

  ghost function PartsTotal(parts: seq<Bytes>, needle: Bytes): nat {
    if parts == [] then 0 else Count(parts[0], needle) + PartsTotal(parts[1..], needle)
  }

  /** `n` bytes from position `i` of the whole lie within one of the parts. */
  predicate WithinOne(parts: seq<Bytes>, i: nat, n: nat) {
    parts != []
    && (i + n <= |parts[0]| || (i >= |parts[0]| && WithinOne(parts[1..], i - |parts[0]|, n)))
  }

  function InsideParts(parts: seq<Bytes>, needle: Bytes): set<nat> {
    set i | i in Occurrences(Concat(parts), needle) && WithinOne(parts, i, |needle|)
  }

  lemma SplitInsideParts(parts: seq<Bytes>, needle: Bytes)
    requires parts != [] && needle != []
    ensures InsideParts(parts, needle)
            == Occurrences(parts[0], needle) + Shift(InsideParts(parts[1..], needle), |parts[0]|)
    ensures |InsideParts(parts, needle)| == |Occurrences(parts[0], needle)| + |InsideParts(parts[1..], needle)|
  {
    hide Agree;
    var text, b := Concat(parts), |parts[0]|;
    assert text[..b] == parts[0] && text[b..] == Concat(parts[1..]);
    var tail := InsideParts(parts[1..], needle);
    forall i: nat
      ensures i in InsideParts(parts, needle) <==> i in Occurrences(parts[0], needle) + Shift(tail, b)
    {
      OccursInHead(text, needle, b, i);
      ShiftMember(tail, b, i);
      if i >= b {
        OccursInTail(text, needle, b, i - b);
      }
    }
    HeadAndTailDisjoint(text, needle, b, tail);
    ShiftSize(tail, b);
  }

  /** With spacing, counting part by part counts exactly the occurrences that lie
      within one part. */
  lemma {:induction false} PartsCount(parts: seq<Bytes>, needle: Bytes)
    requires needle != [] && Spaced(Concat(parts), needle)
    ensures PartsTotal(parts, needle) == |InsideParts(parts, needle)|
  {
    if parts == [] {
      assert InsideParts(parts, needle) == {};
    } else {
      var text, b := Concat(parts), |parts[0]|;
      assert text[..b] == parts[0] && text[b..] == Concat(parts[1..]);
      SpacedParts(text, needle, b);
      SpacedIsExact(parts[0], needle);
      PartsCount(parts[1..], needle);
      SplitInsideParts(parts, needle);
    }
  }

  lemma {:induction false} ReadTotalIsParts(pending: seq<Bytes>, cap: nat, needle: Bytes)
    requires Pieces(pending) && cap > 0
    ensures ReadTotal(pending, cap, needle) == PartsTotal(Reads(pending, cap), needle)
    ensures Concat(Reads(pending, cap)) == Concat(pending)
    decreases |Concat(pending)|
  {
    if pending != [] {
      TakenLeft(pending, cap);
      var rest := Left(pending, cap);
      ReadTotalIsParts(rest, cap, needle);
      assert ([Taken(pending, cap)] + Reads(rest, cap))[1..] == Reads(rest, cap);
    }
  }

  // ----------------------------------------------- parts of any text at all

  /** The chain that ends at `i` within the part that holds it. */
  ghost function PartChain(parts: seq<Bytes>, needle: Bytes, i: nat): nat {
    if parts == [] then 0
    else if i < |parts[0]| then Chain(parts[0], needle, i)
    else PartChain(parts[1..], needle, i - |parts[0]|)
  }

  ghost predicate CountedInPart(parts: seq<Bytes>, needle: Bytes, i: nat) {
    WithinOne(parts, i, |needle|) && PartChain(parts, needle, i) % 2 == 0
  }

  ghost function CountedParts(parts: seq<Bytes>, needle: Bytes): set<nat> {
    set i | i in Occurrences(Concat(parts), needle) && CountedInPart(parts, needle, i)
  }

  lemma SplitCountedParts(parts: seq<Bytes>, needle: Bytes)
    requires parts != [] && needle != []
    ensures |CountedParts(parts, needle)| == |EvenChained(parts[0], needle)| + |CountedParts(parts[1..], needle)|
  {
    hide Agree, Chain, Concat;
    var text, b := Concat(parts), |parts[0]|;
    FirstPart(parts);
    var head, tail := EvenChained(parts[0], needle), CountedParts(parts[1..], needle);
    forall i: nat
      ensures i in CountedParts(parts, needle) <==> i in head + Shift(tail, b)
    {
      OccursInHead(text, needle, b, i);
      ShiftMember(tail, b, i);
      if i >= b {
        OccursInTail(text, needle, b, i - b);
      }
    }
    assert CountedParts(parts, needle) == head + Shift(tail, b);
    HeadAndTailDisjoint(text, needle, b, tail);
    ShiftSize(tail, b);
  }

  lemma FirstPart(parts: seq<Bytes>)
    requires parts != []
    ensures var text, b := Concat(parts), |parts[0]|;
            b <= |text| && text[..b] == parts[0] && text[b..] == Concat(parts[1..])
  {
  }

  /** Counting any parts of any text one by one gives the occurrences that lie
      within one part and have an even chain there. */
  lemma {:induction false} PartsTotalIs(parts: seq<Bytes>, needle: Bytes)
    requires FirstIsUnique(needle)
    ensures PartsTotal(parts, needle) == |CountedParts(parts, needle)|
  {
    if parts == [] {
      assert CountedParts(parts, needle) == {};
    } else {
      CountIsExactly(parts[0], needle);
      PartsTotalIs(parts[1..], needle);
      SplitCountedParts(parts, needle);
    }
  }

  /** So it is exact precisely when that is so of every occurrence. */
  lemma PartsTotalExactly(parts: seq<Bytes>, needle: Bytes)
    requires FirstIsUnique(needle)
    ensures PartsTotal(parts, needle) == |CountedParts(parts, needle)|
    ensures PartsTotal(parts, needle) == |Occurrences(Concat(parts), needle)|
            <==> forall i | i in Occurrences(Concat(parts), needle) :: CountedInPart(parts, needle, i)
  {
    hide PartsTotal, CountedInPart, Agree, Concat;
    PartsTotalIs(parts, needle);
    var all, counted := Occurrences(Concat(parts), needle), CountedParts(parts, needle);
    SubsetSize(counted, all);
    if counted == all {
      assert forall i | i in all :: i in counted;
    } else {
      assert exists i | i in all :: i !in counted;
    }
  }

  /** Without filling: the total of any text in any reads. */
  lemma UnfilledTotalExactly(pending: seq<Bytes>, cap: nat, needle: Bytes)
    requires Pieces(pending) && cap > 0 && FirstIsUnique(needle)
    ensures ReadTotal(pending, cap, needle) == |CountedParts(Reads(pending, cap), needle)|
    ensures ReadTotal(pending, cap, needle) == |Occurrences(Concat(pending), needle)|
            <==> forall i | i in Occurrences(Concat(pending), needle) :: CountedInPart(Reads(pending, cap), needle, i)
  {
    hide *;
    ReadTotalIsParts(pending, cap, needle);
    PartsTotalExactly(Reads(pending, cap), needle);
  }

  /** The chunks of a stream that fill a buffer of `b` bytes. */
  function Chunks(text: Bytes, b: nat): seq<Bytes>
    requires b > 0
    decreases |text|
  {
    if |text| <= b then [text] else [text[..b]] + Chunks(text[b..], b)
  }

  /** All of them are full but the last, which is not longer. */
  lemma {:induction false} ChunksAre(text: Bytes, b: nat)
    requires b > 0
    ensures var chunks := Chunks(text, b);
            && chunks != [] && |chunks[|chunks| - 1]| <= b
            && forall k | 0 <= k < |chunks| - 1 :: |chunks[k]| == b
    decreases |text|
  {
    if |text| > b {
      ChunksAre(text[b..], b);
    }
  }

  lemma {:induction false} ChunksAreParts(text: Bytes, b: nat, needle: Bytes)
    requires b > 0
    ensures Concat(Chunks(text, b)) == text
    ensures ChunkTotal(text, b, needle) == PartsTotal(Chunks(text, b), needle)
    decreases |text|
  {
    if |text| <= b {
      assert Chunks(text, b)[1..] == [];
      assert text + [] == text;
    } else {
      ChunksAreParts(text[b..], b, needle);
      assert Chunks(text, b)[1..] == Chunks(text[b..], b);
      assert text[..b] + text[b..] == text;
    }
  }

  /** With filling: the total of any text in chunks of any size. */
  lemma FilledTotalExactly(text: Bytes, b: nat, needle: Bytes)
    requires b > 0 && FirstIsUnique(needle)
    ensures ChunkTotal(text, b, needle) == |CountedParts(Chunks(text, b), needle)|
    ensures ChunkTotal(text, b, needle) == |Occurrences(text, needle)|
            <==> forall i | i in Occurrences(text, needle) :: CountedInPart(Chunks(text, b), needle, i)
  {
    hide *;
    ChunksAreParts(text, b, needle);
    PartsTotalExactly(Chunks(text, b), needle);
  }

  /** Both for the needle of the program, of every stream. */
  lemma TagTotalsExactly(pending: seq<Bytes>, b: nat)
    requires Pieces(pending) && b > 0
    ensures var text := Concat(pending);
            && ChunkTotal(text, b, TAG) == |CountedParts(Chunks(text, b), TAG)|
            && ReadTotal(pending, b, TAG) == |CountedParts(Reads(pending, b), TAG)|
            && (ChunkTotal(text, b, TAG) == |Occurrences(text, TAG)|
                <==> forall i | i in Occurrences(text, TAG) :: CountedInPart(Chunks(text, b), TAG, i))
            && (ReadTotal(pending, b, TAG) == |Occurrences(text, TAG)|
                <==> forall i | i in Occurrences(text, TAG) :: CountedInPart(Reads(pending, b), TAG, i))
  {
    TagFirstIsUnique();
    hide *;
    FilledTotalExactly(Concat(pending), b, TAG);
    UnfilledTotalExactly(pending, b, TAG);
  }

  // ------------------------------------------------------------- with spacing

  /** Without filling, and with spacing, the total is the number of occurrences
      that straddle no read; so it is exact precisely when none does. */
  lemma SpacedUnfilledTotal(pending: seq<Bytes>, cap: nat, needle: Bytes)
    requires Pieces(pending) && cap > 0 && needle != [] && Spaced(Concat(pending), needle)
    ensures ReadTotal(pending, cap, needle) == |InsideParts(Reads(pending, cap), needle)|
    ensures ReadTotal(pending, cap, needle) == |Occurrences(Concat(pending), needle)|
            <==> forall i | i in Occurrences(Concat(pending), needle) :: WithinOne(Reads(pending, cap), i, |needle|)
  {
    hide ReadTotal, Reads, PartsTotal, WithinOne, Agree, Concat;
    var parts := Reads(pending, cap);
    ReadTotalIsParts(pending, cap, needle);
    PartsCount(parts, needle);
    var all, inside := Occurrences(Concat(pending), needle), InsideParts(parts, needle);
    SubsetSize(inside, all);
    if inside == all {
      assert forall i | i in all :: i in inside;
    } else {
      assert exists i | i in all :: i !in inside;
    }
  }

  /** Without filling, the same bytes split differently count differently. */
  lemma SplitTagIsMissed()
    ensures var needle: Bytes := [60, 104, 49, 62];
            var whole: seq<Bytes>, halves: seq<Bytes> := [[60, 104, 49, 62]], [[60, 104], [49, 62]];
            && Concat(whole) == Concat(halves)
            && ReadTotal(whole, 10, needle) == 1 && ReadTotal(halves, 10, needle) == 0
  {
    var needle: Bytes := [60, 104, 49, 62];
    var halves: seq<Bytes> := [[60, 104], [49, 62]];
    SpacedIsExact(needle, needle);
    assert Spaced(needle, needle);
    assert OccursAt(needle, needle, 0);
    assert Occurrences(needle, needle) == {0};
    assert Occurrences([60, 104], needle) == {} == Occurrences([49, 62], needle);
    assert Counted([60, 104], needle) == {} == Counted([49, 62], needle);
    assert Left([needle], 10) == [] && Left(halves, 10) == [[49, 62]] && Left([[49, 62]], 10) == [];
  }
}
