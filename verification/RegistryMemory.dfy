/**
  Who owns which heap block. Client records hold a pointer to a list block
  whose entries point to NUL-terminated strings; the live blocks are always the
  disjoint union of what the records own.
 */
module RegistryMemory {
  import opened Bytes
  import opened Wire
  import opened CHeap
  import opened RegistryModel

  type Blocks = map<Ptr, Block>

  datatype Rec = Rec(
    active: bool, id: u32, kind: ClientState, sock: int, addr: Addr, filesLen: nat, files: Ptr)

  const EMPTY_REC := Rec(false, 0, Unknown, 0, OtherFamily, 0, NULL)

  /** A stored string fits a payload, so it is far shorter than the receive buffer. */
  predicate IsCText(bytes: Bytes) {
    0 < |bytes| < PUBLISH_LIMIT && bytes[|bytes| - 1] == 0 && Storable(bytes[..|bytes| - 1])
  }

  /** A string copied into a zeroed block with `spare` bytes after it. The source
      spares none; the model's heap spares one. */
  function Stored(name: Bytes, spare: nat): Bytes {
    name + seq(spare, _ => 0)
  }

  /** The strings of an accepted PUBLISH keep their NUL inside their blocks exactly
      when the list is empty or a byte is spared. */
  lemma ListKeepsNulExactly(payload: Bytes, maxFiles: nat, spare: nat)
    requires ParsePublish(payload, maxFiles).Some?
    ensures var names := ParsePublish(payload, maxFiles).value;
            (forall k | 0 <= k < |names| :: NulInside(Stored(names[k], spare))) <==> names == [] || spare > 0
  {
    var names := ParsePublish(payload, maxFiles).value;
    PublishGrammar(payload, maxFiles, names);
    forall k | 0 <= k < |names|
      ensures NulInside(Stored(names[k], spare)) <==> spare > 0
    {
      var block := Stored(names[k], spare);
      assert Storable(names[k]) && block[..|names[k]|] == names[k];
      CStringUnique(block, |names[k]|);
    }
  }

  ghost predicate Owns(blocks: Blocks, r: Rec) {
    if r.files == NULL then r.filesLen == 0
    else
      && ListOfTexts(blocks, r.files, r.filesLen)
      && |blocks[r.files].items| == r.filesLen
      && forall k | 0 <= k < r.filesLen :: IsCText(blocks[blocks[r.files].items[k]].bytes)
  }

  ghost function OwnedBy(blocks: Blocks, r: Rec): set<Ptr> {
    if r.files != NULL && r.files in blocks && blocks[r.files].PtrList?
    then {r.files} + Elements(blocks[r.files].items)
    else {}
  }

  ghost function NameAt(blocks: Blocks, r: Rec, k: nat): Bytes
    requires Owns(blocks, r) && k < r.filesLen
  {
    var text := blocks[blocks[r.files].items[k]].bytes;
    text[..|text| - 1]
  }

  ghost function NamesIn(blocks: Blocks, r: Rec): (names: seq<Bytes>)
    requires Owns(blocks, r)
    ensures |names| == r.filesLen
    ensures forall k | 0 <= k < |names| :: names[k] == NameAt(blocks, r, k)
  {
    seq(r.filesLen, k requires 0 <= k < r.filesLen => NameAt(blocks, r, k))
  }

  /** The model's blocks are such strings with one byte spared. */
  lemma OwnedKeepNul(blocks: Blocks, r: Rec, k: nat)
    requires Owns(blocks, r) && k < r.filesLen
    ensures var block := blocks[blocks[r.files].items[k]].bytes;
            block == Stored(NamesIn(blocks, r)[k], 1) && NulInside(block)
  {
    var block := blocks[blocks[r.files].items[k]].bytes;
    assert block == block[..|block| - 1] + [0];
    CStringUnique(block, |block| - 1);
  }

  ghost predicate OwnsAlone(blocks: Blocks, recs: seq<Rec>) {
    forall i, j | 0 <= i < j < |recs| :: OwnedBy(blocks, recs[i]) !! OwnedBy(blocks, recs[j])
  }

  ghost predicate Owned(blocks: Blocks, recs: seq<Rec>, p: Ptr) {
    exists i | 0 <= i < |recs| :: p in OwnedBy(blocks, recs[i])
  }

  ghost predicate AllOwn(blocks: Blocks, recs: seq<Rec>) {
    forall i | 0 <= i < |recs| :: Owns(blocks, recs[i]) && (!recs[i].active ==> recs[i].files == NULL)
  }

  /** Conservation: the live blocks are the disjoint union of the blocks owned
      by the records, and only active records own any. */
  ghost predicate HeapInv(blocks: Blocks, recs: seq<Rec>) {
    && NULL !in blocks
    && AllOwn(blocks, recs)
    && OwnsAlone(blocks, recs)
    && forall p | p in blocks :: Owned(blocks, recs, p)
  }

  ghost function SlotOf(blocks: Blocks, r: Rec): Slot
    requires Owns(blocks, r)
  {
    Slot(r.active, r.id, r.kind, r.sock, r.addr, NamesIn(blocks, r))
  }

  ghost function SlotsOf(blocks: Blocks, recs: seq<Rec>): (slots: seq<Slot>)
    requires AllOwn(blocks, recs)
    ensures |slots| == |recs|
    ensures forall i | 0 <= i < |recs| :: slots[i] == SlotOf(blocks, recs[i])
  {
    seq(|recs|, i requires 0 <= i < |recs| => SlotOf(blocks, recs[i]))
  }

  lemma SlotFields(blocks: Blocks, recs: seq<Rec>, c: nat)
    requires HeapInv(blocks, recs) && c < |recs|
    ensures Owns(blocks, recs[c]) && SlotsOf(blocks, recs)[c] == SlotOf(blocks, recs[c])
    ensures var slot := SlotsOf(blocks, recs)[c];
            slot.active == recs[c].active && slot.id == recs[c].id && slot.kind == recs[c].kind && slot.sock == recs[c].sock
  {
  }

  // ----------------------------------------------------------------- framing

  /** What a record owns, and says, depends only on its own blocks. */
  lemma OwnsFrame(b: Blocks, b': Blocks, r: Rec)
    requires Owns(b, r)
    requires forall p | p in OwnedBy(b, r) :: p in b' && b'[p] == b[p]
    ensures Owns(b', r) && OwnedBy(b', r) == OwnedBy(b, r) && NamesIn(b', r) == NamesIn(b, r)
  {
    if r.files != NULL {
      assert r.files in OwnedBy(b, r);
      var items := b[r.files].items;
      forall k | 0 <= k < r.filesLen
        ensures items[k] in OwnedBy(b, r)
      {
        assert items[..r.filesLen][k] == items[k];
      }
    }
  }

  lemma OwnedLive(b: Blocks, r: Rec)
    requires Owns(b, r)
    ensures OwnedBy(b, r) <= b.Keys
    ensures r.files != NULL ==> ListBlocks(b, r.files, r.filesLen) == OwnedBy(b, r)
  {
    if r.files != NULL {
      var items := b[r.files].items;
      assert items[..r.filesLen] == items;
      forall p | p in items
        ensures p in b
      {
        var k :| 0 <= k < |items| && items[k] == p;
        assert items[..r.filesLen][k] == p;
      }
    }
  }

  /** The other records do not notice what happens to the blocks of one. */
  lemma OthersKept(b: Blocks, b': Blocks, recs: seq<Rec>, c: nat, i: nat)
    requires HeapInv(b, recs) && c < |recs| && i < |recs| && i != c
    requires forall p | p in b && p !in OwnedBy(b, recs[c]) :: p in b' && b'[p] == b[p]
    ensures OwnedBy(b, recs[i]) !! OwnedBy(b, recs[c]) && OwnedBy(b, recs[i]) <= b.Keys
    ensures Owns(b', recs[i]) && OwnedBy(b', recs[i]) == OwnedBy(b, recs[i])
    ensures NamesIn(b', recs[i]) == NamesIn(b, recs[i])
  {
    OwnedLive(b, recs[i]);
    OwnsFrame(b, b', recs[i]);
  }

  ghost predicate Replaces(b: Blocks, b': Blocks, recs: seq<Rec>, c: nat, r: Rec)
    requires c < |recs|
  {
    && NULL !in b' && Owns(b', r) && (!r.active ==> r.files == NULL)
    && OwnedBy(b', r) !! b.Keys - OwnedBy(b, recs[c])
    && b'.Keys == b.Keys - OwnedBy(b, recs[c]) + OwnedBy(b', r)
    && forall p | p in b && p !in OwnedBy(b, recs[c]) :: p in b' && b'[p] == b[p]
  }

  lemma ReplacedAlone(b: Blocks, b': Blocks, recs: seq<Rec>, c: nat, r: Rec)
    requires HeapInv(b, recs) && c < |recs| && Replaces(b, b', recs, c, r)
    ensures OwnsAlone(b', recs[c := r])
  {
    var after := recs[c := r];
    forall i, j | 0 <= i < j < |after|
      ensures OwnedBy(b', after[i]) !! OwnedBy(b', after[j])
    {
      if i != c {
        OthersKept(b, b', recs, c, i);
      }
      if j != c {
        OthersKept(b, b', recs, c, j);
      }
    }
  }

  lemma ReplacedNoLeak(b: Blocks, b': Blocks, recs: seq<Rec>, c: nat, r: Rec, p: Ptr)
    requires HeapInv(b, recs) && c < |recs| && Replaces(b, b', recs, c, r) && p in b'
    ensures Owned(b', recs[c := r], p)
  {
    if p in OwnedBy(b', r) {
      assert p in OwnedBy(b', recs[c := r][c]);
    } else {
      var i :| 0 <= i < |recs| && p in OwnedBy(b, recs[i]);
      OthersKept(b, b', recs, c, i);
      assert p in OwnedBy(b', recs[c := r][i]);
    }
  }

  lemma ReplacedOwn(b: Blocks, b': Blocks, recs: seq<Rec>, c: nat, r: Rec)
    requires HeapInv(b, recs) && c < |recs| && Replaces(b, b', recs, c, r)
    ensures AllOwn(b', recs[c := r])
    ensures SlotsOf(b', recs[c := r]) == SlotsOf(b, recs)[c := SlotOf(b', r)]
  {
    var after := recs[c := r];
    forall i | 0 <= i < |after|
      ensures Owns(b', after[i]) && (!after[i].active ==> after[i].files == NULL)
      ensures SlotOf(b', after[i]) == SlotsOf(b, recs)[c := SlotOf(b', r)][i]
    {
      if i != c {
        OthersKept(b, b', recs, c, i);
      }
    }
  }

  /** Replacing what one record owns keeps conservation. */
  lemma ReplaceOwned(b: Blocks, b': Blocks, recs: seq<Rec>, c: nat, r: Rec)
    requires HeapInv(b, recs) && c < |recs| && Replaces(b, b', recs, c, r)
    ensures HeapInv(b', recs[c := r])
    ensures SlotsOf(b', recs[c := r]) == SlotsOf(b, recs)[c := SlotOf(b', r)]
  {
    ReplacedOwn(b, b', recs, c, r);
    ReplacedAlone(b, b', recs, c, r);
    forall p | p in b'
      ensures Owned(b', recs[c := r], p)
    {
      ReplacedNoLeak(b, b', recs, c, r, p);
    }
  }

  lemma FieldsReplace(b: Blocks, recs: seq<Rec>, c: nat, r: Rec)
    requires HeapInv(b, recs) && c < |recs|
    requires r.files == recs[c].files && r.filesLen == recs[c].filesLen
    requires !r.active ==> r.files == NULL
    ensures Replaces(b, b, recs, c, r)
    ensures NamesIn(b, r) == NamesIn(b, recs[c])
  {
    OwnedLive(b, recs[c]);
  }

  /** Fields other than the file list do not matter to the heap. */
  lemma FieldsFrame(b: Blocks, recs: seq<Rec>, c: nat, r: Rec)
    requires HeapInv(b, recs) && c < |recs|
    requires r.files == recs[c].files && r.filesLen == recs[c].filesLen
    requires !r.active ==> r.files == NULL
    ensures HeapInv(b, recs[c := r])
    ensures SlotsOf(b, recs[c := r]) == SlotsOf(b, recs)[c := SlotOf(b, r)]
    ensures NamesIn(b, r) == NamesIn(b, recs[c])
  {
    hide Replaces;
    FieldsReplace(b, recs, c, r);
    ReplaceOwned(b, b, recs, c, r);
  }

  /** Without active records nothing is live. */
  lemma NobodyOwns(blocks: Blocks, recs: seq<Rec>)
    requires HeapInv(blocks, recs)
    requires forall i | 0 <= i < |recs| :: !recs[i].active
    ensures blocks == map[]
  {
    assert forall p :: !Owned(blocks, recs, p);
    assert blocks.Keys == {};
  }

  // ---------------------------------------------- a list under construction

  /** `b` is `g` plus a list of room for `n` pointers, the first of which point
      to fresh texts holding `names`. */
  ghost predicate Building(g: Blocks, b: Blocks, files: Ptr, n: nat, ptrs: seq<Ptr>, names: seq<Bytes>) {
    && files != NULL && files !in g && |ptrs| == |names| <= n
    && b.Keys == g.Keys + {files} + Elements(ptrs)
    && (forall p | p in g :: b[p] == g[p])
    && b[files].PtrList? && |b[files].items| == n && b[files].items[..|ptrs|] == ptrs
    && Distinct(ptrs)
    && (forall k | 0 <= k < |ptrs| :: ptrs[k] != NULL && ptrs[k] !in g && ptrs[k] != files)
    && (forall k | 0 <= k < |ptrs| :: ptrs[k] in b && b[ptrs[k]] == Text(names[k] + [0]))
  }

  lemma BuildingStarts(g: Blocks, files: Ptr, n: nat, items: seq<Ptr>)
    requires files != NULL && files !in g && |items| == n
    ensures Building(g, g[files := PtrList(items)], files, n, [], [])
  {
  }

  lemma BuildingShape(g: Blocks, b: Blocks, files: Ptr, n: nat, ptrs: seq<Ptr>, names: seq<Bytes>)
    requires Building(g, b, files, n, ptrs, names)
    ensures files in b && b[files].PtrList? && |b[files].items| == n && b[files].items[..|ptrs|] == ptrs
    ensures |ptrs| == |names|
  {
  }

  lemma BuildingGrows(g: Blocks, b: Blocks, files: Ptr, n: nat, ptrs: seq<Ptr>, names: seq<Bytes>,
                      p: Ptr, name: Bytes, b': Blocks)
    requires Building(g, b, files, n, ptrs, names) && |ptrs| < n
    requires p != NULL && p !in b
    requires b' == b[p := Text(name + [0])][files := PtrList(b[files].items[|ptrs| := p])]
    ensures Building(g, b', files, n, ptrs + [p], names + [name])
  {
    var ptrs' := ptrs + [p];
    assert Elements(ptrs') == Elements(ptrs) + {p};
    forall k | 0 <= k < |ptrs|
      ensures ptrs[k] in Elements(ptrs) && ptrs[k] in b
    {
    }
    assert b'[files].items[..|ptrs'|] == ptrs';
  }

  /** Giving up frees everything that was allocated: nothing leaks. */
  lemma BuildingUndone(g: Blocks, b: Blocks, files: Ptr, n: nat, ptrs: seq<Ptr>, names: seq<Bytes>)
    requires Building(g, b, files, n, ptrs, names)
    ensures ListOfTexts(b, files, |ptrs|)
    ensures b - ListBlocks(b, files, |ptrs|) == g
  {
  }

  lemma BuildingOwned(g: Blocks, b: Blocks, files: Ptr, ptrs: seq<Ptr>, names: seq<Bytes>, gone: set<Ptr>, r: Rec)
    requires Building(g, b, files, |names|, ptrs, names) && AllStorable(names) && gone <= g.Keys
    requires forall k | 0 <= k < |names| :: |names[k]| + 1 < PUBLISH_LIMIT
    requires r.filesLen == |names| && r.files == files
    ensures Owns(b - gone, r) && OwnedBy(b - gone, r) == {files} + Elements(ptrs)
    ensures NamesIn(b - gone, r) == names
  {
    var b' := b - gone;
    assert b'[files].items == ptrs;
    forall k | 0 <= k < |names|
      ensures ptrs[k] in b' && b'[ptrs[k]] == Text(names[k] + [0]) && IsCText(names[k] + [0])
      ensures (names[k] + [0])[..|names[k]|] == names[k]
    {
      assert ptrs[k] in Elements(ptrs);
    }
  }

  /** A finished list handed to a record whose old list has been freed. */
  lemma BuildingAdopted(g: Blocks, b: Blocks, files: Ptr, ptrs: seq<Ptr>, names: seq<Bytes>,
                        recs: seq<Rec>, c: nat, r: Rec, b': Blocks)
    requires HeapInv(g, recs) && c < |recs| && r.active
    requires Building(g, b, files, |names|, ptrs, names) && AllStorable(names)
    requires forall k | 0 <= k < |names| :: |names[k]| + 1 < PUBLISH_LIMIT
    requires r.filesLen == |names| && r.files == files
    requires b' == b - OwnedBy(g, recs[c])
    ensures HeapInv(b', recs[c := r])
    ensures Owns(b', r) && NamesIn(b', r) == names
    ensures SlotsOf(b', recs[c := r]) == SlotsOf(g, recs)[c := SlotOf(b', r)]
  {
    OwnedLive(g, recs[c]);
    BuildingOwned(g, b, files, ptrs, names, OwnedBy(g, recs[c]), r);
    ReplaceOwned(g, b', recs, c, r);
  }
}
