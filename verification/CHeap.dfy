/**
  The part of the C heap that holds published files: one block per string and
  one per list of pointers to strings. Freeing requires a live block, so a
  verified caller never frees twice.
 */
module CHeap {
  import opened Bytes
  import opened Wire

  type Ptr = nat

  const NULL: Ptr := 0

  datatype Block = Text(bytes: Bytes) | PtrList(items: seq<Ptr>)

  lemma {:induction false} Bounded(s: set<int>) returns (b: nat)
    ensures forall x | x in s :: x < b
    decreases |s|
  {
    b := 0;
    if x: int :| x in s {
      b := Bounded(s - {x});
      if b <= x {
        b := x + 1;
      }
      assert forall y | y in s :: y == x || y in s - {x};
    }
  }

  class Heap {
    var blocks: map<Ptr, Block>

    constructor ()
      ensures blocks == map[]
    {
      blocks := map[];
    }

    /** A successful `calloc`: some address that is not in use. */
    method Calloc(b: Block) returns (p: Ptr)
      modifies this
      ensures p != NULL && p !in old(blocks)
      ensures blocks == old(blocks)[p := b]
    {
      ghost var top := Bounded(blocks.Keys);
      assert top + 1 !in blocks;
      p :| p != NULL && p !in blocks;
      blocks := blocks[p := b];
    }

    method Free(p: Ptr)
      requires p == NULL || p in blocks
      modifies this
      ensures blocks == if p == NULL then old(blocks) else old(blocks) - {p}
    {
      if p != NULL {
        blocks := blocks - {p};
      }
    }

    /** `files[k] = p` for a list block. */
    method Store(list: Ptr, k: nat, p: Ptr)
      requires list in blocks && blocks[list].PtrList? && k < |blocks[list].items|
      modifies this
      ensures blocks == old(blocks)[list := PtrList(old(blocks)[list].items[k := p])]
    {
      blocks := blocks[list := PtrList(blocks[list].items[k := p])];
    }

    /** `strncpy` into a text block that is large enough. */
    method Copy(str: Ptr, src: Bytes)
      requires str in blocks && blocks[str].Text? && |src| <= |blocks[str].bytes|
      modifies this
      ensures blocks == old(blocks)[str := Text(src + old(blocks)[str].bytes[|src|..])]
    {
      blocks := blocks[str := Text(src + blocks[str].bytes[|src|..])];
    }

    /** Frees the first `n` strings of a list, then the list itself. */
    method FreeList(files: Ptr, n: nat)
      requires files == NULL ==> n == 0
      requires files != NULL ==> ListOfTexts(blocks, files, n)
      modifies this
      ensures blocks == old(blocks) - ListBlocks(old(blocks), files, n)
    {
      ghost var items := if files == NULL then [] else blocks[files].items;
      var index := 0;
      while index < n
        invariant index <= n
        invariant files != NULL ==> ListOfTexts(old(blocks), files, n)
        invariant files != NULL ==> files in blocks && blocks[files] == PtrList(items)
        invariant index > 0 ==> files != NULL
        invariant files != NULL ==> blocks == old(blocks) - Elements(items[..index])
        invariant files == NULL ==> blocks == old(blocks)
      {
        assert items[..n][index] == items[index] && items[index] !in Elements(items[..index]);
        Free(blocks[files].items[index]);
        assert Elements(items[..index + 1]) == Elements(items[..index]) + {items[index]};
        index := index + 1;
      }
      Free(files);
    }
  }

  function Elements(s: seq<Ptr>): set<Ptr> {
    set p | p in s
  }

  ghost predicate Distinct(s: seq<Ptr>) {
    forall i, j | 0 <= i < j < |s| :: s[i] != s[j]
  }

  /** `files` is a list block whose first `n` entries are distinct live texts. */
  ghost predicate ListOfTexts(blocks: map<Ptr, Block>, files: Ptr, n: nat) {
    && files in blocks && blocks[files].PtrList? && n <= |blocks[files].items|
    && var items := blocks[files].items[..n];
    && Distinct(items)
    && forall k | 0 <= k < n :: items[k] != NULL && items[k] in blocks && blocks[items[k]].Text?
  }

  ghost function ListBlocks(blocks: map<Ptr, Block>, files: Ptr, n: nat): set<Ptr>
    requires files != NULL ==> ListOfTexts(blocks, files, n)
  {
    if files == NULL then {} else {files} + Elements(blocks[files].items[..n])
  }
}
