/** What the allocator's memory holds, stated over explicit values: where the
    blocks lie, what their two header words contain, and which writes leave
    those header words alone. */
module BlockLayout {
  import opened Memory

  const NIL: nat := 0
  const HEADER: nat := 8

  /** Blocks (header address |-> effective size) lie at or above 8, end at or
      below heap, and do not overlap one another. */
  ghost predicate Placed(blocks: map<nat, nat>, heap: nat)
  {
    (forall h :: h in blocks ==> HEADER <= h && h + HEADER + blocks[h] <= heap) &&
    (forall h1, h2 :: Apart(blocks, h1, h2))
  }

  /** The lower of two blocks ends at or before the higher one begins. */
  ghost predicate Apart(blocks: map<nat, nat>, h1: nat, h2: nat)
  {
    h1 in blocks && h2 in blocks && h1 < h2 ==> h1 + HEADER + blocks[h1] <= h2
  }

  /** Two distinct blocks do not overlap. */
  lemma Disjoint(blocks: map<nat, nat>, heap: nat, h1: nat, h2: nat)
    requires Placed(blocks, heap) && h1 in blocks && h2 in blocks && h1 != h2
    ensures h1 + HEADER + blocks[h1] <= h2 || h2 + HEADER + blocks[h2] <= h1
  {
    assert Apart(blocks, h1, h2) && Apart(blocks, h2, h1);
  }

  /** Every block is inside memory and word [h+4] holds its effective size. */
  ghost predicate SizesStored(m: seq<u8>, blocks: map<nat, nat>)
  {
    (forall h :: h in blocks ==> h + HEADER + blocks[h] <= |m|) &&
    (forall h {:trigger StoredSize(m, h)} :: h in blocks ==> StoredSize(m, h) == blocks[h])
  }

  /** Word [h+4] of the block at h: its effective size. */
  function StoredSize(m: seq<u8>, h: nat): u32
    requires h + HEADER <= |m|
  {
    Load32(m, h + 4)
  }

  /** bump's two header stores: the logical size, then the effective size,
      of a new block at h, both es. */
  function StoreHeader(m: seq<u8>, h: nat, es: u32): (r: seq<u8>)
    requires h + HEADER <= |m|
    ensures |r| == |m|
    ensures forall i :: 0 <= i < |m| && (i < h || h + HEADER <= i) ==> r[i] == m[i]
  {
    Store32(Store32(m, h, es), h + 4, es)
  }

  /** The link the i-th free block should hold: the next one, or NIL at the end. */
  function Next(fl: seq<nat>, i: nat): nat
  {
    if i + 1 < |fl| then fl[i + 1] else NIL
  }

  /** The free list fl is threaded through word [ep] of its blocks, with no repeats. */
  ghost predicate ChainStored(m: seq<u8>, fl: seq<nat>, blocks: map<nat, nat>)
  {
    (forall i :: 0 <= i < |fl| ==> fl[i] in blocks && fl[i] + 4 <= |m|) &&
    (forall i {:trigger Load32(m, fl[i])} :: 0 <= i < |fl| ==> Load32(m, fl[i]) == Next(fl, i)) &&
    (forall i, j :: Differ(fl, i, j))
  }

  /** Entries i < j of fl are different blocks. */
  ghost predicate Differ(fl: seq<nat>, i: int, j: int)
  {
    0 <= i < j < |fl| ==> fl[i] != fl[j]
  }

  /** No block occurs twice in fl. */
  lemma Distinct(fl: seq<nat>, i: nat, j: nat)
    requires forall i, j :: Differ(fl, i, j)
    requires i < |fl| && j < |fl| && i != j
    ensures fl[i] != fl[j]
  {
    assert Differ(fl, i, j) && Differ(fl, j, i);
  }

  /** Position of x in s. */
  function IndexOf(s: seq<nat>, x: nat): (k: nat)
    requires x in s
    ensures k < |s| && s[k] == x && x !in s[..k]
  {
    if s[0] == x then 0 else 1 + IndexOf(s[1..], x)
  }

  /** In a list without repeats, the position of the k-th entry is k. */
  lemma IndexOfEntry(fl: seq<nat>, k: nat)
    requires forall i, j :: Differ(fl, i, j)
    requires k < |fl|
    ensures IndexOf(fl, fl[k]) == k
  {
    var j := IndexOf(fl, fl[k]);
    if j != k {
      Distinct(fl, j, k);
    }
  }

  /** Taking a block out of a list without repeats leaves one without
      repeats, and without that block. */
  lemma WithoutDistinct(fl: seq<nat>, k: nat)
    requires k < |fl| && forall i, j :: Differ(fl, i, j)
    ensures forall i, j :: Differ(Without(fl, k), i, j)
    ensures fl[k] !in Without(fl, k)
  {
    var fl2 := Without(fl, k);
    forall i, j ensures Differ(fl2, i, j) {
      if 0 <= i < j < |fl2| {
        Distinct(fl, if i < k then i else i + 1, if j < k then j else j + 1);
      }
    }
    forall i | 0 <= i < |fl2| ensures fl2[i] != fl[k] {
      Distinct(fl, if i < k then i else i + 1, k);
    }
  }

  /** Every allocated block's word [ep] holds a logical size within its effective size. */
  ghost predicate LogicalStored(m: seq<u8>, blocks: map<nat, nat>, fl: seq<nat>)
  {
    forall h {:trigger Load32(m, h)} :: h in blocks && h !in fl ==> h + 4 <= |m| && Load32(m, h) <= blocks[h]
  }

  /** m2 agrees with m on both header words of every block. */
  ghost predicate SameHeaders(m: seq<u8>, m2: seq<u8>, blocks: map<nat, nat>)
  {
    forall h :: h in blocks ==>
      h + HEADER <= |m| && h + HEADER <= |m2| &&
      Load32(m2, h) == Load32(m, h) && Load32(m2, h + 4) == Load32(m, h + 4)
  }

  /** Header contents are all the three layout predicates look at. */
  lemma HeadersKept(m: seq<u8>, m2: seq<u8>, blocks: map<nat, nat>, fl: seq<nat>)
    requires SameHeaders(m, m2, blocks) && |m| <= |m2|
    ensures SizesStored(m, blocks) ==> SizesStored(m2, blocks)
    ensures ChainStored(m, fl, blocks) ==> ChainStored(m2, fl, blocks)
    ensures LogicalStored(m, blocks, fl) ==> LogicalStored(m2, blocks, fl)
  {
    if SizesStored(m, blocks) {
      forall h | h in blocks ensures StoredSize(m2, h) == blocks[h] {
        assert StoredSize(m, h) == blocks[h];
      }
    }
  }

  /** Growing memory keeps every header. */
  lemma GrowKeepsHeaders(m: seq<u8>, n: nat, blocks: map<nat, nat>)
    requires forall h :: h in blocks ==> h + HEADER <= |m|
    ensures SameHeaders(m, m + Zeros(n), blocks)
  {
    forall h | h in blocks ensures Load32(m + Zeros(n), h) == Load32(m, h) && Load32(m + Zeros(n), h + 4) == Load32(m, h + 4) {
      assert (m + Zeros(n))[h..h + HEADER] == m[h..h + HEADER];
    }
  }

  /** A word stored outside every header keeps every header. */
  lemma StoreAwayKeepsHeaders(m: seq<u8>, blocks: map<nat, nat>, a: nat, v: u32)
    requires a + 4 <= |m|
    requires forall h :: h in blocks ==> h + HEADER <= |m| && (a + 4 <= h || h + HEADER <= a)
    ensures SameHeaders(m, Store32(m, a, v), blocks)
  {
    forall h | h in blocks
      ensures Load32(Store32(m, a, v), h) == Load32(m, h) && Load32(Store32(m, a, v), h + 4) == Load32(m, h + 4)
    {
      LoadOfStoreElsewhere(m, a, v, h);
      LoadOfStoreElsewhere(m, a, v, h + 4);
    }
  }

  /** Storing into word [h0] of a block keeps every other header, and the
      block's own effective size. */
  lemma StoreLinkKeepsOthers(m: seq<u8>, blocks: map<nat, nat>, heap: nat, h0: nat, v: u32)
    requires Placed(blocks, heap) && SizesStored(m, blocks) && h0 in blocks
    ensures SameHeaders(m, Store32(m, h0, v), blocks - {h0})
    ensures Load32(Store32(m, h0, v), h0) == v
    ensures Load32(Store32(m, h0, v), h0 + 4) == Load32(m, h0 + 4)
  {
    forall h | h in blocks - {h0} ensures h0 + 4 <= h || h + HEADER <= h0 {
      Disjoint(blocks, heap, h0, h);
    }
    StoreAwayKeepsHeaders(m, blocks - {h0}, h0, v);
    LoadOfStore(m, h0, v);
    LoadOfStoreElsewhere(m, h0, v, h0 + 4);
  }

  /** Copying into the payload of one block keeps every header. */
  lemma CopyIntoPayloadKeepsHeaders(m: seq<u8>, blocks: map<nat, nat>, heap: nat, h0: nat, src: nat, n: nat)
    requires Placed(blocks, heap) && SizesStored(m, blocks) && h0 in blocks
    requires n <= blocks[h0] && src + n <= |m|
    ensures SameHeaders(m, Copy(m, h0 + HEADER, src, n), blocks)
  {
    var m2 := Copy(m, h0 + HEADER, src, n);
    forall h | h in blocks
      ensures h + HEADER <= |m| && Load32(m2, h) == Load32(m, h) && Load32(m2, h + 4) == Load32(m, h + 4)
    {
      HeaderOutsidePayload(blocks, heap, h0, h, n);
      CopyKeepsHeader(m, h0 + HEADER, src, n, h);
    }
  }

  /** The header of any block lies outside the first n <= blocks[h0] bytes
      of h0's payload. */
  lemma HeaderOutsidePayload(blocks: map<nat, nat>, heap: nat, h0: nat, h: nat, n: nat)
    requires Placed(blocks, heap) && h0 in blocks && h in blocks && n <= blocks[h0]
    ensures h0 + HEADER + n <= h || h + HEADER <= h0 + HEADER
  {
    if h != h0 {
      Disjoint(blocks, heap, h0, h);
    }
  }

  lemma CopyKeepsHeader(m: seq<u8>, dst: nat, src: nat, n: nat, h: nat)
    requires dst + n <= |m| && src + n <= |m| && h + HEADER <= |m|
    requires dst + n <= h || h + HEADER <= dst
    ensures Load32(Copy(m, dst, src, n), h) == Load32(m, h)
    ensures Load32(Copy(m, dst, src, n), h + 4) == Load32(m, h + 4)
  {
    LoadOfCopyElsewhere(m, dst, src, n, h);
    LoadOfCopyElsewhere(m, dst, src, n, h + 4);
  }

  /** The allocator's layout invariant over explicit values: the host limit
      keeps every address below 2^32, memory is a whole number of pages, and
      the blocks are placed below heap with their effective sizes stored. */
  ghost predicate WellPlaced(heap: nat, m: seq<u8>, pages: nat, maxPages: nat, blocks: map<nat, nat>)
  {
    maxPages < 0x1_0000 && pages <= maxPages && |m| == pages * PAGE_SIZE &&
    HEADER <= heap && (heap == HEADER || heap <= |m|) &&
    Placed(blocks, heap) && SizesStored(m, blocks)
  }

  /** The free-list invariant over explicit values: list heads the chain fl
      threaded through memory, and every other block holds a logical size
      within its effective size. */
  ghost predicate WellChained(list: nat, m: seq<u8>, blocks: map<nat, nat>, fl: seq<nat>)
  {
    ChainStored(m, fl, blocks) && LogicalStored(m, blocks, fl) &&
    list == (if fl == [] then NIL else fl[0])
  }

  /** What the invariants say about the i-th free block: where it lies, where
      its link points and what effective size it records. */
  lemma FreeBlockAt(heap: nat, m: seq<u8>, pages: nat, maxPages: nat, blocks: map<nat, nat>, list: nat, fl: seq<nat>, i: nat)
    requires WellPlaced(heap, m, pages, maxPages, blocks) && WellChained(list, m, blocks, fl)
    requires i < |fl|
    ensures fl[i] in blocks && HEADER <= fl[i] && fl[i] + HEADER + blocks[fl[i]] <= |m|
    ensures Load32(m, fl[i]) == Next(fl, i) && Load32(m, fl[i] + 4) == blocks[fl[i]]
  {
    assert StoredSize(m, fl[i]) == blocks[fl[i]];
  }

  /** The sizes of the free blocks along a free list. */
  function SizesAlong(fl: seq<nat>, blocks: map<nat, nat>): (sizes: seq<nat>)
    requires forall i :: 0 <= i < |fl| ==> fl[i] in blocks
    ensures |sizes| == |fl| && forall i :: 0 <= i < |fl| ==> sizes[i] == blocks[fl[i]]
  {
    seq(|fl|, i requires 0 <= i < |fl| => blocks[fl[i]])
  }

  /** What best_fit relies on as it walks: starting from ep, the chain of
      link words visits exactly the blocks fl, each readable and recording
      the effective size listed in sizes, and then reaches NIL. */
  ghost predicate Threaded(m: seq<u8>, ep: nat, fl: seq<nat>, sizes: seq<nat>)
    decreases |fl|
  {
    |sizes| == |fl| &&
    if fl == [] then ep == NIL
    else
      ep == fl[0] && ep != NIL && ep + HEADER <= |m| && Load32(m, ep + 4) == sizes[0] &&
      Threaded(m, Load32(m, ep), fl[1..], sizes[1..])
  }

  /** The invariants make every suffix of the free list threaded. */
  lemma {:induction false} ThreadedFrom(heap: nat, m: seq<u8>, pages: nat, maxPages: nat, blocks: map<nat, nat>, list: nat, fl: seq<nat>, k: nat)
    requires WellPlaced(heap, m, pages, maxPages, blocks) && WellChained(list, m, blocks, fl)
    requires k <= |fl|
    ensures Threaded(m, if k < |fl| then fl[k] else NIL, fl[k..], SizesAlong(fl, blocks)[k..])
    decreases |fl| - k
  {
    if k < |fl| {
      var sizes := SizesAlong(fl, blocks);
      FreeBlockAt(heap, m, pages, maxPages, blocks, list, fl, k);
      ThreadedFrom(heap, m, pages, maxPages, blocks, list, fl, k + 1);
      assert fl[k..][1..] == fl[k + 1..];
      assert sizes[k..][1..] == sizes[k + 1..];
    }
  }

  /** deallocate's push: linking a live block h in front of the list with
      word [h] := list makes h the new head and keeps both invariants. */
  lemma Push(heap: nat, m: seq<u8>, pages: nat, maxPages: nat, blocks: map<nat, nat>, list: u32, fl: seq<nat>, h: nat,
             m2: seq<u8>, fl2: seq<nat>)
    requires WellPlaced(heap, m, pages, maxPages, blocks) && WellChained(list, m, blocks, fl)
    requires h in blocks && h !in fl && h + 4 <= |m|
    requires m2 == Store32(m, h, list) && fl2 == [h] + fl
    ensures WellPlaced(heap, m2, pages, maxPages, blocks) && WellChained(h, m2, blocks, fl2)
    ensures LiveKept(m, m2, blocks, fl2)
  {
    StoreLinkKeepsOthers(m, blocks, heap, h, list);
    SizesAfterLinkStore(m, m2, blocks, h);
    PushChain(m, m2, blocks, list, fl, h);
    LogicalAfterLinkStore(m, m2, blocks, fl, fl2, h);
    StoreIntoFreeKeepsLive(heap, m, blocks, fl2, h, list);
  }

  /** A store into word [h] of one block keeps every effective size. */
  lemma SizesAfterLinkStore(m: seq<u8>, m2: seq<u8>, blocks: map<nat, nat>, h: nat)
    requires SizesStored(m, blocks) && h in blocks && |m2| == |m|
    requires SameHeaders(m, m2, blocks - {h}) && Load32(m2, h + 4) == Load32(m, h + 4)
    ensures SizesStored(m2, blocks)
  {
    forall h' | h' in blocks ensures StoredSize(m2, h') == blocks[h'] {
      assert StoredSize(m, h') == blocks[h'];
      if h' != h {
        assert h' in blocks - {h};
      }
    }
  }

  lemma PushChain(m: seq<u8>, m2: seq<u8>, blocks: map<nat, nat>, list: u32, fl: seq<nat>, h: nat)
    requires ChainStored(m, fl, blocks) && list == (if fl == [] then NIL else fl[0])
    requires h in blocks && h !in fl && h + 4 <= |m| == |m2|
    requires SameHeaders(m, m2, blocks - {h}) && Load32(m2, h) == list
    ensures ChainStored(m2, [h] + fl, blocks)
  {
    var fl2 := [h] + fl;
    forall i, j ensures Differ(fl2, i, j) {
      if 0 < i < j < |fl2| {
        Distinct(fl, i - 1, j - 1);
      } else if 0 == i < j < |fl2| {
        assert fl2[j] == fl[j - 1];
      }
    }
    forall i | 0 <= i < |fl2| ensures Load32(m2, fl2[i]) == Next(fl2, i) {
      if i > 0 {
        assert fl2[i] == fl[i - 1] && fl[i - 1] in blocks - {h};
        assert Load32(m, fl[i - 1]) == Next(fl, i - 1);
      }
    }
  }

  /** A store into word [h] keeps the logical sizes of the blocks live in
      both lists, provided h itself is not live afterwards. */
  lemma LogicalAfterLinkStore(m: seq<u8>, m2: seq<u8>, blocks: map<nat, nat>, fl: seq<nat>, fl2: seq<nat>, h: nat)
    requires LogicalStored(m, blocks, fl) && |m2| == |m|
    requires SameHeaders(m, m2, blocks - {h}) && h in fl2
    requires forall h' :: h' in blocks && h' !in fl2 ==> h' !in fl
    ensures LogicalStored(m2, blocks, fl2)
  {
    forall h' | h' in blocks && h' !in fl2 ensures h' + 4 <= |m2| && Load32(m2, h') <= blocks[h'] {
      assert h' in blocks - {h};
      assert Load32(m, h') <= blocks[h'];
    }
  }

  /** The free list with its k-th block taken out. */
  function Without(fl: seq<nat>, k: nat): (r: seq<nat>)
    requires k < |fl|
    ensures |r| == |fl| - 1
    ensures forall i :: 0 <= i < k ==> r[i] == fl[i]
    ensures forall i :: k <= i < |r| ==> r[i] == fl[i + 1]
  {
    fl[..k] + fl[k + 1..]
  }

  /** repurpose past the head: the predecessor's link takes over the reused
      block's link, and word [fl[k]] := ls revives it as an allocated block;
      both invariants hold with fl[k] out of the list. */
  lemma Unlink(heap: nat, m: seq<u8>, pages: nat, maxPages: nat, blocks: map<nat, nat>, list: nat, fl: seq<nat>, k: nat, ls: u32,
               m2: seq<u8>, fl2: seq<nat>)
    requires WellPlaced(heap, m, pages, maxPages, blocks) && WellChained(list, m, blocks, fl)
    requires 0 < k < |fl| && ls <= blocks[fl[k]]
    requires fl[k - 1] + 4 <= |m| && fl[k] + 4 <= |m|
    requires m2 == Store32(Store32(m, fl[k - 1], Load32(m, fl[k])), fl[k], ls) && fl2 == Without(fl, k)
    ensures WellPlaced(heap, m2, pages, maxPages, blocks) && WellChained(list, m2, blocks, fl2)
    ensures Load32(m2, fl[k]) == ls && LiveKept(m, m2, blocks, fl) && fl[k] !in fl2
  {
    var a, b := fl[k - 1], fl[k];
    Distinct(fl, k - 1, k);
    var m1 := Store32(m, a, Load32(m, b));
    UnlinkStores(heap, m, blocks, fl, a, b, ls, m1, m2);
    UnlinkChain(m, m1, m2, blocks, fl, k);
    WithoutDistinct(fl, k);
    LogicalAfterUnlink(m, m1, m2, blocks, fl, k, ls);
  }

  /** The two stores of repurpose past the head, a's link taking b's and b's
      link word taking ls, keep every effective size and every allocated
      block, and each touches only its own block's link word. */
  lemma UnlinkStores(heap: nat, m: seq<u8>, blocks: map<nat, nat>, fl: seq<nat>, a: nat, b: nat, ls: u32,
                     m1: seq<u8>, m2: seq<u8>)
    requires Placed(blocks, heap) && SizesStored(m, blocks)
    requires a in fl && b in fl && a in blocks && b in blocks && a != b
    requires a + 4 <= |m| && b + 4 <= |m|
    requires m1 == Store32(m, a, Load32(m, b)) && m2 == Store32(m1, b, ls)
    ensures SizesStored(m1, blocks) && SizesStored(m2, blocks)
    ensures SameHeaders(m, m1, blocks - {a}) && SameHeaders(m1, m2, blocks - {b})
    ensures Load32(m2, a) == Load32(m, b) && Load32(m2, b) == ls
    ensures LiveKept(m, m2, blocks, fl)
  {
    StoreLinkKeepsOthers(m, blocks, heap, a, Load32(m, b));
    SizesAfterLinkStore(m, m1, blocks, a);
    StoreLinkKeepsOthers(m1, blocks, heap, b, ls);
    SizesAfterLinkStore(m1, m2, blocks, b);
    assert Load32(m2, a) == Load32(m1, a) by {
      assert a in blocks - {b};
    }
    StoreIntoFreeKeepsLive(heap, m, blocks, fl, a, Load32(m, b));
    StoreIntoFreeKeepsLive(heap, m1, blocks, fl, b, ls);
    LiveKeptTrans(m, m1, m2, blocks, fl);
  }

  lemma UnlinkChain(m: seq<u8>, m1: seq<u8>, m2: seq<u8>, blocks: map<nat, nat>, fl: seq<nat>, k: nat)
    requires ChainStored(m, fl, blocks) && 0 < k < |fl| && |m| == |m1| == |m2|
    requires SameHeaders(m, m1, blocks - {fl[k - 1]}) && SameHeaders(m1, m2, blocks - {fl[k]})
    requires Load32(m2, fl[k - 1]) == Load32(m, fl[k])
    ensures ChainStored(m2, Without(fl, k), blocks)
  {
    var fl2 := Without(fl, k);
    WithoutDistinct(fl, k);
    forall i | 0 <= i < |fl2| ensures Load32(m2, fl2[i]) == Next(fl2, i) {
      if i == k - 1 {
        assert Load32(m, fl[k]) == Next(fl, k);
      } else {
        var j := if i < k then i else i + 1;
        Distinct(fl, j, k - 1);
        Distinct(fl, j, k);
        assert fl2[i] == fl[j];
        assert fl[j] in blocks - {fl[k - 1]} && fl[j] in blocks - {fl[k]};
        assert Load32(m, fl[j]) == Next(fl, j);
      }
    }
  }

  lemma LogicalAfterUnlink(m: seq<u8>, m1: seq<u8>, m2: seq<u8>, blocks: map<nat, nat>, fl: seq<nat>, k: nat, ls: nat)
    requires LogicalStored(m, blocks, fl) && ChainStored(m, fl, blocks) && 0 < k < |fl| && |m| == |m1| == |m2|
    requires SameHeaders(m, m1, blocks - {fl[k - 1]}) && SameHeaders(m1, m2, blocks - {fl[k]})
    requires Load32(m2, fl[k]) == ls <= blocks[fl[k]]
    ensures LogicalStored(m2, blocks, Without(fl, k))
  {
    var fl2 := Without(fl, k);
    forall h | h in blocks && h !in fl2 ensures h + 4 <= |m2| && Load32(m2, h) <= blocks[h] {
      if h != fl[k] {
        assert fl2[k - 1] == fl[k - 1];
        forall i | 0 <= i < |fl| && i != k ensures fl[i] in fl2 {
          assert fl2[if i < k then i else i - 1] == fl[i];
        }
        assert h in blocks - {fl[k - 1]} && h in blocks - {fl[k]};
        assert Load32(m, h) <= blocks[h];
      }
    }
  }

  /** Writing both header words of a new block at the high-water mark
      touches no existing header. */
  lemma StoresAtMark(m: seq<u8>, blocks: map<nat, nat>, heap: nat, es: u32)
    requires heap + HEADER <= |m|
    requires forall h :: h in blocks ==> h + HEADER <= heap
    ensures var m2 := StoreHeader(m, heap, es);
      SameHeaders(m, m2, blocks) && Load32(m2, heap) == es && Load32(m2, heap + 4) == es
  {
    var m1 := Store32(m, heap, es);
    var m2 := Store32(m1, heap + 4, es);
    StoreAwayKeepsHeaders(m, blocks, heap, es);
    StoreAwayKeepsHeaders(m1, blocks, heap + 4, es);
    LoadOfStore(m, heap, es);
    LoadOfStoreElsewhere(m1, heap + 4, es, heap);
    LoadOfStore(m1, heap + 4, es);
  }

  /** memory.grow: memory grown to pages2 pages, the new bytes zero, keeps
      both invariants and every allocated block's bytes. */
  lemma Grows(heap: nat, m: seq<u8>, pages: nat, maxPages: nat, blocks: map<nat, nat>, list: nat, fl: seq<nat>,
              pages2: nat, m2: seq<u8>)
    requires WellPlaced(heap, m, pages, maxPages, blocks) && WellChained(list, m, blocks, fl)
    requires pages <= pages2 <= maxPages && m2 == Grown(m, pages2)
    ensures WellPlaced(heap, m2, pages2, maxPages, blocks) && WellChained(list, m2, blocks, fl)
    ensures LiveKept(m, m2, blocks, fl)
  {
    var n := pages2 * PAGE_SIZE - |m|;
    assert m2 == m + Zeros(n);
    GrowKeepsHeaders(m, n, blocks);
    HeadersKept(m, m2, blocks, fl);
    GrowKeepsLive(m, n, blocks, fl);
  }

  /** Growing memory keeps every block's bytes. */
  lemma GrowKeepsLive(m: seq<u8>, n: nat, blocks: map<nat, nat>, fl: seq<nat>)
    requires SizesStored(m, blocks)
    ensures LiveKept(m, m + Zeros(n), blocks, fl)
  {
    var m2 := m + Zeros(n);
    forall h | h in blocks && h !in fl ensures m2[h..h + HEADER + blocks[h]] == m[h..h + HEADER + blocks[h]] {
      assert forall i :: h <= i < h + HEADER + blocks[h] ==> m2[i] == m[i];
    }
  }

  /** bump, once memory holds the new block: writing ls into both header
      words at heap makes [heap, heap + ls + 8) a new allocated block, heap
      moves past it, both invariants hold and no allocated block's bytes
      move. */
  lemma Carve(heap: nat, m: seq<u8>, pages: nat, maxPages: nat, blocks: map<nat, nat>, list: nat, fl: seq<nat>,
              ls: u32, heap2: nat, m2: seq<u8>, blocks2: map<nat, nat>)
    requires WellPlaced(heap, m, pages, maxPages, blocks) && WellChained(list, m, blocks, fl)
    requires heap + ls + HEADER <= |m|
    requires m2 == StoreHeader(m, heap, ls)
    requires heap2 == heap + ls + HEADER && blocks2 == blocks[heap := ls]
    ensures WellPlaced(heap2, m2, pages, maxPages, blocks2) && WellChained(list, m2, blocks2, fl)
    ensures heap in blocks2 && heap !in fl && Load32(m2, heap) == ls && Load32(m2, heap + 4) == ls
    ensures LiveKept(m, m2, blocks, fl)
    ensures heap2 <= 0xFFFF_0000
  {
    PagesBound(pages);
    StoresAtMark(m, blocks, heap, ls);
    HeadersKept(m, m2, blocks, fl);
    AddBlock(m2, blocks, fl, heap, ls);
    CarveKeepsLive(heap, m, blocks, fl, ls);
  }

  /** A block with both header words in place at the high-water mark joins
      the layout as an allocated block. */
  lemma AddBlock(m: seq<u8>, blocks: map<nat, nat>, fl: seq<nat>, heap: nat, es: nat)
    requires HEADER <= heap && Placed(blocks, heap)
    requires SizesStored(m, blocks) && ChainStored(m, fl, blocks) && LogicalStored(m, blocks, fl)
    requires heap + HEADER + es <= |m| && Load32(m, heap) == es && Load32(m, heap + 4) == es
    ensures Placed(blocks[heap := es], heap + HEADER + es)
    ensures SizesStored(m, blocks[heap := es])
    ensures ChainStored(m, fl, blocks[heap := es])
    ensures LogicalStored(m, blocks[heap := es], fl)
  {
    var blocks2 := blocks[heap := es];
    forall h1, h2 ensures Apart(blocks2, h1, h2) {
      if h1 != heap && h2 != heap {
        assert Apart(blocks, h1, h2);
      }
    }
    assert heap !in fl;
  }

  /** repurpose of the head block: word [fl[0]] := ls revives it, and with
      list moved to the head's old link the layout and the free-list
      invariant hold for the rest of the chain. */
  lemma UnlinkHead(heap: nat, m: seq<u8>, pages: nat, maxPages: nat, blocks: map<nat, nat>, list: nat, fl: seq<nat>, ls: u32,
                   m2: seq<u8>, fl2: seq<nat>)
    requires WellPlaced(heap, m, pages, maxPages, blocks) && WellChained(list, m, blocks, fl)
    requires 0 < |fl| && ls <= blocks[fl[0]] && fl[0] + 4 <= |m|
    requires m2 == Store32(m, fl[0], ls) && fl2 == Without(fl, 0)
    ensures WellPlaced(heap, m2, pages, maxPages, blocks) && WellChained(Load32(m, fl[0]), m2, blocks, fl2)
    ensures Load32(m2, fl[0]) == ls && LiveKept(m, m2, blocks, fl) && fl[0] !in fl2
  {
    var h := fl[0];
    StoreLinkKeepsOthers(m, blocks, heap, h, ls);
    SizesAfterLinkStore(m, m2, blocks, h);
    HeadChain(m, m2, blocks, fl);
    WithoutDistinct(fl, 0);
    LogicalAfterHead(m, m2, blocks, fl);
    assert Load32(m, h) == Next(fl, 0);
    StoreIntoFreeKeepsLive(heap, m, blocks, fl, h, ls);
  }

  /** Writing a new logical size s into word [h] of an allocated block, with
      s within its effective size, keeps both invariants. */
  lemma SetLogical(heap: nat, m: seq<u8>, pages: nat, maxPages: nat, blocks: map<nat, nat>, list: nat, fl: seq<nat>, h: nat, s: u32,
                   m2: seq<u8>)
    requires WellPlaced(heap, m, pages, maxPages, blocks) && WellChained(list, m, blocks, fl)
    requires h in blocks && h !in fl && s <= blocks[h] && h + 4 <= |m|
    requires m2 == Store32(m, h, s)
    ensures WellPlaced(heap, m2, pages, maxPages, blocks) && WellChained(list, m2, blocks, fl)
    ensures Load32(m2, h) == s
  {
    StoreLinkKeepsOthers(m, blocks, heap, h, s);
    SizesAfterLinkStore(m, m2, blocks, h);
    forall i | 0 <= i < |fl| ensures Load32(m2, fl[i]) == Next(fl, i) {
      assert fl[i] in blocks - {h};
      assert Load32(m, fl[i]) == Next(fl, i);
    }
    forall h' | h' in blocks && h' !in fl ensures h' + 4 <= |m2| && Load32(m2, h') <= blocks[h'] {
      if h' != h {
        assert h' in blocks - {h};
        assert Load32(m, h') <= blocks[h'];
      }
    }
  }

  /** Copying n bytes into the payload of a block that can hold them keeps
      both invariants. */
  lemma CopyIntoBlock(heap: nat, m: seq<u8>, pages: nat, maxPages: nat, blocks: map<nat, nat>, list: nat, fl: seq<nat>,
                      h: nat, src: nat, n: nat, m2: seq<u8>)
    requires WellPlaced(heap, m, pages, maxPages, blocks) && WellChained(list, m, blocks, fl)
    requires h in blocks && n <= blocks[h] && h + HEADER + n <= |m| && src + n <= |m|
    requires m2 == Copy(m, h + HEADER, src, n)
    ensures WellPlaced(heap, m2, pages, maxPages, blocks) && WellChained(list, m2, blocks, fl)
  {
    CopyIntoPayloadKeepsHeaders(m, blocks, heap, h, src, n);
    HeadersKept(m, m2, blocks, fl);
  }

  /** m2 holds the same bytes as m over every allocated block, header and
      payload alike. */
  ghost predicate LiveKept(m: seq<u8>, m2: seq<u8>, blocks: map<nat, nat>, fl: seq<nat>)
  {
    forall h :: BlockKept(m, m2, blocks, fl, h)
  }

  /** LiveKept for the one block at h, if it is allocated. */
  ghost predicate BlockKept(m: seq<u8>, m2: seq<u8>, blocks: map<nat, nat>, fl: seq<nat>, h: nat)
  {
    h in blocks && h !in fl ==>
      h + HEADER + blocks[h] <= |m| && h + HEADER + blocks[h] <= |m2| &&
      m2[h..h + HEADER + blocks[h]] == m[h..h + HEADER + blocks[h]]
  }

  /** A store that misses every allocated block keeps them all. */
  lemma StoreKeepsLive(m: seq<u8>, blocks: map<nat, nat>, fl: seq<nat>, a: nat, v: u32)
    requires a + 4 <= |m|
    requires forall h :: h in blocks && h !in fl ==> h + HEADER + blocks[h] <= |m| && (a + 4 <= h || h + HEADER + blocks[h] <= a)
    ensures LiveKept(m, Store32(m, a, v), blocks, fl)
  {
    var m2 := Store32(m, a, v);
    forall h | h in blocks && h !in fl ensures m2[h..h + HEADER + blocks[h]] == m[h..h + HEADER + blocks[h]] {
      assert forall i :: h <= i < h + HEADER + blocks[h] ==> m2[i] == m[i];
    }
  }

  lemma LiveKeptTrans(m: seq<u8>, m1: seq<u8>, m2: seq<u8>, blocks: map<nat, nat>, fl: seq<nat>)
    requires LiveKept(m, m1, blocks, fl) && LiveKept(m1, m2, blocks, fl)
    ensures LiveKept(m, m2, blocks, fl)
  {
    forall h ensures BlockKept(m, m2, blocks, fl, h) {
      assert BlockKept(m, m1, blocks, fl, h) && BlockKept(m1, m2, blocks, fl, h);
    }
  }

  /** Storing into word [a] of a free block misses every allocated block. */
  lemma StoreIntoFreeKeepsLive(heap: nat, m: seq<u8>, blocks: map<nat, nat>, fl: seq<nat>, a: nat, v: u32)
    requires Placed(blocks, heap) && SizesStored(m, blocks) && a in fl && a in blocks
    ensures a + 4 <= |m| && LiveKept(m, Store32(m, a, v), blocks, fl)
  {
    forall h | h in blocks && h !in fl ensures a + 4 <= h || h + HEADER + blocks[h] <= a {
      Disjoint(blocks, heap, a, h);
    }
    StoreKeepsLive(m, blocks, fl, a, v);
  }

  /** What LiveKept says about one allocated block: its link word and the
      first n bytes of its payload are as they were. */
  lemma LiveKeptAt(m: seq<u8>, m2: seq<u8>, blocks: map<nat, nat>, fl: seq<nat>, h: nat, n: nat)
    requires LiveKept(m, m2, blocks, fl) && h in blocks && h !in fl && n <= blocks[h]
    ensures h + HEADER + n <= |m| && h + HEADER + n <= |m2|
    ensures Load32(m2, h) == Load32(m, h)
    ensures m2[h + HEADER..h + HEADER + n] == m[h + HEADER..h + HEADER + n]
  {
    var e := h + HEADER + blocks[h];
    assert BlockKept(m, m2, blocks, fl, h);
    forall i | h <= i < e ensures m2[i] == m[i] {
      assert m2[h..e][i - h] == m[h..e][i - h];
    }
  }

  /** (blocks2, fl2) comes from (blocks, fl) by handing out block h: every
      block keeps its effective size, no block is newly free, and h was
      either free or not yet a block. */
  ghost predicate Extends(blocks: map<nat, nat>, fl: seq<nat>, blocks2: map<nat, nat>, fl2: seq<nat>, h: nat)
  {
    (forall x :: Kept(blocks, fl, blocks2, fl2, x)) && (h in fl || h !in blocks)
  }

  /** Extends for the one address x. */
  ghost predicate Kept(blocks: map<nat, nat>, fl: seq<nat>, blocks2: map<nat, nat>, fl2: seq<nat>, x: nat)
  {
    (x in blocks ==> x in blocks2 && blocks2[x] == blocks[x]) && (x in fl2 ==> x in fl)
  }

  lemma LiveKeptNarrow(m: seq<u8>, m2: seq<u8>, blocks: map<nat, nat>, fl: seq<nat>, blocks0: map<nat, nat>, fl0: seq<nat>)
    requires LiveKept(m, m2, blocks, fl)
    requires forall x :: x in blocks0 && x !in fl0 ==> x in blocks && x !in fl && blocks[x] == blocks0[x]
    ensures LiveKept(m, m2, blocks0, fl0)
  {
    forall h ensures BlockKept(m, m2, blocks0, fl0, h) {
      assert BlockKept(m, m2, blocks, fl, h);
    }
  }

  /** reallocate's move of n bytes from block q to block h, copying them
      (m0 to m1) and then freeing q (m1 to m2): h's payload starts with what
      q's held, h's link word is as it was, and no block but h and q changes. */
  lemma Moved(m0: seq<u8>, m1: seq<u8>, m2: seq<u8>, blocks: map<nat, nat>, fl: seq<nat>, q: nat, h: nat, n: nat)
    requires LiveKept(m0, m1, blocks, [h] + fl) && LiveKept(m1, m2, blocks, [q] + fl)
    requires h in blocks && h !in fl && h != q && n <= blocks[h]
    requires q + HEADER + n <= |m0| && h + HEADER + n <= |m1|
    requires m1[h + HEADER..h + HEADER + n] == m0[q + HEADER..q + HEADER + n]
    ensures LiveKept(m0, m2, blocks, [h, q] + fl)
    ensures h + HEADER + n <= |m2| && Load32(m2, h) == Load32(m1, h)
    ensures m2[h + HEADER..h + HEADER + n] == m0[q + HEADER..q + HEADER + n]
  {
    var f := [h, q] + fl;
    LiveKeptNarrow(m0, m1, blocks, [h] + fl, blocks, f);
    LiveKeptNarrow(m1, m2, blocks, [q] + fl, blocks, f);
    LiveKeptTrans(m0, m1, m2, blocks, f);
    LiveKeptAt(m1, m2, blocks, [q] + fl, h, n);
  }

  /** reallocate's copy of n bytes from the payload at p into the payload
      at r, followed by deallocate(p)'s link store, over explicit values: the
      copy keeps both invariants, r's link word and every other allocated
      block are untouched, and r's payload starts with p's. */
  lemma MoveFacts(heap: nat, m0: seq<u8>, pages: nat, maxPages: nat, blocks: map<nat, nat>, list: nat, fl: seq<nat>,
                  p: nat, r: nat, n: nat, link: u32)
    requires WellPlaced(heap, m0, pages, maxPages, blocks) && WellChained(list, m0, blocks, fl)
    requires HEADER <= p && HEADER <= r && p != r
    requires p - HEADER in blocks && p - HEADER !in fl && r - HEADER in blocks && r - HEADER !in fl
    requires n <= blocks[p - HEADER] && n <= blocks[r - HEADER]
    ensures p + n <= |m0| && r + n <= |m0|
    ensures WellPlaced(heap, Copy(m0, r, p, n), pages, maxPages, blocks)
    ensures WellChained(list, Copy(m0, r, p, n), blocks, fl)
    ensures var m2 := Store32(Copy(m0, r, p, n), p - HEADER, link);
      Load32(m2, r - HEADER) == Load32(m0, r - HEADER) &&
      m2[r..r + n] == m0[p..p + n] &&
      LiveKept(m0, m2, blocks, [r - HEADER, p - HEADER] + fl)
  {
    var q, h := p - HEADER, r - HEADER;
    Disjoint(blocks, heap, q, h);
    var m1 := Copy(m0, r, p, n);
    CopyFacts(heap, m0, pages, maxPages, blocks, list, fl, p, r, n);
    ResizeKeepsLive(heap, m1, blocks, fl, q, link);
    var m2 := Store32(m1, q, link);
    LoadOfCopyElsewhere(m0, r, p, n, h);
    Moved(m0, m1, m2, blocks, fl, q, h, n);
  }

  /** The copy half of MoveFacts: n bytes from the payload at p into the
      payload of the allocated block at r keep both invariants and every
      allocated block but r's. */
  lemma CopyFacts(heap: nat, m0: seq<u8>, pages: nat, maxPages: nat, blocks: map<nat, nat>, list: nat, fl: seq<nat>,
                  p: nat, r: nat, n: nat)
    requires WellPlaced(heap, m0, pages, maxPages, blocks) && WellChained(list, m0, blocks, fl)
    requires HEADER <= p && HEADER <= r && p - HEADER in blocks && r - HEADER in blocks
    requires n <= blocks[p - HEADER] && n <= blocks[r - HEADER]
    ensures p + n <= |m0| && r + n <= |m0|
    ensures WellPlaced(heap, Copy(m0, r, p, n), pages, maxPages, blocks)
    ensures WellChained(list, Copy(m0, r, p, n), blocks, fl)
    ensures LiveKept(m0, Copy(m0, r, p, n), blocks, [r - HEADER] + fl)
  {
    var h := r - HEADER;
    assert h + HEADER + blocks[h] <= |m0| && p + blocks[p - HEADER] <= |m0|;
    CopyIntoBlock(heap, m0, pages, maxPages, blocks, list, fl, h, p, n, Copy(m0, r, p, n));
    CopyKeepsLive(heap, m0, blocks, fl, h, p, n);
  }

  /** reallocate's relocation as two steps, handing out block h (m0 to m1)
      and then changing no allocated block but h and q (m1 to m2): every
      block allocated at the start other than q is untouched. */
  lemma RelocationKeepsLive(m0: seq<u8>, m1: seq<u8>, m2: seq<u8>, b0: map<nat, nat>, f0: seq<nat>,
                            b1: map<nat, nat>, f1: seq<nat>, q: nat, h: nat)
    requires LiveKept(m0, m1, b0, f0) && LiveKept(m1, m2, b1, [h, q] + f1)
    requires Extends(b0, f0, b1, f1, h)
    ensures LiveKept(m0, m2, b0, [q] + f0)
  {
    var f := [q] + f0;
    forall x | x in b0 && x !in f ensures x in b1 && x !in [h, q] + f1 && b1[x] == b0[x] {
      assert x in b0 && x !in f0 && Kept(b0, f0, b1, f1, x);
    }
    LiveKeptNarrow(m0, m1, b0, f0, b0, f);
    LiveKeptNarrow(m1, m2, b1, [h, q] + f1, b0, f);
    LiveKeptTrans(m0, m1, m2, b0, f);
  }

  /** Setting the logical size of the block at h misses every other
      allocated block. */
  lemma ResizeKeepsLive(heap: nat, m: seq<u8>, blocks: map<nat, nat>, fl: seq<nat>, h: nat, v: u32)
    requires Placed(blocks, heap) && SizesStored(m, blocks) && h in blocks
    ensures h + 4 <= |m| && LiveKept(m, Store32(m, h, v), blocks, [h] + fl)
  {
    forall x | x in blocks && x !in [h] + fl ensures h + 4 <= x || x + HEADER + blocks[x] <= h {
      Disjoint(blocks, heap, h, x);
    }
    StoreKeepsLive(m, blocks, [h] + fl, h, v);
  }

  /** Copying into the payload of the block at h misses every other
      allocated block. */
  lemma CopyKeepsLive(heap: nat, m: seq<u8>, blocks: map<nat, nat>, fl: seq<nat>, h: nat, src: nat, n: nat)
    requires Placed(blocks, heap) && SizesStored(m, blocks) && h in blocks && n <= blocks[h] && src + n <= |m|
    ensures h + HEADER + n <= |m| && LiveKept(m, Copy(m, h + HEADER, src, n), blocks, [h] + fl)
  {
    var m2 := Copy(m, h + HEADER, src, n);
    forall x | x in blocks && x !in [h] + fl
      ensures x + HEADER + blocks[x] <= |m| && m2[x..x + HEADER + blocks[x]] == m[x..x + HEADER + blocks[x]]
    {
      Disjoint(blocks, heap, h, x);
      assert forall i :: x <= i < x + HEADER + blocks[x] ==> m2[i] == m[i];
    }
  }

  /** Writing a header at the high-water mark misses every block. */
  lemma CarveKeepsLive(heap: nat, m: seq<u8>, blocks: map<nat, nat>, fl: seq<nat>, ls: u32)
    requires Placed(blocks, heap) && SizesStored(m, blocks) && heap + HEADER <= |m|
    ensures LiveKept(m, StoreHeader(m, heap, ls), blocks, fl)
  {
    var m1 := Store32(m, heap, ls);
    StoreKeepsLive(m, blocks, fl, heap, ls);
    StoreKeepsLive(m1, blocks, fl, heap + 4, ls);
    LiveKeptTrans(m, m1, Store32(m1, heap + 4, ls), blocks, fl);
  }

  lemma HeadChain(m: seq<u8>, m2: seq<u8>, blocks: map<nat, nat>, fl: seq<nat>)
    requires ChainStored(m, fl, blocks) && 0 < |fl| && |m2| == |m|
    requires SameHeaders(m, m2, blocks - {fl[0]})
    ensures ChainStored(m2, Without(fl, 0), blocks)
  {
    var fl2 := Without(fl, 0);
    WithoutDistinct(fl, 0);
    forall i | 0 <= i < |fl2| ensures Load32(m2, fl2[i]) == Next(fl2, i) {
      Distinct(fl, i + 1, 0);
      assert fl2[i] == fl[i + 1] && fl[i + 1] in blocks - {fl[0]};
      assert Load32(m, fl[i + 1]) == Next(fl, i + 1);
    }
  }

  lemma LogicalAfterHead(m: seq<u8>, m2: seq<u8>, blocks: map<nat, nat>, fl: seq<nat>)
    requires LogicalStored(m, blocks, fl) && 0 < |fl| && |m2| == |m| && fl[0] in blocks && fl[0] + 4 <= |m|
    requires SameHeaders(m, m2, blocks - {fl[0]}) && Load32(m2, fl[0]) <= blocks[fl[0]]
    ensures LogicalStored(m2, blocks, Without(fl, 0))
  {
    var fl2 := Without(fl, 0);
    forall h' | h' in blocks && h' !in fl2 ensures h' + 4 <= |m2| && Load32(m2, h') <= blocks[h'] {
      if h' != fl[0] {
        forall i | 0 < i < |fl| ensures fl[i] in fl2 {
          assert fl2[i - 1] == fl[i];
        }
        assert h' in blocks - {fl[0]};
        assert Load32(m, h') <= blocks[h'];
      }
    }
  }

  /** Under the host limit of fewer than 65536 pages, memory, heap and every
      block end fit in 32-bit addresses. */
  lemma WithinAddressSpace(heap: nat, m: seq<u8>, pages: nat, maxPages: nat, blocks: map<nat, nat>)
    requires WellPlaced(heap, m, pages, maxPages, blocks)
    ensures |m| <= 0xFFFF_0000 && heap <= 0xFFFF_0000
    ensures forall h :: h in blocks ==> h + HEADER + blocks[h] <= |m|
  {
    PagesBound(pages);
  }

  lemma PagesBound(pages: nat)
    requires pages < 0x1_0000
    ensures pages * PAGE_SIZE <= 0xFFFF_0000
  {
    assert pages * PAGE_SIZE == pages * 0x1_0000;
  }
}
