/** The wall-e allocator: a free-list head `list` and a high-water mark `heap`
    over one growable linear memory. Every block is an 8-byte header followed
    by its payload; word [ep] holds the logical size while the block is
    allocated and the next free block while it is free, word [ep+4] the
    effective size fixed when the block was bumped. Callers see ep + 8. */
module WallE {
  import opened Memory
  import opened FitPolicy
  import opened BlockLayout

  /** heap + ls + 8 as the source computes it, in u32 arithmetic: it lands
      below heap + 8 exactly when the true sum does not fit in 32 bits. */
  function SpaceAsWritten(heap: u32, ls: u32): (space: u32)
    ensures space < heap + HEADER <==> heap + ls + HEADER >= 0x1_0000_0000
  {
    (heap + ls + 8) % 0x1_0000_0000
  }

  /** A request whose sum wraps passes the capacity test without growing, has
      its header written at heap, and moves heap back: from the initial mark 8
      a request of 0xFFFF_FFF0 bytes sets heap to 0, the nil address, and the
      next bump writes its header there. */
  lemma SpaceAsWrittenLowersHeap()
    ensures SpaceAsWritten(HEADER, 0xFFFF_FFF0) == NIL
  {
  }

  /** bump's capacity test: space bytes fit in the current pages, or the
      host can grow memory to one page more than space / PAGE_SIZE. */
  predicate Fits(space: nat, pages: nat, maxPages: nat)
  {
    space <= pages * PAGE_SIZE || space / PAGE_SIZE + 1 <= maxPages
  }

  /** The page count after bump's capacity test for space bytes: unchanged
      when they fit, otherwise one page more than the shortfall needs. It
      always covers space, never shrinks, and stays within the host limit
      whenever the test passes. */
  function PagesFor(space: nat, pages: nat): (n: nat)
    ensures space <= n * PAGE_SIZE && pages <= n
    ensures n == pages <==> space <= pages * PAGE_SIZE
    ensures forall maxPages :: Fits(space, pages, maxPages) && pages <= maxPages ==> n <= maxPages
  {
    if space <= pages * PAGE_SIZE then pages else space / PAGE_SIZE + 1
  }

  /** best_fit's walk: from the head, return the first block whose effective
      size is exactly ls; failing that, the first of the smallest larger
      blocks, provided it is within the tolerance; otherwise NIL. */
  method ScanFreeList(m: seq<u8>, list: u32, ls: u32, ghost fl: seq<nat>, ghost sizes: seq<nat>) returns (ef: u32)
    requires Threaded(m, list, fl, sizes)
    ensures ef == (match Choose(sizes, ls) case None => NIL case Some(k) => fl[k])
  {
    var ep: u32 := list;
    var bf: u32 := NIL;
    var bs: u32 := U32_MAX;
    ghost var i: nat := 0;
    while ep != NIL
      invariant i <= |fl| == |sizes| && Threaded(m, ep, fl[i..], sizes[i..])
      invariant FirstExact(sizes[..i], ls).None?
      invariant Smallest(sizes[..i], ls).None? ==> bf == NIL && bs == U32_MAX
      invariant Smallest(sizes[..i], ls).Some? ==>
        bf == fl[Smallest(sizes[..i], ls).value] && bs == sizes[Smallest(sizes[..i], ls).value]
      decreases |fl| - i
    {
      var es := Load32(m, ep + 4);
      ScanStep(sizes, ls, i);
      if es == ls {
        return ep;
      }
      if es > ls && es < bs {
        bs := es;
        bf := ep;
      }
      assert fl[i..][1..] == fl[i + 1..] && sizes[i..][1..] == sizes[i + 1..];
      ep := Load32(m, ep);
      i := i + 1;
    }
    assert sizes[..i] == sizes;
    if bs <= (ls + ls / 4) % 0x1_0000_0000 {
      return bf;
    }
    return NIL;
  }

  /** repurpose's walk: from the head list, the free block whose link word
      holds ep, or NIL when ep is the head and has no parent. */
  method FindParent(m: seq<u8>, list: u32, ep: u32, ghost fl: seq<nat>, ghost sizes: seq<nat>) returns (p: u32)
    requires Threaded(m, list, fl, sizes) && ep in fl
    requires forall j :: 0 <= j < |fl| && fl[j] == ep ==> j == IndexOf(fl, ep)
    ensures p == (if IndexOf(fl, ep) == 0 then NIL else fl[IndexOf(fl, ep) - 1])
  {
    ghost var k := IndexOf(fl, ep);
    p := list;
    ghost var i: nat := 0;
    while p != NIL
      invariant i <= |fl| && Threaded(m, p, fl[i..], sizes[i..])
      invariant k == 0 || i < k
      decreases |fl| - i
    {
      assert fl[i..][1..] == fl[i + 1..] && sizes[i..][1..] == sizes[i + 1..];
      if Load32(m, p) == ep {
        assert fl[i + 1] == ep;
        return;
      }
      p := Load32(m, p);
      i := i + 1;
    }
  }

  /** Memory after repurpose's walk has unlinked ep: the link word of ep's
      predecessor takes over ep's link; when ep heads fl there is none. */
  function Skipped(m: seq<u8>, fl: seq<nat>, ep: nat): (r: seq<u8>)
    requires ep in fl && ep + 4 <= |m|
    requires forall i :: 0 <= i < |fl| ==> fl[i] + 4 <= |m|
    ensures |r| == |m|
    ensures IndexOf(fl, ep) == 0 ==> r == m
    ensures IndexOf(fl, ep) > 0 ==> Load32(r, fl[IndexOf(fl, ep) - 1]) == Load32(m, ep)
  {
    var k := IndexOf(fl, ep);
    if k == 0 then m
    else
      LoadOfStore(m, fl[k - 1], Load32(m, ep));
      Store32(m, fl[k - 1], Load32(m, ep))
  }

  /** What repurpose's walk relies on, for a free block ep: the list is
      threaded from its head, every free block lies in memory, and ep occurs
      once. */
  lemma WalkFacts(heap: nat, m: seq<u8>, pages: nat, maxPages: nat, blocks: map<nat, nat>, list: nat, fl: seq<nat>, ep: nat)
    requires WellPlaced(heap, m, pages, maxPages, blocks) && WellChained(list, m, blocks, fl)
    requires ep in fl
    ensures Threaded(m, list, fl, SizesAlong(fl, blocks))
    ensures forall i :: 0 <= i < |fl| ==> HEADER <= fl[i] && fl[i] + HEADER <= |m|
    ensures forall j :: 0 <= j < |fl| && fl[j] == ep ==> j == IndexOf(fl, ep)
    ensures ep in blocks && ep + HEADER + blocks[ep] <= |m| <= 0xFFFF_0000
  {
    ThreadedFrom(heap, m, pages, maxPages, blocks, list, fl, 0);
    assert fl[0..] == fl && SizesAlong(fl, blocks)[0..] == SizesAlong(fl, blocks);
    PagesBound(pages);
    var k := IndexOf(fl, ep);
    forall j | 0 <= j < |fl| && fl[j] == ep ensures j == k {
      if j != k {
        Distinct(fl, j, k);
      }
    }
  }

  /** What repurpose does to the invariants, over explicit values: memory m2
      is m with ep unlinked and its logical size set to ls, fl2 the free list
      without ep. */
  lemma Revive(heap: nat, m: seq<u8>, pages: nat, maxPages: nat, blocks: map<nat, nat>, list: nat, fl: seq<nat>,
               ep: nat, ls: u32, m2: seq<u8>, fl2: seq<nat>)
    requires WellPlaced(heap, m, pages, maxPages, blocks) && WellChained(list, m, blocks, fl)
    requires ep in fl && ls <= blocks[ep]
    requires forall i :: 0 <= i < |fl| ==> fl[i] + 4 <= |m|
    requires m2 == Store32(Skipped(m, fl, ep), ep, ls) && fl2 == Without(fl, IndexOf(fl, ep))
    ensures WellPlaced(heap, m2, pages, maxPages, blocks)
    ensures WellChained(if IndexOf(fl, ep) > 0 then list else Load32(m, ep), m2, blocks, fl2)
    ensures IndexOf(fl, ep) == 0 <==> list == ep
    ensures IndexOf(fl, ep) == 0 ==> Skipped(m, fl, ep) == m
    ensures ep in blocks && ep !in fl2 && Load32(m2, ep) == ls && LiveKept(m, m2, blocks, fl)
  {
    var k := IndexOf(fl, ep);
    if k > 0 {
      Distinct(fl, 0, k);
    }
    if k > 0 {
      Unlink(heap, m, pages, maxPages, blocks, list, fl, k, ls, m2, fl2);
    } else {
      UnlinkHead(heap, m, pages, maxPages, blocks, list, fl, ls, m2, fl2);
    }
  }

  /** repurpose of the list head as written: the walk finds no block
      linking to ep, so no link is rewritten, list is left naming ep, and
      word [ep] := ls overwrites ep's link. The block just handed out thus
      stays at the head with its effective size in word [ep+4], so the next
      best_fit of that size returns it again on its first step (lines 46-47),
      while any other request follows ls as if it were a link; the free list
      invariant no longer holds for the remaining free blocks. */
  lemma HeadRepurposeAsWritten(heap: nat, m: seq<u8>, pages: nat, maxPages: nat, blocks: map<nat, nat>, list: nat, fl: seq<nat>,
                               ls: u32)
    requires WellPlaced(heap, m, pages, maxPages, blocks) && WellChained(list, m, blocks, fl)
    requires fl != [] && ls <= blocks[fl[0]]
    ensures list == fl[0] && list != NIL && list + HEADER <= |m|
    ensures Load32(Store32(Skipped(m, fl, fl[0]), fl[0], ls), list) == ls
    ensures Load32(Store32(Skipped(m, fl, fl[0]), fl[0], ls), list + 4) == blocks[list]
    ensures list !in Without(fl, 0)
    ensures !WellChained(list, Store32(Skipped(m, fl, fl[0]), fl[0], ls), blocks, Without(fl, 0))
  {
    FreeBlockAt(heap, m, pages, maxPages, blocks, list, fl, 0);
    LoadOfStore(m, fl[0], ls);
    LoadOfStoreElsewhere(m, fl[0], ls, fl[0] + 4);
    WithoutDistinct(fl, 0);
  }

  /** reallocate's move as written when allocate(s) gives nil: the payload
      copy goes to address 0, then p is freed and nil returned. A payload of
      16 bytes or more then covers both header words of the block at 8, the
      first one bump ever carves: its effective-size word takes bytes 12..16
      of p's payload, and when those differ from its effective size the
      layout invariant no longer holds. */
  lemma RelocateNilAsWritten(heap: nat, m: seq<u8>, pages: nat, maxPages: nat, blocks: map<nat, nat>, p: nat, ls: nat)
    requires WellPlaced(heap, m, pages, maxPages, blocks) && HEADER in blocks
    requires p >= HEADER && p - HEADER in blocks && 16 <= ls <= blocks[p - HEADER] && p + ls <= |m|
    requires Load32(m, p + 12) != blocks[HEADER]
    ensures Load32(Copy(m, NIL, p, ls), HEADER + 4) == Load32(m, p + 12)
    ensures !WellPlaced(heap, Copy(m, NIL, p, ls), pages, maxPages, blocks)
  {
    var m2 := Copy(m, NIL, p, ls);
    forall i | 0 <= i < ls
      ensures m2[i] == m[p + i]
    {
      assert m2[NIL..NIL + ls][i] == m[p..p + ls][i];
    }
    assert StoredSize(m2, HEADER) != blocks[HEADER];
  }

  /** The block allocate hands out is either the k-th free block, taken off
      the list, or a new one at the old high-water mark heap0, where no
      block lies: either way the blocks only grow and the list only shrinks. */
  lemma HandedOut(b0: map<nat, nat>, f0: seq<nat>, b1: map<nat, nat>, f1: seq<nat>, heap0: nat, k: Option<nat>, s: nat, h: nat)
    requires k.Some? ==> k.value < |f0| && b1 == b0 && f1 == Without(f0, k.value) && h == f0[k.value]
    requires k.None? ==> b1 == b0[heap0 := s] && f1 == f0 && h == heap0 && heap0 !in b0
    ensures Extends(b0, f0, b1, f1, h)
  {
    forall x ensures Kept(b0, f0, b1, f1, x) {
      if k.Some? && x in f1 {
        var i :| 0 <= i < |f1| && f1[i] == x;
        if i < k.value { assert f0[i] == x; } else { assert f0[i + 1] == x; }
      }
    }
  }

  function Min(a: nat, b: nat): nat
  {
    if a < b then a else b
  }

  class Allocator {
    /** Head of the free list (an effective pointer), NIL when empty. */
    var list: u32
    /** High-water mark: where the next bumped block's header goes. */
    var heap: u32
    /** The linear memory; its length is pages * PAGE_SIZE. */
    var mem: seq<u8>
    /** memory.size(), in 64 KiB pages. */
    var pages: nat
    /** The most pages the host lets memory.grow reach. */
    const maxPages: nat

    /** Every block carved so far: header address |-> effective size. */
    ghost var Blocks: map<nat, nat>
    /** The free blocks in free-list order, head first. */
    ghost var Free: seq<nat>

    /** The block layout: blocks lie between 8 and heap without overlapping,
        inside memory, and word [h+4] of each holds its effective size. */
    ghost predicate Layout()
      reads this
    {
      WellPlaced(heap, mem, pages, maxPages, Blocks)
    }

    /** The free list threaded through memory: list is the head, each free
        block's word [ep] links to the next, the chain ends in NIL and never
        repeats; each allocated block's word [ep] is a logical size no larger
        than its effective size. */
    ghost predicate FreeChain()
      reads this
    {
      WellChained(list, mem, Blocks, Free)
    }

    ghost predicate Valid()
      reads this
    {
      Layout() && FreeChain()
    }

    /** p is a logical pointer to an allocated block. */
    ghost predicate IsLive(p: u32)
      reads this
    {
      p >= HEADER && p - HEADER in Blocks && p - HEADER !in Free
    }

    /** The effective size of the live block p points to. */
    ghost function Capacity(p: u32): nat
      reads this
      requires IsLive(p)
    {
      Blocks[p - HEADER]
    }

    /** The bytes a live block holds for its owner: its payload up to its
        logical size. */
    ghost function Contents(p: u32): seq<u8>
      reads this
      requires Valid() && IsLive(p)
    {
      assert p - HEADER in Blocks;
      mem[p..p + Size(p)]
    }

    /** Effective sizes of the free blocks, head first. */
    ghost function FreeSizes(): seq<nat>
      reads this
      requires Valid()
    {
      SizesAlong(Free, Blocks)
    }

    /** Position in Free of the block allocate(s) would reuse. */
    ghost function Reuse(s: u32): (k: Option<nat>)
      reads this
      requires Valid()
      ensures k.Some? ==> s != 0 && k.value < |Free| && s <= Blocks[Free[k.value]]
    {
      if s == 0 then None else Choose(FreeSizes(), s)
    }

    /** Whether bump(ls) finds or obtains room for ls bytes plus header. */
    ghost predicate CanBump(ls: u32)
      reads this
    {
      Fits(heap + ls + HEADER, pages, maxPages)
    }

    /** The pointer allocate(s) returns from this state. */
    ghost function AllocPointer(s: u32): (p: nat)
      reads this
      requires Valid()
      ensures p == NIL <==> s == 0 || (Reuse(s).None? && !CanBump(s))
      ensures p != NIL ==> p >= HEADER && (p - HEADER in Free || p == heap + HEADER)
    {
      if s == 0 then NIL
      else match Reuse(s)
        case Some(k) => Free[k] + HEADER
        case None => if CanBump(s) then heap + HEADER else NIL
    }

    /** The module's initial state: an empty free list and heap at 8, so that
        address 0 is never a block. */
    constructor (initialPages: nat, maxPages: nat)
      requires initialPages <= maxPages < 0x1_0000
      ensures Valid() && list == NIL && heap == HEADER
      ensures pages == initialPages && this.maxPages == maxPages && mem == Zeros(initialPages * PAGE_SIZE)
      ensures Blocks == map[] && Free == []
    {
      this.maxPages := maxPages;
      list := NIL;
      heap := HEADER;
      pages := initialPages;
      mem := Zeros(initialPages * PAGE_SIZE);
      Blocks := map[];
      Free := [];
    }

    /** size(p): the logical size in the header of a live block. */
    function Size(p: u32): (ls: u32)
      reads this
      requires Valid() && IsLive(p)
      ensures ls <= Blocks[p - HEADER]
    {
      Load32(mem, p - HEADER)
    }

    /** memory.grow(delta): previous page count on success, -1 when the host refuses. */
    method Grow(delta: nat) returns (previous: int)
      requires |mem| == pages * PAGE_SIZE
      modifies this`pages, this`mem
      ensures |mem| == pages * PAGE_SIZE
      ensures old(pages) + delta <= maxPages ==>
        previous == old(pages) && pages == old(pages) + delta && mem == Grown(old(mem), pages)
      ensures old(pages) + delta > maxPages ==>
        previous == -1 && pages == old(pages) && mem == old(mem)
    {
      if pages + delta <= maxPages {
        previous := pages;
        mem := mem + Zeros(delta * PAGE_SIZE);
        pages := pages + delta;
      } else {
        previous := -1;
      }
    }

    /** bump(ls): carves a fresh block of effective size ls at heap, growing
        memory by whole pages (one more than the shortfall) when needed. */
    method Bump(ls: u32) returns (p: u32)
      requires Valid()
      modifies this`heap, this`mem, this`pages, this`Blocks
      ensures Valid()
      ensures p != NIL <==> old(CanBump(ls))
      ensures p == NIL ==>
        heap == old(heap) && pages == old(pages) && mem == old(mem) && Blocks == old(Blocks)
      ensures p != NIL ==>
        p == old(heap) + HEADER && heap == old(heap) + ls + HEADER &&
        Blocks == old(Blocks)[old(heap) as nat := ls as nat] &&
        pages == PagesFor(old(heap) + ls + HEADER, old(pages)) &&
        mem == StoreHeader(Grown(old(mem), pages), old(heap), ls)
      ensures p != NIL ==> IsLive(p) && Size(p) == ls && Load32(mem, p - 4) == ls && Capacity(p) == ls
      ensures LiveKept(old(mem), mem, old(Blocks), Free)
      ensures heap >= old(heap)
    {
      var space: nat := heap + ls + HEADER;
      var room := MakeRoom(space);
      if !room {
        return NIL;
      }
      ghost var grown := mem;
      p := Carve(ls);
      LiveKeptTrans(old(mem), grown, mem, old(Blocks), Free);
    }

    /** bump's capacity test: when space bytes exceed memory, asks the host
        for space / PAGE_SIZE - pages + 1 more pages; false when refused. */
    method MakeRoom(space: nat) returns (room: bool)
      requires Valid()
      modifies this`pages, this`mem
      ensures Valid()
      ensures room <==> Fits(space, old(pages), maxPages)
      ensures room ==>
        space <= |mem| && old(pages) <= pages &&
        pages == PagesFor(space, old(pages)) &&
        mem == Grown(old(mem), pages)
      ensures !room ==> pages == old(pages) && mem == old(mem)
      ensures LiveKept(old(mem), mem, Blocks, Free)
    {
      room := true;
      if space > pages * PAGE_SIZE {
        var previous := Grow(space / PAGE_SIZE - pages + 1);
        if previous == -1 {
          room := false;
        }
      }
      Grows(heap, old(mem), old(pages), maxPages, Blocks, list, Free, pages, mem);
    }

    /** bump's stores, once memory holds space for them: ls into both header
        words at heap, then heap moves past the new block. */
    method Carve(ls: u32) returns (p: u32)
      requires Valid() && heap + ls + HEADER <= |mem|
      modifies this`heap, this`mem, this`Blocks
      ensures Valid()
      ensures p == old(heap) + HEADER && heap == old(heap) + ls + HEADER
      ensures Blocks == old(Blocks)[old(heap) as nat := ls as nat]
      ensures mem == StoreHeader(old(mem), old(heap), ls)
      ensures IsLive(p) && Size(p) == ls && Load32(mem, p - 4) == ls && Capacity(p) == ls
      ensures LiveKept(old(mem), mem, old(Blocks), Free)
    {
      PagesBound(pages);
      mem := StoreHeader(mem, heap, ls);
      p := heap + HEADER;
      Blocks := Blocks[heap as nat := ls as nat];
      heap := heap + ls + HEADER;
      Carved(old(heap), old(mem), old(Blocks), ls, p);
    }

    /** The state bump's stores leave behind, from the heap, memory and
        blocks (heap0, m0, blocks0) they started from. */
    lemma Carved(heap0: u32, m0: seq<u8>, blocks0: map<nat, nat>, ls: u32, p: u32)
      requires WellPlaced(heap0, m0, pages, maxPages, blocks0) && WellChained(list, m0, blocks0, Free)
      requires heap0 + ls + HEADER <= |m0|
      requires mem == StoreHeader(m0, heap0, ls)
      requires Blocks == blocks0[heap0 as nat := ls as nat]
      requires heap == heap0 + ls + HEADER && p == heap0 + HEADER
      ensures Valid()
      ensures IsLive(p) && Size(p) == ls && Load32(mem, p - 4) == ls && Capacity(p) == ls
      ensures LiveKept(m0, mem, blocks0, Free)
    {
      BlockLayout.Carve(heap0, m0, pages, maxPages, blocks0, list, Free, ls, heap, mem, Blocks);
    }

    /** best_fit(ls) over the allocator's own free list and memory. */
    method BestFit(ls: u32) returns (ef: u32)
      requires Valid()
      ensures ef == (match Choose(FreeSizes(), ls) case None => NIL case Some(k) => Free[k])
    {
      ThreadedFrom(heap, mem, pages, maxPages, Blocks, list, Free, 0);
      ef := ScanFreeList(mem, list, ls, Free, FreeSizes());
    }

    /** What the free-list invariant gives a walk that looks for ep. */
    lemma Walkable(ep: u32)
      requires Valid() && ep in Free
      ensures Threaded(mem, list, Free, SizesAlong(Free, Blocks))
      ensures forall i :: 0 <= i < |Free| ==> HEADER <= Free[i] && Free[i] + HEADER <= |mem|
      ensures forall j :: 0 <= j < |Free| && Free[j] == ep ==> j == IndexOf(Free, ep)
      ensures ep in Blocks && ep + HEADER + Blocks[ep] <= |mem| <= 0xFFFF_0000
    {
      WalkFacts(heap, mem, pages, maxPages, Blocks, list, Free, ep);
    }

    /** repurpose's loop over the allocator's memory: the parent FindParent
        finds, if any, has its link word set to ep's link, skipping ep. When
        ep is the head no link holds it and memory is left as it was. */
    method SkipInList(ep: u32)
      requires Valid() && ep in Free
      modifies this`mem
      ensures mem == Skipped(old(mem), Free, ep)
    {
      Walkable(ep);
      var p := FindParent(mem, list, ep, Free, SizesAlong(Free, Blocks));
      if p != NIL {
        mem := Store32(mem, p, Load32(mem, ep));
      }
    }

    /** The state repurpose leaves behind, from the state it started in. */
    lemma Revived(m0: seq<u8>, list0: u32, free0: seq<nat>, ep: u32, ls: u32, p: u32)
      requires WellPlaced(heap, m0, pages, maxPages, Blocks) && WellChained(list0, m0, Blocks, free0)
      requires ep in free0 && ls <= Blocks[ep]
      requires list == (if list0 == ep then Load32(Skipped(m0, free0, ep), ep) else list0)
      requires mem == Store32(Skipped(m0, free0, ep), ep, ls)
      requires Free == Without(free0, IndexOf(free0, ep)) && p == ep + HEADER
      ensures Valid()
      ensures list == (if IndexOf(free0, ep) == 0 then Load32(m0, ep) else list0)
      ensures IsLive(p) && Size(p) == ls && ls <= Capacity(p)
      ensures LiveKept(m0, mem, Blocks, free0)
    {
      Revive(heap, m0, pages, maxPages, Blocks, list0, free0, ep, ls, mem, Free);
      assert Valid();
      assert p - HEADER == ep && ep in Blocks && ep !in Free && Load32(mem, ep) == ls;
      assert IsLive(p);
      assert Size(p) == ls;
    }

    /** repurpose(ep, ls): unlinks the free block ep and revives it with
        logical size ls, keeping its effective size. The predecessor's link
        skips ep; when ep heads the list there is none, and list itself moves
        to ep's successor. */
    method Repurpose(ep: u32, ls: u32) returns (p: u32)
      requires Valid() && ep in Free && ls <= Blocks[ep]
      modifies this`list, this`mem, this`Free
      ensures Valid()
      ensures Free == Without(old(Free), IndexOf(old(Free), ep))
      ensures mem == Store32(Skipped(old(mem), old(Free), ep), ep, ls)
      ensures list == (if IndexOf(old(Free), ep) == 0 then old(Load32(mem, ep)) else old(list))
      ensures p == ep + HEADER && IsLive(p) && Size(p) == ls && ls <= Capacity(p)
      ensures LiveKept(old(mem), mem, Blocks, old(Free))
    {
      ghost var k := IndexOf(Free, ep);
      SkipInList(ep);
      if list == ep {
        list := Load32(mem, ep);
      }
      mem := Store32(mem, ep, ls);
      p := ep + HEADER;
      Free := Without(Free, k);
      Revived(old(mem), old(list), old(Free), ep, ls, p);
    }

    /** allocate(s): nil for a zero request; otherwise the block best_fit
        chooses, revived with logical size s, or failing that a block bumped
        at the high-water mark. */
    method Allocate(s: u32) returns (p: u32)
      requires Valid()
      modifies this`list, this`heap, this`mem, this`pages, this`Blocks, this`Free
      ensures Valid()
      ensures p == old(AllocPointer(s))
      ensures p != NIL ==> IsLive(p) && Size(p) == s && s <= Capacity(p)
      ensures old(Reuse(s)).Some? ==>
        heap == old(heap) && pages == old(pages) && Blocks == old(Blocks) &&
        Free == Without(old(Free), old(Reuse(s)).value) &&
        mem == Store32(Skipped(old(mem), old(Free), old(Free)[old(Reuse(s)).value]), old(Free)[old(Reuse(s)).value], s)
      ensures old(Reuse(s)).None? ==> list == old(list) && Free == old(Free)
      ensures old(Reuse(s)).None? && p != NIL ==>
        heap == old(heap) + s + HEADER && Blocks == old(Blocks)[old(heap) as nat := s as nat] &&
        pages == PagesFor(old(heap) + s + HEADER, old(pages)) &&
        mem == StoreHeader(Grown(old(mem), pages), old(heap), s)
      ensures p == NIL ==>
        heap == old(heap) && pages == old(pages) && mem == old(mem) && Blocks == old(Blocks)
      ensures LiveKept(old(mem), mem, old(Blocks), old(Free))
    {
      if s == 0 {
        return NIL;
      }
      var ef := BestFit(s);
      Chosen(s, ef);
      if ef == NIL {
        p := Bump(s);
      } else {
        p := Repurpose(ef, s);
      }
    }

    /** What allocate learns from best_fit's answer ef: a free block exactly
        when Reuse finds one, and then the one at that position. */
    lemma Chosen(s: u32, ef: u32)
      requires Valid() && s != 0
      requires ef == (match Choose(FreeSizes(), s) case None => NIL case Some(k) => Free[k])
      ensures ef == NIL <==> Reuse(s).None?
      ensures Reuse(s).Some? ==>
        ef == Free[Reuse(s).value] && ef in Free && s <= Blocks[ef] &&
        IndexOf(Free, ef) == Reuse(s).value && AllocPointer(s) == ef + HEADER
      ensures Reuse(s).None? ==> AllocPointer(s) == (if CanBump(s) then heap + HEADER else NIL)
    {
      if Reuse(s).Some? {
        var k := Reuse(s).value;
        assert FreeSizes()[k] == Blocks[Free[k]];
        IndexOfEntry(Free, k);
      }
    }

    /** deallocate(p): pushes the block of the live pointer p onto the free
        list: its link word takes the old head and list names it. */
    method Deallocate(p: u32)
      requires Valid() && IsLive(p)
      modifies this`list, this`mem, this`Free
      ensures Valid()
      ensures list == p - HEADER && Free == [p - HEADER] + old(Free)
      ensures mem == Store32(old(mem), p - HEADER, old(list))
      ensures Load32(mem, p - HEADER) == old(list) && Load32(mem, p - 4) == old(Load32(mem, p - 4))
      ensures LiveKept(old(mem), mem, Blocks, Free)
    {
      var ep := p - HEADER;
      mem := Store32(mem, ep, list);
      list := ep;
      Free := [ep] + Free;
      Pushed(p);
    }

    /** The state deallocate leaves behind, from the state it started in. */
    twostate lemma Pushed(p: u32)
      requires old(Valid()) && old(IsLive(p))
      requires heap == old(heap) && pages == old(pages) && Blocks == old(Blocks)
      requires list == p - HEADER && Free == [p - HEADER] + old(Free)
      requires mem == Store32(old(mem), p - HEADER, old(list))
      ensures Valid()
      ensures Load32(mem, p - HEADER) == old(list) && Load32(mem, p - 4) == old(Load32(mem, p - 4))
      ensures LiveKept(old(mem), mem, Blocks, Free)
    {
      Push(heap, old(mem), pages, maxPages, Blocks, old(list), old(Free), p - HEADER, mem, Free);
      LoadOfStore(old(mem), p - HEADER, old(list));
      LoadOfStoreElsewhere(old(mem), p - HEADER, old(list), p - 4);
    }

    /** Word [p-4] of a live block holds its effective size, and its payload
        lies inside memory. */
    lemma CapacityStored(p: u32)
      requires Valid() && IsLive(p)
      ensures p + Capacity(p) <= |mem| && Load32(mem, p - 4) == Capacity(p)
    {
      assert StoredSize(mem, p - HEADER) == Blocks[p - HEADER];
    }

    /** reallocate(p, s): s == 0 frees the block and gives NIL; a size within
        the block's effective size is set in place; a larger one moves the
        contents to a block allocate(s) hands out and frees the old one, or,
        when allocate fails, gives NIL and leaves everything as it was. The
        first min(s, size(p)) bytes of the result are those of p. */
    method Reallocate(p: u32, s: u32) returns (r: u32)
      requires Valid() && IsLive(p)
      modifies this`list, this`heap, this`mem, this`pages, this`Blocks, this`Free
      ensures Valid()
      ensures s == 0 ==>
        r == NIL && list == p - HEADER && Free == [p - HEADER] + old(Free) &&
        mem == Store32(old(mem), p - HEADER, old(list)) &&
        heap == old(heap) && pages == old(pages) && Blocks == old(Blocks)
      ensures 0 < s <= old(Capacity(p)) ==>
        r == p && mem == Store32(old(mem), p - HEADER, s) && list == old(list) && Free == old(Free) &&
        heap == old(heap) && pages == old(pages) && Blocks == old(Blocks)
      ensures old(Capacity(p)) < s ==> r == old(AllocPointer(s))
      ensures old(Capacity(p)) < s && r == NIL ==>
        list == old(list) && heap == old(heap) && pages == old(pages) && mem == old(mem) &&
        Blocks == old(Blocks) && Free == old(Free)
      ensures old(Capacity(p)) < s && r != NIL ==> list == p - HEADER
      ensures old(Capacity(p)) < s && old(Reuse(s)).Some? ==>
        heap == old(heap) && pages == old(pages) && Blocks == old(Blocks) &&
        Free == [p - HEADER] + Without(old(Free), old(Reuse(s)).value)
      ensures old(Capacity(p)) < s && old(Reuse(s)).None? && r != NIL ==>
        heap == old(heap) + s + HEADER && Blocks == old(Blocks)[old(heap) as nat := s as nat] &&
        pages == PagesFor(old(heap) + s + HEADER, old(pages)) && Free == [p - HEADER] + old(Free)
      ensures r != NIL ==> IsLive(r) && Size(r) == s && s <= Capacity(r)
      ensures r != NIL ==> Contents(r)[..Min(s, old(Size(p)))] == old(Contents(p))[..Min(s, old(Size(p)))]
      ensures LiveKept(old(mem), mem, old(Blocks), [p - HEADER] + old(Free))
    {
      if s == 0 {
        Deallocate(p);
        return NIL;
      }
      var ep := p - HEADER;
      var ls := Size(p);
      CapacityStored(p);
      if s > ls && Load32(mem, ep + 4) < s {
        ContentsPrefix(p, ls);
        r := Relocate(p, s, ls);
        if r != NIL {
          ContentsPrefix(r, ls);
        }
        return;
      }
      // shrink, keep, or grow within the effective size at word [ep+4]
      SetSize(p, s);
      return p;
    }

    /** reallocate's in-place path: word [p-8] takes the new logical size s,
        which the block's effective size accommodates. */
    method SetSize(p: u32, s: u32)
      requires Valid() && IsLive(p) && s <= Capacity(p)
      modifies this`mem
      ensures mem == Store32(old(mem), p - HEADER, s)
      ensures Valid() && IsLive(p) && Size(p) == s && s <= Capacity(p)
      ensures Contents(p)[..Min(s, old(Size(p)))] == old(Contents(p))[..Min(s, old(Size(p)))]
      ensures LiveKept(old(mem), mem, old(Blocks), [p - HEADER] + old(Free))
    {
      ghost var n := Min(s, Size(p));
      ContentsPrefix(p, n);
      mem := Store32(mem, p - HEADER, s);
      SetLogical(heap, old(mem), pages, maxPages, Blocks, list, Free, p - HEADER, s, mem);
      ResizeKeepsLive(heap, old(mem), Blocks, Free, p - HEADER, s);
      assert p - HEADER in Blocks;
      ContentsPrefix(p, n);
      assert forall i :: p <= i < p + n ==> mem[i] == old(mem)[i];
    }

    /** reallocate moving a block of logical size ls that cannot grow in
        place: allocate(s), then copy the payload across and free p. When
        allocate gives NIL nothing is copied or freed. */
    method Relocate(p: u32, s: u32, ls: u32) returns (r: u32)
      requires Valid() && IsLive(p) && ls == Size(p) && Capacity(p) < s
      modifies this`list, this`heap, this`mem, this`pages, this`Blocks, this`Free
      ensures Valid()
      ensures r == old(AllocPointer(s))
      ensures r == NIL ==>
        list == old(list) && heap == old(heap) && pages == old(pages) && mem == old(mem) &&
        Blocks == old(Blocks) && Free == old(Free)
      ensures r != NIL ==> list == p - HEADER
      ensures old(Reuse(s)).Some? ==>
        heap == old(heap) && pages == old(pages) && Blocks == old(Blocks) &&
        Free == [p - HEADER] + Without(old(Free), old(Reuse(s)).value)
      ensures old(Reuse(s)).None? && r != NIL ==>
        heap == old(heap) + s + HEADER && Blocks == old(Blocks)[old(heap) as nat := s as nat] &&
        pages == PagesFor(old(heap) + s + HEADER, old(pages)) && Free == [p - HEADER] + old(Free)
      ensures r != NIL ==> IsLive(r) && Size(r) == s && s <= Capacity(r)
      ensures r != NIL ==> p + ls <= |old(mem)| && r + ls <= |mem| && mem[r..r + ls] == old(mem)[p..p + ls]
      ensures LiveKept(old(mem), mem, old(Blocks), [p - HEADER] + old(Free))
    {
      ghost var k := Reuse(s);
      HeapUnused();
      CapacityStored(p);
      assert p - HEADER in Blocks && p - HEADER !in Free && p + Blocks[p - HEADER] <= |mem| && ls == Load32(mem, p - HEADER) && Blocks[p - HEADER] < s;
      assert k.Some? ==> k.value < |Free| && AllocPointer(s) == Free[k.value] + HEADER;
      assert k.None? ==> AllocPointer(s) == NIL || AllocPointer(s) == heap + HEADER;
      r := Allocate(s);
      if r == NIL {
        return;
      }
      MoveInto(p, r, ls, s, k, old(heap), old(mem), old(Blocks), old(Free));
    }

    /** What a block p, live in the state (m0, b0, f0) before allocate handed
        out r, still is afterwards: live, with the same logical size and
        payload, and apart from r. */
    lemma StillLive(m0: seq<u8>, b0: map<nat, nat>, f0: seq<nat>, p: u32, r: u32, ls: u32)
      requires Valid() && IsLive(r) && LiveKept(m0, mem, b0, f0) && Extends(b0, f0, Blocks, Free, r - HEADER)
      requires p >= HEADER && p - HEADER in b0 && p - HEADER !in f0 && p + b0[p - HEADER] <= |m0|
      requires ls == Load32(m0, p - HEADER) && b0[p - HEADER] < Size(r)
      ensures IsLive(p) && p != r && ls == Size(p) && ls <= Size(r)
      ensures p + ls <= |m0| && p + ls <= |mem| && mem[p..p + ls] == m0[p..p + ls]
    {
      LiveKeptAt(m0, mem, b0, f0, p - HEADER, 0);
      assert Kept(b0, f0, Blocks, Free, p - HEADER);
      assert IsLive(p) && Size(p) == ls;
      LiveKeptAt(m0, mem, b0, f0, p - HEADER, ls);
    }

    /** reallocate's move proper, just after allocate(s) handed out r from
        the state (m0, b0, f0): either free block k of f0, or a fresh block at
        heap0. ls bytes of p's payload are copied into r's payload, then p is
        freed. Every other block allocated in (m0, b0, f0) keeps its bytes. */
    method MoveInto(p: u32, r: u32, ls: u32, ghost s: u32, ghost k: Option<nat>, ghost heap0: nat,
                    ghost m0: seq<u8>, ghost b0: map<nat, nat>, ghost f0: seq<nat>)
      requires Valid() && IsLive(r) && Size(r) == s && s <= Capacity(r) && LiveKept(m0, mem, b0, f0)
      requires k.Some? ==> k.value < |f0| && Blocks == b0 && Free == Without(f0, k.value) && r - HEADER == f0[k.value]
      requires k.None? ==> Blocks == b0[heap0 := s] && Free == f0 && r - HEADER == heap0 && heap0 !in b0
      requires p >= HEADER && p - HEADER in b0 && p - HEADER !in f0 && p + b0[p - HEADER] <= |m0|
      requires ls == Load32(m0, p - HEADER) && b0[p - HEADER] < s
      modifies this`list, this`mem, this`Free
      ensures Valid()
      ensures list == p - HEADER && Free == [p - HEADER] + old(Free)
      ensures r + ls <= |old(mem)| && p + ls <= |old(mem)| && mem == Store32(Copy(old(mem), r, p, ls), p - HEADER, old(list))
      ensures IsLive(r) && Size(r) == s && s <= Capacity(r)
      ensures r + ls <= |mem| && p + ls <= |m0| && mem[r..r + ls] == m0[p..p + ls]
      ensures LiveKept(m0, mem, b0, [p - HEADER] + f0)
    {
      HandedOut(b0, f0, Blocks, Free, heap0, k, s, r - HEADER);
      StillLive(m0, b0, f0, p, r, ls);
      Movable(p, r, ls);
      MovedKeepsLive(p, r, ls, m0, b0, f0);
      mem := Copy(mem, r, p, ls);
      Deallocate(p);
    }

    /** What MoveInto's copy and deallocate(p)'s link store do, stated over
        this state. */
    lemma Movable(p: u32, r: u32, ls: u32)
      requires Valid() && IsLive(p) && IsLive(r) && p != r && ls == Size(p) && ls <= Size(r)
      ensures p + ls <= |mem| && r + ls <= |mem|
      ensures WellPlaced(heap, Copy(mem, r, p, ls), pages, maxPages, Blocks)
      ensures WellChained(list, Copy(mem, r, p, ls), Blocks, Free)
      ensures Load32(Store32(Copy(mem, r, p, ls), p - HEADER, list), r - HEADER) == Load32(mem, r - HEADER)
      ensures Store32(Copy(mem, r, p, ls), p - HEADER, list)[r..r + ls] == mem[p..p + ls]
      ensures LiveKept(mem, Store32(Copy(mem, r, p, ls), p - HEADER, list), Blocks, [r - HEADER, p - HEADER] + Free)
    {
      MoveFacts(heap, mem, pages, maxPages, Blocks, list, Free, p, r, ls, list);
    }

    /** With allocate's step from (m0, b0, f0) before it, the move keeps
        every block allocated before allocate except p. */
    lemma MovedKeepsLive(p: u32, r: u32, ls: u32, m0: seq<u8>, b0: map<nat, nat>, f0: seq<nat>)
      requires HEADER <= p && HEADER <= r && p + ls <= |mem| && r + ls <= |mem|
      requires LiveKept(m0, mem, b0, f0) && Extends(b0, f0, Blocks, Free, r - HEADER)
      requires LiveKept(mem, Store32(Copy(mem, r, p, ls), p - HEADER, list), Blocks, [r - HEADER, p - HEADER] + Free)
      ensures LiveKept(m0, Store32(Copy(mem, r, p, ls), p - HEADER, list), b0, [p - HEADER] + f0)
    {
      RelocationKeepsLive(m0, mem, Store32(Copy(mem, r, p, ls), p - HEADER, list), b0, f0, Blocks, Free, p - HEADER, r - HEADER);
    }

    /** No block starts at the high-water mark. */
    lemma HeapUnused()
      requires Valid()
      ensures heap !in Blocks
    {
    }

    /** The first n bytes a live block holds for its owner. */
    lemma ContentsPrefix(p: u32, n: nat)
      requires Valid() && IsLive(p) && n <= Size(p)
      ensures p + n <= |mem| && Contents(p)[..n] == mem[p..p + n]
    {
      CapacityStored(p);
    }

    /** reallocate(p, size(p)) takes the in-place path and stores the logical
        size already in word [p-8]: memory is left exactly as it was. */
    lemma ResizeToSizeKeepsMemory(p: u32)
      requires Valid() && IsLive(p)
      ensures p - HEADER + 4 <= |mem| && Store32(mem, p - HEADER, Size(p)) == mem
    {
      CapacityStored(p);
      StoreOfLoad(mem, p - HEADER);
    }

    /** The free list is LIFO: a request for exactly the effective size of
        the most recently freed block gets that block back. */
    lemma HeadReusedFirst()
      requires Valid() && Free != [] && Blocks[Free[0]] > 0
      ensures Reuse(Blocks[Free[0]]) == Some(0)
      ensures AllocPointer(Blocks[Free[0]]) == Free[0] + HEADER
    {
      var sizes := FreeSizes();
      assert sizes[0] == Blocks[Free[0]];
      ChoiceExactAt(sizes, Blocks[Free[0]], 0);
    }
  }
}
