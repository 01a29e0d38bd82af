/**
 The heap of mem.c seen as a value: the live `struct mem` headers, keyed by their offset in `ram`.

 The functions here say what malloc, free and trim do to the headers, with a first-fit search
 over the whole heap. The Heap class, which searches from `lfree` and rewrites headers in
 place, is proved against them. `ram_end` is not a key: it stands at `memSize` and never changes.
 */
module HeapBlocks {
  import opened Common

  /** The size constants of mem.c; all sizes are already rounded to the alignment. */
  datatype Config = Config(alignment: nat, structSize: nat, minSize: nat, memSize: nat) {
    ghost predicate Valid() {
      && 0 < structSize && 0 < minSize
      && structSize + minSize <= memSize
      && memSize + 2 * structSize < MEM_SIZE_T
    }

    /** The constants are multiples of MEM_ALIGNMENT, which divides the range of mem_size_t. */
    ghost predicate ValidAlignment() {
      && 0 < alignment && Aligned(MEM_SIZE_T, alignment)
      && Aligned(structSize, alignment) && Aligned(minSize, alignment) && Aligned(memSize, alignment)
    }
  }

  /** mem_size_t is u16_t as MEM_SIZE is at most 64000. */
  const MEM_SIZE_T: nat := 0x1_0000

  /** The configuration of this build: MEM_ALIGNMENT 1, MEM_SIZE 16000, a 6-byte struct mem, MIN_SIZE 12. */
  const BUILD: Config := Config(1, 6, 12, 16000)

  // ----- alignment and request sizes -----

  predicate Aligned(x: int, a: int)
    requires 0 < a
  {
    x % a == 0
  }

  lemma MultipleIsAligned(k: int, a: int)
    requires 0 < a
    ensures Aligned(k * a, a)
  {
    var x := k * a;
    var q, r := x / a, x % a;
    assert x == q * a + r;
    assert (k - q) * a == r;
    assert k - q >= 1 ==> (k - q - 1) * a >= 0;
    assert k - q <= -1 ==> (q - k - 1) * a >= 0;
  }

  lemma AlignedSum(x: int, y: int, a: int)
    requires 0 < a && Aligned(x, a) && Aligned(y, a)
    ensures Aligned(x + y, a)
  {
    assert x == (x / a) * a && y == (y / a) * a;
    MultipleIsAligned(x / a + y / a, a);
    assert (x / a + y / a) * a == (x / a) * a + (y / a) * a;
  }

  /** LWIP_MEM_ALIGN_SIZE: the next multiple of the alignment. */
  function AlignUp(x: nat, a: nat): (r: nat)
    requires 0 < a
    ensures Aligned(r, a) && x <= r < x + a
  {
    MultipleIsAligned(x / a + 1, a);
    assert (x / a + 1) * a == (x / a) * a + a;
    if Aligned(x, a) then x else (x / a + 1) * a
  }

  /** The size checks at mem.c:709-719. */
  function TrimSize(c: Config, sizeIn: nat): (r: Option<nat>)
    requires 0 < c.alignment
  {
    var rounded := AlignUp(sizeIn, c.alignment) % MEM_SIZE_T;
    var size := if rounded < c.minSize then c.minSize else rounded;
    if size > c.memSize || size < sizeIn then None else Some(size)
  }

  /** The least aligned size that holds `sizeIn` bytes and at least MIN_SIZE. */
  ghost predicate IsRounded(c: Config, sizeIn: nat, size: nat)
    requires 0 < c.alignment
  {
    && sizeIn <= size && c.minSize <= size && Aligned(size, c.alignment)
    && forall x: nat :: sizeIn <= x && c.minSize <= x && Aligned(x, c.alignment) ==> size <= x
  }

  /** The checks take exactly the sizes that, rounded, do not exceed the heap; the wrap-around loses none. */
  lemma TrimSizeExact(c: Config, sizeIn: nat, size: nat)
    requires c.Valid() && c.ValidAlignment()
    ensures TrimSize(c, sizeIn) == Some(size) <==> IsRounded(c, sizeIn, size) && size <= c.memSize
    ensures RequestSize(c, sizeIn) == Some(size) <==> sizeIn > 0 && IsRounded(c, sizeIn, size) && size <= c.memSize
  {
    var up := AlignUp(sizeIn, c.alignment);
    RoundedIs(c, sizeIn, if up < c.minSize then c.minSize else up);
    AlignmentFits(c);
    WrapFits(up);
  }

  /** What mem_size_t keeps of a size. */
  lemma WrapFits(x: nat)
    ensures x < MEM_SIZE_T ==> x % MEM_SIZE_T == x
    ensures x >= MEM_SIZE_T ==> x % MEM_SIZE_T <= x - MEM_SIZE_T
  {
  }

  lemma RoundedIs(c: Config, sizeIn: nat, least: nat)
    requires c.Valid() && c.ValidAlignment()
    requires var up := AlignUp(sizeIn, c.alignment); least == if up < c.minSize then c.minSize else up
    ensures forall s: nat :: IsRounded(c, sizeIn, s) <==> s == least
  {
    var up := AlignUp(sizeIn, c.alignment);
    forall x: nat | sizeIn <= x && Aligned(x, c.alignment) ensures up <= x {
      NoneBetween(up, x, c.alignment);
    }
    assert IsRounded(c, sizeIn, least);
  }

  /** Two multiples that are less than the alignment apart are equal. */
  lemma NoneBetween(x: int, y: int, a: int)
    requires 0 < a && Aligned(x, a) && Aligned(y, a)
    ensures x - a < y ==> x <= y
  {
    Multiple(x, a);
    Multiple(y, a);
    if y / a < x / a {
      OneApart(y / a, x / a, a);
    }
    if x / a < y / a {
      OneApart(x / a, y / a, a);
    }
  }

  lemma Multiple(x: int, a: int)
    requires 0 < a && Aligned(x, a)
    ensures x / a * a == x
  {
  }

  lemma OneApart(p: int, q: int, a: int)
    requires 0 < a && p < q
    ensures p * a + a <= q * a
  {
    var d := q - p - 1;
    assert d * a >= 0;
    assert q * a == (p + 1 + d) * a == p * a + a + d * a;
  }

  lemma AlignmentFits(c: Config)
    requires c.Valid() && c.ValidAlignment()
    ensures c.alignment <= c.structSize && c.alignment <= c.minSize
  {
    NoneBetween(c.alignment, c.structSize, c.alignment);
    NoneBetween(c.alignment, c.minSize, c.alignment);
  }

  lemma TrimSizeOk(c: Config, sizeIn: nat)
    requires c.Valid() && c.ValidAlignment()
    ensures TrimSize(c, sizeIn).Some? ==>
      var size := TrimSize(c, sizeIn).value;
      c.minSize <= size <= c.memSize && sizeIn <= size && Aligned(size, c.alignment)
  {
    var up := AlignUp(sizeIn, c.alignment);
    var q := up / MEM_SIZE_T;
    assert Aligned(-q * MEM_SIZE_T, c.alignment) by {
      var m := MEM_SIZE_T / c.alignment;
      assert MEM_SIZE_T == m * c.alignment;
      MultipleIsAligned(-q * m, c.alignment);
      assert -q * m * c.alignment == -q * MEM_SIZE_T;
    }
    AlignedSum(up, -q * MEM_SIZE_T, c.alignment);
  }

  /** mem_malloc makes the same checks and also refuses 0 (mem.c:840-856): the size searched for, or None. */
  function RequestSize(c: Config, sizeIn: nat): (r: Option<nat>)
    requires 0 < c.alignment
  {
    if sizeIn == 0 then None else TrimSize(c, sizeIn)
  }

  /** The address behind a header and `size` bytes is aligned again. */
  lemma CutAligned(c: Config, a: nat, size: nat)
    requires c.ValidAlignment() && Aligned(a, c.alignment) && Aligned(size, c.alignment)
    ensures Aligned(a + c.structSize + size, c.alignment)
  {
    AlignedSum(a, c.structSize, c.alignment);
    AlignedSum(a + c.structSize, size, c.alignment);
  }

  // ----- well-formed heaps -----

  datatype Header = Header(next: nat, prev: nat, used: bool)

  type Blocks = map<nat, Header>

  /** `next` leaves room for the header and MIN_SIZE bytes and names a header that points back, or ram_end. */
  ghost predicate NextOk(c: Config, h: Blocks, a: nat) {
    a in h ==>
      && a + c.structSize + c.minSize <= h[a].next <= c.memSize
      && (h[a].next != c.memSize ==> h[a].next in h && h[h[a].next].prev == a)
  }

  ghost predicate PrevOk(h: Blocks, a: nat) {
    a in h && a != 0 ==> h[a].prev in h && h[h[a].prev].next == a
  }

  ghost predicate Apart(h: Blocks, a: nat, b: nat) {
    a in h && b in h && a < b ==> h[a].next <= b
  }

  /** The headers form one doubly linked list, in address order, from 0 to ram_end. */
  ghost predicate Linked(c: Config, h: Blocks) {
    && 0 in h && h[0].prev == 0
    && (forall a :: NextOk(c, h, a))
    && (forall a :: PrevOk(h, a))
    && (forall a, b :: Apart(h, a, b))
  }

  ghost predicate NoFreePair(h: Blocks, a: nat) {
    a in h && h[a].next in h ==> h[a].used || h[h[a].next].used
  }

  /** No two neighbouring blocks are both free. */
  ghost predicate Coalesced(h: Blocks) {
    forall a :: NoFreePair(h, a)
  }

  ghost predicate WellFormed(c: Config, h: Blocks) {
    Linked(c, h) && Coalesced(h)
  }

  /** The test at mem.c:886-887: free, and at least a perfect fit. */
  predicate Fits(c: Config, h: Blocks, a: nat, size: nat)
    requires a in h
  {
    !h[a].used && h[a].next - (a + c.structSize) >= size
  }

  /** `p` is the lowest free block, or ram_end when there is none. */
  ghost predicate IsLowestFree(c: Config, h: Blocks, p: nat) {
    && (p == c.memSize || (p in h && !h[p].used))
    && forall a :: a in h && !h[a].used ==> p <= a
  }

  /** As IsLowestFree, with the free block `a` not yet taken into account. */
  ghost predicate IsLowestFreeBut(c: Config, h: Blocks, p: nat, a: nat) {
    && (p == c.memSize || (p in h && !h[p].used))
    && forall x :: x in h && !h[x].used && x != a ==> p <= x
  }

  /** `p` is the lowest block that fits: the answer of first-fit from address 0. */
  ghost predicate IsFirstFit(c: Config, h: Blocks, size: nat, p: nat) {
    && p in h && Fits(c, h, p, size)
    && forall a :: a in h && Fits(c, h, a, size) ==> p <= a
  }

  ghost predicate NoFit(c: Config, h: Blocks, size: nat) {
    forall a :: a in h ==> !Fits(c, h, a, size)
  }

  // ----- the operations on the headers -----

  /** The back link of the block at `x` is set to `p`; the end of the heap keeps none. */
  function SetPrev(c: Config, h: Blocks, x: nat, p: nat): Blocks {
    if x != c.memSize && x in h then h[x := h[x].(prev := p)] else h
  }

  /** Put a free block at `cut`, running to where `a` or the free block behind it ended. */
  function CutAt(c: Config, h: Blocks, a: nat, cut: nat, next: nat): Blocks
    requires a in h
  {
    SetPrev(c, h[a := Header(cut, h[a].prev, true)][cut := Header(next, a, false)], next, cut)
  }

  /** Hand out `a`, splitting off the rest when that can hold a header and MIN_SIZE bytes. */
  function Claim(c: Config, h: Blocks, a: nat, size: nat): Blocks
    requires a in h
  {
    if h[a].next - (a + c.structSize) >= size + c.structSize + c.minSize
    then CutAt(c, h, a, a + c.structSize + size, h[a].next)
    else h[a := h[a].(used := true)]
  }

  function MarkFree(h: Blocks, a: nat): Blocks
    requires a in h
  {
    h[a := h[a].(used := false)]
  }

  /** Take the block behind `a` off the list and give its room to `a`. */
  function MergeNext(c: Config, h: Blocks, a: nat): Blocks
    requires a in h && h[a].next in h
  {
    var n := h[a].next;
    SetPrev(c, (h - {n})[a := h[a].(next := h[n].next)], h[n].next, a)
  }

  function PlugForward(c: Config, h: Blocks, a: nat): Blocks
    requires a in h
  {
    if h[a].next in h && !h[h[a].next].used then MergeNext(c, h, a) else h
  }

  function PlugBackward(c: Config, h: Blocks, a: nat): Blocks
    requires a in h
  {
    var p := h[a].prev;
    if p != a && p in h && !h[p].used && h[p].next == a then MergeNext(c, h, p) else h
  }

  /** plug_holes */
  function Plug(c: Config, h: Blocks, a: nat): Blocks
    requires a in h
  {
    var f := PlugForward(c, h, a);
    if a in f then PlugBackward(c, f, a) else f
  }

  function Free(c: Config, h: Blocks, a: nat): Blocks
    requires a in h
  {
    Plug(c, MarkFree(h, a), a)
  }

  /** The cut at mem.c:753-804 for a new size that passed the checks before it. */
  function Trim(c: Config, h: Blocks, a: nat, newSize: nat): Blocks
    requires a in h
  {
    var n := h[a].next;
    var size := n - a - c.structSize;
    var cut := a + c.structSize + newSize;
    if newSize >= size then h
    else if n in h && !h[n].used then CutAt(c, h - {n}, a, cut, h[n].next)
    else if newSize + c.structSize + c.minSize <= size then CutAt(c, h, a, cut, n)
    else h
  }

  // ----- the `lfree` shortcut -----

  /** `lfree` after plug_holes: passed on when the block it names is merged away. */
  function LfreeAfterPlug(c: Config, h: Blocks, lfree: nat, a: nat): nat
    requires a in h
  {
    var f := PlugForward(c, h, a);
    var l := if h[a].next in h && !h[h[a].next].used && lfree == h[a].next then a else lfree;
    if a in f && f[a].prev != a && f[a].prev in f && !f[f[a].prev].used && l == a then f[a].prev else l
  }

  /** `lfree` after mem_free: lowered at mem.c:672-675 before the holes are plugged. */
  function LfreeAfterFree(c: Config, h: Blocks, lfree: nat, a: nat): nat
    requires a in h
  {
    LfreeAfterPlug(c, MarkFree(h, a), if a < lfree then a else lfree, a)
  }

  /** `lfree` after mem_trim (mem.c:762-764 and 792-794). */
  function LfreeAfterTrim(c: Config, h: Blocks, lfree: nat, a: nat, newSize: nat): nat
    requires a in h
  {
    var n, cut := h[a].next, a + c.structSize + newSize;
    var size := n - a - c.structSize;
    if newSize >= size then lfree
    else if n in h && !h[n].used then (if lfree == n then cut else lfree)
    else if newSize + c.structSize + c.minSize <= size && cut < lfree then cut
    else lfree
  }

  // ----- every operation keeps the heap well formed -----

  lemma CutAtLinked(c: Config, h: Blocks, a: nat, cut: nat)
    requires c.Valid() && Linked(c, h) && a in h
    requires a + c.structSize + c.minSize <= cut && cut + c.structSize + c.minSize <= h[a].next
    ensures cut !in h && Linked(c, CutAt(c, h, a, cut, h[a].next))
  {
    var n := h[a].next;
    var r := CutAt(c, h, a, cut, n);
    assert NextOk(c, h, a) && PrevOk(h, a);
    assert cut !in h by { assert Apart(h, a, cut); }
    forall x ensures NextOk(c, r, x) && PrevOk(r, x) {
      assert NextOk(c, h, x) && PrevOk(h, x);
    }
    forall x, y ensures Apart(r, x, y) {
      assert Apart(h, x, y) && Apart(h, a, y) && Apart(h, x, a) && Apart(h, a, x);
    }
  }

  lemma MergeNextLinked(c: Config, h: Blocks, a: nat)
    requires c.Valid() && Linked(c, h)
    requires a in h && h[a].next in h
    ensures Linked(c, MergeNext(c, h, a))
  {
    var n := h[a].next;
    var r := MergeNext(c, h, a);
    assert NextOk(c, h, a) && NextOk(c, h, n);
    forall x ensures NextOk(c, r, x) && PrevOk(r, x) {
      assert NextOk(c, h, x) && PrevOk(h, x);
    }
    forall x, y ensures Apart(r, x, y) {
      assert Apart(h, x, y) && Apart(h, n, y);
    }
  }

  /** Changing only a `used` mark leaves the links alone. */
  lemma MarkLinked(c: Config, h: Blocks, a: nat, used: bool)
    requires Linked(c, h) && a in h
    ensures Linked(c, h[a := h[a].(used := used)])
  {
    var r := h[a := h[a].(used := used)];
    forall x ensures NextOk(c, r, x) && PrevOk(r, x) {
      assert NextOk(c, h, x) && PrevOk(h, x);
    }
    forall x, y ensures Apart(r, x, y) {
      assert Apart(h, x, y);
    }
  }

  lemma ClaimWellFormed(c: Config, h: Blocks, a: nat, size: nat)
    requires c.Valid() && WellFormed(c, h) && c.minSize <= size
    requires a in h && Fits(c, h, a, size)
    ensures WellFormed(c, Claim(c, h, a, size))
  {
    var r := Claim(c, h, a, size);
    assert NextOk(c, h, a);
    if h[a].next - (a + c.structSize) >= size + c.structSize + c.minSize {
      CutAtLinked(c, h, a, a + c.structSize + size);
    } else {
      MarkLinked(c, h, a, true);
    }
    forall x ensures NoFreePair(r, x) {
      assert NoFreePair(h, x) && NoFreePair(h, a) && NextOk(c, h, x);
    }
  }

  lemma FreeWellFormed(c: Config, h: Blocks, a: nat)
    requires c.Valid() && WellFormed(c, h)
    requires a in h && h[a].used
    ensures WellFormed(c, Free(c, h, a))
  {
    var m := MarkFree(h, a);
    MarkLinked(c, h, a, false);
    var f := PlugForward(c, m, a);
    assert NextOk(c, m, a) && PrevOk(m, a) && PrevOk(h, a) && NextOk(c, h, a);
    if m[a].next in m {
      MergeNextLinked(c, m, a);
      assert NextOk(c, m, m[a].next);
    }
    var r := Free(c, h, a);
    var p := f[a].prev;
    if p != a {
      assert p in f && f[p].next == a;
      MergeNextLinked(c, f, p);
    }
    forall x ensures NoFreePair(r, x) {
      assert NoFreePair(h, x) && NextOk(c, h, x) && NextOk(c, f, x);
      assert NoFreePair(h, h[a].next) && NoFreePair(h, h[a].prev);
    }
  }

  lemma TrimWellFormed(c: Config, h: Blocks, a: nat, newSize: nat)
    requires c.Valid() && WellFormed(c, h)
    requires a in h && h[a].used && c.minSize <= newSize
    ensures WellFormed(c, Trim(c, h, a, newSize))
  {
    var n := h[a].next;
    var r := Trim(c, h, a, newSize);
    assert NextOk(c, h, a);
    if newSize < n - a - c.structSize {
      var cut := a + c.structSize + newSize;
      if n in h && !h[n].used {
        MergeNextLinked(c, h, a);
        assert NextOk(c, h, n);
        CutAtLinked(c, MergeNext(c, h, a), a, cut);
        assert r == CutAt(c, MergeNext(c, h, a), a, cut, h[n].next);
      } else if newSize + c.structSize + c.minSize <= n - a - c.structSize {
        CutAtLinked(c, h, a, cut);
      }
      forall x ensures NoFreePair(r, x) {
        assert NoFreePair(h, x) && NextOk(c, h, x) && NoFreePair(h, n);
      }
    }
  }

  // ----- what a caller sees -----

  /** The allocated memory: each used block with the address where it ends. */
  ghost function Allocated(h: Blocks): map<nat, nat> {
    map a | a in h && h[a].used :: h[a].next
  }

  /** Malloc adds one span of at least the requested size, disjoint from all others, and moves no other. */
  lemma ClaimAllocates(c: Config, h: Blocks, a: nat, size: nat)
    requires c.Valid() && WellFormed(c, h) && c.minSize <= size
    requires a in h && Fits(c, h, a, size)
    ensures var r := Claim(c, h, a, size);
      && a in r && a !in Allocated(h) && a + c.structSize + size <= r[a].next
      && r[a].next < a + 2 * c.structSize + size + c.minSize
      && Allocated(r) == Allocated(h)[a := r[a].next]
      && forall b :: b in Allocated(h) ==> r[a].next <= b || Allocated(h)[b] <= a
  {
    var r := Claim(c, h, a, size);
    assert NextOk(c, h, a);
    if h[a].next - (a + c.structSize) >= size + c.structSize + c.minSize {
      CutAtLinked(c, h, a, a + c.structSize + size);
    }
    forall b | b in Allocated(h)
      ensures r[a].next <= b || Allocated(h)[b] <= a
    {
      assert Apart(h, a, b) && Apart(h, b, a);
    }
  }

  /** No free block lies below `p`; `p` itself may have been handed out. */
  ghost predicate NoFreeBelow(h: Blocks, p: nat) {
    forall x :: x in h && !h[x].used ==> p <= x
  }

  lemma ClaimLowest(c: Config, h: Blocks, a: nat, size: nat, p: nat)
    requires c.Valid() && Linked(c, h) && NoFreeBelow(h, p)
    requires a in h && Fits(c, h, a, size)
    ensures NoFreeBelow(Claim(c, h, a, size), p)
    ensures IsLowestFree(c, h, p) && p != a ==> IsLowestFree(c, Claim(c, h, a, size), p)
  {
    assert NextOk(c, h, a);
  }

  lemma TrimLowest(c: Config, h: Blocks, a: nat, newSize: nat, p: nat)
    requires c.Valid() && Linked(c, h) && IsLowestFree(c, h, p)
    requires a in h && h[a].used && newSize < h[a].next - a - c.structSize
    ensures IsLowestFree(c, Trim(c, h, a, newSize), LfreeAfterTrim(c, h, p, a, newSize))
  {
    assert NextOk(c, h, a);
    assert Apart(h, a, p);
  }

  /** Merging two free blocks changes no allocation. */
  lemma MergeAllocates(c: Config, h: Blocks, a: nat)
    requires c.Valid() && Linked(c, h)
    requires a in h && !h[a].used && h[a].next in h && !h[h[a].next].used
    ensures Allocated(MergeNext(c, h, a)) == Allocated(h)
  {
    assert NextOk(c, h, a) && NextOk(c, h, h[a].next);
  }

  lemma MergeLowest(c: Config, h: Blocks, a: nat, p: nat)
    requires c.Valid() && Linked(c, h) && IsLowestFreeBut(c, h, p, a)
    requires a in h && !h[a].used && h[a].next in h && !h[h[a].next].used
    ensures IsLowestFree(c, MergeNext(c, h, a), if p == h[a].next then a else p)
  {
    assert NextOk(c, h, a) && NextOk(c, h, h[a].next);
    assert p in h ==> Apart(h, a, p);
  }

  /** Free gives back exactly one span. */
  lemma FreeReleases(c: Config, h: Blocks, a: nat)
    requires c.Valid() && WellFormed(c, h)
    requires a in h && h[a].used
    ensures Allocated(Free(c, h, a)) == Allocated(h) - {a}
  {
    var m := MarkFree(h, a);
    MarkLinked(c, h, a, false);
    assert NextOk(c, m, a) && PrevOk(m, a);
    assert Allocated(m) == Allocated(h) - {a};
    var f := PlugForward(c, m, a);
    if f != m {
      MergeAllocates(c, m, a);
      MergeNextLinked(c, m, a);
    }
    var r := PlugBackward(c, f, a);
    if r != f {
      MergeAllocates(c, f, f[a].prev);
    }
  }

  /**
   The span of `a` ends right behind `newSize` bytes, or where it did and then with too little left over for a block
   of its own behind it. What it loses is free, with all that was free behind it.
   */
  ghost predicate GivesBack(c: Config, h: Blocks, a: nat, newSize: nat, r: Blocks) {
    && a in h && a in r
    && var end, cut := h[a].next, a + c.structSize + newSize;
       && (r[a].next == cut || r[a].next == end) && cut <= r[a].next <= end
       && r[a].next < cut + c.structSize + c.minSize
       && (end in h && end !in Allocated(h) ==> r[a].next == cut)
       && (r[a].next < end ==>
             r[a].next in r && !r[r[a].next].used && r[r[a].next].next == if IsFree(h, end) then h[end].next else end)
       && (forall x :: IsFree(r, x) && x != r[a].next ==> IsFree(h, x) && r[x].next == h[x].next)
       && (forall x :: IsFree(h, x) && x != end ==> IsFree(r, x))
  }

  ghost predicate IsFree(h: Blocks, x: nat) {
    x in h && !h[x].used
  }

  /** Trim keeps the block where it is, leaves it at least the new size, and moves no other. */
  lemma TrimShrinks(c: Config, h: Blocks, a: nat, newSize: nat)
    requires c.Valid() && WellFormed(c, h)
    requires a in h && h[a].used && c.minSize <= newSize <= h[a].next - a - c.structSize
    ensures var r := Trim(c, h, a, newSize);
      && a in r && a + c.structSize + newSize <= r[a].next <= h[a].next
      && Allocated(r) == Allocated(h)[a := r[a].next]
  {
    var n := h[a].next;
    var cut := a + c.structSize + newSize;
    assert NextOk(c, h, a) && Apart(h, a, cut);
    assert n in h ==> NextOk(c, h, n);
  }

  /** And it gives back all but the new size. */
  lemma TrimGivesBack(c: Config, h: Blocks, a: nat, newSize: nat)
    requires c.Valid() && WellFormed(c, h)
    requires a in h && h[a].used && c.minSize <= newSize <= h[a].next - a - c.structSize
    ensures GivesBack(c, h, a, newSize, Trim(c, h, a, newSize))
  {
    var n := h[a].next;
    assert NextOk(c, h, a) && Apart(h, a, a + c.structSize + newSize);
    assert n in h ==> NextOk(c, h, n);
  }

  /** Freeing a block straight after it was handed out restores the heap, header for header. */
  lemma FreeUndoesClaim(c: Config, h: Blocks, a: nat, size: nat)
    requires c.Valid() && WellFormed(c, h) && c.minSize <= size
    requires a in h && Fits(c, h, a, size)
    ensures Free(c, Claim(c, h, a, size), a) == h
  {
    var r := Claim(c, h, a, size);
    var n := h[a].next;
    assert NextOk(c, h, a) && PrevOk(h, a) && NoFreePair(h, h[a].prev) && NoFreePair(h, a);
    if n - (a + c.structSize) >= size + c.structSize + c.minSize {
      var cut := a + c.structSize + size;
      CutAtLinked(c, h, a, cut);
      var m := MarkFree(r, a);
      assert PlugForward(c, m, a) == MergeNext(c, m, a) == h;
    }
  }

  /** The block that address `x` lies in. */
  ghost predicate Covers(h: Blocks, a: nat, x: nat) {
    a in h && a <= x < h[a].next
  }

  /** The blocks tile the heap: every address lies in exactly one. */
  lemma TilesExactly(c: Config, h: Blocks, x: nat)
    requires c.Valid() && Linked(c, h) && x < c.memSize
    ensures exists a :: Covers(h, a, x)
    ensures forall a, b :: Covers(h, a, x) && Covers(h, b, x) ==> a == b
  {
    var a := 0;
    while h[a].next <= x
      invariant a in h && a <= x
      decreases c.memSize - a
    {
      assert NextOk(c, h, a);
      a := h[a].next;
    }
    assert Covers(h, a, x);
    forall a, b | Covers(h, a, x) && Covers(h, b, x)
      ensures a == b
    {
      assert Apart(h, a, b) && Apart(h, b, a);
    }
  }

  // ----- room between the allocations -----

  /** No allocated span reaches into the place for a header at `x` and `size` bytes behind it. */
  ghost predicate Room(c: Config, h: Blocks, x: nat, size: nat) {
    && x + c.structSize + size <= c.memSize
    && forall b :: b in Allocated(h) ==> Allocated(h)[b] <= x || x + c.structSize + size <= b
  }

  /** As no two free blocks are neighbours, room anywhere lies in one block, and that block fits. */
  lemma RoomIsFit(c: Config, h: Blocks, x: nat, size: nat)
    requires c.Valid() && WellFormed(c, h) && Room(c, h, x, size)
    ensures exists a :: a in h && a <= x && Fits(c, h, a, size)
  {
    TilesExactly(c, h, x);
    var a :| Covers(h, a, x);
    var n := h[a].next;
    assert NextOk(c, h, a) && NoFreePair(h, a) && (n in h ==> NextOk(c, h, n));
    assert h[a].used ==> a in Allocated(h);
    assert n in h && h[n].used ==> n in Allocated(h);
    assert Fits(c, h, a, size);
  }

  lemma FitIsRoom(c: Config, h: Blocks, a: nat, size: nat)
    requires c.Valid() && Linked(c, h) && a in h && Fits(c, h, a, size)
    ensures Room(c, h, a, size)
  {
    assert NextOk(c, h, a);
    forall b | b in Allocated(h) ensures Allocated(h)[b] <= a || a + c.structSize + size <= b {
      assert Apart(h, a, b) && Apart(h, b, a) && NextOk(c, h, b);
    }
  }

  /** The first fit is the lowest place with room, and without a fit there is no room anywhere. */
  lemma FirstRoom(c: Config, h: Blocks, size: nat)
    requires c.Valid() && WellFormed(c, h)
    ensures NoFit(c, h, size) ==> forall x: nat :: !Room(c, h, x, size)
    ensures forall a: nat :: IsFirstFit(c, h, size, a) ==>
      Room(c, h, a, size) && forall x: nat :: Room(c, h, x, size) ==> a <= x
  {
    forall x: nat | Room(c, h, x, size) ensures exists a :: a in h && a <= x && Fits(c, h, a, size) {
      RoomIsFit(c, h, x, size);
    }
    forall a: nat | IsFirstFit(c, h, size, a) ensures Room(c, h, a, size) {
      FitIsRoom(c, h, a, size);
    }
  }

  // ----- alignment of the blocks -----

  ghost predicate AllAligned(c: Config, h: Blocks)
    requires 0 < c.alignment
  {
    forall a :: a in h ==> Aligned(a, c.alignment)
  }

  lemma OperationsKeepAlignment(c: Config, h: Blocks, a: nat, size: nat)
    requires c.ValidAlignment() && AllAligned(c, h) && a in h && Aligned(size, c.alignment)
    ensures AllAligned(c, Claim(c, h, a, size))
    ensures AllAligned(c, Free(c, h, a))
    ensures AllAligned(c, Trim(c, h, a, size))
  {
    CutAligned(c, a, size);
  }

  // ----- the `used` statistic -----

  /** Total extent of the used blocks from `a` to the end of the heap. */
  ghost function UsedFrom(c: Config, h: Blocks, a: nat): nat
    requires c.Valid() && Linked(c, h)
    requires a in h || a == c.memSize
    decreases c.memSize - a
  {
    if a == c.memSize then 0
    else
      assert NextOk(c, h, a);
      Extent(h, a) + UsedFrom(c, h, h[a].next)
  }

  function Extent(h: Blocks, a: nat): int
    requires a in h
  {
    if h[a].used then h[a].next - a else 0
  }

  ghost predicate SameBlock(h: Blocks, r: Blocks, x: nat) {
    (x in h <==> x in r) && (x in h ==> h[x].next == r[x].next && h[x].used == r[x].used)
  }

  /** Equal blocks between two common block starts add equally much. */
  lemma {:induction false} UsedBetween(c: Config, h: Blocks, r: Blocks, a: nat, b: nat)
    requires c.Valid() && Linked(c, h) && Linked(c, r) && a <= b
    requires (a in h && a in r) || a == c.memSize
    requires (b in h && b in r) || b == c.memSize
    requires forall x :: a <= x < b ==> SameBlock(h, r, x)
    ensures UsedFrom(c, h, a) - UsedFrom(c, h, b) == UsedFrom(c, r, a) - UsedFrom(c, r, b)
    decreases b - a
  {
    if a < b {
      assert NextOk(c, h, a) && NextOk(c, h, b) && NextOk(c, r, a);
      assert SameBlock(h, r, a) && Apart(h, a, b) && Apart(r, a, b);
      UsedBetween(c, h, r, h[a].next, b);
    }
  }

  /** A change confined to [lo, hi) changes the total by what it changes there. */
  lemma UsedChange(c: Config, h: Blocks, r: Blocks, lo: nat, hi: nat)
    requires c.Valid() && Linked(c, h) && Linked(c, r)
    requires lo in h && lo in r && lo <= hi <= c.memSize
    requires (hi in h && hi in r) || hi == c.memSize
    requires forall x: nat :: x < lo || hi <= x ==> SameBlock(h, r, x)
    ensures UsedFrom(c, r, 0) - UsedFrom(c, h, 0)
         == (UsedFrom(c, r, lo) - UsedFrom(c, r, hi)) - (UsedFrom(c, h, lo) - UsedFrom(c, h, hi))
  {
    UsedBetween(c, h, r, 0, lo);
    UsedBetween(c, h, r, hi, c.memSize);
  }

  /** Malloc raises the total by the extent of the block it hands out (mem.c:916 and 926). */
  lemma ClaimUsed(c: Config, h: Blocks, a: nat, size: nat)
    requires c.Valid() && WellFormed(c, h) && c.minSize <= size
    requires a in h && Fits(c, h, a, size)
    ensures var r := Claim(c, h, a, size);
      WellFormed(c, r) && a in r && UsedFrom(c, r, 0) == UsedFrom(c, h, 0) + (r[a].next - a)
  {
    ClaimWellFormed(c, h, a, size);
    var r := Claim(c, h, a, size);
    var n := h[a].next;
    assert NextOk(c, h, a) && NextOk(c, r, a);
    if n - (a + c.structSize) >= size + c.structSize + c.minSize {
      CutAtLinked(c, h, a, a + c.structSize + size);
    }
    forall x: nat | x < a || n <= x ensures SameBlock(h, r, x) { assert NextOk(c, h, x); }
    UsedChange(c, h, r, a, n);
  }

  /** Merging two free blocks leaves the total alone. */
  lemma MergeUsed(c: Config, h: Blocks, a: nat)
    requires c.Valid() && Linked(c, h)
    requires a in h && !h[a].used && h[a].next in h && !h[h[a].next].used
    ensures Linked(c, MergeNext(c, h, a)) && UsedFrom(c, MergeNext(c, h, a), 0) == UsedFrom(c, h, 0)
  {
    MergeNextLinked(c, h, a);
    var r := MergeNext(c, h, a);
    assert NextOk(c, h, a) && NextOk(c, h, h[a].next);
    var hi := h[h[a].next].next;
    forall x: nat | x < a || hi <= x ensures SameBlock(h, r, x) { assert NextOk(c, h, x); }
    UsedChange(c, h, r, a, hi);
  }

  /** Free lowers the total by the extent of the block (mem.c:677). */
  lemma FreeUsed(c: Config, h: Blocks, a: nat)
    requires c.Valid() && WellFormed(c, h)
    requires a in h && h[a].used
    ensures WellFormed(c, Free(c, h, a))
    ensures UsedFrom(c, Free(c, h, a), 0) == UsedFrom(c, h, 0) - (h[a].next - a)
  {
    FreeWellFormed(c, h, a);
    var m := MarkFree(h, a);
    MarkLinked(c, h, a, false);
    assert NextOk(c, h, a) && NextOk(c, m, a) && PrevOk(m, a);
    forall x: nat | x < a || h[a].next <= x ensures SameBlock(h, m, x) {}
    UsedChange(c, h, m, a, h[a].next);
    var f := PlugForward(c, m, a);
    if f != m {
      MergeUsed(c, m, a);
    }
    if PlugBackward(c, f, a) != f {
      MergeUsed(c, f, f[a].prev);
    }
  }

  /** Trim lowers the total by what it cuts off (mem.c:779 and 802). */
  lemma TrimUsed(c: Config, h: Blocks, a: nat, newSize: nat)
    requires c.Valid() && WellFormed(c, h)
    requires a in h && h[a].used && c.minSize <= newSize
    ensures var r := Trim(c, h, a, newSize);
      WellFormed(c, r) && a in r && UsedFrom(c, r, 0) == UsedFrom(c, h, 0) - (h[a].next - r[a].next)
  {
    TrimWellFormed(c, h, a, newSize);
    var r := Trim(c, h, a, newSize);
    var n := h[a].next;
    assert NextOk(c, h, a) && NextOk(c, r, a);
    assert n in h ==> NextOk(c, h, n);
    var hi := if n in h && !h[n].used then h[n].next else n;
    assert NextOk(c, r, r[a].next);
    forall x: nat | x < a || hi <= x ensures SameBlock(h, r, x) { TrimSame(c, h, a, newSize, x); }
    UsedChange(c, h, r, a, hi);
  }

  lemma TrimSame(c: Config, h: Blocks, a: nat, newSize: nat, x: nat)
    requires c.Valid() && WellFormed(c, h) && a in h && h[a].used && c.minSize <= newSize
    requires var n := h[a].next; x < a || (if n in h && !h[n].used then h[n].next else n) <= x
    ensures SameBlock(h, Trim(c, h, a, newSize), x)
  {
    assert NextOk(c, h, a) && NextOk(c, h, x);
    assert h[a].next in h ==> NextOk(c, h, h[a].next);
  }
}
