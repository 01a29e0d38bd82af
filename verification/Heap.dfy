/**
 The heap of mem.c as it runs: headers rewritten in place in `ram`, and the `lfree` shortcut.

 `ram[p]` is the `struct mem` read at offset `p`; the ghost field `h` holds the headers that are in the
 list. Headers that dropped out of it stay in `ram`, with `used` 0, until something is written over them:
 by the owner of the memory, or by a header that overlaps them. The ghost set `written` has those places.
 */
module Heap {
  import opened Common
  import opened HeapBlocks

  /**
   A call of mem_malloc, mem_free or mem_trim, or a write by the owner of `rmem` to their memory, after which
   `value` is read at `at`; what mem_malloc returns, and whether an error is counted.
   */
  datatype Call =
    | Allocate(size: nat)
    | Release(p: Option<int>)
    | Shorten(rmem: int, size: nat)
    | Fill(rmem: int, at: nat, value: Header)

  datatype Outcome = Outcome(p: Option<int>, bad: bool)

  /** Memory that mem_malloc handed out and mem_free has not taken back. */
  ghost predicate IsLive(c: Config, h: Blocks, rmem: int) {
    c.structSize <= rmem && rmem - c.structSize in Allocated(h)
  }

  /** The heap after mem_free, for a pointer that is allocated memory, or that the checks refuse. */
  ghost function Freed(c: Config, h: Blocks, p: Option<int>): Blocks {
    if p.Some? && IsLive(c, h, p.value) then HeapBlocks.Free(c, h, p.value - c.structSize) else h
  }

  /** No memory is live in `h'` that is not in `h`. */
  ghost predicate NoneNew(c: Config, h: Blocks, h': Blocks) {
    forall q :: IsLive(c, h', q) ==> IsLive(c, h, q)
  }

  lemma FreedLess(c: Config, h: Blocks, p: Option<int>)
    requires c.Valid() && WellFormed(c, h)
    ensures NoneNew(c, h, Freed(c, h, p)) && (p.Some? ==> !IsLive(c, Freed(c, h, p), p.value))
  {
    if p.Some? && IsLive(c, h, p.value) {
      FreeReleases(c, h, p.value - c.structSize);
    }
  }

  /** `p` is the only memory that may be new. */
  ghost predicate OneNew(c: Config, h: Blocks, h': Blocks, p: Option<int>) {
    forall q :: IsLive(c, h', q) ==> IsLive(c, h, q) || p == Some(q)
  }

  lemma ClaimedOne(c: Config, h: Blocks, a: nat, size: nat)
    requires c.Valid() && WellFormed(c, h) && c.minSize <= size && a in h && Fits(c, h, a, size)
    ensures OneNew(c, h, Claim(c, h, a, size), Some(a + c.structSize))
  {
    ClaimAllocates(c, h, a, size);
  }

  /** The heap after mem_trim, for a pointer that is allocated memory or outside the heap. */
  ghost function Trimmed(c: Config, h: Blocks, rmem: int, sizeIn: nat): Blocks
    requires 0 < c.alignment
  {
    if TrimSize(c, sizeIn).Some? && 0 <= rmem < c.memSize && IsLive(c, h, rmem)
    then HeapBlocks.Trim(c, h, rmem - c.structSize, TrimSize(c, sizeIn).value) else h
  }

  /** A header read at `at` lies at least in part in the memory at `rmem`. */
  ghost predicate InMemory(c: Config, h: Blocks, rmem: int, at: nat) {
    IsLive(c, h, rmem) && rmem - c.structSize < at < h[rmem - c.structSize].next
  }

  /** Two headers, one at each place, overlap. */
  ghost predicate Overlaps(c: Config, a: nat, x: nat) {
    a != x && x < a + c.structSize && a < x + c.structSize
  }

  /** A header at `a` would overlap one of the list. */
  ghost predicate Close(c: Config, h: Blocks, a: nat) {
    exists x :: x in h && Overlaps(c, a, x)
  }

  lemma ListedClear(c: Config, h: Blocks, x: nat)
    requires c.Valid() && Linked(c, h) && x in h
    ensures !Close(c, h, x) && x + c.structSize + c.minSize <= c.memSize
  {
    assert NextOk(c, h, x);
    forall a | a in h ensures !Overlaps(c, x, a) {
      assert Apart(h, a, x) && Apart(h, x, a) && NextOk(c, h, a);
    }
  }

  /** A header inside a block overlaps none, nor does one that takes the place of the header behind it. */
  lemma InsideClear(c: Config, h: Blocks, mem: nat, x: nat)
    requires c.Valid() && Linked(c, h) && mem in h && mem + c.structSize <= x
    ensures x + c.structSize <= h[mem].next ==> x !in h && !Close(c, h, x)
    ensures x <= h[mem].next && h[mem].next in h ==> !Close(c, h - {h[mem].next}, x)
  {
    var n := h[mem].next;
    assert NextOk(c, h, mem) && NextOk(c, h, n);
    forall a | a in h && a != n ensures x <= n && n in h ==> !Overlaps(c, x, a) {
      assert Apart(h, a, mem) && Apart(h, mem, a) && NextOk(c, h, a) && Apart(h, n, a) && Apart(h, a, n);
    }
    assert Apart(h, mem, x);
    forall a | a in h ensures x + c.structSize <= n ==> !Overlaps(c, x, a) {
      assert Apart(h, a, mem) && Apart(h, mem, a) && NextOk(c, h, a);
    }
  }

  /** The headers that are written when a block is cut off overlap none. */
  ghost predicate CanCut(c: Config, h: Blocks, mem: nat, cut: nat, next: nat) {
    && cut !in h && !Close(c, h, cut)
    && mem in h && !Close(c, h, mem) && mem + c.structSize <= cut && cut + c.structSize <= next <= c.memSize
    && (next != c.memSize ==> next in h && !Close(c, h, next) && next + c.structSize <= c.memSize)
  }

  lemma CutIs(c: Config, h: Blocks, mem: nat, cut: nat, next: nat)
    requires mem in h && cut != mem && cut != next && next != mem && (next != c.memSize ==> next in h)
    ensures var r := h[cut := Header(next, mem, false)][mem := h[mem].(next := cut, used := true)];
      CutAt(c, h, mem, cut, next) == if next == c.memSize then r else r[next := h[next].(prev := cut)]
  {
  }

  lemma StillClear(c: Config, h: Blocks, a: nat, value: Header, x: nat)
    ensures !Close(c, h, x) && !Overlaps(c, x, a) ==> !Close(c, h[a := value], x)
  {
  }

  lemma SplitClear(c: Config, h: Blocks, mem: nat, cut: nat)
    requires c.Valid() && Linked(c, h) && mem in h && mem + c.structSize <= cut && cut + c.structSize <= h[mem].next
    ensures CanCut(c, h, mem, cut, h[mem].next)
  {
    assert NextOk(c, h, mem);
    InsideClear(c, h, mem, cut);
    ListedClear(c, h, mem);
    if h[mem].next != c.memSize {
      ListedClear(c, h, h[mem].next);
    }
  }

  lemma MoveClear(c: Config, h: Blocks, mem: nat, cut: nat)
    requires c.Valid() && Linked(c, h) && mem in h && h[mem].next in h
    requires mem + c.structSize <= cut < h[mem].next
    ensures CanCut(c, h - {h[mem].next}, mem, cut, h[h[mem].next].next)
  {
    var n := h[mem].next;
    var next := h[n].next;
    assert NextOk(c, h, mem) && NextOk(c, h, n) && Apart(h, mem, cut);
    InsideClear(c, h, mem, cut);
    LessClear(c, h, n, mem);
    ListedClear(c, h, mem);
    if next != c.memSize {
      ListedClear(c, h, next);
      LessClear(c, h, n, next);
    }
  }

  lemma LessClear(c: Config, h: Blocks, n: nat, x: nat)
    ensures !Close(c, h, x) ==> !Close(c, h - {n}, x)
  {
  }

  /** The headers that a merge rewrites are there and overlap none. */
  ghost predicate Mergeable(c: Config, h: Blocks, a: nat, n: nat) {
    && a in h && n in h && a != n && h[a].next == n && !h[n].used
    && !Close(c, h, a) && a + c.structSize <= c.memSize && n < c.memSize && h[n].next <= c.memSize
    && (h[n].next != c.memSize ==> Behind(c, h, a, n))
  }

  ghost predicate Behind(c: Config, h: Blocks, a: nat, n: nat)
    requires n in h
  {
    var next := h[n].next;
    next in h && next != a && next != n && !Close(c, h, next) && next + c.structSize <= c.memSize
  }

  lemma MergeClear(c: Config, h: Blocks, a: nat)
    requires c.Valid() && Linked(c, h) && a in h && h[a].next in h && !h[h[a].next].used
    ensures Mergeable(c, h, a, h[a].next)
  {
    var n := h[a].next;
    assert NextOk(c, h, a) && NextOk(c, h, n);
    ListedClear(c, h, a);
    ListedClear(c, h, n);
    if h[n].next != c.memSize {
      ListedClear(c, h, h[n].next);
    }
  }

  /** Places that were written over only where headers of these lists are. */
  ghost predicate Grew(c: Config, before: set<nat>, after: set<nat>, h: Blocks, h': Blocks) {
    forall a :: a in after ==> a in before || Close(c, h, a) || Close(c, h', a)
  }

  lemma GrewOn(c: Config, h: Blocks, mem: nat, h1: Blocks, w0: set<nat>, w1: set<nat>, w2: set<nat>)
    requires mem in h && h1 == PlugForward(c, h, mem)
    requires Grew(c, w0, w1, h, map[]) && Grew(c, w1, w2, h1, map[])
    ensures Grew(c, w0, w2, h, map[])
  {
  }

  /** What mem_malloc does for a size that passed the checks, or none: first fit, or NULL if no block has the room. */
  ghost predicate MallocDone(c: Config, h: Blocks, request: Option<nat>, p: Option<int>, h': Blocks) {
    match request
    case None => p == None && h' == h
    case Some(size) =>
      && (p == None ==> NoFit(c, h, size) && h' == h)
      && (p.Some? ==>
            && c.structSize <= p.value && IsFirstFit(c, h, size, p.value - c.structSize)
            && h' == Claim(c, h, p.value - c.structSize, size))
  }

  /** Memory is handed out at the lowest place with room for it, and none only if there is no room. */
  ghost predicate FitsFirst(c: Config, h: Blocks, request: Option<nat>, p: Option<int>) {
    match request
    case None => p == None
    case Some(size) =>
      && (p == None ==> forall x: nat :: !Room(c, h, x, size))
      && (p.Some? ==>
            && c.structSize <= p.value && Room(c, h, p.value - c.structSize, size)
            && forall x: nat :: Room(c, h, x, size) ==> p.value - c.structSize <= x)
  }

  lemma RoomFound(c: Config, h: Blocks, request: Option<nat>, p: Option<int>, h': Blocks)
    requires c.Valid() && WellFormed(c, h) && MallocDone(c, h, request, p, h')
    ensures FitsFirst(c, h, request, p)
  {
    if request.Some? {
      FirstRoom(c, h, request.value);
    }
  }

  /** What mem_malloc finds where `a` is the first fit. */
  lemma FitFound(c: Config, h: Blocks, size: nat, a: nat, p: Option<int>, h': Blocks)
    requires IsFirstFit(c, h, size, a) && MallocDone(c, h, Some(size), p, h')
    ensures p == Some(a + c.structSize) && h' == Claim(c, h, a, size)
  {
  }

  /** What one call does. mem_trim, which does not check its pointer, and writes are made only where that is legal. */
  ghost predicate Stepped(c: Config, h: Blocks, call: Call, o: Outcome, h': Blocks)
    requires 0 < c.alignment
  {
    match call
    case Allocate(sizeIn) =>
      && !o.bad
      && (o.p == None ==> h' == h && (RequestSize(c, sizeIn).Some? ==> NoFit(c, h, RequestSize(c, sizeIn).value)))
      && (o.p.Some? ==>
            && RequestSize(c, sizeIn).Some? && c.structSize <= o.p.value
            && IsFirstFit(c, h, RequestSize(c, sizeIn).value, o.p.value - c.structSize)
            && h' == Claim(c, h, o.p.value - c.structSize, RequestSize(c, sizeIn).value))
    case Release(p) =>
      && o == Outcome(None, p.Some? && !IsLive(c, h, p.value))
      && h' == Freed(c, h, p)
    case Shorten(rmem, sizeIn) =>
      && o == Outcome(None, TrimSize(c, sizeIn).Some? && !(0 <= rmem < c.memSize))
      && h' == Trimmed(c, h, rmem, sizeIn)
    case Fill(_, _, _) =>
      o == Outcome(None, false) && h' == h
  }

  /** How many errors were counted. */
  ghost function Errors(outcomes: seq<Outcome>): nat {
    if outcomes == [] then 0
    else Errors(outcomes[..|outcomes| - 1]) + if outcomes[|outcomes| - 1].bad then 1 else 0
  }

  /** mem_malloc handed the pointer out. */
  ghost predicate Handed(outcomes: seq<Outcome>, q: int) {
    exists o :: o in outcomes && o.p == Some(q)
  }

  /** A run of calls: the heaps before, between and behind them. */
  ghost predicate IsRun(c: Config, calls: seq<Call>, outcomes: seq<Outcome>, trace: seq<Blocks>)
    requires 0 < c.alignment
  {
    && |outcomes| == |calls| && |trace| == |calls| + 1
    && forall i :: 0 <= i < |calls| ==> Stepped(c, trace[i], calls[i], outcomes[i], trace[i + 1])
  }

  /** The call writes over what was at `a`: a header next to it, or the owner of the memory there. */
  ghost predicate WrittenBy(c: Config, h: Blocks, call: Call, h': Blocks, a: nat) {
    Close(c, h, a) || Close(c, h', a) || (call.Fill? && call.at == a)
  }

  /** In a run of calls something is written over what was at `a`. */
  ghost predicate Touched(c: Config, calls: seq<Call>, trace: seq<Blocks>, a: int)
    requires |trace| == |calls| + 1
  {
    a >= 0 && exists i :: 0 <= i < |calls| && WrittenBy(c, trace[i], calls[i], trace[i + 1], a)
  }

  /**
   A run from `h0` to `h`: live memory comes only from mem_malloc, and something is written over a place only by
   the calls.
   */
  ghost predicate Ran(c: Config, calls: seq<Call>, outcomes: seq<Outcome>, trace: seq<Blocks>,
                      h0: Blocks, h: Blocks, w0: set<nat>, w: set<nat>) {
    && 0 < c.alignment && IsRun(c, calls, outcomes, trace) && trace[0] == h0 && trace[|calls|] == h
    && (forall q :: IsLive(c, h, q) ==> IsLive(c, h0, q) || Handed(outcomes, q))
    && forall a :: a in w ==> a in w0 || Touched(c, calls, trace, a)
  }

  lemma OneMore(calls: seq<Call>, i: nat)
    requires i < |calls|
    ensures calls[..i + 1] == calls[..i] + [calls[i]]
  {
  }

  lemma RunBegins(c: Config, calls: seq<Call>, h: Blocks, w: set<nat>)
    requires 0 < c.alignment && calls == []
    ensures Ran(c, calls, [], [h], h, h, w, w)
  {
  }

  lemma LongerRun(c: Config, calls: seq<Call>, outcomes: seq<Outcome>, trace: seq<Blocks>, h0: Blocks, h: Blocks,
                  w0: set<nat>, w: set<nat>, call: Call, o: Outcome, h': Blocks, w': set<nat>)
    requires Ran(c, calls, outcomes, trace, h0, h, w0, w) && Stepped(c, h, call, o, h')
    requires OneNew(c, h, h', o.p)
    requires forall a :: a in w' ==> a in w || WrittenBy(c, h, call, h', a)
    ensures Ran(c, calls + [call], outcomes + [o], trace + [h'], h0, h', w0, w')
    ensures Errors(outcomes + [o]) == Errors(outcomes) + if o.bad then 1 else 0
  {
    assert (outcomes + [o])[..|outcomes|] == outcomes;
    forall q | IsLive(c, h', q) ensures IsLive(c, h0, q) || Handed(outcomes + [o], q) {
      MoreHanded(outcomes, o, q);
    }
    LongerTouched(c, calls, trace, call, h');
  }

  lemma MoreHanded(outcomes: seq<Outcome>, o: Outcome, q: int)
    ensures Handed(outcomes, q) || o.p == Some(q) ==> Handed(outcomes + [o], q)
  {
    assert o in outcomes + [o];
    if Handed(outcomes, q) {
      var x :| x in outcomes && x.p == Some(q);
      assert x in outcomes + [o];
    }
  }

  lemma LongerTouched(c: Config, calls: seq<Call>, trace: seq<Blocks>, call: Call, h: Blocks)
    requires |trace| == |calls| + 1
    ensures forall a: nat :: Touched(c, calls, trace, a) || WrittenBy(c, trace[|calls|], call, h, a) ==>
      Touched(c, calls + [call], trace + [h], a)
  {
    var cs, ts, n := calls + [call], trace + [h], |calls|;
    forall a: nat | Touched(c, calls, trace, a) || WrittenBy(c, trace[n], call, h, a)
      ensures Touched(c, cs, ts, a)
    {
      if WrittenBy(c, trace[n], call, h, a) {
        assert WrittenBy(c, ts[n], cs[n], ts[n + 1], a);
      } else {
        var i :| 0 <= i < n && WrittenBy(c, trace[i], calls[i], trace[i + 1], a);
        assert WrittenBy(c, ts[i], cs[i], ts[i + 1], a);
      }
    }
  }

  class Heap {
    const c: Config
    const ram: array<Header>
    var lfree: nat
    /** A mem_size_t, which wraps where this falls below 0. */
    var usedStat: int
    var illegal: nat
    ghost var h: Blocks
    /** Where something else was written than a header at that place. */
    ghost var written: set<nat>

    predicate Sized() {
      c.alignment > 0 && c.structSize > 0 && ram.Length == c.memSize + 1
    }

    /** `ram` holds the list `h`, closed by ram_end; no other header is in use where nothing was written over it. */
    ghost predicate Stores()
      reads `h, `written, ram
    {
      && Sized() && c.Valid() && c.ValidAlignment()
      && ram[c.memSize] == Header(c.memSize, c.memSize, true)
      && (forall a :: a in h ==> a < c.memSize && ram[a] == h[a] && a !in written)
      && forall a :: 0 <= a < c.memSize && a !in h && a !in written ==> !ram[a].used
    }

    ghost predicate Valid()
      reads `h, `written, `lfree, `usedStat, ram
    {
      && Stores()
      && WellFormed(c, h) && AllAligned(c, h)
      && IsLowestFree(c, h, lfree)
      && usedStat == UsedFrom(c, h, 0)
    }

    /** mem_init */
    constructor (cfg: Config)
      requires cfg.Valid() && cfg.ValidAlignment()
      ensures c == cfg && Valid() && fresh(ram)
      ensures h == map[0 := Header(cfg.memSize, 0, false)]
      ensures usedStat == 0 && illegal == 0
    {
      c := cfg;
      ram := new Header[cfg.memSize + 1](_ => Header(0, 0, false));
      lfree, usedStat, illegal := 0, 0, 0;
      h, written := map[0 := Header(cfg.memSize, 0, false)], {};
      new;
      Smear(c.memSize);
      Smear(0);
      ram[c.memSize] := Header(c.memSize, c.memSize, true);
      ram[0] := Header(c.memSize, 0, false);
      written := set a: nat | a <= c.memSize && (Overlaps(c, 0, a) || Overlaps(c, c.memSize, a));
      assert forall a: nat :: NextOk(c, h, a) && PrevOk(h, a) && NoFreePair(h, a);
      assert forall a: nat, b: nat :: Apart(h, a, b);
      assert NextOk(c, h, 0);
    }

    /** A header at `x` can be stored without touching those of the list. */
    ghost predicate CanPut(x: nat)
      reads `h, `written, ram
    {
      Stores() && !Close(c, h, x) && x + c.structSize <= c.memSize
    }

    /** A header is stored. What is read at places that overlap it is then anything. */
    method Put(x: nat, value: Header)
      requires Sized() && x <= c.memSize
      modifies `h, `written, ram
      ensures old(CanPut(x)) ==> Stores() && h == old(h)[x := value]
      ensures ram[x] == value && forall a :: a in written ==> a in old(written) || Overlaps(c, a, x)
    {
      ghost var ok := CanPut(x);
      Smear(x);
      ram[x] := value;
      written := written - {x} + set a: nat | a < x + c.structSize && Overlaps(c, a, x);
      if ok {
        assert forall a :: a in h ==> !Overlaps(c, x, a);
        h := h[x := value];
      }
    }

    /** Other bytes at `x` change what is read at the places around it. */
    method Smear(x: nat)
      requires Sized() && x <= c.memSize
      modifies ram
      ensures forall a: nat :: a <= c.memSize && !Overlaps(c, x, a) && a != x ==> ram[a] == old(ram[a])
    {
      var lo := if x < c.structSize then 0 else x - c.structSize + 1;
      var hi := Min(x + c.structSize, c.memSize + 1);
      for i := lo to hi
        invariant forall a: nat :: a <= c.memSize && !(lo <= a < hi) ==> ram[a] == old(ram[a])
      {
        ram[i] := *;
      }
    }

    /** The owner of the memory at `rmem` writes to it, so that `value` is read at `at`. */
    method Overwrite(rmem: int, at: nat, value: Header)
      requires Valid() && InMemory(c, h, rmem, at)
      modifies `written, ram
      ensures Valid() && written == old(written) + {at}
      ensures at < ram.Length && ram[at] == value
      ensures forall a :: 0 <= a < ram.Length && a != at ==> ram[a] == old(ram[a])
    {
      var mem := rmem - c.structSize;
      assert NextOk(c, h, mem) && Apart(h, mem, at);
      ram[at] := value;
      written := written + {at};
    }

    /** What mem_link_valid can tell from the headers around `mem`. */
    predicate LooksLinked(mem: nat)
      reads ram
      requires ram.Length == c.memSize + 1 && mem <= c.memSize
    {
      && ram[mem].next <= c.memSize && ram[mem].prev <= c.memSize
      && (ram[mem].prev == mem || ram[ram[mem].prev].next == mem)
      && (ram[mem].next == c.memSize || ram[ram[mem].next].prev == mem)
    }

    /** Block `a` is free and so is the one behind it, `n`. */
    ghost predicate CanMerge(a: nat, n: nat)
      reads `h, `written, `lfree, ram
    {
      && Stores() && Linked(c, h) && AllAligned(c, h) && IsLowestFreeBut(c, h, lfree, a)
      && a in h && !h[a].used && h[a].next == n && n in h && !h[n].used
    }

    /**
     Merge block `a` with the block `n` behind it; both halves of plug_holes do this. Only the header of a block
     that is not in the list can point beyond the heap, and a store there is not modelled.
     */
    method Merge(a: nat, n: nat)
      requires Sized() && a <= c.memSize && n <= c.memSize
      modifies `h, `lfree, `written, ram
      ensures old(CanMerge(a, n)) ==>
        && Stores() && Linked(c, h) && AllAligned(c, h) && IsLowestFree(c, h, lfree)
        && h == MergeNext(c, old(h), a) && lfree == (if old(lfree) == n then a else old(lfree))
        && Grew(c, old(written), written, old(h), map[])
    {
      if CanMerge(a, n) {
        MergeNextLinked(c, h, a);
        MergeLowest(c, h, a, lfree);
        MergeClear(c, h, a);
      }
      if lfree == n {
        lfree := a;
      }
      Relink(a, n);
    }

    /** The links from `a` to what is behind `n` and back. */
    method Relink(a: nat, n: nat)
      requires Sized() && a <= c.memSize && n <= c.memSize
      modifies `h, `written, ram
      ensures old(Stores() && Mergeable(c, h, a, n)) ==>
        Stores() && h == MergeNext(c, old(h), a) && Grew(c, old(written), written, old(h), map[])
    {
      ghost var ok, h0 := Stores() && Mergeable(c, h, a, n), h;
      var next := ram[n].next;
      Put(a, ram[a].(next := next));
      if next < c.memSize {
        Put(next, ram[next].(prev := a));
      }
      if ok {
        h := h - {n};
        assert h == MergeNext(c, h0, a);
      }
    }

    ghost predicate CanPlug(mem: nat)
      reads `h, `written, `lfree, ram
    {
      && Stores() && Linked(c, h) && AllAligned(c, h) && IsLowestFree(c, h, lfree)
      && mem in h && !h[mem].used
    }

    /** The first half of plug_holes: a free block behind `mem` becomes part of it. */
    method PlugAbove(mem: nat)
      requires Sized() && mem < c.memSize && ram[mem].next <= c.memSize
      modifies `h, `lfree, `written, ram
      ensures old(CanPlug(mem)) ==>
        && CanPlug(mem) && h == PlugForward(c, old(h), mem) && Grew(c, old(written), written, old(h), map[])
        && var n := old(h)[mem].next;
           lfree == if n in old(h) && !old(h)[n].used && old(lfree) == n then mem else old(lfree)
    {
      assert CanPlug(mem) ==> NextOk(c, h, mem);
      var nmem := ram[mem].next;
      if mem != nmem && !ram[nmem].used && nmem != c.memSize {
        Merge(mem, nmem);
      }
    }

    /** The second half: `mem` becomes part of a free block before it. */
    method PlugBelow(mem: nat)
      requires Sized() && mem < c.memSize
      modifies `h, `lfree, `written, ram
      ensures old(CanPlug(mem)) ==>
        && Stores() && Linked(c, h) && AllAligned(c, h) && IsLowestFree(c, h, lfree)
        && h == PlugBackward(c, old(h), mem) && Grew(c, old(written), written, old(h), map[])
        && var p := old(h)[mem].prev;
           lfree == if p != mem && p in old(h) && !old(h)[p].used && old(lfree) == mem then p else old(lfree)
    {
      assert CanPlug(mem) ==> PrevOk(h, mem);
      var pmem := ram[mem].prev;
      if pmem != mem && pmem <= c.memSize && !ram[pmem].used {
        Merge(pmem, mem);
      }
    }

    /** plug_holes */
    method PlugHoles(mem: nat)
      requires Sized() && mem < c.memSize && ram[mem].next <= c.memSize
      modifies `h, `lfree, `written, ram
      ensures old(CanPlug(mem)) ==>
        && Stores() && Linked(c, h) && AllAligned(c, h) && IsLowestFree(c, h, lfree)
        && h == Plug(c, old(h), mem) && lfree == LfreeAfterPlug(c, old(h), old(lfree), mem)
        && Grew(c, old(written), written, old(h), map[])
    {
      PlugAbove(mem);
      ghost var h1, w1 := h, written;
      PlugBelow(mem);
      if old(CanPlug(mem)) {
        GrewOn(c, old(h), mem, h1, old(written), w1, written);
      }
    }

    /** The checks of mem_free before it touches the heap; `rmem` is an offset from `ram`. */
    predicate Freeable(rmem: int)
      reads ram
      requires 0 < c.alignment && ram.Length == c.memSize + 1
    {
      && Aligned(rmem, c.alignment)
      && c.structSize <= rmem && rmem + c.minSize <= c.memSize
      && ram[rmem - c.structSize].used && LooksLinked(rmem - c.structSize)
    }

    ghost predicate Live(rmem: int)
      reads `h
    {
      IsLive(c, h, rmem)
    }

    /**
     The checks let all allocated memory through, and nothing else where no one has written over the place that
     is taken for the header.
     */
    lemma FreeableIsLive(rmem: int)
      requires Valid()
      ensures Live(rmem) ==> Freeable(rmem)
      ensures rmem - c.structSize !in written ==> (Freeable(rmem) <==> Live(rmem))
    {
      if Live(rmem) {
        var mem: nat := rmem - c.structSize;
        LiveLooksLinked(mem);
        AlignedSum(mem, c.structSize, c.alignment);
        assert NextOk(c, h, mem);
      }
    }

    /** What is no allocated memory passes the checks. */
    ghost predicate Forged(p: Option<int>)
      reads `h, ram
      requires Sized()
    {
      p.Some? && Freeable(p.value) && !Live(p.value)
    }

    /**
     mem_free. It takes back what mem_malloc handed out; NULL and every pointer that the checks refuse leave the heap
     alone. Nothing is promised of the heap only if the checks pass a pointer that is no allocated memory, which
     needs that someone has written over the place that is taken for its header.
     */
    method Free(p: Option<int>)
      requires Valid()
      modifies `h, `lfree, `usedStat, `illegal, `written, ram
      ensures illegal == old(illegal) + (if p.Some? && !old(Freeable(p.value)) then 1 else 0)
      ensures old(Forged(p)) ==> p.value - c.structSize in old(written)
      ensures !old(Forged(p)) ==>
        && Valid() && NoneNew(c, old(h), h) && (p.Some? ==> !Live(p.value))
        && Grew(c, old(written), written, old(h), map[])
        && ((p.Some? && old(Live(p.value))) || written == old(written))
        && h == Freed(c, old(h), p)
    {
      if p == None {
        return;
      }
      FreeableIsLive(p.value);
      FreedLess(c, h, p);
      var refused := Refuses(p.value);
      if refused {
        illegal := illegal + 1;
        return;
      }
      TakeBack(p.value);
    }

    /** What passed the checks is given back. */
    method TakeBack(rmem: int)
      requires Valid() && Freeable(rmem)
      modifies `h, `lfree, `usedStat, `written, ram
      ensures old(Live(rmem)) ==>
        Valid() && Grew(c, old(written), written, old(h), map[]) && h == Freed(c, old(h), Some(rmem))
    {
      Release(rmem - c.structSize);
    }

    /** mem.c:626-668 */
    method Refuses(rmem: int) returns (b: bool)
      requires Sized()
      ensures b <==> !Freeable(rmem)
    {
      if !Aligned(rmem, c.alignment) {
        return true;
      }
      if rmem - c.structSize < 0 || rmem + c.minSize > c.memSize {
        return true;
      }
      var mem: nat := rmem - c.structSize;
      if !ram[mem].used {
        return true;
      }
      b := !LooksLinked(mem);
    }

    /** The rest of mem_free, for a header that passed the checks. */
    method Release(mem: nat)
      requires Sized() && mem < c.memSize && ram[mem].used && LooksLinked(mem)
      modifies `h, `lfree, `usedStat, `written, ram
      ensures old(Valid() && mem in h) ==>
        && Valid() && Grew(c, old(written), written, old(h), map[])
        && h == HeapBlocks.Free(c, old(h), mem) && lfree == LfreeAfterFree(c, old(h), old(lfree), mem)
    {
      if Valid() && mem in h {
        FreeUsed(c, h, mem);
        assert NextOk(c, h, mem);
      }
      usedStat := usedStat - (ram[mem].next - mem);
      Unmark(mem);
      PlugHoles(mem);
    }

    /** mem.c:669-675: the block is free, and `lfree` not above it. */
    method Unmark(mem: nat)
      requires Sized() && mem < c.memSize && LooksLinked(mem)
      modifies `h, `lfree, `written, ram
      ensures ram[mem] == old(ram[mem]).(used := false)
      ensures old(Stores() && WellFormed(c, h) && AllAligned(c, h) && IsLowestFree(c, h, lfree) && mem in h) ==>
        && CanPlug(mem) && h == MarkFree(old(h), mem) && lfree == (if mem < old(lfree) then mem else old(lfree))
        && Grew(c, old(written), written, old(h), map[])
    {
      if Stores() && WellFormed(c, h) && mem in h {
        MarkLinked(c, h, mem, false);
        ListedClear(c, h, mem);
      }
      Put(mem, ram[mem].(used := false));
      if mem < lfree {
        lfree := mem;
      }
    }

    // ----- runs -----

    /** Whether there is a header of the list at `mem`. */
    method Listed(mem: nat) returns (b: bool)
      requires Stores() && Linked(c, h)
      ensures b <==> mem in h
    {
      var x: nat := 0;
      while x < mem && x < c.memSize
        invariant x == c.memSize || x in h
        invariant forall a :: a in h && a < x ==> a != mem
        decreases c.memSize - x
      {
        assert NextOk(c, h, x);
        forall a | a in h && a < h[x].next ensures a != mem {
          assert Apart(h, x, a);
        }
        x := ram[x].next;
      }
      b := x == mem && x < c.memSize;
    }

    method IsAllocated(rmem: int) returns (b: bool)
      requires Stores() && Linked(c, h)
      ensures b <==> Live(rmem)
    {
      b := false;
      if c.structSize <= rmem && rmem - c.structSize < c.memSize {
        b := Listed(rmem - c.structSize);
        b := b && ram[rmem - c.structSize].used;
      }
    }

    method StepAllocate(size: nat) returns (o: Outcome)
      requires Valid()
      modifies `h, `lfree, `usedStat, `written, ram
      ensures Valid() && Stepped(c, old(h), Allocate(size), o, h) && Grew(c, old(written), written, old(h), h)
      ensures OneNew(c, old(h), h, o.p)
    {
      var p := Malloc(size);
      o := Outcome(p, false);
    }

    method StepRelease(p: Option<int>) returns (o: Outcome)
      requires Valid() && !Forged(p)
      modifies `h, `lfree, `usedStat, `illegal, `written, ram
      ensures Valid() && Stepped(c, old(h), Call.Release(p), o, h) && Grew(c, old(written), written, old(h), h)
      ensures illegal == old(illegal) + (if o.bad then 1 else 0)
      ensures NoneNew(c, old(h), h)
    {
      var before := illegal;
      if p.Some? {
        FreeableIsLive(p.value);
      }
      Free(p);
      o := Outcome(None, illegal != before);
    }

    method StepShorten(rmem: int, size: nat) returns (o: Outcome)
      requires Valid()
      modifies `h, `lfree, `usedStat, `illegal, `written, ram
      ensures Valid() && Stepped(c, old(h), Shorten(rmem, size), o, h) && Grew(c, old(written), written, old(h), h)
      ensures illegal == old(illegal) + (if o.bad then 1 else 0)
      ensures NoneNew(c, old(h), h)
    {
      o := Outcome(None, false);
      var legal := IsAllocated(rmem);
      if rmem < 0 || rmem >= c.memSize || legal {
        var before := illegal;
        var _, _ := Trim(rmem, size);
        o := Outcome(None, illegal != before);
      }
    }

    method StepFill(rmem: int, at: nat, value: Header) returns (o: Outcome)
      requires Valid()
      modifies `written, ram
      ensures Valid() && o == Outcome(None, false)
      ensures InMemory(c, h, rmem, at) ==> at < ram.Length && ram[at] == value && written == old(written) + {at}
      ensures !InMemory(c, h, rmem, at) ==> ram[..] == old(ram[..]) && written == old(written)
    {
      o := Outcome(None, false);
      var legal := IsAllocated(rmem);
      if legal && rmem - c.structSize < at < ram[rmem - c.structSize].next {
        Overwrite(rmem, at, value);
      }
    }

    /** One call; a call of mem_free must not be one for memory that was never handed out and yet passes the checks. */
    method Step(call: Call) returns (o: Outcome)
      requires Valid() && (call.Release? ==> !Forged(call.p))
      modifies `h, `lfree, `usedStat, `illegal, `written, ram
      ensures Valid() && Stepped(c, old(h), call, o, h)
      ensures illegal == old(illegal) + (if o.bad then 1 else 0)
      ensures OneNew(c, old(h), h, o.p)
      ensures forall a :: a in written ==> a in old(written) || WrittenBy(c, old(h), call, h, a)
    {
      match call {
        case Allocate(size) =>
          o := StepAllocate(size);
        case Release(p) =>
          o := StepRelease(p);
        case Shorten(rmem, size) =>
          o := StepShorten(rmem, size);
        case Fill(rmem, at, value) =>
          o := StepFill(rmem, at, value);
      }
    }

    /** mem_free would take for allocated what is not, and someone has written over the place of the header. */
    ghost predicate Forging(call: Call)
      reads `h, `written, ram
      requires Sized()
    {
      call.Release? && Forged(call.p) && call.p.value - c.structSize in written
    }

    method Forges(call: Call) returns (b: bool)
      requires Valid()
      ensures b <==> call.Release? && Forged(call.p)
      ensures b ==> Forging(call)
    {
      b := false;
      if call.Release? && call.p.Some? {
        FreeableIsLive(call.p.value);
        b := IsAllocated(call.p.value);
        b := !b && Freeable(call.p.value);
      }
    }

    /** One more call of a run, unless it is one of those. */
    method StepOn(call: Call, ghost calls: seq<Call>, outcomes: seq<Outcome>, ghost trace: seq<Blocks>,
                  ghost h0: Blocks, ghost w0: set<nat>)
      returns (stop: bool, outcomes': seq<Outcome>, ghost trace': seq<Blocks>)
      requires Valid() && Ran(c, calls, outcomes, trace, h0, h, w0, written)
      modifies `h, `lfree, `usedStat, `illegal, `written, ram
      ensures Valid() && illegal + Errors(outcomes) == old(illegal) + Errors(outcomes')
      ensures stop ==>
        Forging(call) && outcomes' == outcomes && trace' == trace && Ran(c, calls, outcomes, trace, h0, h, w0, written)
      ensures !stop ==> |outcomes'| == |outcomes| + 1 && Ran(c, calls + [call], outcomes', trace', h0, h, w0, written)
    {
      outcomes', trace' := outcomes, trace;
      stop := Forges(call);
      if !stop {
        ghost var h1, w1 := h, written;
        var o := Step(call);
        LongerRun(c, calls, outcomes, trace, h0, h1, w0, w1, call, o, h, written);
        outcomes', trace' := outcomes + [o], trace + [h];
      }
    }

    /**
     Any calls of the heap functions and writes of owners, up to the first mem_free that takes memory for allocated
     because someone has written over the place of its header: live memory comes only from mem_malloc, and errors
     are counted exactly.
     */
    method Run(calls: seq<Call>) returns (outcomes: seq<Outcome>, ghost trace: seq<Blocks>)
      requires Valid()
      modifies `h, `lfree, `usedStat, `illegal, `written, ram
      ensures Valid() && |outcomes| <= |calls|
      ensures Ran(c, calls[..|outcomes|], outcomes, trace, old(h), h, old(written), written)
      ensures illegal == old(illegal) + Errors(outcomes) && (|outcomes| < |calls| ==> Forging(calls[|outcomes|]))
    {
      outcomes, trace := [], [h];
      ghost var done: seq<Call> := [];
      RunBegins(c, done, h, written);
      while |outcomes| < |calls|
        invariant Valid() && |outcomes| <= |calls| && illegal == old(illegal) + Errors(outcomes)
        invariant done == calls[..|outcomes|] && Ran(c, done, outcomes, trace, old(h), h, old(written), written)
        decreases |calls| - |outcomes|
      {
        var call, stop := calls[|outcomes|], false;
        OneMore(calls, |outcomes|);
        stop, outcomes, trace := StepOn(call, done, outcomes, trace, old(h), old(written));
        if stop {
          return;
        }
        done := done + [call];
      }
    }

    /**
     Freeing the same pointer again is noticed and leaves the heap alone, whatever calls came in between, unless
     mem_malloc has handed it out again or something was written over its old header.
     */
    method DoubleFree(p: int, calls: seq<Call>) returns (outcomes: seq<Outcome>, ghost trace: seq<Blocks>)
      requires Valid() && (Live(p) || p - c.structSize !in written)
      modifies `h, `lfree, `usedStat, `illegal, `written, ram
      ensures |outcomes| <= |calls| && IsRun(c, calls[..|outcomes|], outcomes, trace)
      ensures trace[0] == Freed(c, old(h), Some(p))
      ensures |outcomes| == |calls| && !Handed(outcomes, p) && !Touched(c, calls, trace, p - c.structSize) ==>
        && Valid() && h == trace[|calls|]
        && illegal == old(illegal) + Errors(outcomes) + (if old(Live(p)) then 1 else 2)
    {
      FreeOnce(p);
      ghost var h1 := h;
      outcomes, trace := Run(calls);
      if |outcomes| == |calls| {
        assert calls[..|calls|] == calls;
        FreeableIsLive(p);
        assert !Handed(outcomes, p) ==> !IsLive(c, h1, p) && !Live(p);
        Free(Some(p));
      }
    }

    /** After a free, the place of the header has not been written over. */
    method FreeOnce(p: int)
      requires Valid() && (Live(p) || p - c.structSize !in written)
      modifies `h, `lfree, `usedStat, `illegal, `written, ram
      ensures Valid() && !Live(p) && p - c.structSize !in written
      ensures h == Freed(c, old(h), Some(p))
      ensures illegal == old(illegal) + if old(Live(p)) then 0 else 1
    {
      FreeableIsLive(p);
      if Live(p) {
        ListedClear(c, h, p - c.structSize);
      }
      Free(Some(p));
    }

    /** mem_malloc: first fit, found from `lfree`; NULL exactly when no block has the room. */
    method Malloc(sizeIn: nat) returns (p: Option<int>)
      requires Valid()
      modifies `h, `lfree, `usedStat, `written, ram
      ensures Valid() && Grew(c, old(written), written, old(h), h)
      ensures MallocDone(c, old(h), RequestSize(c, sizeIn), p, h) && OneNew(c, old(h), h, p)
      ensures FitsFirst(c, old(h), RequestSize(c, sizeIn), p)
    {
      ghost var h0 := h;
      p := Search(sizeIn);
      RoomFound(c, h0, RequestSize(c, sizeIn), p, h);
    }

    /** mem_malloc, by what its search finds. */
    method Search(sizeIn: nat) returns (p: Option<int>)
      requires Valid()
      modifies `h, `lfree, `usedStat, `written, ram
      ensures Valid() && Grew(c, old(written), written, old(h), h)
      ensures MallocDone(c, old(h), RequestSize(c, sizeIn), p, h) && OneNew(c, old(h), h, p)
    {
      TrimSizeOk(c, sizeIn);
      var request := RequestSize(c, sizeIn);
      if request == None {
        return None;
      }
      var size := request.value;
      var ptr := FindFit(size);
      if ptr == c.memSize {
        return None;
      }
      ClaimedOne(c, h, ptr, size);
      ClaimBlock(ptr, size);
      return Some(ptr + c.structSize);
    }

    /** mem_malloc where `a` is the first fit. */
    method MallocAt(size: nat, a: nat)
      requires Valid() && RequestSize(c, size) == Some(size) && IsFirstFit(c, h, size, a)
      modifies `h, `lfree, `usedStat, `written, ram
      ensures Valid() && h == Claim(c, old(h), a, size)
    {
      ghost var h0 := h;
      var p := Malloc(size);
      FitFound(c, h0, size, a, p, h);
    }

    /** The scan of mem_malloc (mem.c:870-957). */
    method FindFit(size: nat) returns (ptr: nat)
      requires Valid() && c.minSize <= size <= c.memSize
      ensures if ptr == c.memSize then NoFit(c, h, size) else IsFirstFit(c, h, size, ptr)
    {
      ptr := lfree;
      while ptr < c.memSize - size
        invariant ptr == c.memSize || ptr in h
        invariant forall a :: a in h && a < ptr ==> !Fits(c, h, a, size)
        decreases c.memSize - ptr
      {
        assert NextOk(c, h, ptr);
        if !ram[ptr].used && ram[ptr].next - (ptr + c.structSize) >= size {
          return;
        }
        forall a | a in h && a < h[ptr].next ensures !Fits(c, h, a, size) {
          assert Apart(h, ptr, a);
        }
        ptr := ram[ptr].next;
      }
      forall a | a in h ensures !Fits(c, h, a, size) {
        assert NextOk(c, h, a);
      }
      ptr := c.memSize;
    }

    /** mem.c:891-950: take block `mem`, split off the rest if worthwhile, and move `lfree` on. */
    method ClaimBlock(mem: nat, size: nat)
      requires Valid() && c.minSize <= size && Aligned(size, c.alignment)
      requires mem in h && Fits(c, h, mem, size)
      modifies `h, `lfree, `usedStat, `written, ram
      ensures Valid() && h == Claim(c, old(h), mem, size) && Grew(c, old(written), written, old(h), h)
    {
      ClaimLowest(c, h, mem, size, lfree);
      assert AllAligned(c, Claim(c, h, mem, size)) by { OperationsKeepAlignment(c, h, mem, size); }
      TakeBlock(mem, size);
      if mem == lfree {
        AdjustLfree();
      }
    }

    /** mem.c:891-927 */
    method TakeBlock(mem: nat, size: nat)
      requires Stores() && WellFormed(c, h) && usedStat == UsedFrom(c, h, 0) && c.minSize <= size
      requires mem in h && Fits(c, h, mem, size)
      modifies `h, `usedStat, `written, ram
      ensures Stores() && h == Claim(c, old(h), mem, size) && Grew(c, old(written), written, old(h), h)
      ensures WellFormed(c, h) && usedStat == UsedFrom(c, h, 0)
    {
      ClaimWellFormed(c, h, mem, size);
      ClaimUsed(c, h, mem, size);
      assert NextOk(c, h, mem);
      if ram[mem].next - (mem + c.structSize) >= size + c.structSize + c.minSize {
        Split(mem, mem + c.structSize + size);
        usedStat := usedStat + size + c.structSize;
      } else {
        MarkUsed(mem);
        usedStat := usedStat + ram[mem].next - mem;
      }
    }

    method MarkUsed(mem: nat)
      requires Stores() && Linked(c, h) && mem in h
      modifies `h, `written, ram
      ensures Stores() && h == old(h)[mem := old(h)[mem].(used := true)]
      ensures Grew(c, old(written), written, old(h), h)
    {
      ListedClear(c, h, mem);
      Put(mem, ram[mem].(used := true));
    }

    /** Put a free block at `cut` inside `mem` (mem.c:902-915 and 789-801). */
    method Split(mem: nat, cut: nat)
      requires Stores() && Linked(c, h) && mem in h
      requires mem + c.structSize + c.minSize <= cut && cut + c.structSize + c.minSize <= ram[mem].next
      modifies `h, `written, ram
      ensures Stores() && h == CutAt(c, old(h), mem, cut, old(h)[mem].next)
      ensures Grew(c, old(written), written, old(h), h)
    {
      SplitClear(c, h, mem, cut);
      PutBlock(mem, cut, ram[mem].next);
    }

    /** The header of a free block at `cut`, and the links around it; the block before it is in use. */
    method PutBlock(mem: nat, cut: nat, next: nat)
      requires Stores() && CanCut(c, h, mem, cut, next)
      modifies `h, `written, ram
      ensures Stores() && h == CutAt(c, old(h), mem, cut, next)
      ensures Grew(c, old(written), written, old(h), h)
    {
      ghost var h0 := h;
      Put(cut, Header(next, mem, false));
      StillClear(c, h0, cut, Header(next, mem, false), mem);
      StillClear(c, h0, cut, Header(next, mem, false), next);
      ghost var h1 := h;
      Put(mem, ram[mem].(next := cut, used := true));
      StillClear(c, h1, mem, h[mem], next);
      if next != c.memSize {
        Put(next, ram[next].(prev := cut));
      }
      CutIs(c, h0, mem, cut, next);
    }

    /** mem.c:932-948: walk from `lfree` to the next free block. */
    method AdjustLfree()
      requires Stores() && Linked(c, h) && lfree in h && NoFreeBelow(h, lfree)
      modifies `lfree
      ensures IsLowestFree(c, h, lfree)
    {
      var cur := lfree;
      while ram[cur].used && cur != c.memSize
        invariant cur == c.memSize || cur in h
        invariant NoFreeBelow(h, cur)
        decreases c.memSize - cur
      {
        assert NextOk(c, h, cur);
        forall a | a in h && !h[a].used ensures ram[cur].next <= a {
          assert Apart(h, cur, a);
        }
        cur := ram[cur].next;
      }
      lfree := cur;
    }

    /**
     mem_trim, for a pointer outside the heap or to allocated memory. The result is NULL or `rmem`; only
     allocated memory that gets smaller changes the heap. `asserted` tells that one of the assertions at
     lines 721, 740 and 790 fired: also for a legal trim, of the block at the end of the heap.
     */
    method Trim(rmem: int, sizeIn: nat) returns (p: Option<int>, asserted: bool)
      requires Valid() && (0 <= rmem < c.memSize ==> Live(rmem))
      modifies `h, `lfree, `usedStat, `illegal, `written, ram
      ensures Valid() && Grew(c, old(written), written, old(h), h) && NoneNew(c, old(h), h)
      ensures h == Trimmed(c, old(h), rmem, sizeIn)
      ensures TrimSize(c, sizeIn) == None ==> p == None && illegal == old(illegal) && !asserted
      ensures TrimSize(c, sizeIn).Some? && !(0 <= rmem < c.memSize) ==>
        p == Some(rmem) && illegal == old(illegal) + 1 && asserted
      ensures TrimSize(c, sizeIn).Some? && 0 <= rmem < c.memSize ==>
        var mem, newSize := rmem - c.structSize, TrimSize(c, sizeIn).value;
        var size := old(h)[mem].next - rmem;
        && p == (if newSize > size then None else Some(rmem)) && illegal == old(illegal)
        && (asserted <==>
              newSize > size || (old(h)[mem].next == c.memSize && newSize + c.structSize + c.minSize <= size))
        && (newSize <= size ==>
              GivesBack(c, old(h), mem, newSize, h) && Allocated(h) == Allocated(old(h))[mem := h[mem].next]
              && usedStat == old(usedStat) - (old(h)[mem].next - h[mem].next))
      ensures p == None || !(0 <= rmem < c.memSize) ==> h == old(h) && usedStat == old(usedStat)
    {
      var request := TrimSize(c, sizeIn);
      if request == None {
        return None, false;
      }
      var newSize := request.value;
      if rmem < 0 || rmem >= c.memSize {
        illegal := illegal + 1;
        return Some(rmem), true;
      }
      var mem: nat := rmem - c.structSize;
      var size := ram[mem].next - mem - c.structSize;
      if newSize > size {
        return None, true;
      }
      p, asserted := Some(rmem), false;
      TrimSizeOk(c, sizeIn);
      TrimShrinks(c, h, mem, newSize);
      TrimGivesBack(c, h, mem, newSize);
      if newSize < size {
        asserted := Shrink(mem, newSize);
      }
    }

    /** mem.c:753-804 */
    method Shrink(mem: nat, newSize: nat) returns (asserted: bool)
      requires Valid() && mem in h && ram[mem].used
      requires c.minSize <= newSize < ram[mem].next - mem - c.structSize && Aligned(newSize, c.alignment)
      modifies `h, `lfree, `usedStat, `written, ram
      ensures Valid() && h == HeapBlocks.Trim(c, old(h), mem, newSize) && Grew(c, old(written), written, old(h), h)
      ensures lfree == LfreeAfterTrim(c, old(h), old(lfree), mem, newSize)
      ensures mem in h && usedStat == old(usedStat) - (old(h)[mem].next - h[mem].next)
      ensures asserted <==>
        old(h)[mem].next == c.memSize && newSize + 2 * c.structSize + c.minSize <= old(h)[mem].next - mem
    {
      TrimUsed(c, h, mem, newSize);
      TrimLowest(c, h, mem, newSize, lfree);
      assert AllAligned(c, HeapBlocks.Trim(c, h, mem, newSize)) by { OperationsKeepAlignment(c, h, mem, newSize); }
      assert NextOk(c, h, mem);
      var size := ram[mem].next - mem - c.structSize;
      var mem2 := ram[mem].next;
      asserted := false;
      if !ram[mem2].used {
        MoveNext(mem, newSize);
      } else if newSize + c.structSize + c.minSize <= size {
        asserted := ram[mem].next == c.memSize;
        CutRest(mem, newSize);
      } else {
        return;
      }
      usedStat := usedStat - (size - newSize);
    }

    /** mem.c:780-801: a new free block for what is cut off. */
    method CutRest(mem: nat, newSize: nat)
      requires Stores() && Linked(c, h) && mem in h && ram[mem].used
      requires ram[mem].next in h ==> h[ram[mem].next].used
      requires c.minSize <= newSize && mem + 2 * c.structSize + newSize + c.minSize <= ram[mem].next
      modifies `h, `lfree, `written, ram
      ensures Stores() && h == HeapBlocks.Trim(c, old(h), mem, newSize) && Grew(c, old(written), written, old(h), h)
      ensures lfree == LfreeAfterTrim(c, old(h), old(lfree), mem, newSize)
    {
      assert NextOk(c, h, mem);
      var ptr2 := mem + c.structSize + newSize;
      if ptr2 < lfree {
        lfree := ptr2;
      }
      Split(mem, ptr2);
    }

    /** mem.c:759-778: move the free block behind `mem` down. */
    method MoveNext(mem: nat, newSize: nat)
      requires Stores() && Linked(c, h) && mem in h && ram[mem].used
      requires ram[mem].next in h && !ram[ram[mem].next].used
      requires c.minSize <= newSize < ram[mem].next - mem - c.structSize
      modifies `h, `lfree, `written, ram
      ensures Stores() && h == HeapBlocks.Trim(c, old(h), mem, newSize) && Grew(c, old(written), written, old(h), h)
      ensures lfree == LfreeAfterTrim(c, old(h), old(lfree), mem, newSize)
    {
      var ptr2 := mem + c.structSize + newSize;
      assert NextOk(c, h, mem) && NextOk(c, h, h[mem].next) && Apart(h, mem, ptr2);
      var mem2 := ram[mem].next;
      var next := ram[mem2].next;
      if lfree == mem2 {
        lfree := ptr2;
      }
      MoveClear(c, h, mem, ptr2);
      assert HeapBlocks.Trim(c, h, mem, newSize) == CutAt(c, h - {mem2}, mem, ptr2, next);
      h := h - {mem2};
      PutBlock(mem, ptr2, next);
    }

    /**
     mem_sanity on a linked list: none of its assertions fires exactly when all blocks are aligned and no two
     free ones are neighbours. Those on aligned links (lines 579, 588 and 589) compare a pointer with itself
     and never fire.
     */
    method Sanity() returns (ok: bool)
      requires Stores() && Linked(c, h)
      ensures ok <==> Coalesced(h) && AllAligned(c, h)
    {
      var mem: nat := 0;
      var lastUsed := ram[mem].used;
      ghost var before: nat := mem;
      SaneFirst();
      ok := ram[mem].prev == 0 && ram[mem].next <= c.memSize;
      mem := ram[mem].next;
      while mem > 0 && mem < c.memSize
        invariant before in h && h[before].next == mem && h[before].used == lastUsed
        invariant ok <==> SaneTo(before)
        decreases c.memSize - mem
      {
        SaneNext(before);
        LiveLooksLinked(mem);
        ok := ok && Aligned(mem, c.alignment) && (lastUsed || ram[mem].used) && LooksLinked(mem);
        before := mem;
        lastUsed := ram[mem].used;
        mem := ram[mem].next;
      }
      SaneLast(before);
      ok := ok && mem == c.memSize && ram[mem] == Header(c.memSize, c.memSize, true);
    }

    /** mem_sanity has nothing to object to up to this block. */
    ghost predicate SaneTo(last: nat)
      reads `h
      requires 0 < c.alignment
    {
      && (forall a: nat :: a < last ==> NoFreePair(h, a))
      && forall a :: a in h && a <= last ==> Aligned(a, c.alignment)
    }

    lemma SaneFirst()
      requires Stores() && Linked(c, h)
      ensures SaneTo(0) && h[0].next <= c.memSize
    {
      assert NextOk(c, h, 0);
    }

    lemma SaneNext(a: nat)
      requires Stores() && Linked(c, h) && a in h && h[a].next < c.memSize
      ensures h[a].next in h
      ensures SaneTo(h[a].next) <==>
        SaneTo(a) && Aligned(h[a].next, c.alignment) && (h[a].used || h[h[a].next].used)
    {
      assert NextOk(c, h, a);
      forall x: nat | a < x < h[a].next ensures x !in h {
        assert Apart(h, a, x);
      }
      assert NoFreePair(h, a) <==> h[a].used || h[h[a].next].used;
    }

    lemma SaneLast(a: nat)
      requires Stores() && Linked(c, h) && a in h && !(0 < h[a].next < c.memSize)
      ensures h[a].next == c.memSize && (SaneTo(a) <==> Coalesced(h) && AllAligned(c, h))
    {
      assert NextOk(c, h, a);
      forall x: nat | a < x ensures x !in h {
        assert Apart(h, a, x) && NextOk(c, h, x);
      }
      assert NoFreePair(h, a);
    }

    /** Every block in the list passes mem_link_valid. */
    lemma LiveLooksLinked(mem: nat)
      requires Stores() && Linked(c, h) && mem in h
      ensures LooksLinked(mem) && mem < ram[mem].next
    {
      assert NextOk(c, h, mem) && PrevOk(h, mem);
    }
  }

  /** Memory up to the end of the heap: a legal trim of it fires the assertion at mem.c:790. */
  method TrimAtEnd() returns (asserted: bool)
    ensures asserted
  {
    var heap := new Heap(BUILD);
    assert BUILD.Valid() && BUILD.ValidAlignment() && RequestSize(BUILD, 15994) == Some(15994);
    var p := heap.Malloc(15994);
    assert Fits(BUILD, map[0 := Header(16000, 0, false)], 0, 15994) && p == Some(6);
    assert TrimSize(BUILD, 100) == Some(100);
    var q;
    q, asserted := heap.Trim(6, 100);
  }

  /** An owner writes what looks like a header in use, and mem_free takes it for memory that was handed out. */
  method WrittenHeader() returns (errors: nat)
    ensures errors == 0
  {
    var heap := new Heap(BUILD);
    assert BUILD.Valid() && BUILD.ValidAlignment() && RequestSize(BUILD, 15994) == Some(15994);
    var p := heap.Malloc(15994);
    assert Fits(BUILD, map[0 := Header(16000, 0, false)], 0, 15994) && p == Some(6);
    heap.Overwrite(6, 34, Header(16000, 34, true));
    assert heap.Freeable(40) && !heap.Live(40);
    heap.Free(Some(40));
    errors := heap.illegal;
  }

  /** mem_malloc in a heap whose block at `a` is its first fit. */
  method Take(heap: Heap, size: nat, a: nat)
    requires heap.Valid() && heap.c == BUILD && 12 <= size <= 16000 && IsFirstFit(BUILD, heap.h, size, a)
    modifies heap, heap.ram
    ensures heap.Valid() && heap.illegal == old(heap.illegal) && heap.h == Claim(BUILD, old(heap.h), a, size)
  {
    AskedSize(size);
    heap.MallocAt(size, a);
  }

  lemma AskedSize(size: nat)
    requires 12 <= size <= 16000
    ensures RequestSize(BUILD, size) == Some(size)
  {
  }

  lemma ClaimedLive(h: Blocks, size: nat, a: nat)
    requires WellFormed(BUILD, h) && 12 <= size && a in h && Fits(BUILD, h, a, size)
    ensures IsLive(BUILD, Claim(BUILD, h, a, size), a + 6)
  {
    ClaimAllocates(BUILD, h, a, size);
  }

  /** Memory that was just handed out is given back. */
  method GiveBack(heap: Heap, size: nat, a: nat, ghost h: Blocks)
    requires heap.Valid() && heap.c == BUILD && 12 <= size && WellFormed(BUILD, h)
    requires a in h && Fits(BUILD, h, a, size) && heap.h == Claim(BUILD, h, a, size)
    modifies heap, heap.ram
    ensures heap.Valid() && heap.illegal == old(heap.illegal) && heap.h == h
  {
    ClaimAllocates(BUILD, h, a, size);
    FreeUndoesClaim(BUILD, h, a, size);
    assert heap.Live(a + 6);
    heap.FreeableIsLive(a + 6);
    heap.Free(Some(a + 6));
  }

  /** Memory at 24 is freed; its old header is then part of memory that is handed out at 6. */
  method FreeTwoTakeOne() returns (heap: Heap)
    ensures fresh(heap) && fresh(heap.ram) && heap.Valid() && heap.c == BUILD && heap.illegal == 0
    ensures heap.Live(6) && heap.h == Claim(BUILD, map[0 := Header(16000, 0, false)], 0, 100)
  {
    heap := new Heap(BUILD);
    ghost var h0 := heap.h;
    Take(heap, 12, 0);
    ghost var h1 := heap.h;
    assert h1 == map[0 := Header(18, 0, true), 18 := Header(16000, 0, false)];
    Take(heap, 12, 18);
    GiveBack(heap, 12, 18, h1);
    GiveBack(heap, 12, 0, h0);
    Take(heap, 100, 0);
    ClaimedLive(h0, 100, 0);
  }

  /** There its owner writes what looks like that header in use, and a second free of 24 goes unnoticed. */
  method SecondFreeUnnoticed() returns (errors: nat)
    ensures errors == 0
  {
    var heap := FreeTwoTakeOne();
    assert heap.h[0] == Header(106, 0, true);
    heap.Overwrite(6, 18, Header(16000, 18, true));
    assert heap.Freeable(24) && !heap.Live(24);
    heap.Free(Some(24));
    errors := heap.illegal;
  }
}
