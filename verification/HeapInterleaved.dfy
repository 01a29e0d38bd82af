/**
 mem_malloc with LWIP_ALLOW_MEM_FREE_FROM_OTHER_CONTEXT: mem_free and mem_trim may run, in any
 number, wherever mem_malloc unprotects the heap. The mutex keeps a second mem_malloc out.

 A state is a moment at which the heap is unprotected. The allocating thread moves from one such
 moment to the next in a single step; a free or a trim is a step of its own.
 */
module HeapInterleaved {
  import opened Common
  import opened HeapBlocks

  /** Where the allocating thread has unprotected the heap. */
  datatype Pc =
    | Idle
    | Scanning(size: nat, ptr: nat)               // mem.c:875-877
    | Adjusting(size: nat, mem: nat, cur: nat)    // mem.c:937-939
    | Failed(size: nat)                           // about to return NULL
    | Succeeded(size: nat, block: nat)            // about to return this block

  /** `disturbed` is mem_free_count; `owned` are the blocks callers hold and may free or trim. */
  datatype State = State(h: Blocks, lfree: nat, disturbed: bool, pc: Pc, owned: set<nat>)

  /** A block that the thread has taken but not returned yet. */
  function Taken(pc: Pc): set<nat> {
    match pc
    case Adjusting(_, mem, _) => {mem}
    case Succeeded(_, block) => {block}
    case _ => {}
  }

  ghost predicate Inv(c: Config, s: State) {
    && c.Valid() && WellFormed(c, s.h)
    && NoFreeBelow(s.h, s.lfree)
    && (s.lfree == c.memSize || s.lfree in s.h)
    && (s.lfree != c.memSize && s.h[s.lfree].used ==> s.pc.Adjusting? && s.pc.mem == s.lfree)
    && (forall a :: a in s.h && s.h[a].used <==> a in s.owned + Taken(s.pc))
    && s.owned !! Taken(s.pc)
    && match s.pc
       case Scanning(size, ptr) =>
         // unless a free or trim came by, `ptr` is still a header and nothing below it fits
         && c.minSize <= size <= c.memSize
         && (!s.disturbed ==> ptr in s.h && forall a :: a in s.h && a < ptr ==> !Fits(c, s.h, a, size))
       case Adjusting(_, mem, cur) =>
         !s.disturbed ==> s.lfree == mem && cur in s.h && s.h[cur].used && NoFreeBelow(s.h, cur)
       case _ => true
  }

  ghost predicate Init(c: Config, s: State) {
    s == State(map[0 := Header(c.memSize, 0, false)], 0, false, Idle, {})
  }

  // ----- steps of other contexts -----

  ghost predicate FreeStep(c: Config, s: State, t: State, a: nat) {
    && a in s.owned && a in s.h
    && t == s.(h := Free(c, s.h, a), lfree := LfreeAfterFree(c, s.h, s.lfree, a),
               disturbed := true, owned := s.owned - {a})
  }

  ghost predicate TrimStep(c: Config, s: State, t: State, a: nat, newSize: nat) {
    && a in s.owned && a in s.h && c.minSize <= newSize
    && t == s.(h := Trim(c, s.h, a, newSize), lfree := LfreeAfterTrim(c, s.h, s.lfree, a, newSize),
               disturbed := true)
  }

  // ----- steps of the allocating thread -----

  /** Head of the scan loop (mem.c:870-877): unprotect at `ptr`, or give up. */
  function ScanFrom(c: Config, s: State, size: nat, ptr: nat): State {
    if ptr < c.memSize - size
    then s.(disturbed := false, pc := Scanning(size, ptr))
    else s.(pc := Failed(size))
  }

  /** Head of the loop at mem.c:934: unprotect at a used `cur`, or store the new lowest free block. */
  function AdjustFrom(c: Config, s: State, size: nat, mem: nat, cur: nat): State
    requires cur == c.memSize || cur in s.h
  {
    if cur != c.memSize && s.h[cur].used
    then s.(disturbed := false, pc := Adjusting(size, mem, cur))
    else s.(lfree := cur, pc := Succeeded(size, mem))
  }

  /** mem.c:931: only when the block taken was the lowest free one does `lfree` have to move. */
  function StartAdjust(c: Config, s: State, size: nat, mem: nat): State
    requires s.lfree == c.memSize || s.lfree in s.h
  {
    if mem == s.lfree then AdjustFrom(c, s, size, mem, s.lfree) else s.(pc := Succeeded(size, mem))
  }

  /** One step of mem_malloc. Every look-up is of a header that Inv shows to be in the list. */
  ghost function ThreadStep(c: Config, s: State): State
    requires Inv(c, s)
  {
    match s.pc
    case Idle => s
    case Scanning(size, ptr) =>
      if s.disturbed then ScanFrom(c, s, size, s.lfree)
      else if Fits(c, s.h, ptr, size) then StartAdjust(c, s.(h := Claim(c, s.h, ptr, size)), size, ptr)
      else ScanFrom(c, s, size, s.h[ptr].next)
    case Adjusting(size, mem, cur) =>
      if s.disturbed then StartAdjust(c, s, size, mem)
      else
        assert NextOk(c, s.h, cur);
        AdjustFrom(c, s, size, mem, s.h[cur].next)
    case Failed(_) => s.(pc := Idle)
    case Succeeded(_, block) => s.(pc := Idle, owned := s.owned + {block})
  }

  ghost predicate StartStep(c: Config, s: State, t: State, size: nat) {
    s.pc.Idle? && c.minSize <= size <= c.memSize && t == ScanFrom(c, s, size, s.lfree)
  }

  ghost predicate Next(c: Config, s: State, t: State) {
    || (exists a: nat :: FreeStep(c, s, t, a))
    || (exists a: nat, newSize: nat :: TrimStep(c, s, t, a, newSize))
    || (exists size: nat :: StartStep(c, s, t, size))
    || (Inv(c, s) && t == ThreadStep(c, s))
  }

  // ----- every step keeps the invariant -----

  lemma InitHolds(c: Config, s: State)
    requires c.Valid() && Init(c, s)
    ensures Inv(c, s)
  {
    assert forall a: nat :: NextOk(c, s.h, a) && PrevOk(s.h, a) && NoFreePair(s.h, a);
    assert forall a: nat, b: nat :: Apart(s.h, a, b);
  }

  /** Merging free blocks leaves a lower `lfree` valid. */
  lemma MergeKeepsLow(c: Config, h: Blocks, a: nat, p: nat)
    requires c.Valid() && Linked(c, h) && NoFreeBelow(h, p) && (p == c.memSize || p in h)
    requires a in h && !h[a].used && h[a].next in h && !h[h[a].next].used
    ensures p <= a && p in MergeNext(c, h, a)
    ensures NoFreeBelow(MergeNext(c, h, a), p) && MergeNext(c, h, a)[p].used == h[p].used
  {
    assert NextOk(c, h, a) && NextOk(c, h, h[a].next);
  }

  /** mem_free leaves `lfree` at the freed block or where it was, and no free block below it. */
  lemma FreeKeepsLow(c: Config, h: Blocks, lfree: nat, a: nat)
    requires c.Valid() && WellFormed(c, h) && NoFreeBelow(h, lfree)
    requires lfree == c.memSize || lfree in h
    requires a in h && h[a].used && a != lfree
    ensures var r, l := Free(c, h, a), LfreeAfterFree(c, h, lfree, a);
      && l == (if a < lfree then a else lfree)
      && l in r && NoFreeBelow(r, l)
      && (r[l].used <==> l == lfree && h[l].used)
  {
    var m := MarkFree(h, a);
    MarkLinked(c, h, a, false);
    assert NextOk(c, h, a) && NextOk(c, m, a) && PrevOk(m, a);
    var l1 := if a < lfree then a else lfree;
    var f := PlugForward(c, m, a);
    if f != m {
      MergeKeepsLow(c, m, a, l1);
      MergeNextLinked(c, m, a);
    }
    if PlugBackward(c, f, a) != f {
      MergeKeepsLow(c, f, f[a].prev, l1);
    }
  }

  lemma FreeKeeps(c: Config, s: State, t: State, a: nat)
    requires Inv(c, s) && FreeStep(c, s, t, a)
    ensures Inv(c, t)
  {
    FreeWellFormed(c, s.h, a);
    FreeReleases(c, s.h, a);
    assert NextOk(c, s.h, a) && a in s.owned + Taken(s.pc);
    FreeKeepsLow(c, s.h, s.lfree, a);
    assert forall x :: x in t.h && t.h[x].used <==> x in Allocated(t.h);
    assert forall x :: x in s.h && s.h[x].used <==> x in Allocated(s.h);
  }

  lemma TrimKeepsLow(c: Config, h: Blocks, lfree: nat, a: nat, newSize: nat)
    requires c.Valid() && WellFormed(c, h) && NoFreeBelow(h, lfree)
    requires lfree == c.memSize || lfree in h
    requires a in h && h[a].used && c.minSize <= newSize
    ensures var r, l := Trim(c, h, a, newSize), LfreeAfterTrim(c, h, lfree, a, newSize);
      && (l == c.memSize || l in r) && NoFreeBelow(r, l)
      && (l != c.memSize && r[l].used ==> l == lfree && h[l].used)
  {
    assert NextOk(c, h, a);
    assert Apart(h, a, lfree);
  }

  lemma TrimKeeps(c: Config, s: State, t: State, a: nat, newSize: nat)
    requires Inv(c, s) && TrimStep(c, s, t, a, newSize)
    ensures Inv(c, t)
  {
    assert a in s.owned + Taken(s.pc);
    TrimKeepsLow(c, s.h, s.lfree, a, newSize);
    if t.h != s.h {
      TrimWellFormed(c, s.h, a, newSize);
      TrimShrinks(c, s.h, a, newSize);
      assert forall x :: x in t.h && t.h[x].used <==> x in Allocated(t.h);
      assert forall x :: x in s.h && s.h[x].used <==> x in Allocated(s.h);
    }
  }

  lemma StartKeeps(c: Config, s: State, t: State, size: nat)
    requires Inv(c, s) && StartStep(c, s, t, size)
    ensures Inv(c, t)
  {
  }

  /** The scan claims `ptr`: it is free and the first block that is large enough. */
  lemma ClaimKeeps(c: Config, s: State)
    requires Inv(c, s) && s.pc.Scanning? && !s.disturbed && Fits(c, s.h, s.pc.ptr, s.pc.size)
    ensures IsFirstFit(c, s.h, s.pc.size, s.pc.ptr)
    ensures Inv(c, ThreadStep(c, s))
  {
    var ptr, size := s.pc.ptr, s.pc.size;
    ClaimWellFormed(c, s.h, ptr, size);
    ClaimAllocates(c, s.h, ptr, size);
    ClaimLowest(c, s.h, ptr, size, s.lfree);
    var t := ThreadStep(c, s);
    assert t.h == Claim(c, s.h, ptr, size) && t.owned == s.owned && Taken(t.pc) == {ptr};
    assert NextOk(c, s.h, ptr);
    assert forall x :: x in t.h && t.h[x].used <==> x in Allocated(t.h);
    assert forall x :: x in s.h && s.h[x].used <==> x in Allocated(s.h);
  }

  /** The scan moves on past a block that does not fit. */
  lemma ScanKeeps(c: Config, s: State)
    requires Inv(c, s) && s.pc.Scanning? && (s.disturbed || !Fits(c, s.h, s.pc.ptr, s.pc.size))
    ensures Inv(c, ThreadStep(c, s))
  {
    if !s.disturbed {
      assert NextOk(c, s.h, s.pc.ptr);
      forall a | a in s.h && a < s.h[s.pc.ptr].next ensures !Fits(c, s.h, a, s.pc.size) {
        assert Apart(s.h, s.pc.ptr, a);
      }
    }
  }

  /** NULL is returned only at a moment when no block is large enough. */
  lemma FailsOnlyWhenFull(c: Config, s: State)
    requires Inv(c, s) && s.pc.Scanning? && ThreadStep(c, s).pc.Failed?
    ensures NoFit(c, s.h, s.pc.size) && ThreadStep(c, s).h == s.h
    ensures forall x: nat :: !Room(c, s.h, x, s.pc.size)
  {
    FirstRoom(c, s.h, s.pc.size);
    forall a | a in s.h ensures !Fits(c, s.h, a, s.pc.size) {
      assert NextOk(c, s.h, a);
      if !s.disturbed {
        assert Apart(s.h, s.pc.ptr, a) && NextOk(c, s.h, s.pc.ptr);
      }
    }
  }

  lemma AdjustKeeps(c: Config, s: State)
    requires Inv(c, s) && s.pc.Adjusting?
    ensures Inv(c, ThreadStep(c, s))
  {
    var cur := s.pc.cur;
    if !s.disturbed {
      assert NextOk(c, s.h, cur);
      forall a | a in s.h && !s.h[a].used ensures s.h[cur].next <= a {
        assert Apart(s.h, cur, a);
      }
    }
  }

  lemma ThreadKeeps(c: Config, s: State)
    requires Inv(c, s)
    ensures Inv(c, ThreadStep(c, s))
  {
    match s.pc
    case Scanning(size, ptr) =>
      if !s.disturbed && Fits(c, s.h, ptr, size) {
        ClaimKeeps(c, s);
      } else {
        ScanKeeps(c, s);
      }
    case Adjusting(_, _, _) => AdjustKeeps(c, s);
    case Idle =>
    case Failed(_) =>
    case Succeeded(_, _) =>
  }

  lemma StepKeeps(c: Config, s: State, t: State)
    requires Inv(c, s) && Next(c, s, t)
    ensures Inv(c, t)
  {
    if a: nat :| FreeStep(c, s, t, a) {
      FreeKeeps(c, s, t, a);
    } else if a: nat, newSize: nat :| TrimStep(c, s, t, a, newSize) {
      TrimKeeps(c, s, t, a, newSize);
    } else if size: nat :| StartStep(c, s, t, size) {
      StartKeeps(c, s, t, size);
    } else {
      ThreadKeeps(c, s);
    }
  }

  ghost predicate IsRun(c: Config, run: seq<State>) {
    c.Valid() && 0 < |run| && Init(c, run[0]) && forall i :: 0 <= i < |run| - 1 ==> Next(c, run[i], run[i + 1])
  }

  /** In every run, whatever frees and trims come in between, every state satisfies the invariant. */
  lemma {:induction false} RunsKeep(c: Config, run: seq<State>, i: nat)
    requires IsRun(c, run) && i < |run|
    ensures Inv(c, run[i])
  {
    if i == 0 {
      InitHolds(c, run[0]);
    } else {
      RunsKeep(c, run, i - 1);
      assert Next(c, run[i - 1], run[i - 1 + 1]);
      StepKeeps(c, run[i - 1], run[i]);
    }
  }

  // ----- what the caller gets, and what everybody else keeps -----

  /** The span at `a` holds `size` bytes, and not so many more that they would make a block. */
  ghost predicate Holds(c: Config, h: Blocks, a: nat, size: nat) {
    a in h && a + c.structSize + size <= h[a].next < a + 2 * c.structSize + size + c.minSize
  }

  /** The block that the thread has taken has the size that was asked for. */
  ghost predicate TakenHolds(c: Config, s: State) {
    match s.pc
    case Adjusting(size, mem, _) => Holds(c, s.h, mem, size)
    case Succeeded(size, block) => Holds(c, s.h, block, size)
    case _ => true
  }

  /** A step leaves every span alone that its thread or interrupt does not free, trim or take. */
  lemma SpansKept(c: Config, s: State, t: State, a: nat)
    requires Inv(c, s) && Next(c, s, t) && a in s.owned + Taken(s.pc)
    ensures a in s.h && (a in t.owned + Taken(t.pc) ==> a in t.h && t.h[a].next <= s.h[a].next)
    ensures a in t.owned + Taken(t.pc) && t.h[a].next != s.h[a].next ==>
      a in s.owned && exists newSize: nat :: TrimStep(c, s, t, a, newSize)
    ensures a !in t.owned + Taken(t.pc) ==> FreeStep(c, s, t, a)
  {
    StepKeeps(c, s, t);
    assert a in Allocated(s.h);
    if b: nat :| FreeStep(c, s, t, b) {
      FreeReleases(c, s.h, b);
      assert b in s.owned + Taken(s.pc) && (a != b ==> a in Allocated(t.h));
    } else if b: nat, newSize: nat :| TrimStep(c, s, t, b, newSize) {
      TrimmedSpans(c, s, t, b, newSize, a);
    } else if size: nat :| StartStep(c, s, t, size) {
    } else {
      ThreadSpans(c, s, a);
    }
  }

  lemma TrimmedSpans(c: Config, s: State, t: State, b: nat, newSize: nat, a: nat)
    requires Inv(c, s) && TrimStep(c, s, t, b, newSize) && a in Allocated(s.h)
    ensures a in Allocated(t.h) && Allocated(t.h)[a] <= Allocated(s.h)[a] && (a != b ==> t.h[a].next == s.h[a].next)
  {
    assert b in s.owned + Taken(s.pc);
    if newSize <= s.h[b].next - b - c.structSize {
      TrimShrinks(c, s.h, b, newSize);
      assert Allocated(t.h) == Allocated(s.h)[b := t.h[b].next];
    } else {
      assert t.h == s.h;
    }
  }

  lemma ThreadSpans(c: Config, s: State, a: nat)
    requires Inv(c, s) && a in Allocated(s.h)
    ensures var t := ThreadStep(c, s); a in t.h && t.h[a].next == s.h[a].next && a in t.owned + Taken(t.pc)
  {
    var t := ThreadStep(c, s);
    assert a in s.owned + Taken(s.pc);
    if s.pc.Scanning? && !s.disturbed && Fits(c, s.h, s.pc.ptr, s.pc.size) {
      ClaimAllocates(c, s.h, s.pc.ptr, s.pc.size);
      assert t.h == Claim(c, s.h, s.pc.ptr, s.pc.size) && a in Allocated(t.h);
    }
  }

  /** What the thread is after: from the call of mem_malloc to its return. */
  function Wanted(pc: Pc): Option<nat> {
    if pc.Idle? then None else Some(pc.size)
  }

  /** Until it returns, the thread is after the size that it was called with. */
  lemma WantedKept(c: Config, s: State, t: State)
    requires Inv(c, s) && Next(c, s, t) && !s.pc.Idle? && !t.pc.Idle?
    ensures Wanted(t.pc) == Wanted(s.pc)
  {
  }

  lemma TakenHoldsStep(c: Config, s: State, t: State)
    requires Inv(c, s) && Next(c, s, t) && TakenHolds(c, s)
    ensures TakenHolds(c, t)
  {
    if s.pc.Adjusting? || s.pc.Succeeded? {
      var a := if s.pc.Adjusting? then s.pc.mem else s.pc.block;
      assert Taken(s.pc) == {a} && a in s.owned + Taken(s.pc) && a !in s.owned;
      SpansKept(c, s, t, a);
      assert !FreeStep(c, s, t, a);
    } else if s.pc.Scanning? && !t.pc.Scanning? && !t.pc.Failed? {
      ClaimAllocates(c, s.h, s.pc.ptr, s.pc.size);
    }
  }

  /**
   Whatever frees and trims come in between, the block that mem_malloc returns has the size that was asked for, and
   nobody else's memory is in it.
   */
  lemma {:induction false} ReturnedHolds(c: Config, run: seq<State>, i: nat)
    requires IsRun(c, run) && i < |run|
    ensures Inv(c, run[i]) && TakenHolds(c, run[i])
    ensures run[i].pc.Succeeded? ==>
      var s := run[i];
      && s.pc.block in s.h && s.h[s.pc.block].used && s.pc.block !in s.owned
      && forall b :: b in s.owned ==> b in s.h && (s.h[b].next <= s.pc.block || s.h[s.pc.block].next <= b)
  {
    RunsKeep(c, run, i);
    if i > 0 {
      ReturnedHolds(c, run, i - 1);
      assert Next(c, run[i - 1], run[i - 1 + 1]);
      TakenHoldsStep(c, run[i - 1], run[i]);
    }
    if run[i].pc.Succeeded? {
      BlocksApart(c, run[i], run[i].pc.block);
    }
  }

  lemma BlocksApart(c: Config, s: State, a: nat)
    requires Inv(c, s) && a in Taken(s.pc)
    ensures a in s.h && s.h[a].used && a !in s.owned
    ensures forall b :: b in s.owned ==> b in s.h && (s.h[b].next <= a || s.h[a].next <= b)
  {
    assert a in s.owned + Taken(s.pc);
    forall b | b in s.owned ensures b in s.h && (s.h[b].next <= a || s.h[a].next <= b) {
      assert b in s.owned + Taken(s.pc);
      assert Apart(s.h, a, b) && Apart(s.h, b, a);
    }
  }

  /** Undisturbed, the scan and the walk only go up, so that mem_malloc comes to an end. */
  lemma Progress(c: Config, s: State)
    requires Inv(c, s) && !s.disturbed && (s.pc.Scanning? || s.pc.Adjusting?)
    ensures var t := ThreadStep(c, s);
      && !t.pc.Idle? && (s.pc.Adjusting? ==> !t.pc.Scanning? && !t.pc.Failed?)
      && (s.pc.Scanning? && t.pc.Scanning? ==> s.pc.ptr < t.pc.ptr < c.memSize)
      && (s.pc.Adjusting? && t.pc.Adjusting? ==> s.pc.cur < t.pc.cur < c.memSize)
  {
    var a := if s.pc.Scanning? then s.pc.ptr else s.pc.cur;
    assert NextOk(c, s.h, a);
    assert s.h[a].next in s.h ==> NextOk(c, s.h, s.h[a].next);
  }
}
