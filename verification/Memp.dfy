/**
 The memory pools of memp.c: a free list threaded through the elements, and the check by Floyd's
 algorithm that it has no cycle.

 Addresses are numbers and NULL is zero; `next` holds the link of every element.
 */
module Memp {

  const NULL: nat := 0

  type Links = map<nat, nat>

  /** Links lead to NULL or to an element. */
  ghost predicate Closed(next: Links, head: nat) {
    && NULL !in next
    && (head == NULL || head in next)
    && forall a :: a in next ==> next[a] == NULL || next[a] in next
  }

  // ----- walking a list -----

  /** Where the list from `head` is after `k` steps; it stays at NULL. */
  ghost function At(next: Links, head: nat, k: nat): (r: nat)
    requires Closed(next, head)
    ensures r == NULL || r in next
  {
    if k == 0 then head else
      var p := At(next, head, k - 1);
      if p == NULL then NULL else next[p]
  }

  /** The list from `head` has no cycle. */
  ghost predicate Ends(next: Links, head: nat)
    requires Closed(next, head)
  {
    exists k: nat :: At(next, head, k) == NULL
  }

  /** From equal places the walk goes on equally. */
  lemma {:induction false} AtShift(next: Links, head: nat, x: nat, y: nat, d: nat)
    requires Closed(next, head) && At(next, head, x) == At(next, head, y)
    ensures At(next, head, x + d) == At(next, head, y + d)
  {
    if d > 0 {
      AtShift(next, head, x, y, d - 1);
    }
  }

  lemma {:induction false} StaysNull(next: Links, head: nat, x: nat, d: nat)
    requires Closed(next, head) && At(next, head, x) == NULL
    ensures At(next, head, x + d) == NULL
  {
    if d > 0 {
      StaysNull(next, head, x, d - 1);
    }
  }

  /** A place that comes back once comes back always. */
  lemma {:induction false} Periodic(next: Links, head: nat, x: nat, period: nat, j: nat)
    requires Closed(next, head) && At(next, head, x) == At(next, head, x + period)
    ensures At(next, head, x + j * period) == At(next, head, x)
  {
    if j > 0 {
      Periodic(next, head, x, period, j - 1);
      AtShift(next, head, x, x + (j - 1) * period, period);
      assert x + (j - 1) * period + period == x + j * period;
    }
  }

  lemma BackForever(next: Links, head: nat, x: nat, period: nat)
    requires Closed(next, head) && period > 0
    requires At(next, head, x) == At(next, head, x + period) != NULL
    ensures !Ends(next, head)
  {
    if k: nat :| At(next, head, k) == NULL {
      Periodic(next, head, x, period, k);
      assert x + k * period >= k;
      StaysNull(next, head, k, x + k * period - k);
    }
  }

  // ----- a walk that does not end comes back -----

  ghost predicate DistinctUpTo(next: Links, head: nat, n: nat)
    requires Closed(next, head)
  {
    forall i: nat, j: nat :: i < j < n ==> At(next, head, i) != At(next, head, j)
  }

  ghost predicate Visited(next: Links, head: nat, n: nat, x: nat)
    requires Closed(next, head)
  {
    exists i: nat :: i < n && At(next, head, i) == x
  }

  lemma {:induction false} Collect(next: Links, head: nat, n: nat) returns (s: set<nat>)
    requires Closed(next, head) && DistinctUpTo(next, head, n)
    requires forall i: nat :: i < n ==> At(next, head, i) != NULL
    ensures s <= next.Keys && |s| == n && forall x :: x in s ==> Visited(next, head, n, x)
  {
    s := {};
    if n > 0 {
      var s' := Collect(next, head, n - 1);
      s := s' + {At(next, head, n - 1)};
      forall x | x in s ensures Visited(next, head, n, x) {
        assert x in s' ==> Visited(next, head, n - 1, x);
      }
    }
  }

  lemma {:induction false} SubsetSize(a: set<nat>, b: set<nat>)
    requires a <= b
    ensures |a| <= |b|
  {
    if a != {} {
      var x :| x in a;
      SubsetSize(a - {x}, b - {x});
    }
  }

  lemma Pigeonhole(next: Links, head: nat) returns (i: nat, j: nat)
    requires Closed(next, head) && !Ends(next, head)
    ensures i < j <= |next| && At(next, head, i) == At(next, head, j)
  {
    if DistinctUpTo(next, head, |next| + 1) {
      var s := Collect(next, head, |next| + 1);
      SubsetSize(s, next.Keys);
      assert false;
    }
    i, j :| i < j < |next| + 1 && At(next, head, i) == At(next, head, j);
  }

  /** How far the slow pointer can get: to the end of the list, or to where the fast one meets it. */
  lemma Meeting(next: Links, head: nat) returns (k: nat)
    requires Closed(next, head)
    ensures At(next, head, k) == NULL || At(next, head, k) == At(next, head, 2 * k + 1)
  {
    if Ends(next, head) {
      k :| At(next, head, k) == NULL;
    } else {
      var i, j := Pigeonhole(next, head);
      var period := j - i;
      k := (i + 1) * period - 1;
      assert k >= i;
      AtShift(next, head, i, j, k - i);
      Periodic(next, head, k, period, i + 1);
      assert k + (i + 1) * period == 2 * k + 1;
    }
  }

  /** The links `live` are found in the elements. */
  ghost predicate Holds(next: Links, live: Links) {
    forall a :: a in live ==> a in next && next[a] == live[a]
  }

  /**
   memp_sanity: it ends on every shape of the list, and it is 1 exactly for a list without a cycle.
   `live` are the links of elements in the list; what others hold does not matter.
   */
  method Sanity(next: Links, head: nat, ghost live: Links) returns (ok: bool)
    requires Closed(live, head) && Holds(next, live)
    ensures ok <==> Ends(live, head)
  {
    var t := head;
    assert At(live, head, 0) == head;
    if t != NULL {
      ghost var last := Meeting(live, head);
      ghost var k: nat := 0;
      var h := next[t];
      while t != NULL && h != NULL
        invariant t == At(live, head, k) && h == At(live, head, 2 * k + 1) && k <= last
        decreases last - k
      {
        if t == h {
          BackForever(live, head, k, k + 1);
          return false;
        }
        assert k < last;
        assert At(live, head, 2 * k + 2) == next[h];
        t := next[t];
        h := if next[h] != NULL then next[next[h]] else NULL;
        k := k + 1;
      }
    }
    ok := true;
  }

  // ----- pools -----

  /** What follows element `i` in the list. */
  ghost function Succ(free: seq<nat>, i: nat): nat {
    if i + 1 < |free| then free[i + 1] else NULL
  }

  /** `free` is the list that `tab` starts. */
  ghost predicate Threads(next: Links, tab: nat, free: seq<nat>) {
    && tab == (if free == [] then NULL else free[0])
    && forall i :: 0 <= i < |free| ==> free[i] in next && next[free[i]] == Succ(free, i)
  }

  ghost predicate NoDuplicates(free: seq<nat>) {
    forall i, j :: 0 <= i < j < |free| ==> free[i] != free[j]
  }

  lemma {:induction false} ThreadAt(next: Links, tab: nat, free: seq<nat>, k: nat)
    requires Closed(next, tab) && Threads(next, tab, free) && k <= |free|
    ensures At(next, tab, k) == if k < |free| then free[k] else NULL
  {
    if k > 0 {
      ThreadAt(next, tab, free, k - 1);
    }
  }

  /** After linking `mem` in front of the free list, the list has no cycle exactly when it was not in it already. */
  lemma PushEnds(next: Links, tab: nat, free: seq<nat>, mem: nat)
    requires Closed(next, tab) && Threads(next, tab, free) && mem != NULL
    ensures Closed(next[mem := tab], mem)
    ensures Ends(next[mem := tab], mem) <==> mem !in free
  {
    var next' := next[mem := tab];
    if mem in free {
      FirstIndex(free, mem);
      var i: nat :| i < |free| && free[i] == mem && forall j :: 0 <= j < i ==> free[j] != mem;
      PushAt(next, tab, free, mem, i + 1);
      BackForever(next', mem, 0, i + 1);
    } else {
      PushAt(next, tab, free, mem, |free| + 1);
    }
  }

  lemma {:induction false} FirstIndex(free: seq<nat>, mem: nat)
    requires mem in free
    ensures exists i: nat :: i < |free| && free[i] == mem && forall j :: 0 <= j < i ==> free[j] != mem
  {
    var n := |free| - 1;
    if mem in free[..n] {
      FirstIndex(free[..n], mem);
      var i: nat :| i < n && free[..n][i] == mem && forall j :: 0 <= j < i ==> free[..n][j] != mem;
      assert free[i] == mem && forall j :: 0 <= j < i ==> free[j] == free[..n][j];
    } else {
      assert forall j :: 0 <= j < n ==> free[j] == free[..n][j];
      assert free[n] == mem;
    }
  }

  /** Up to the first place where `mem` was already, the walk is the old list behind `mem`. */
  lemma {:induction false} PushAt(next: Links, tab: nat, free: seq<nat>, mem: nat, k: nat)
    requires Closed(next, tab) && Threads(next, tab, free) && mem != NULL && 1 <= k <= |free| + 1
    requires forall j :: 0 <= j < k - 1 ==> free[j] != mem
    ensures Closed(next[mem := tab], mem)
    ensures At(next[mem := tab], mem, k) == if k <= |free| then free[k - 1] else NULL
  {
    assert At(next[mem := tab], mem, 0) == mem;
    if k > 1 {
      PushAt(next, tab, free, mem, k - 1);
      var p := free[k - 2];
      assert p in next && next[p] == Succ(free, k - 2) && p != mem && At(next[mem := tab], mem, k - 1) == p;
    }
  }

  /** The address of the i-th element of a pool. */
  ghost function Element(base: nat, stride: nat, i: nat): nat {
    if i == 0 then base else Element(base, stride, i - 1) + stride
  }

  /** The free list of a new pool: the last element comes first. */
  ghost function Elements(base: nat, stride: nat, n: nat): seq<nat> {
    if n == 0 then [] else [Element(base, stride, n - 1)] + Elements(base, stride, n - 1)
  }

  class Pool {
    /** *desc->tab and the links in the elements. */
    var tab: nat
    var next: Links
    /** stats->used. */
    var used: nat
    const num: nat
    ghost var free: seq<nat>
    ghost var out: set<nat>
    /** The links of the free elements. */
    ghost var live: Links

    /** Every element is either once in the free list or handed out. */
    ghost predicate Valid()
      reads this
    {
      && Closed(live, tab) && Threads(live, tab, free) && NoDuplicates(free) && Holds(next, live)
      && NULL !in next && (forall a :: a in live <==> a in free)
      && (forall a :: a in next <==> a in free || a in out)
      && (forall a :: a in out ==> a !in free)
      && |free| + |out| == num && used == |out|
    }

    /** memp_init_pool for `n` elements that lie `stride` bytes apart from `base` on. */
    constructor (n: nat, base: nat, stride: nat)
      requires base > 0 && stride > 0
      ensures Valid() && out == {} && num == n
      ensures free == Elements(base, stride, n)
    {
      num, used, tab, next, free, out, live := n, 0, NULL, map[], [], {}, map[];
      new;
      var i: nat, memp := 0, base;
      while i < n
        invariant i <= n
        invariant Closed(next, tab) && Threads(next, tab, free) && NoDuplicates(free) && |free| == i
        invariant live == next && forall a :: a in next <==> a in free
        invariant memp == Element(base, stride, i) && free == Elements(base, stride, i)
        invariant (forall a :: a in free ==> a < memp) && memp > 0 && out == {} && used == 0
      {
        PushThreads(next, tab, free, memp);
        next, live, tab, free := next[memp := tab], next[memp := tab], memp, [memp] + free;
        memp := memp + stride;
        i := i + 1;
      }
    }

    /** do_memp_malloc_pool: the first free element, or NULL exactly when there is none. */
    method Malloc() returns (mem: nat)
      requires Valid()
      modifies this
      ensures Valid()
      ensures mem == NULL <==> old(free) == []
      ensures mem == NULL ==> free == old(free) && out == old(out)
      ensures mem != NULL ==> old(free) == [mem] + free && mem !in old(out) && out == old(out) + {mem}
    {
      mem := tab;
      if mem != NULL {
        assert mem == free[0] && next[mem] == live[mem];
        PopThreads(live, free);
        TailDistinct(free);
        tab := next[mem];
        used := used + 1;
        free, out, live := free[1..], out + {mem}, live - {mem};
      }
    }

    /** Who holds an element may write what they like where its link was. */
    method Overwrite(mem: nat, link: nat)
      requires Valid() && mem in out
      modifies this`next
      ensures Valid() && next == old(next)[mem := link]
    {
      next := next[mem := link];
    }

    /** do_memp_free_pool with its sanity check, which finds nothing to complain about. */
    method Free(mem: nat) returns (ok: bool)
      requires Valid() && mem in out
      modifies this
      ensures Valid() && ok && free == [mem] + old(free) && out == old(out) - {mem}
    {
      PushEnds(live, tab, free, mem);
      PushThreads(live, tab, free, mem);
      used := used - 1;
      live := live[mem := tab];
      next, tab := next[mem := tab], mem;
      free, out := [mem] + free, out - {mem};
      ok := Sanity(next, tab, live);
    }

    /** Freeing an element that is free already closes a cycle, and the sanity check reports it. */
    method DoubleFree(mem: nat) returns (ok: bool)
      requires Valid() && mem in free
      ensures !ok
    {
      PushEnds(live, tab, free, mem);
      ok := Sanity(next[mem := tab], mem, live[mem := tab]);
    }
  }

  lemma TailDistinct(free: seq<nat>)
    requires free != [] && NoDuplicates(free)
    ensures NoDuplicates(free[1..]) && free[0] !in free[1..] && free == [free[0]] + free[1..]
    ensures forall a :: a in free <==> a == free[0] || a in free[1..]
  {
  }

  lemma PopThreads(next: Links, free: seq<nat>)
    requires free != [] && Threads(next, free[0], free) && Closed(next, free[0])
    requires NoDuplicates(free) && forall a :: a in next <==> a in free
    ensures var n := next - {free[0]};
      && Closed(n, next[free[0]]) && Threads(n, next[free[0]], free[1..])
      && forall a :: a in n <==> a in free[1..]
  {
    var f, n := free[1..], next - {free[0]};
    forall i | 0 <= i < |f| ensures f[i] in n && n[f[i]] == Succ(f, i) {
      assert f[i] == free[i + 1] && Succ(f, i) == Succ(free, i + 1);
    }
    forall a | a in n ensures a in f && (n[a] == NULL || n[a] in n) {
      var i :| 0 <= i < |f| && f[i] == a;
      assert n[a] == Succ(f, i);
    }
  }

  lemma PushThreads(next: Links, tab: nat, free: seq<nat>, mem: nat)
    requires Closed(next, tab) && Threads(next, tab, free) && mem !in free && mem != NULL
    ensures Closed(next[mem := tab], mem) && Threads(next[mem := tab], mem, [mem] + free)
  {
    var f, n := [mem] + free, next[mem := tab];
    forall i | 0 <= i < |f| ensures f[i] in n && n[f[i]] == Succ(f, i) {
      if i > 0 {
        assert f[i] == free[i - 1] && free[i - 1] in next && next[free[i - 1]] == Succ(free, i - 1) == Succ(f, i);
      }
    }
  }
}
