/**
 The timeout list of timeouts.c: one list sorted by due time, over a 32-bit millisecond clock that
 wraps around, with cyclic timers that put themselves back.

 Absolute times are unbounded; the program sees each of them modulo 2^32. `LessExact` relates what
 the program compares to the absolute times.
 */
module Timeouts {

  type u32 = x: int | 0 <= x < 0x1_0000_0000

  const MAX_TIMEOUT := 0x7FFF_FFFF

  /** The longest msecs of sys_timeout, LWIP_UINT32_MAX / 4. */
  const MAX_MSECS := 0x3FFF_FFFF

  /** How long a timer may be overdue. */
  const MAX_LATE := 0x4000_0000

  // ----- wrapping time -----

  /** What a u32_t holds of an absolute time. */
  function Wrap(t: nat): u32 {
    if t < 0x1_0000_0000 then t else Wrap(t - 0x1_0000_0000)
  }

  function Sub32(a: u32, b: u32): u32 { if a >= b then a - b else a - b + 0x1_0000_0000 }

  function Plus32(a: u32, b: u32): u32 { if a + b < 0x1_0000_0000 then a + b else a + b - 0x1_0000_0000 }

  /** TIME_LESS_THAN. */
  predicate TimeLess(t: u32, compareTo: u32) { Sub32(t, compareTo) > MAX_TIMEOUT }

  lemma {:induction false} WrapSub(a: nat, b: nat)
    requires b <= a
    ensures Sub32(Wrap(a), Wrap(b)) == Wrap(a - b)
    decreases a
  {
    if b >= 0x1_0000_0000 {
      WrapSub(a - 0x1_0000_0000, b - 0x1_0000_0000);
    } else if a - b >= 0x1_0000_0000 {
      WrapSub(a - 0x1_0000_0000, b);
    }
  }

  lemma {:induction false} WrapPlus(a: nat, b: nat)
    ensures Plus32(Wrap(a), Wrap(b)) == Wrap(a + b)
    decreases a + b
  {
    if a >= 0x1_0000_0000 {
      WrapPlus(a - 0x1_0000_0000, b);
    } else if b >= 0x1_0000_0000 {
      WrapPlus(a, b - 0x1_0000_0000);
    }
  }

  /** Times are near enough to be told apart although they wrap. */
  ghost predicate Near(a: int, b: int) { -0x8000_0000 <= a - b <= MAX_TIMEOUT }

  /** The wrapped comparison is the order of absolute times when they are near. */
  lemma {:induction false} LessExact(a: nat, b: nat)
    requires Near(a, b)
    ensures TimeLess(Wrap(a), Wrap(b)) <==> a < b
  {
    if a >= 0x1_0000_0000 && b >= 0x1_0000_0000 {
      LessExact(a - 0x1_0000_0000, b - 0x1_0000_0000);
    }
  }

  /** Less than one turn of the clock apart, it is right for near times only. */
  lemma {:induction false} LessOnlyIfNear(a: nat, b: nat)
    requires -0x1_0000_0000 < a - b < 0x1_0000_0000
    ensures (TimeLess(Wrap(a), Wrap(b)) <==> a < b) <==> Near(a, b)
  {
    if Near(a, b) {
      LessExact(a, b);
    } else if a < b {
      WrapSub(b, a);
    } else {
      WrapSub(a, b);
    }
  }

  // ----- sorted keys -----

  datatype Timer = Timer(time: u32, handler: int, arg: int)

  /** The absolute due time of a timer and how many timers were started before it. */
  datatype Key = Key(due: nat, stamp: nat)

  /** Earlier due, or equally due and started earlier. */
  ghost predicate Before(a: Key, b: Key) {
    a.due < b.due || (a.due == b.due && a.stamp < b.stamp)
  }

  ghost predicate Sorted(keys: seq<Key>) {
    forall i, j :: 0 <= i < j < |keys| ==> Before(keys[i], keys[j])
  }

  function Inserted<T>(s: seq<T>, k: nat, x: T): (r: seq<T>)
    requires k <= |s|
    ensures |r| == |s| + 1
    ensures forall i :: 0 <= i < |r| ==> r[i] == if i < k then s[i] else if i == k then x else s[i - 1]
  {
    s[..k] + [x] + s[k..]
  }

  function Removed<T>(s: seq<T>, k: nat): (r: seq<T>)
    requires k < |s|
    ensures |r| == |s| - 1
    ensures forall i :: 0 <= i < |r| ==> r[i] == if i < k then s[i] else s[i + 1]
  {
    s[..k] + s[k + 1..]
  }

  lemma InsertSorted(keys: seq<Key>, k: nat, x: Key)
    requires Sorted(keys) && k <= |keys| && forall i :: 0 <= i < |keys| ==> keys[i].stamp < x.stamp
    requires forall i :: 0 <= i < k ==> keys[i].due <= x.due
    requires forall i :: k <= i < |keys| ==> x.due < keys[i].due
    ensures Sorted(Inserted(keys, k, x))
  {
  }

  ghost predicate Spread(keys: seq<Key>) {
    forall i :: 0 <= i < |keys| ==> keys[i].due - keys[0].due <= MAX_TIMEOUT
  }

  ghost predicate AllNear(keys: seq<Key>, now: nat) {
    forall i :: 0 <= i < |keys| ==> now - MAX_LATE <= keys[i].due <= now + MAX_TIMEOUT
  }

  ghost predicate QueueOk(list: seq<Timer>, keys: seq<Key>, started: nat) {
    && |keys| == |list| && Sorted(keys) && Spread(keys)
    && forall i :: 0 <= i < |list| ==> list[i].time == Wrap(keys[i].due) && keys[i].stamp < started
  }

  /** A timer in its place leaves the list as it has to be. */
  lemma PutOk(list: seq<Timer>, keys: seq<Key>, started: nat, k: nat, t: Timer, due: nat, now: nat)
    requires QueueOk(list, keys, started) && AllNear(keys, now) && now <= due <= now + MAX_MSECS
    requires k <= |list| && t.time == Wrap(due) && (forall i :: 0 <= i < k ==> keys[i].due <= due)
    requires forall i :: k <= i < |keys| ==> due < keys[i].due
    ensures QueueOk(Inserted(list, k, t), Inserted(keys, k, Key(due, started)), started + 1)
    ensures AllNear(Inserted(keys, k, Key(due, started)), now)
  {
    InsertSorted(keys, k, Key(due, started));
    InsertNear(keys, k, Key(due, started), now);
  }

  lemma InsertNear(keys: seq<Key>, k: nat, x: Key, now: nat)
    requires Spread(keys) && AllNear(keys, now) && k <= |keys| && now <= x.due <= now + MAX_MSECS
    ensures Spread(Inserted(keys, k, x)) && AllNear(Inserted(keys, k, x), now)
  {
  }

  /** One is due exactly when the first is; and that is near if all are. */
  lemma SomeDue(keys: seq<Key>, now: nat)
    requires Sorted(keys) && keys != []
    ensures keys[0].due <= now <==> exists i :: 0 <= i < |keys| && keys[i].due <= now
    ensures AllNear(keys, now) ==> Near(now, keys[0].due)
  {
  }

  lemma RemoveSorted(keys: seq<Key>, k: nat)
    requires Sorted(keys) && k < |keys|
    ensures Sorted(Removed(keys, k))
  {
  }

  // ----- how often a cyclic timer can still fire -----

  /** When a cyclic timer that was due at `due` is due again, seen at `now` after its handler has run. */
  ghost function NextDue(due: nat, interval: nat, now: nat): nat {
    if due + interval < now then now + interval else due + interval
  }

  /** One interval after the time it was due, unless that has passed already: then one interval from now. */
  ghost predicate PutBack(due: nat, interval: nat, later: nat, next: nat) {
    && (due + interval >= later ==> next == due + interval)
    && (due + interval < later ==> next == later + interval)
  }

  /** The comparison in lwip_cyclic_timer, and the two times it chooses from. */
  lemma CyclicTimes(due: nat, interval: nat, now: nat)
    requires due <= now <= due + MAX_LATE && interval <= MAX_MSECS
    ensures Plus32(Wrap(due), interval) == Wrap(due + interval) && Plus32(Wrap(now), interval) == Wrap(now + interval)
    ensures TimeLess(Wrap(due + interval), Wrap(now)) <==> due + interval < now
  {
    WrapPlus(due, interval);
    WrapPlus(now, interval);
    LessExact(due + interval, now);
  }

  /** How often a check that sampled `now` can still fire this timer. */
  ghost function Rounds(due: nat, now: nat): nat {
    if due < now then 2 else if due == now then 1 else 0
  }

  lemma FewerRounds(due: nat, interval: nat, now: nat, later: nat)
    requires due <= now <= later && interval >= 1
    ensures Rounds(NextDue(due, interval, later), now) < Rounds(due, now)
  {
  }

  ghost function Potential(keys: seq<Key>, now: nat): nat {
    if keys == [] then 0 else Rounds(keys[0].due, now) + Potential(keys[1..], now)
  }

  lemma {:induction false} PotentialInsert(keys: seq<Key>, k: nat, x: Key, now: nat)
    requires k <= |keys|
    ensures Potential(Inserted(keys, k, x), now) == Potential(keys, now) + Rounds(x.due, now)
    decreases k
  {
    var r := Inserted(keys, k, x);
    if k == 0 {
      assert r[1..] == keys;
    } else {
      PotentialInsert(keys[1..], k - 1, x, now);
      assert r[1..] == Inserted(keys[1..], k - 1, x);
    }
  }

  lemma {:induction false} PotentialBound(keys: seq<Key>, now: nat)
    ensures Potential(keys, now) <= 2 * |keys|
  {
    if keys != [] {
      PotentialBound(keys[1..], now);
    }
  }

  ghost predicate DistinctArgs(list: seq<Timer>) {
    forall i, j :: 0 <= i < j < |list| ==> list[i].arg != list[j].arg
  }

  /** What was fired and what can still be fired make at most two for each timer. */
  ghost predicate Budget(list: seq<Timer>, keys: seq<Key>, fires: multiset<int>, now: nat) {
    && |list| == |keys|
    && (forall a :: fires[a] <= 2)
    && (forall i :: 0 <= i < |list| ==> fires[list[i].arg] + Rounds(keys[i].due, now) <= 2)
  }

  /** Timer 0 fires and comes back at place `k` of the others. */
  lemma BudgetRound(list: seq<Timer>, keys: seq<Key>, fires: multiset<int>, now: nat, k: nat, t: Timer, x: Key)
    requires list != [] && DistinctArgs(list) && Budget(list, keys, fires, now)
    requires k < |list| && t.arg == list[0].arg && Rounds(x.due, now) < Rounds(keys[0].due, now)
    ensures DistinctArgs(Inserted(list[1..], k, t))
    ensures Budget(Inserted(list[1..], k, t), Inserted(keys[1..], k, x), fires + multiset{t.arg}, now)
  {
    var r := Inserted(list[1..], k, t);
    var f := fires + multiset{t.arg};
    assert fires[list[0].arg] + Rounds(keys[0].due, now) <= 2;
    forall i | 0 <= i < |r| ensures f[r[i].arg] + Rounds(Inserted(keys[1..], k, x)[i].due, now) <= 2 {
      if i != k {
        var j := if i < k then i + 1 else i;
        assert r[i] == list[j] && Inserted(keys[1..], k, x)[i] == keys[j];
        assert list[0].arg != list[j].arg;
      }
    }
  }

  ghost function Args(list: seq<Timer>): set<int> { set t | t in list :: t.arg }

  lemma ArgsRound(list: seq<Timer>, k: nat, t: Timer)
    requires k < |list| && t.arg == list[0].arg
    ensures Args(Inserted(list[1..], k, t)) == Args(list)
  {
    var r := Inserted(list[1..], k, t);
    forall a | a in Args(r) ensures a in Args(list) {
      var u :| u in r && u.arg == a;
      assert u == t || u in list;
      assert t.arg == list[0].arg && list[0] in list;
    }
    forall a | a in Args(list) ensures a in Args(r) {
      var i :| 0 <= i < |list| && list[i].arg == a;
      var j := if i == 0 then k else if i - 1 < k then i - 1 else i;
      assert r[j].arg == a && r[j] in r;
    }
  }

  /** What holds between the rounds of a check that began with the timers `l0` and sampled `now`. */
  ghost predicate Checking(l0: seq<Timer>, list: seq<Timer>, keys: seq<Key>, fires: multiset<int>, now: nat, low: int) {
    && |list| == |l0| && DistinctArgs(list) && Args(list) == Args(l0)
    && Budget(list, keys, fires, now) && |fires| + Potential(keys, now) <= 2 * |l0|
    && (forall i :: 0 <= i < |keys| ==> low <= keys[i].due <= now + MAX_TIMEOUT)
  }

  lemma {:induction false} CheckRound(l0: seq<Timer>, list: seq<Timer>, keys: seq<Key>, fires: multiset<int>,
                                      now: nat, low: int, k: nat, t: Timer, x: Key)
    requires Checking(l0, list, keys, fires, now, low) && k < |list| && t.arg == list[0].arg
    requires Rounds(x.due, now) < Rounds(keys[0].due, now) && low <= x.due <= now + MAX_TIMEOUT
    ensures Checking(l0, Inserted(list[1..], k, t), Inserted(keys[1..], k, x), fires + multiset{t.arg}, now, low)
    ensures Potential(Inserted(keys[1..], k, x), now) < Potential(keys, now)
  {
    PotentialInsert(keys[1..], k, x, now);
    BudgetRound(list, keys, fires, now, k, t, x);
    ArgsRound(list, k, t);
  }

  /** A timer that has not fired is as it was; one that has fired was due when the check began. */
  ghost predicate FiredWereDue(l0: seq<Timer>, k0: seq<Key>, list: seq<Timer>, keys: seq<Key>,
                               fires: multiset<int>, now: nat)
    requires |l0| == |k0| && |list| == |keys|
  {
    && (forall i :: 0 <= i < |list| && fires[list[i].arg] == 0 ==> WasThere(l0, k0, list[i], keys[i]))
    && (forall a :: fires[a] > 0 ==> WasDue(l0, k0, a, now))
  }

  ghost predicate WasThere(l0: seq<Timer>, k0: seq<Key>, t: Timer, x: Key)
    requires |l0| == |k0|
  {
    exists j :: 0 <= j < |l0| && l0[j] == t && k0[j] == x
  }

  ghost predicate WasDue(l0: seq<Timer>, k0: seq<Key>, a: int, now: nat)
    requires |l0| == |k0|
  {
    exists j :: 0 <= j < |l0| && l0[j].arg == a && k0[j].due <= now
  }

  lemma FiredRound(l0: seq<Timer>, k0: seq<Key>, list: seq<Timer>, keys: seq<Key>, fires: multiset<int>, now: nat,
                   k: nat, t: Timer, x: Key)
    requires |l0| == |k0| && |list| == |keys| && k < |list| && t.arg == list[0].arg && keys[0].due <= now
    requires FiredWereDue(l0, k0, list, keys, fires, now)
    ensures FiredWereDue(l0, k0, Inserted(list[1..], k, t), Inserted(keys[1..], k, x), fires + multiset{t.arg}, now)
  {
    var r, ks, f := Inserted(list[1..], k, t), Inserted(keys[1..], k, x), fires + multiset{t.arg};
    forall i | 0 <= i < |r| && f[r[i].arg] == 0 ensures WasThere(l0, k0, r[i], ks[i]) {
      var j := if i < k then i + 1 else i;
      assert i != k && r[i] == list[j] && ks[i] == keys[j] && fires[list[j].arg] == 0;
    }
    if fires[t.arg] == 0 {
      assert WasThere(l0, k0, list[0], keys[0]);
    }
  }

  ghost predicate InCheck(l0: seq<Timer>, k0: seq<Key>, list: seq<Timer>, keys: seq<Key>, fires: multiset<int>,
                          now: nat, low: int) {
    && |l0| == |k0| && Checking(l0, list, keys, fires, now, low)
    && FiredWereDue(l0, k0, list, keys, fires, now)
  }

  lemma InCheckStart(list: seq<Timer>, keys: seq<Key>, now: nat, low: int)
    requires |list| == |keys| && DistinctArgs(list) && Sorted(keys) && AllNear(keys, now)
    requires low == if keys == [] then now else keys[0].due
    ensures InCheck(list, keys, list, keys, multiset{}, now, low)
  {
    PotentialBound(keys, now);
    forall i | 0 <= i < |list| ensures WasThere(list, keys, list[i], keys[i]) {
    }
  }

  /** The clock does not run back, and at none of the first `n` readings after the first is a timer too late. */
  ghost predicate ClockOk(clock: nat -> nat, keys: seq<Key>, n: nat) {
    && (forall k: nat, m: nat :: k <= m ==> clock(k) <= clock(m))
    && (forall m: nat :: m <= n ==> AllNear(keys, clock(m)))
  }

  lemma FirstReading(clock: nat -> nat, keys: seq<Key>, n: nat)
    requires ClockOk(clock, keys, n)
    ensures AllNear(keys, clock(0))
  {
  }

  /** No reading of the clock that the check can still make is too late. */
  lemma ClockNear(clock: nat -> nat, l0: seq<Timer>, k0: seq<Key>, list: seq<Timer>, keys: seq<Key>,
                  fires: multiset<int>, low: int)
    requires InCheck(l0, k0, list, keys, fires, clock(0), low) && AllNear(k0, clock(0))
    requires low == if k0 == [] then clock(0) else k0[0].due
    requires ClockOk(clock, k0, 2 * |l0|)
    ensures AllNear(keys, clock(0)) && clock(0) <= clock(|fires| + 1)
    ensures list != [] && keys[0].due <= clock(0) ==>
      && AllNear(keys, clock(|fires| + 1)) && clock(|fires| + 1) <= low + MAX_LATE <= clock(0) + MAX_LATE
      && clock(|fires| + 1) <= clock(2 * |l0|)
  {
    StillNear(keys, clock(0), low, clock(|fires| + 1));
    assert AllNear(k0, clock(0));
    if list != [] && keys[0].due <= clock(0) {
      assert AllNear(k0, clock(|fires| + 1));
    }
  }

  /** The timer is due as many intervals after its first due time as it has fired. */
  ghost predicate OnGrid(l0: seq<Timer>, k0: seq<Key>, interval: int -> nat, fires: multiset<int>, t: Timer, x: Key) {
    exists j :: 0 <= j < |l0| && j < |k0| && GridFrom(l0[j], k0[j], interval, fires, t, x)
  }

  ghost predicate GridFrom(t0: Timer, x0: Key, interval: int -> nat, fires: multiset<int>, t: Timer, x: Key) {
    t0.arg == t.arg && x.due == x0.due + fires[t.arg] * interval(t.arg)
  }

  /** The clock came to `last` more than one interval after the timer was due. */
  ghost predicate Late(l0: seq<Timer>, k0: seq<Key>, interval: int -> nat, a: int, last: nat) {
    exists j :: 0 <= j < |l0| && j < |k0| && LateFrom(l0[j], k0[j], interval, a, last)
  }

  ghost predicate LateFrom(t0: Timer, x0: Key, interval: int -> nat, a: int, last: nat) {
    t0.arg == a && x0.due + interval(a) < last
  }

  /** Due `n` intervals later, unless it was overloaded: that takes a clock more than one interval late. */
  ghost predicate IntervalsOn(was: nat, n: nat, interval: nat, due: nat, overloaded: bool, last: nat) {
    if overloaded then was + interval < last else due == was + n * interval
  }

  /** That for each timer, known by its argument, from `l0` to `list`. */
  ghost predicate KeepsIntervals(l0: seq<Timer>, k0: seq<Key>, list: seq<Timer>, keys: seq<Key>, fires: multiset<int>,
                                 interval: int -> nat, over: set<int>, last: nat) {
    && |l0| == |k0| && |list| == |keys|
    && forall i, j :: 0 <= i < |list| && 0 <= j < |l0| && list[i].arg == l0[j].arg ==>
         var a := list[i].arg; IntervalsOn(k0[j].due, fires[a], interval(a), keys[i].due, a in over, last)
  }

  /** All timers keep their distances but the overloaded ones, `over`, and those were late. */
  ghost predicate Steady(l0: seq<Timer>, k0: seq<Key>, list: seq<Timer>, keys: seq<Key>, fires: multiset<int>,
                         interval: int -> nat, over: set<int>, last: nat) {
    && |list| == |keys|
    && (forall i :: 0 <= i < |list| && list[i].arg !in over ==> OnGrid(l0, k0, interval, fires, list[i], keys[i]))
    && (forall a :: a in over ==> Late(l0, k0, interval, a, last))
  }

  lemma SteadyStart(list: seq<Timer>, keys: seq<Key>, interval: int -> nat, last: nat)
    requires |list| == |keys|
    ensures Steady(list, keys, list, keys, multiset{}, interval, {}, last)
  {
    forall i | 0 <= i < |list| ensures OnGrid(list, keys, interval, multiset{}, list[i], keys[i]) {
      assert GridFrom(list[i], keys[i], interval, multiset{}, list[i], keys[i]);
    }
  }

  /** One more interval for one more time fired. */
  lemma GridNext(l0: seq<Timer>, k0: seq<Key>, interval: int -> nat, fires: multiset<int>, t: Timer, x: Key,
                 t': Timer, x': Key)
    requires OnGrid(l0, k0, interval, fires, t, x) && t'.arg == t.arg && x'.due == x.due + interval(t.arg)
    ensures OnGrid(l0, k0, interval, fires + multiset{t.arg}, t', x')
  {
    var j :| 0 <= j < |l0| && j < |k0| && GridFrom(l0[j], k0[j], interval, fires, t, x);
    var n, f := fires[t.arg], fires + multiset{t.arg};
    assert f[t.arg] == n + 1 && (n + 1) * interval(t.arg) == n * interval(t.arg) + interval(t.arg);
    assert GridFrom(l0[j], k0[j], interval, f, t', x');
  }

  lemma GridOther(l0: seq<Timer>, k0: seq<Key>, interval: int -> nat, fires: multiset<int>, t: Timer, x: Key, a: int)
    requires OnGrid(l0, k0, interval, fires, t, x) && t.arg != a
    ensures OnGrid(l0, k0, interval, fires + multiset{a}, t, x)
  {
    var j :| 0 <= j < |l0| && j < |k0| && GridFrom(l0[j], k0[j], interval, fires, t, x);
    assert GridFrom(l0[j], k0[j], interval, fires + multiset{a}, t, x);
  }

  lemma GridLate(l0: seq<Timer>, k0: seq<Key>, interval: int -> nat, fires: multiset<int>, t: Timer, x: Key, last: nat)
    requires OnGrid(l0, k0, interval, fires, t, x) && x.due + interval(t.arg) < last
    ensures Late(l0, k0, interval, t.arg, last)
  {
    var j :| 0 <= j < |l0| && j < |k0| && GridFrom(l0[j], k0[j], interval, fires, t, x);
    assert fires[t.arg] * interval(t.arg) >= 0;
    assert LateFrom(l0[j], k0[j], interval, t.arg, last);
  }

  ghost function Overloaded(over: set<int>, due: nat, interval: nat, later: nat, a: int): set<int> {
    if due + interval < later then over + {a} else over
  }

  /** Timer 0 fires and comes back at place `k`. */
  lemma SteadyRound(l0: seq<Timer>, k0: seq<Key>, list: seq<Timer>, keys: seq<Key>, fires: multiset<int>,
                    interval: int -> nat, over: set<int>, last: nat, later: nat, k: nat, t: Timer, x: Key)
    requires Steady(l0, k0, list, keys, fires, interval, over, last) && DistinctArgs(list) && later <= last
    requires k < |list| && t.arg == list[0].arg && PutBack(keys[0].due, interval(t.arg), later, x.due)
    ensures Steady(l0, k0, Inserted(list[1..], k, t), Inserted(keys[1..], k, x), fires + multiset{t.arg}, interval,
                   Overloaded(over, keys[0].due, interval(t.arg), later, t.arg), last)
  {
    var r, ks, f := Inserted(list[1..], k, t), Inserted(keys[1..], k, x), fires + multiset{t.arg};
    var over' := Overloaded(over, keys[0].due, interval(t.arg), later, t.arg);
    if t.arg !in over {
      assert OnGrid(l0, k0, interval, fires, list[0], keys[0]);
      if keys[0].due + interval(t.arg) < later {
        GridLate(l0, k0, interval, fires, list[0], keys[0], last);
      } else {
        GridNext(l0, k0, interval, fires, list[0], keys[0], t, x);
      }
    }
    forall i | 0 <= i < |r| && r[i].arg !in over' ensures OnGrid(l0, k0, interval, f, r[i], ks[i]) {
      if i != k {
        var j := if i < k then i + 1 else i;
        assert r[i] == list[j] && ks[i] == keys[j] && list[0].arg != list[j].arg;
        GridOther(l0, k0, interval, fires, list[j], keys[j], t.arg);
      }
    }
  }

  /** What that means for each timer. */
  lemma SteadyMeans(l0: seq<Timer>, k0: seq<Key>, list: seq<Timer>, keys: seq<Key>, fires: multiset<int>,
                    interval: int -> nat, over: set<int>, last: nat, i: nat, j: nat)
    requires Steady(l0, k0, list, keys, fires, interval, over, last) && DistinctArgs(l0) && |l0| == |k0|
    requires i < |list| && j < |l0| && l0[j].arg == list[i].arg
    ensures var a := list[i].arg; IntervalsOn(k0[j].due, fires[a], interval(a), keys[i].due, a in over, last)
  {
    var a := list[i].arg;
    if a in over {
      var m :| 0 <= m < |l0| && m < |k0| && LateFrom(l0[m], k0[m], interval, a, last);
      assert m == j;
    } else {
      assert OnGrid(l0, k0, interval, fires, list[i], keys[i]);
      var m :| 0 <= m < |l0| && m < |k0| && GridFrom(l0[m], k0[m], interval, fires, list[i], keys[i]);
      assert m == j;
    }
  }

  lemma SteadyAll(l0: seq<Timer>, k0: seq<Key>, list: seq<Timer>, keys: seq<Key>, fires: multiset<int>,
                  interval: int -> nat, over: set<int>, last: nat)
    requires Steady(l0, k0, list, keys, fires, interval, over, last) && DistinctArgs(l0) && |l0| == |k0|
    ensures KeepsIntervals(l0, k0, list, keys, fires, interval, over, last)
  {
    forall i, j | 0 <= i < |list| && 0 <= j < |l0| && list[i].arg == l0[j].arg
      ensures var a := list[i].arg;
        IntervalsOn(k0[j].due, fires[a], interval(a), keys[i].due, a in over, last)
    {
      SteadyMeans(l0, k0, list, keys, fires, interval, over, last, i, j);
    }
  }

  /** At the end, exactly the timers that were due have fired. */
  lemma ExactlyDueFired(l0: seq<Timer>, k0: seq<Key>, list: seq<Timer>, keys: seq<Key>, fires: multiset<int>, now: nat)
    requires |l0| == |k0| && |list| == |keys| && DistinctArgs(l0) && Args(list) == Args(l0)
    requires FiredWereDue(l0, k0, list, keys, fires, now) && forall i :: 0 <= i < |keys| ==> now < keys[i].due
    ensures forall j :: 0 <= j < |l0| ==> (fires[l0[j].arg] > 0 <==> k0[j].due <= now)
  {
    forall j | 0 <= j < |l0| ensures fires[l0[j].arg] > 0 <==> k0[j].due <= now {
      assert l0[j].arg in Args(list);
      var t :| t in list && t.arg == l0[j].arg;
      var i :| 0 <= i < |list| && list[i] == t;
      assert fires[t.arg] == 0 ==> WasThere(l0, k0, list[i], keys[i]);
      assert fires[t.arg] > 0 ==> WasDue(l0, k0, t.arg, now);
    }
  }

  lemma CheckOver(l0: seq<Timer>, k0: seq<Key>, list: seq<Timer>, keys: seq<Key>, fires: multiset<int>,
                  interval: int -> nat, over: set<int>, now: nat, low: int, last: nat)
    requires InCheck(l0, k0, list, keys, fires, now, low) && Steady(l0, k0, list, keys, fires, interval, over, last)
    requires DistinctArgs(l0) && NoneDue(keys, now)
    ensures DistinctArgs(list) && |list| == |l0| && Args(list) == Args(l0)
    ensures |fires| <= 2 * |list| && forall a :: fires[a] <= 2
    ensures forall j :: 0 <= j < |l0| ==> (fires[l0[j].arg] > 0 <==> k0[j].due <= now)
    ensures KeepsIntervals(l0, k0, list, keys, fires, interval, over, last)
  {
    ExactlyDueFired(l0, k0, list, keys, fires, now);
    SteadyAll(l0, k0, list, keys, fires, interval, over, last);
  }

  lemma {:induction false} StillNear(keys: seq<Key>, now: nat, low: int, later: nat)
    requires (forall i :: 0 <= i < |keys| ==> low <= keys[i].due <= now + MAX_TIMEOUT) && now <= later
    ensures keys != [] && keys[0].due <= now ==> Potential(keys, now) > 0
    ensures later <= low + MAX_LATE ==> AllNear(keys, later) && AllNear(keys, now)
  {
  }

  // ----- a check with any handlers -----

  /**
   What a handler may do: sys_timeout, the restart of a cyclic timer, or sys_untimeout; `at` is what sys_now
   reads then.
   */
  datatype Action =
    | Start(msecs: nat, handler: int, arg: int, at: nat)
    | Again(interval: nat, at: nat)
    | Stop(handler: int, arg: int)

  /** The first due time, or `now` if that is earlier. */
  ghost function Earliest(keys: seq<Key>, now: nat): nat {
    if keys == [] || now < keys[0].due then now else keys[0].due
  }

  /** The list with its keys, the free pool elements, and how many timers were started. */
  datatype Queue = Queue(list: seq<Timer>, keys: seq<Key>, free: nat, started: nat)

  /** How many of the keys at the front are due no later. */
  ghost function Place(keys: seq<Key>, due: nat): (k: nat)
    ensures k <= |keys|
  {
    if keys == [] || due < keys[0].due then 0 else 1 + Place(keys[1..], due)
  }

  lemma {:induction false} PlaceIs(keys: seq<Key>, due: nat, k: nat)
    requires k <= |keys| && (forall i :: 0 <= i < k ==> keys[i].due <= due)
    requires forall i :: k <= i < |keys| ==> due < keys[i].due
    ensures Place(keys, due) == k
    decreases k
  {
    if k > 0 {
      PlaceIs(keys[1..], due, k - 1);
    }
  }

  ghost function FirstMatch(list: seq<Timer>, handler: int, arg: int): (k: nat)
    ensures k <= |list|
  {
    if list == [] || (list[0].handler == handler && list[0].arg == arg) then 0
    else 1 + FirstMatch(list[1..], handler, arg)
  }

  lemma {:induction false} FirstMatchIs(list: seq<Timer>, handler: int, arg: int, k: nat)
    requires k <= |list| && forall i :: 0 <= i < k ==> list[i].handler != handler || list[i].arg != arg
    requires k < |list| ==> list[k].handler == handler && list[k].arg == arg
    ensures FirstMatch(list, handler, arg) == k
    decreases k
  {
    if k > 0 {
      FirstMatchIs(list[1..], handler, arg, k - 1);
    }
  }

  ghost function Started(q: Queue, due: nat, handler: int, arg: int): (r: Queue)
    requires |q.list| == |q.keys|
    ensures |r.list| == |r.keys|
  {
    if q.free == 0 then q else
      var k := Place(q.keys, due);
      Queue(Inserted(q.list, k, Timer(Wrap(due), handler, arg)), Inserted(q.keys, k, Key(due, q.started)),
            q.free - 1, q.started + 1)
  }

  ghost function Stopped(q: Queue, handler: int, arg: int): (r: Queue)
    requires |q.list| == |q.keys|
    ensures |r.list| == |r.keys|
  {
    var k := FirstMatch(q.list, handler, arg);
    if k == |q.list| then q else Queue(Removed(q.list, k), Removed(q.keys, k), q.free + 1, q.started)
  }

  /** What one call of a handler makes of the list; `t` is the timer that fired, `key` its key. */
  ghost function Acted(q: Queue, a: Action, t: Timer, key: Key): (r: Queue)
    requires |q.list| == |q.keys|
    ensures |r.list| == |r.keys|
  {
    match a
    case Start(msecs, handler, arg, at) => Started(q, at + msecs, handler, arg)
    case Again(interval, at) => Started(q, NextDue(key.due, interval, at), t.handler, t.arg)
    case Stop(handler, arg) => Stopped(q, handler, arg)
  }

  ghost function Handled(q: Queue, actions: seq<Action>, t: Timer, key: Key): (r: Queue)
    requires |q.list| == |q.keys|
    ensures |r.list| == |r.keys|
  {
    if actions == [] then q
    else Acted(Handled(q, actions[..|actions| - 1], t, key), actions[|actions| - 1], t, key)
  }

  /** The first timer fires, and its handler runs. */
  ghost function Fired(q: Queue, actions: seq<Action>): (r: Queue)
    requires |q.list| == |q.keys| && q.list != []
    ensures |r.list| == |r.keys| && (actions == [] ==> |r.list| == |q.list| - 1)
  {
    Handled(Queue(q.list[1..], q.keys[1..], q.free + 1, q.started), actions, q.list[0], q.keys[0])
  }

  lemma FiredIs(q: Queue, q1: Queue, actions: seq<Action>, t: Timer, key: Key)
    requires |q.list| == |q.keys| && q.list != [] && t == q.list[0] && key == q.keys[0]
    requires q1 == Queue(q.list[1..], q.keys[1..], q.free + 1, q.started)
    ensures Handled(q1, actions, t, key) == Fired(q, actions)
  {
  }

  /**
   A check on absolute times: as long as the first timer is due, it fires and its handler runs. The result is the
   list it leaves and the timers fired.
   */
  ghost function Checked(q: Queue, now: nat, scripts: seq<seq<Action>>): (Queue, seq<Timer>)
    requires |q.list| == |q.keys|
    decreases |scripts|, |q.list|
  {
    if q.list == [] || now < q.keys[0].due then (q, []) else
      var rest := if scripts == [] then Checked(Fired(q, []), now, [])
                  else Checked(Fired(q, scripts[0]), now, scripts[1..]);
      (rest.0, [q.list[0]] + rest.1)
  }

  /** The clock does not run back, and the check does not last so long that times are no longer near. */
  ghost predicate Allowed(a: Action, now: nat, low: int) {
    match a
    case Start(msecs, _, _, at) => msecs <= MAX_MSECS && now <= at <= low + MAX_LATE
    case Again(interval, at) => interval <= MAX_MSECS && now <= at <= low + MAX_LATE
    case Stop(_, _) => true
  }

  ghost predicate AllAllowed(actions: seq<Action>, now: nat, low: int) {
    forall a :: a in actions ==> Allowed(a, now, low)
  }

  ghost predicate NoStop(actions: seq<Action>) {
    forall a :: a in actions ==> !a.Stop?
  }

  /** The keys of the timers. */
  ghost predicate TimesOf(timers: seq<Timer>, log: seq<Key>) {
    |timers| == |log| && forall i :: 0 <= i < |log| ==> timers[i].time == Wrap(log[i].due)
  }

  lemma OneMore(timers: seq<Timer>, log: seq<Key>, t: Timer, key: Key)
    requires TimesOf(timers, log) && t.time == Wrap(key.due)
    ensures TimesOf(timers + [t], log + [key])
  {
  }

  ghost predicate AllBefore(log: seq<Key>, x: Key) {
    forall i :: 0 <= i < |log| ==> Before(log[i], x)
  }

  ghost predicate Accounted(x: Key, keys: seq<Key>, log: seq<Key>, stopped: set<Key>) {
    x in keys || x in log || x in stopped
  }

  ghost predicate NoneDue(keys: seq<Key>, now: nat) {
    forall i :: 0 <= i < |keys| ==> now < keys[i].due
  }

  /** A check that sampled `now` and began with the keys `k0`; `log` are those fired so far, in order. */
  ghost predicate InRun(k0: seq<Key>, keys: seq<Key>, log: seq<Key>, stopped: set<Key>,
                        now: nat, low: int, started: nat) {
    && low <= now && Sorted(log)
    && (forall i :: 0 <= i < |keys| ==> low <= keys[i].due <= now + MAX_TIMEOUT)
    && (forall i :: 0 <= i < |log| ==> low <= log[i].due <= now && log[i].stamp < started)
    && (forall j :: 0 <= j < |keys| ==> AllBefore(log, keys[j]))
    && forall x :: x in k0 ==> Accounted(x, keys, log, stopped)
  }

  lemma RunBegins(keys: seq<Key>, now: nat, low: int, started: nat)
    requires Sorted(keys) && AllNear(keys, now) && low == Earliest(keys, now)
    ensures InRun(keys, keys, [], {}, now, low, started)
  {
  }

  lemma RunNear(k0: seq<Key>, keys: seq<Key>, log: seq<Key>, stopped: set<Key>,
                now: nat, low: int, started: nat, at: nat)
    requires InRun(k0, keys, log, stopped, now, low, started) && now <= at <= low + MAX_LATE
    ensures AllNear(keys, at) && (log != [] ==> low <= log[|log| - 1].due <= now)
  {
  }

  lemma RunInsert(k0: seq<Key>, keys: seq<Key>, log: seq<Key>, stopped: set<Key>, now: nat, low: int, started: nat,
                  k: nat, x: Key)
    requires InRun(k0, keys, log, stopped, now, low, started) && k <= |keys| && x.stamp == started
    requires low <= x.due <= now + MAX_TIMEOUT && (log != [] ==> log[|log| - 1].due <= x.due)
    ensures InRun(k0, Inserted(keys, k, x), log, stopped, now, low, started + 1)
  {
    var r := Inserted(keys, k, x);
    assert AllBefore(log, x);
    forall j | 0 <= j < |r| ensures AllBefore(log, r[j]) {
      assert r[j] == x || r[j] in keys;
    }
    forall y | y in k0 ensures Accounted(y, r, log, stopped) {
      assert Accounted(y, keys, log, stopped);
      InsertedKeeps(keys, k, x, y);
    }
  }

  lemma InsertedKeeps(keys: seq<Key>, k: nat, x: Key, y: Key)
    requires k <= |keys|
    ensures y in keys ==> y in Inserted(keys, k, x)
  {
    if y in keys {
      var i :| 0 <= i < |keys| && keys[i] == y;
      assert Inserted(keys, k, x)[if i < k then i else i + 1] == y;
    }
  }

  /** A handler's call keeps what holds during a check. */
  lemma ActedRun(q: Queue, a: Action, t: Timer, key: Key, k0: seq<Key>, log: seq<Key>, stopped: set<Key>,
                 now: nat, low: int) returns (stopped': set<Key>)
    requires |q.list| == |q.keys| && Allowed(a, now, low) && InRun(k0, q.keys, log, stopped, now, low, q.started)
    requires log != [] && log[|log| - 1] == key
    ensures InRun(k0, Acted(q, a, t, key).keys, log, stopped', now, low, Acted(q, a, t, key).started)
    ensures stopped <= stopped' && (!a.Stop? ==> stopped' == stopped)
  {
    stopped' := stopped;
    match a {
      case Start(msecs, handler, arg, at) =>
        StartedRun(q, at + msecs, handler, arg, k0, log, stopped, now, low);
      case Again(interval, at) =>
        StartedRun(q, NextDue(key.due, interval, at), t.handler, t.arg, k0, log, stopped, now, low);
      case Stop(handler, arg) =>
        var k := FirstMatch(q.list, handler, arg);
        if k < |q.list| {
          stopped' := stopped + {q.keys[k]};
          RunRemove(k0, q.keys, log, stopped, now, low, q.started, k);
        }
    }
  }

  lemma StartedRun(q: Queue, due: nat, handler: int, arg: int, k0: seq<Key>, log: seq<Key>, stopped: set<Key>,
                   now: nat, low: int)
    requires |q.list| == |q.keys| && InRun(k0, q.keys, log, stopped, now, low, q.started)
    requires low <= due <= now + MAX_TIMEOUT && log != [] && log[|log| - 1].due <= due
    ensures InRun(k0, Started(q, due, handler, arg).keys, log, stopped, now, low, Started(q, due, handler, arg).started)
  {
    if q.free > 0 {
      RunInsert(k0, q.keys, log, stopped, now, low, q.started, Place(q.keys, due), Key(due, q.started));
    }
  }

  /** What is left to do of a check that has fired these timers. */
  ghost predicate StillToCheck(q0: Queue, scripts0: seq<seq<Action>>, now: nat, q: Queue, scripts: seq<seq<Action>>,
                               fired: seq<Timer>) {
    && |q0.list| == |q0.keys| && |q.list| == |q.keys|
    && Checked(q0, now, scripts0) == (Checked(q, now, scripts).0, fired + Checked(q, now, scripts).1)
  }

  lemma CheckBegins(q: Queue, scripts: seq<seq<Action>>, now: nat)
    requires |q.list| == |q.keys|
    ensures StillToCheck(q, scripts, now, q, scripts[0..], [])
  {
    assert scripts[0..] == scripts;
    assert [] + Checked(q, now, scripts).1 == Checked(q, now, scripts).1;
  }

  lemma CheckEnds(q0: Queue, scripts0: seq<seq<Action>>, now: nat, q: Queue, scripts: seq<seq<Action>>,
                  fired: seq<Timer>)
    requires StillToCheck(q0, scripts0, now, q, scripts, fired) && (q.list == [] || now < q.keys[0].due)
    ensures Checked(q0, now, scripts0) == (q, fired)
  {
    assert fired + [] == fired;
  }

  lemma CheckOn(q0: Queue, scripts0: seq<seq<Action>>, now: nat, q: Queue, scripts: seq<seq<Action>>, fired: seq<Timer>)
    requires StillToCheck(q0, scripts0, now, q, scripts, fired) && q.list != [] && q.keys[0].due <= now
    ensures StillToCheck(q0, scripts0, now, Fired(q, if scripts == [] then [] else scripts[0]),
                         if scripts == [] then [] else scripts[1..], fired + [q.list[0]])
  {
    var rest := Checked(Fired(q, if scripts == [] then [] else scripts[0]), now,
                        if scripts == [] then [] else scripts[1..]);
    assert fired + ([q.list[0]] + rest.1) == fired + [q.list[0]] + rest.1;
  }

  /** What the handler of the timer that fires next does. */
  function Script(scripts: seq<seq<Action>>, n: nat): seq<Action> {
    if n < |scripts| then scripts[n] else []
  }

  /** A check that began with q0 stands at q, has fired these timers with these keys, and used n scripts. */
  ghost predicate CheckState(q0: Queue, scripts: seq<seq<Action>>, now: nat, low: int, k0: seq<Key>, q: Queue, n: nat,
                             fired: seq<Timer>, log: seq<Key>, stopped: set<Key>) {
    && n <= |scripts| && TimesOf(fired, log)
    && InRun(k0, q.keys, log, stopped, now, low, q.started)
    && StillToCheck(q0, scripts, now, q, scripts[n..], fired)
    && ((forall s :: s in scripts ==> NoStop(s)) ==> stopped == {})
  }

  lemma CheckNextState(q0: Queue, scripts: seq<seq<Action>>, now: nat, low: int, k0: seq<Key>, q: Queue, n: nat,
                       fired: seq<Timer>, log: seq<Key>, stopped: set<Key>, t: Timer, key: Key, stopped': set<Key>)
    requires CheckState(q0, scripts, now, low, k0, q, n, fired, log, stopped)
    requires q.list != [] && q.keys[0].due <= now && t == q.list[0] && t.time == Wrap(key.due)
    requires NoStop(Script(scripts, n)) ==> stopped' == stopped
    requires var r := Fired(q, Script(scripts, n)); InRun(k0, r.keys, log + [key], stopped', now, low, r.started)
    ensures CheckState(q0, scripts, now, low, k0, Fired(q, Script(scripts, n)), if n < |scripts| then n + 1 else n,
                       fired + [t], log + [key], stopped')
  {
    OneMore(fired, log, t, key);
    CheckOn(q0, scripts, now, q, scripts[n..], fired);
    assert n < |scripts| ==> scripts[n..][1..] == scripts[n + 1..];
  }

  lemma RunRemove(k0: seq<Key>, keys: seq<Key>, log: seq<Key>, stopped: set<Key>,
                  now: nat, low: int, started: nat, k: nat)
    requires InRun(k0, keys, log, stopped, now, low, started) && k < |keys|
    ensures InRun(k0, Removed(keys, k), log, stopped + {keys[k]}, now, low, started)
  {
    var r := Removed(keys, k);
    forall y | y in k0 ensures Accounted(y, r, log, stopped + {keys[k]}) {
      assert Accounted(y, keys, log, stopped);
      if y in keys && y != keys[k] {
        var i :| 0 <= i < |keys| && keys[i] == y;
        assert r[if i < k then i else i - 1] == y;
      }
    }
  }

  lemma RunFire(k0: seq<Key>, keys: seq<Key>, log: seq<Key>, stopped: set<Key>, now: nat, low: int, started: nat)
    requires InRun(k0, keys, log, stopped, now, low, started) && Sorted(keys)
    requires keys != [] && keys[0].due <= now && keys[0].stamp < started
    ensures InRun(k0, keys[1..], log + [keys[0]], stopped, now, low, started)
  {
    var l := log + [keys[0]];
    assert AllBefore(log, keys[0]);
    forall j | 0 <= j < |keys[1..]| ensures AllBefore(l, keys[1..][j]) {
      assert AllBefore(log, keys[j + 1]);
    }
    forall y | y in k0 ensures Accounted(y, keys[1..], l, stopped) {
      assert Accounted(y, keys, log, stopped);
      assert y in log ==> y in l;
    }
  }

  // ----- the list -----

  class Timeouts {
    var list: seq<Timer>
    /** Free elements of the pool MEMP_SYS_TIMEOUT. */
    var free: nat
    /** current_timeout_due_time. */
    var current: u32
    ghost var keys: seq<Key>
    ghost var started: nat
    ghost const size: nat

    /** Every stored time is the wrapped due time, and the list is sorted, first-in first-out among equals. */
    ghost predicate Valid()
      reads this
    {
      free + |list| == size && QueueOk(list, keys, started)
    }

    /** No timer is overdue by more than 2^30 ms, and none lies too far ahead. */
    ghost predicate Window(now: nat)
      reads this`keys
    {
      AllNear(keys, now)
    }

    ghost function Q(): Queue
      reads this
    {
      Queue(list, keys, free, started)
    }

    constructor (n: nat)
      ensures Valid() && list == [] && free == size == n
    {
      list, free, current, keys, started, size := [], n, 0, [], 0, n;
    }

    /**
     sys_timeout_abs: behind all timers that are due no later, before all that are due later. Without a
     free pool element the timer is dropped.
     */
    method TimeoutAbs(time: u32, handler: int, arg: int, ghost due: nat, ghost now: nat) returns (ghost k: nat)
      requires Valid() && Window(now) && time == Wrap(due) && now <= due <= now + MAX_MSECS
      modifies this`list, this`keys, this`free, this`started
      ensures Valid() && Window(now) && k <= |old(list)| && started == old(started) + (if old(free) == 0 then 0 else 1)
      ensures old(free) == 0 ==> list == old(list) && keys == old(keys)
      ensures old(free) > 0 ==>
        && list == Inserted(old(list), k, Timer(time, handler, arg))
        && keys == Inserted(old(keys), k, Key(due, old(started)))
        && (forall i :: 0 <= i < k ==> old(keys)[i].due <= due)
        && (forall i :: k <= i < |old(keys)| ==> due < old(keys)[i].due)
      ensures Q() == Started(old(Q()), due, handler, arg)
    {
      k := 0;
      if free == 0 {
        return;
      }
      var pos := FindPlace(time, due);
      k := pos;
      PutAt(pos, time, handler, arg, due, now);
    }

    /** A pool element goes into the list at `k`. */
    method PutAt(k: nat, time: u32, handler: int, arg: int, ghost due: nat, ghost now: nat)
      requires Valid() && Window(now) && time == Wrap(due) && now <= due <= now + MAX_MSECS && free > 0
      requires k <= |list| && (forall i :: 0 <= i < k ==> keys[i].due <= due)
      requires forall i :: k <= i < |keys| ==> due < keys[i].due
      modifies this`list, this`keys, this`free, this`started
      ensures Valid() && Window(now) && started == old(started) + 1
      ensures list == Inserted(old(list), k, Timer(time, handler, arg))
      ensures keys == Inserted(old(keys), k, Key(due, old(started)))
      ensures Q() == Started(old(Q()), due, handler, arg)
    {
      PlaceIs(keys, due, k);
      PutOk(list, keys, started, k, Timer(time, handler, arg), due, now);
      free := free - 1;
      list := Inserted(list, k, Timer(time, handler, arg));
      keys := Inserted(keys, k, Key(due, started));
      started := started + 1;
    }

    /** Where the walk over the list stops. */
    method FindPlace(time: u32, ghost due: nat) returns (k: nat)
      requires |keys| == |list| && Sorted(keys) && time == Wrap(due)
      requires forall i :: 0 <= i < |list| ==> list[i].time == Wrap(keys[i].due) && Near(due, keys[i].due)
      ensures k <= |list| && (forall i :: 0 <= i < k ==> keys[i].due <= due)
      ensures forall i :: k <= i < |keys| ==> due < keys[i].due
    {
      if list == [] {
        return 0;
      }
      LessExact(due, keys[0].due);
      if TimeLess(time, list[0].time) {
        return 0;
      }
      var t := 0;
      while true
        invariant t < |list| && forall i :: 0 <= i <= t ==> keys[i].due <= due
        decreases |list| - t
      {
        if t + 1 == |list| {
          return t + 1;
        }
        LessExact(due, keys[t + 1].due);
        if TimeLess(time, list[t + 1].time) {
          return t + 1;
        }
        t := t + 1;
      }
    }

    /** sys_timeout. */
    method Timeout(msecs: nat, handler: int, arg: int, now: nat) returns (ghost k: nat)
      requires Valid() && Window(now) && msecs <= MAX_MSECS
      modifies this`list, this`keys, this`free, this`started
      ensures Valid() && Window(now) && k <= |old(list)| && started == old(started) + (if old(free) == 0 then 0 else 1)
      ensures old(free) == 0 ==> list == old(list) && keys == old(keys)
      ensures old(free) > 0 ==>
        && list == Inserted(old(list), k, Timer(Wrap(now + msecs), handler, arg))
        && keys == Inserted(old(keys), k, Key(now + msecs, old(started)))
      ensures Q() == Started(old(Q()), now + msecs, handler, arg)
    {
      WrapPlus(now, msecs);
      k := TimeoutAbs(Plus32(Wrap(now), msecs), handler, arg, now + msecs, now);
    }

    /** sys_untimeout: exactly the first matching timer goes. */
    method Untimeout(handler: int, arg: int) returns (ghost k: nat)
      requires Valid()
      modifies this`list, this`keys, this`free
      ensures Valid() && k <= |old(list)|
      ensures forall i :: 0 <= i < k ==> old(list)[i].handler != handler || old(list)[i].arg != arg
      ensures k == |old(list)| ==> list == old(list) && keys == old(keys)
      ensures k < |old(list)| ==> old(list)[k].handler == handler && old(list)[k].arg == arg
      ensures k < |old(list)| ==> list == Removed(old(list), k) && keys == Removed(old(keys), k)
      ensures Q() == Stopped(old(Q()), handler, arg)
    {
      var t := 0;
      while t < |list|
        invariant t <= |list| && forall i :: 0 <= i < t ==> list[i].handler != handler || list[i].arg != arg
      {
        if list[t].handler == handler && list[t].arg == arg {
          k := t;
          FirstMatchIs(list, handler, arg, t);
          RemoveSorted(keys, t);
          list, free, keys := Removed(list, t), free + 1, Removed(keys, t);
          return;
        }
        t := t + 1;
      }
      k := t;
      FirstMatchIs(list, handler, arg, t);
    }

    /**
     One round of sys_check_timeouts, up to the call of the handler, for the time `now` sampled at its
     start. The timer that fires is the first of all. If the times are near, it is due, and none fires
     exactly when none is due; within one turn of the clock, the first timer is judged right only then.
     */
    method FireNext(now: nat) returns (fired: bool, t: Timer, ghost key: Key)
      requires Valid()
      modifies this`list, this`keys, this`free, this`current
      ensures Valid()
      ensures old(Window(now)) ==> (fired <==> exists i :: 0 <= i < |old(keys)| && old(keys)[i].due <= now)
      ensures old(list) != [] && -0x1_0000_0000 < now - old(keys)[0].due < 0x1_0000_0000 ==>
        ((fired <==> old(keys)[0].due <= now) <==> Near(now, old(keys)[0].due))
      ensures fired ==> old(list) == [t] + list && old(keys) == [key] + keys && current == t.time == Wrap(key.due)
      ensures fired ==> forall i :: 0 <= i < |keys| ==> Before(key, keys[i])
      ensures !fired ==> list == old(list) && keys == old(keys)
    {
      fired, t, key := false, Timer(0, 0, 0), Key(0, 0);
      if list == [] {
        return;
      }
      SomeDue(keys, now);
      if -0x1_0000_0000 < now - keys[0].due < 0x1_0000_0000 {
        LessOnlyIfNear(now, keys[0].due);
      }
      if TimeLess(Wrap(now), list[0].time) {
        return;
      }
      fired, t, key := true, list[0], keys[0];
      list, keys, current, free := list[1..], keys[1..], t.time, free + 1;
    }

    /** sys_timeouts_sleeptime: nothing is due before it has passed, and the first timer is due then. */
    method SleepTime(now: nat) returns (ms: u32)
      requires Valid() && Window(now)
      ensures list == [] ==> ms == 0xFFFF_FFFF
      ensures list != [] ==> ms == (if keys[0].due < now then 0 else keys[0].due - now) <= MAX_TIMEOUT
      ensures forall i :: 0 <= i < |keys| ==> now + ms <= keys[i].due || (ms == 0 && keys[0].due < now)
    {
      if list == [] {
        return 0xFFFF_FFFF;
      }
      LessExact(keys[0].due, now);
      if TimeLess(list[0].time, Wrap(now)) {
        return 0;
      }
      WrapSub(keys[0].due, now);
      ms := Sub32(list[0].time, Wrap(now));
    }

    /**
     sys_restart_timeouts: whatever time has passed, the first timer is due now, the others as far behind it
     as before.
     */
    method Restart(now: nat)
      requires Valid()
      modifies this`list, this`keys
      ensures Valid() && Window(now) && |list| == |old(list)|
      ensures forall i :: 0 <= i < |list| ==>
        list[i] == old(list)[i].(time := Wrap(now + old(keys)[i].due - old(keys)[0].due))
    {
      if list == [] {
        return;
      }
      var base := list[0].time;
      ghost var l0, k0 := list, keys;
      var t := 0;
      while t < |list|
        invariant t <= |list| == |l0| && list[t..] == l0[t..]
        invariant forall i :: 0 <= i < t ==> list[i] == l0[i].(time := Wrap(now + k0[i].due - k0[0].due))
      {
        WrapSub(k0[t].due, k0[0].due);
        WrapPlus(k0[t].due - k0[0].due, now);
        assert list[t] == l0[t] by { assert list[t..][0] == l0[t..][0]; }
        list := list[t := list[t].(time := Plus32(Sub32(list[t].time, base), Wrap(now)))];
        t := t + 1;
      }
      keys := seq(|k0|, i requires 0 <= i < |k0| => k0[i].(due := now + k0[i].due - k0[0].due));
    }

    /**
     lwip_cyclic_timer after its handler: due one interval after the time it was due, and only when
     that has already passed one interval from now.
     */
    method CyclicTimer(handler: int, arg: int, interval: nat, now: nat, ghost due: nat) returns (ghost k: nat)
      requires Valid() && Window(now) && current == Wrap(due) && due <= now <= due + MAX_LATE && interval <= MAX_MSECS
      modifies this`list, this`keys, this`free, this`started
      ensures Valid() && Window(now) && k <= |old(list)| && started == old(started) + (if old(free) == 0 then 0 else 1)
      ensures old(free) == 0 ==> list == old(list) && keys == old(keys)
      ensures old(free) > 0 ==>
        && list == Inserted(old(list), k, Timer(Wrap(NextDue(due, interval, now)), handler, arg))
        && keys == Inserted(old(keys), k, Key(NextDue(due, interval, now), old(started)))
      ensures old(free) > 0 && due + interval >= now ==> keys[k].due == due + interval
      ensures old(free) > 0 && due + interval < now ==> keys[k].due == now + interval
      ensures Q() == Started(old(Q()), NextDue(due, interval, now), handler, arg)
    {
      CyclicTimes(due, interval, now);
      var next := Plus32(current, interval);
      if TimeLess(next, Wrap(now)) {
        k := TimeoutAbs(Plus32(Wrap(now), interval), handler, arg, now + interval, now);
      } else {
        k := TimeoutAbs(next, handler, arg, due + interval, now);
      }
    }

    /** One round of sys_check_timeouts with a cyclic timer, which reads the clock again when its handler is done. */
    method CyclicRound(now: nat, later: nat, interval: int -> nat) returns (fired: bool, arg: int, ghost k: nat)
      requires Valid() && Window(now) && now <= later && forall a :: 1 <= interval(a) <= MAX_MSECS
      requires list != [] && keys[0].due <= now ==> Window(later)
      modifies this
      ensures Valid()
      ensures !fired ==> list == old(list) && keys == old(keys) && forall i :: 0 <= i < |keys| ==> now < keys[i].due
      ensures fired ==> old(list) != [] && k < |old(list)| && arg == old(list)[0].arg && old(keys)[0].due <= now
      ensures fired ==>
        var due := NextDue(old(keys)[0].due, interval(arg), later);
        && list == Inserted(old(list)[1..], k, old(list)[0].(time := Wrap(due)))
        && keys == Inserted(old(keys)[1..], k, Key(due, old(started)))
      ensures fired ==> PutBack(old(keys)[0].due, interval(arg), later, keys[k].due)
    {
      var t: Timer;
      ghost var key: Key;
      k := 0;
      fired, t, key := FireNext(now);
      assert fired ==> key.due <= now;
      arg := t.arg;
      if fired {
        assert forall i :: 0 <= i < |keys| ==> keys[i] == old(keys)[i + 1];
        assert Window(later);
        k := CyclicTimer(t.handler, t.arg, interval(t.arg), later, key.due);
      }
    }

    /**
     sys_check_timeouts on a list of cyclic timers, where clock(n) is the n-th reading of sys_now: it
     ends, loses no timer, fires each at most twice and leaves none that is due at its start.
     */
    method CheckCyclic(clock: nat -> nat, interval: int -> nat) returns (fires: multiset<int>, ghost over: set<int>)
      requires Valid() && DistinctArgs(list) && ClockOk(clock, keys, 2 * |list|)
      requires forall a :: 1 <= interval(a) <= MAX_MSECS
      modifies this
      ensures Valid() && DistinctArgs(list) && |list| == |old(list)| && Args(list) == Args(old(list))
      ensures forall i :: 0 <= i < |keys| ==> clock(0) < keys[i].due
      ensures |fires| <= 2 * |list| && forall a :: fires[a] <= 2
      ensures forall j :: 0 <= j < |old(list)| ==> (fires[old(list)[j].arg] > 0 <==> old(keys)[j].due <= clock(0))
      ensures KeepsIntervals(old(list), old(keys), list, keys, fires, interval, over, clock(2 * |old(list)|))
    {
      ghost var low := if keys == [] then clock(0) else keys[0].due;
      ghost var l0, k0 := list, keys;
      FirstReading(clock, keys, 2 * |list|);
      InCheckStart(list, keys, clock(0), low);
      SteadyStart(list, keys, interval, clock(2 * |l0|));
      fires, over := CheckLoop(clock, interval, l0, k0, low);
      CheckOver(l0, k0, list, keys, fires, interval, over, clock(0), low, clock(2 * |l0|));
    }

    method CheckLoop(clock: nat -> nat, interval: int -> nat, ghost l0: seq<Timer>, ghost k0: seq<Key>, ghost low: int)
      returns (fires: multiset<int>, ghost over: set<int>)
      requires Valid() && InCheck(l0, k0, list, keys, multiset{}, clock(0), low) && AllNear(k0, clock(0))
      requires Steady(l0, k0, list, keys, multiset{}, interval, {}, clock(2 * |l0|))
      requires low == (if k0 == [] then clock(0) else k0[0].due) && forall a :: 1 <= interval(a) <= MAX_MSECS
      requires ClockOk(clock, k0, 2 * |l0|)
      modifies this
      ensures Valid() && InCheck(l0, k0, list, keys, fires, clock(0), low)
      ensures Steady(l0, k0, list, keys, fires, interval, over, clock(2 * |l0|))
      ensures forall i :: 0 <= i < |keys| ==> clock(0) < keys[i].due
    {
      fires, over := multiset{}, {};
      var now, reading: nat := clock(0), 0;
      while true
        invariant Valid() && InCheck(l0, k0, list, keys, fires, now, low) && |fires| == reading
        invariant Steady(l0, k0, list, keys, fires, interval, over, clock(2 * |l0|))
        decreases Potential(keys, now)
      {
        ClockNear(clock, l0, k0, list, keys, fires, low);
        var fired;
        fired, fires, over := CheckNext(now, clock(reading + 1), interval, fires, l0, k0, low, over, clock(2 * |l0|));
        if !fired {
          return;
        }
        reading := reading + 1;
      }
    }

    /** One round of CheckCyclic and what it keeps. */
    method CheckNext(now: nat, later: nat, interval: int -> nat, fires: multiset<int>,
                     ghost l0: seq<Timer>, ghost k0: seq<Key>, ghost low: int, ghost over: set<int>, ghost last: nat)
      returns (fired: bool, fires': multiset<int>, ghost over': set<int>)
      requires Valid() && InCheck(l0, k0, list, keys, fires, now, low) && Window(now) && now <= later
      requires Steady(l0, k0, list, keys, fires, interval, over, last)
      requires list != [] && keys[0].due <= now ==> later <= last
      requires list != [] && keys[0].due <= now ==> Window(later) && later <= low + MAX_LATE <= now + MAX_LATE
      requires forall a :: 1 <= interval(a) <= MAX_MSECS
      modifies this
      ensures Valid() && InCheck(l0, k0, list, keys, fires', now, low)
      ensures Steady(l0, k0, list, keys, fires', interval, over', last)
      ensures fired ==> |fires'| == |fires| + 1 && Potential(keys, now) < Potential(old(keys), now)
      ensures !fired ==> fires' == fires && forall i :: 0 <= i < |keys| ==> now < keys[i].due
    {
      ghost var l, ks := list, keys;
      var arg;
      ghost var k;
      fired, arg, k := CyclicRound(now, later, interval);
      fires', over' := fires, over;
      if fired {
        SteadyRound(l0, k0, l, ks, fires, interval, over, last, later, k, list[k], keys[k]);
        over' := Overloaded(over, ks[0].due, interval(arg), later, arg);
        FiredRound(l0, k0, l, ks, fires, now, k, list[k], keys[k]);
        FewerRounds(ks[0].due, interval(arg), now, later);
        CheckRound(l0, l, ks, fires, now, low, k, list[k], keys[k]);
        fires' := fires + multiset{arg};
      }
    }

    /** A handler's call; `t` is the timer that fired and `key` its key. */
    method Do(a: Action, t: Timer, ghost key: Key)
      requires Valid() && current == Wrap(key.due)
      requires a.Start? ==> Window(a.at) && a.msecs <= MAX_MSECS
      requires a.Again? ==> Window(a.at) && a.interval <= MAX_MSECS && key.due <= a.at <= key.due + MAX_LATE
      modifies this`list, this`keys, this`free, this`started
      ensures Valid() && Q() == Acted(old(Q()), a, t, key)
    {
      ghost var k;
      match a {
        case Start(msecs, handler, arg, at) =>
          k := Timeout(msecs, handler, arg, at);
        case Again(interval, at) =>
          k := CyclicTimer(t.handler, t.arg, interval, at, key.due);
        case Stop(handler, arg) =>
          k := Untimeout(handler, arg);
      }
    }

    /** A handler's call keeps what holds during a check. */
    method Act(a: Action, t: Timer, now: nat, ghost key: Key, ghost low: int, ghost k0: seq<Key>, ghost log: seq<Key>,
               ghost stopped: set<Key>) returns (ghost stopped': set<Key>)
      requires Valid() && Allowed(a, now, low) && current == Wrap(key.due)
      requires InRun(k0, keys, log, stopped, now, low, started) && log != [] && log[|log| - 1] == key
      modifies this`list, this`keys, this`free, this`started
      ensures Valid() && Q() == Acted(old(Q()), a, t, key) && InRun(k0, keys, log, stopped', now, low, started)
      ensures stopped <= stopped' && (!a.Stop? ==> stopped' == stopped)
    {
      stopped' := ActedRun(Q(), a, t, key, k0, log, stopped, now, low);
      if !a.Stop? {
        RunNear(k0, keys, log, stopped, now, low, started, a.at);
      }
      Do(a, t, key);
    }

    /** A handler: its calls in order. */
    method Handle(actions: seq<Action>, t: Timer, now: nat, ghost key: Key, ghost low: int, ghost k0: seq<Key>,
                  ghost log: seq<Key>, ghost stopped: set<Key>) returns (ghost stopped': set<Key>)
      requires Valid() && current == Wrap(key.due) && AllAllowed(actions, now, low)
      requires InRun(k0, keys, log, stopped, now, low, started) && log != [] && log[|log| - 1] == key
      modifies this`list, this`keys, this`free, this`started
      ensures Valid() && Q() == Handled(old(Q()), actions, t, key) && InRun(k0, keys, log, stopped', now, low, started)
      ensures stopped <= stopped' && (NoStop(actions) ==> stopped' == stopped)
    {
      stopped' := stopped;
      for i := 0 to |actions|
        invariant Valid() && InRun(k0, keys, log, stopped', now, low, started)
        invariant Q() == Handled(old(Q()), actions[..i], t, key)
        invariant stopped <= stopped' && (NoStop(actions) ==> stopped' == stopped)
      {
        assert actions[..i + 1][..i] == actions[..i];
        stopped' := Act(actions[i], t, now, key, low, k0, log, stopped');
      }
      assert actions[..|actions|] == actions;
    }

    /**
     sys_check_timeouts with any handlers: scripts[n] is what the handler of the n-th timer that fires does,
     and behind the last one they do nothing. It does what `Checked` says. No timer is left that was due at
     the start; those that fired were due, went off in the order of their due times, first-in first-out among
     equals; and of those pending at the start each that was due has fired, unless a handler stopped it.
     */
    method Check(now: nat, scripts: seq<seq<Action>>)
      returns (fired: seq<Timer>, ghost log: seq<Key>, ghost stopped: set<Key>)
      requires Valid() && Window(now)
      requires forall s :: s in scripts ==> AllAllowed(s, now, Earliest(keys, now))
      modifies this
      ensures Valid() && (Q(), fired) == Checked(old(Q()), now, scripts)
      ensures forall i :: 0 <= i < |keys| ==> now < keys[i].due
      ensures TimesOf(fired, log) && Sorted(log) && forall i :: 0 <= i < |log| ==> log[i].due <= now
      ensures forall x :: x in old(keys) && x.due <= now ==> x in log || x in stopped
      ensures (forall s :: s in scripts ==> NoStop(s)) ==> stopped == {}
    {
      ghost var low := Earliest(keys, now);
      RunBegins(keys, now, low, started);
      fired, log, stopped := CheckAll(now, scripts, low, keys);
      forall x | x in old(keys) && x.due <= now ensures x in log || x in stopped {
        assert Accounted(x, keys, log, stopped);
      }
    }

    /** The first half of a round of a check: FireNext. */
    method FireFirst(now: nat, ghost low: int, ghost k0: seq<Key>, ghost log: seq<Key>, ghost stopped: set<Key>)
      returns (fired: bool, t: Timer, ghost key: Key)
      requires Valid() && InRun(k0, keys, log, stopped, now, low, started) && now <= low + MAX_LATE
      modifies this
      ensures Valid() && InRun(k0, keys, if fired then log + [key] else log, stopped, now, low, started)
      ensures fired <==> old(list) != [] && old(keys)[0].due <= now
      ensures fired ==>
        && t == old(list)[0] && key == old(keys)[0] && current == t.time == Wrap(key.due)
        && Q() == Queue(old(list)[1..], old(keys)[1..], old(free) + 1, old(started))
      ensures !fired ==> Q() == old(Q()) && NoneDue(keys, now)
    {
      ghost var ks, ts := keys, list;
      RunNear(k0, keys, log, stopped, now, low, started, now);
      if list != [] {
        SomeDue(keys, now);
      }
      fired, t, key := FireNext(now);
      if fired {
        RunFire(k0, ks, log, stopped, now, low, started);
        assert ks[1..] == keys && ts[1..] == list;
      }
    }

    /** A round of a check: FireNext and the handler. */
    method FireDue(now: nat, script: seq<Action>, ghost low: int, ghost k0: seq<Key>, ghost log: seq<Key>,
                   ghost stopped: set<Key>) returns (fired: bool, t: Timer, ghost key: Key, ghost stopped': set<Key>)
      requires Valid() && InRun(k0, keys, log, stopped, now, low, started) && now <= low + MAX_LATE
      requires AllAllowed(script, now, low)
      modifies this
      ensures Valid() && InRun(k0, keys, if fired then log + [key] else log, stopped', now, low, started)
      ensures fired <==> old(list) != [] && old(keys)[0].due <= now
      ensures fired ==> t == old(list)[0] && t.time == Wrap(key.due) && Q() == Fired(old(Q()), script)
      ensures !fired ==> Q() == old(Q()) && NoneDue(keys, now)
      ensures stopped <= stopped' && (NoStop(script) ==> stopped' == stopped)
    {
      stopped' := stopped;
      ghost var q := Q();
      fired, t, key := FireFirst(now, low, k0, log, stopped);
      if fired {
        ghost var q1, log' := Q(), log + [key];
        stopped' := Handle(script, t, now, key, low, k0, log', stopped);
        FiredIs(q, q1, script, t, key);
      }
    }

    /** One round of the loop, `n` scripts into the check. */
    method CheckTurn(now: nat, scripts: seq<seq<Action>>, n: nat, fired: seq<Timer>, ghost low: int, ghost k0: seq<Key>,
                     ghost log: seq<Key>, ghost stopped: set<Key>, ghost q0: Queue)
      returns (more: bool, n': nat, fired': seq<Timer>, ghost log': seq<Key>, ghost stopped': set<Key>)
      requires Valid() && CheckState(q0, scripts, now, low, k0, Q(), n, fired, log, stopped) && now <= low + MAX_LATE
      requires forall s :: s in scripts ==> AllAllowed(s, now, low)
      modifies this
      ensures Valid() && CheckState(q0, scripts, now, low, k0, Q(), n', fired', log', stopped')
      ensures more ==> n < n' || (n == n' && |list| < |old(list)|)
      ensures !more ==> n' == n && (Q(), fired') == Checked(q0, now, scripts) && NoneDue(keys, now)
    {
      ghost var q, key := Q(), Key(0, 0);
      var t;
      more, t, key, stopped' := FireDue(now, Script(scripts, n), low, k0, log, stopped);
      n', fired', log' := n, fired, log;
      if more {
        CheckNextState(q0, scripts, now, low, k0, q, n, fired, log, stopped, t, key, stopped');
        fired', log' := fired + [t], log + [key];
        n' := if n < |scripts| then n + 1 else n;
      } else {
        CheckEnds(q0, scripts, now, q, scripts[n..], fired);
      }
    }

    method CheckAll(now: nat, scripts: seq<seq<Action>>, ghost low: int, ghost k0: seq<Key>)
      returns (fired: seq<Timer>, ghost log: seq<Key>, ghost stopped: set<Key>)
      requires Valid() && InRun(k0, keys, [], {}, now, low, started) && now <= low + MAX_LATE
      requires forall s :: s in scripts ==> AllAllowed(s, now, low)
      modifies this
      ensures Valid() && InRun(k0, keys, log, stopped, now, low, started)
      ensures (Q(), fired) == Checked(old(Q()), now, scripts)
      ensures TimesOf(fired, log) && NoneDue(keys, now)
      ensures (forall s :: s in scripts ==> NoStop(s)) ==> stopped == {}
    {
      fired, log, stopped := [], [], {};
      var n: nat := 0;
      CheckBegins(Q(), scripts, now);
      var more := true;
      while more
        invariant Valid() && CheckState(old(Q()), scripts, now, low, k0, Q(), n, fired, log, stopped)
        invariant !more ==> (Q(), fired) == Checked(old(Q()), now, scripts) && NoneDue(keys, now)
        decreases more, |scripts| - n, |list|
      {
        more, n, fired, log, stopped := CheckTurn(now, scripts, n, fired, low, k0, log, stopped, old(Q()));
      }
    }
  }

  /** A timer that is overdue by 2^31 ms looks as if it were not due yet. */
  method OverdueUnnoticed() returns (fired: bool)
    ensures !fired
  {
    var s := new Timeouts(1);
    ghost var k := s.Timeout(0, 1, 1, 0);
    var t;
    ghost var key;
    fired, t, key := s.FireNext(0x8000_0000);
  }
}
