/**
 The descriptor table of sockets.c with LWIP_NETCONN_FULLDUPLEX: `fd_used` counts the threads that
 are inside a socket call on a slot, and a close waits for the last of them.

 Each step below is one SYS_ARCH_PROTECT section, so every interleaving of threads is a sequence of
 these steps. Threads pair each successful get with one done or one free.
 */
module SocketTable {
  import opened Common

  /** One allocation of a netconn, with its type group. */
  datatype Conn = Conn(id: nat, isTcp: bool)

  /** fd_free_pending: LWIP_SOCK_FD_FREE_FREE with or without LWIP_SOCK_FD_FREE_TCP, or 0. */
  datatype Pending = NotPending | Pending(isTcp: bool)

  datatype Slot = Slot(conn: Option<Conn>, fdUsed: nat, pending: Pending)

  /** A netconn given to free_socket_free_elements, with the type that decides how lastdata is freed. */
  datatype Handout = Handout(conn: Conn, isTcp: bool)

  /**
   `holders[i]` counts the threads between a get and its done or free on slot `i`; `created` are all
   netconns ever put into a slot, `deleted` those handed out for deletion, in order.
   */
  datatype State = State(slots: seq<Slot>, holders: seq<nat>, created: set<Conn>, deleted: seq<Handout>)

  // ----- the sections -----

  /** alloc_socket may take the slot: no netconn, and nobody still holding it (sockets.c:550-556). */
  predicate CanAlloc(slot: Slot) {
    slot.conn == None && slot.fdUsed == 0
  }

  function AllocSlot(c: Conn): Slot {
    Slot(Some(c), 1, NotPending)
  }

  /** sock_inc_used: refused while a free is pending. */
  predicate CanInc(slot: Slot) {
    slot.pending == NotPending
  }

  function IncSlot(slot: Slot): Slot {
    slot.(fdUsed := slot.fdUsed + 1)
  }

  /** free_socket_locked: the slot afterwards, and the netconn handed out if this was the last user. */
  function FreeLocked(slot: Slot, isTcp: bool): (Slot, Option<Conn>)
    requires slot.fdUsed > 0
  {
    if slot.fdUsed > 1
    then (slot.(fdUsed := slot.fdUsed - 1, pending := Pending(isTcp)), None)
    else (slot.(fdUsed := 0, conn := None), slot.conn)
  }

  /** done_socket: the last user carries out a pending free. */
  function DoneSlot(slot: Slot): (Slot, Option<Handout>)
    requires slot.fdUsed > 0
  {
    if slot.fdUsed == 1 && slot.pending.Pending? then
      var (freed, conn) := FreeLocked(slot.(fdUsed := 1), slot.pending.isTcp);
      (freed, if conn == None then None else Some(Handout(conn.value, slot.pending.isTcp)))
    else (slot.(fdUsed := slot.fdUsed - 1), None)
  }

  // ----- steps -----

  function Log(deleted: seq<Handout>, out: Option<Handout>): seq<Handout> {
    if out == None then deleted else deleted + [out.value]
  }

  ghost predicate AllocStep(s: State, t: State, i: nat, c: Conn) {
    && i < |s.slots| == |s.holders| && c !in s.created
    && CanAlloc(s.slots[i])
    && t == s.(slots := s.slots[i := AllocSlot(c)], holders := s.holders[i := s.holders[i] + 1],
               created := s.created + {c})
  }

  /** A get; past 255 users the assertion on the u8_t counter stops the program. */
  ghost predicate IncStep(s: State, t: State, i: nat) {
    && i < |s.slots| == |s.holders| && CanInc(s.slots[i]) && s.slots[i].fdUsed < 255
    && t == s.(slots := s.slots[i := IncSlot(s.slots[i])], holders := s.holders[i := s.holders[i] + 1])
  }

  ghost predicate DoneStep(s: State, t: State, i: nat) {
    && i < |s.slots| == |s.holders| && s.holders[i] > 0 && s.slots[i].fdUsed > 0
    && var (slot, out) := DoneSlot(s.slots[i]);
       t == s.(slots := s.slots[i := slot], holders := s.holders[i := s.holders[i] - 1], deleted := Log(s.deleted, out))
  }

  /** free_socket, called by a holder that found a netconn in the slot. */
  ghost predicate FreeStep(s: State, t: State, i: nat) {
    && i < |s.slots| == |s.holders| && s.holders[i] > 0 && s.slots[i].fdUsed > 0 && s.slots[i].conn.Some?
    && var isTcp := s.slots[i].conn.value.isTcp;
       var (slot, conn) := FreeLocked(s.slots[i], isTcp);
       var out := if conn == None then None else Some(Handout(conn.value, isTcp));
       t == s.(slots := s.slots[i := slot], holders := s.holders[i := s.holders[i] - 1], deleted := Log(s.deleted, out))
  }

  ghost predicate Next(s: State, t: State) {
    || (exists i: nat, c :: AllocStep(s, t, i, c))
    || (exists i: nat :: IncStep(s, t, i))
    || (exists i: nat :: DoneStep(s, t, i))
    || (exists i: nat :: FreeStep(s, t, i))
  }

  ghost predicate Init(s: State) {
    && |s.slots| == |s.holders| && s.created == {} && s.deleted == []
    && (forall i :: 0 <= i < |s.slots| ==> s.slots[i] == Slot(None, 0, NotPending) && s.holders[i] == 0)
  }

  // ----- invariant -----

  /** `fd_used` is exact, and a pending free waits for somebody who will carry it out. */
  ghost predicate SlotOk(slot: Slot, holders: nat) {
    && slot.fdUsed == holders <= 255
    && (slot.pending.Pending? ==> (slot.conn.Some? <==> holders > 0))
    && (slot.pending.Pending? && slot.conn.Some? ==> slot.pending.isTcp == slot.conn.value.isTcp)
  }

  ghost predicate InTable(s: State, c: Conn) {
    exists i :: 0 <= i < |s.slots| && s.slots[i].conn == Some(c)
  }

  ghost predicate WasDeleted(s: State, c: Conn) {
    exists k :: 0 <= k < |s.deleted| && s.deleted[k].conn == c
  }

  ghost predicate Inv(s: State) {
    && |s.slots| == |s.holders|
    && (forall i :: 0 <= i < |s.slots| ==> SlotOk(s.slots[i], s.holders[i]))
    // a netconn sits in one slot at most
    && (forall i, j :: 0 <= i < j < |s.slots| && s.slots[i].conn.Some? ==> s.slots[i].conn != s.slots[j].conn)
    // every netconn put into the table is there or was handed out, never both
    && (forall c :: c in s.created <==> InTable(s, c) || WasDeleted(s, c))
    && (forall c :: !(InTable(s, c) && WasDeleted(s, c)))
    // handed out once, and with the right type
    && (forall j, k :: 0 <= j < k < |s.deleted| ==> s.deleted[j].conn != s.deleted[k].conn)
    && (forall k :: 0 <= k < |s.deleted| ==> s.deleted[k].isTcp == s.deleted[k].conn.isTcp)
  }

  // ----- every step keeps the invariant -----

  lemma InitHolds(s: State)
    requires Init(s)
    ensures Inv(s)
  {
  }

  /** A step that changes counters and marks of slot `i` only. */
  lemma CountersKeep(s: State, t: State, i: nat)
    requires Inv(s) && i < |s.slots| == |t.slots| == |t.holders|
    requires t.slots == s.slots[i := t.slots[i]] && t.slots[i].conn == s.slots[i].conn
    requires t.holders == s.holders[i := t.holders[i]] && SlotOk(t.slots[i], t.holders[i])
    requires t.created == s.created && t.deleted == s.deleted
    ensures Inv(t)
  {
    forall c ensures InTable(t, c) <==> InTable(s, c) {
      SameTable(s, t, c);
      SameTable(t, s, c);
    }
    assert forall c :: WasDeleted(t, c) <==> WasDeleted(s, c);
  }

  lemma SameTable(s: State, t: State, c: Conn)
    requires |s.slots| == |t.slots| && forall j :: 0 <= j < |s.slots| ==> t.slots[j].conn == s.slots[j].conn
    ensures InTable(s, c) ==> InTable(t, c)
  {
    if j :| 0 <= j < |s.slots| && s.slots[j].conn == Some(c) {
      assert t.slots[j].conn == Some(c);
    }
  }

  /** A step that takes netconn `c` out of slot `i` and hands it out. */
  lemma HandoutKeeps(s: State, t: State, i: nat, c: Conn)
    requires Inv(s) && i < |s.slots| == |t.slots| == |t.holders| && s.slots[i].conn == Some(c)
    requires t.slots == s.slots[i := t.slots[i]] && t.slots[i].conn == None
    requires t.holders == s.holders[i := t.holders[i]] && SlotOk(t.slots[i], t.holders[i])
    requires t.created == s.created && t.deleted == s.deleted + [Handout(c, c.isTcp)]
    ensures Inv(t)
  {
    assert InTable(s, c) && t.deleted[|s.deleted|].conn == c;
    forall d ensures InTable(t, d) <==> InTable(s, d) && d != c {
      if j :| 0 <= j < |t.slots| && t.slots[j].conn == Some(d) {
        assert s.slots[j].conn == Some(d) && j != i;
      }
      if j :| 0 <= j < |s.slots| && s.slots[j].conn == Some(d) {
        assert j != i ==> t.slots[j].conn == Some(d);
      }
    }
    forall d ensures WasDeleted(t, d) <==> WasDeleted(s, d) || d == c {
      if k :| 0 <= k < |s.deleted| && s.deleted[k].conn == d {
        assert t.deleted[k].conn == d;
      }
    }
  }

  lemma AllocKeeps(s: State, t: State, i: nat, c: Conn)
    requires Inv(s) && AllocStep(s, t, i, c)
    ensures Inv(t)
  {
    forall d ensures InTable(t, d) <==> InTable(s, d) || d == c {
      if j :| 0 <= j < |s.slots| && s.slots[j].conn == Some(d) {
        assert t.slots[j].conn == Some(d);
      }
      assert t.slots[i].conn == Some(c);
    }
    assert forall d :: WasDeleted(t, d) <==> WasDeleted(s, d);
    assert !InTable(s, c);
    assert forall j :: 0 <= j < |s.slots| ==> s.slots[j].conn != Some(c);
  }

  lemma StepKeeps(s: State, t: State)
    requires Inv(s) && Next(s, t)
    ensures Inv(t)
  {
    if i: nat, c :| AllocStep(s, t, i, c) {
      AllocKeeps(s, t, i, c);
    } else if i: nat :| IncStep(s, t, i) {
      assert SlotOk(s.slots[i], s.holders[i]);
      CountersKeep(s, t, i);
    } else if i: nat :| DoneStep(s, t, i) {
      assert SlotOk(s.slots[i], s.holders[i]);
      if t.deleted == s.deleted {
        CountersKeep(s, t, i);
      } else {
        HandoutKeeps(s, t, i, s.slots[i].conn.value);
      }
    } else {
      var i: nat :| FreeStep(s, t, i);
      assert SlotOk(s.slots[i], s.holders[i]);
      if t.deleted == s.deleted {
        CountersKeep(s, t, i);
      } else {
        HandoutKeeps(s, t, i, s.slots[i].conn.value);
      }
    }
  }

  ghost predicate IsRun(run: seq<State>) {
    0 < |run| && Init(run[0]) && forall i :: 0 <= i < |run| - 1 ==> Next(run[i], run[i + 1])
  }

  /** In every run: counts are exact and each netconn is in the table or was handed out, exactly once. */
  lemma {:induction false} RunsKeep(run: seq<State>, i: nat)
    requires IsRun(run) && i < |run|
    ensures Inv(run[i])
  {
    if i == 0 {
      InitHolds(run[0]);
    } else {
      RunsKeep(run, i - 1);
      assert Next(run[i - 1], run[i - 1 + 1]);
      StepKeeps(run[i - 1], run[i]);
    }
  }

  /** While a slot is held, its netconn stays: it is neither handed out nor replaced. */
  lemma HeldSlotStays(s: State, t: State, i: nat)
    requires Inv(s) && Next(s, t) && i < |s.slots|
    requires s.holders[i] > 0 && t.holders[i] > 0
    ensures t.slots[i].conn == s.slots[i].conn
  {
    assert SlotOk(s.slots[i], s.holders[i]);
    StepKeeps(s, t);
    assert SlotOk(t.slots[i], t.holders[i]);
  }

  ghost predicate LastHolderLeaves(s: State, t: State, i: nat, c: Conn) {
    && i < |s.slots| == |s.holders| == |t.holders|
    && s.holders[i] == 1 && t.holders[i] == 0 && s.slots[i].conn == Some(c)
  }

  /** Only the last holder to leave hands a netconn out, and it hands out the one in its slot. */
  lemma OnlyLastHolderHandsOut(s: State, t: State)
    requires Inv(s) && Next(s, t) && t.deleted != s.deleted
    ensures exists i: nat, c: Conn :: LastHolderLeaves(s, t, i, c) && t.deleted == s.deleted + [Handout(c, c.isTcp)]
  {
    if i: nat :| DoneStep(s, t, i) {
      assert SlotOk(s.slots[i], s.holders[i]);
      assert LastHolderLeaves(s, t, i, s.slots[i].conn.value);
    } else {
      var i: nat :| FreeStep(s, t, i);
      assert SlotOk(s.slots[i], s.holders[i]);
      assert LastHolderLeaves(s, t, i, s.slots[i].conn.value);
    }
  }

  // ----- a close over a whole run -----

  /** Netconn `c` sits in slot `i`, and somebody there has asked for it to be freed. */
  ghost predicate Closing(s: State, i: nat, c: Conn) {
    HeldWith(s, i, c) && s.slots[i].pending.Pending?
  }

  ghost predicate HeldWith(s: State, i: nat, c: Conn) {
    i < |s.slots| == |s.holders| && s.slots[i].conn == Some(c) && s.holders[i] > 0
  }

  /** The free that was asked for is done, or will be by one of fewer than `n` holders. */
  ghost predicate CloseGoesOn(s: State, i: nat, c: Conn, n: nat) {
    WasDeleted(s, c) || (Closing(s, i, c) && s.holders[i] < n)
  }

  /** No thread can get hold of slot `i`. */
  ghost predicate NoMore(s: State, i: nat) {
    forall t :: !IncStep(s, t, i)
  }

  lemma DeletedStays(s: State, t: State, c: Conn)
    requires Next(s, t) && WasDeleted(s, c)
    ensures WasDeleted(t, c)
  {
    var k :| 0 <= k < |s.deleted| && s.deleted[k].conn == c;
    assert t.deleted[k].conn == c;
  }

  lemma ClosingStep(s: State, t: State, i: nat, c: Conn)
    requires Inv(s) && Next(s, t) && Closing(s, i, c)
    ensures WasDeleted(t, c) || (Closing(t, i, c) && t.holders[i] <= s.holders[i])
  {
    assert SlotOk(s.slots[i], s.holders[i]);
    if t.deleted != s.deleted {
      assert t.deleted[|t.deleted| - 1].conn == c || t.slots[i] == s.slots[i];
    }
  }

  lemma CloseStep(s: State, t: State, i: nat, c: Conn, n: nat)
    requires Inv(s) && Next(s, t) && CloseGoesOn(s, i, c, n)
    ensures CloseGoesOn(t, i, c, n)
  {
    if WasDeleted(s, c) {
      DeletedStays(s, t, c);
    } else {
      ClosingStep(s, t, i, c);
    }
  }

  lemma FreeCloses(s: State, t: State, i: nat)
    requires Inv(s) && FreeStep(s, t, i)
    ensures CloseGoesOn(t, i, s.slots[i].conn.value, s.holders[i])
  {
    assert SlotOk(s.slots[i], s.holders[i]);
    if t.deleted != s.deleted {
      assert t.deleted[|s.deleted|].conn == s.slots[i].conn.value;
    }
  }

  /**
   After free_socket on a slot, in every later state of the run its netconn was handed out for deletion, or it is still
   there and held, by no more threads than before, and no further thread can get hold of it.
   */
  lemma CloseKept(run: seq<State>, m: nat, i: nat, n: nat)
    requires IsRun(run) && m < n < |run| && FreeStep(run[m], run[m + 1], i)
    ensures var c := run[m].slots[i].conn.value;
      || WasDeleted(run[n], c)
      || (HeldWith(run[n], i, c) && run[n].holders[i] < run[m].holders[i] && NoMore(run[n], i))
  {
    ClosedOrClosing(run, m, i, n);
    var c := run[m].slots[i].conn.value;
    if Closing(run[n], i, c) {
      assert NoMore(run[n], i);
    }
  }

  lemma {:induction false} ClosedOrClosing(run: seq<State>, m: nat, i: nat, n: nat)
    requires IsRun(run) && m < n < |run| && FreeStep(run[m], run[m + 1], i)
    ensures CloseGoesOn(run[n], i, run[m].slots[i].conn.value, run[m].holders[i])
    decreases n
  {
    if n == m + 1 {
      RunFrees(run, m, i);
    } else {
      ClosedOrClosing(run, m, i, n - 1);
      RunCloses(run, n - 1, i, run[m].slots[i].conn.value, run[m].holders[i]);
    }
  }

  lemma RunFrees(run: seq<State>, m: nat, i: nat)
    requires IsRun(run) && m + 1 < |run| && FreeStep(run[m], run[m + 1], i)
    ensures CloseGoesOn(run[m + 1], i, run[m].slots[i].conn.value, run[m].holders[i])
  {
    RunsKeep(run, m);
    FreeCloses(run[m], run[m + 1], i);
  }

  lemma RunCloses(run: seq<State>, n: nat, i: nat, c: Conn, k: nat)
    requires IsRun(run) && n + 1 < |run| && CloseGoesOn(run[n], i, c, k)
    ensures CloseGoesOn(run[n + 1], i, c, k)
  {
    RunStep(run, n);
    CloseStep(run[n], run[n + 1], i, c, k);
  }

  lemma RunStep(run: seq<State>, n: nat)
    requires IsRun(run) && n + 1 < |run|
    ensures Inv(run[n]) && Next(run[n], run[n + 1])
  {
    RunsKeep(run, n);
  }

  /** A close is never lost: once nobody holds the slot, or it has another netconn, the one closed was handed out. */
  lemma CloseCompletes(run: seq<State>, m: nat, i: nat, n: nat)
    requires IsRun(run) && m < n < |run| && FreeStep(run[m], run[m + 1], i)
    ensures i < |run[n].slots| == |run[n].holders|
    ensures run[n].holders[i] == 0 || run[n].slots[i].conn != run[m].slots[i].conn ==>
      WasDeleted(run[n], run[m].slots[i].conn.value)
  {
    CloseKept(run, m, i, n);
    SameLength(run, m, n);
    RunsKeep(run, n);
  }

  lemma {:induction false} SameLength(run: seq<State>, m: nat, n: nat)
    requires IsRun(run) && m <= n < |run|
    ensures |run[n].slots| == |run[m].slots|
    decreases n
  {
    if m < n {
      SameLength(run, m, n - 1);
      assert Next(run[n - 1], run[n - 1 + 1]);
    }
  }

  ghost predicate FreedBefore(run: seq<State>, n: nat, i: nat, c: Conn) {
    exists m: nat :: m < n < |run| && FreeStep(run[m], run[m + 1], i) && run[m].slots[i].conn == Some(c)
  }

  ghost predicate FreedSomewhere(run: seq<State>, n: nat, c: Conn) {
    exists i: nat :: FreedBefore(run, n, i, c)
  }

  /** Whatever is being closed or was handed out has been freed by a holder before. */
  ghost predicate OnlyFreed(run: seq<State>, n: nat) {
    && n < |run|
    && (forall i: nat, c :: Closing(run[n], i, c) ==> FreedBefore(run, n, i, c))
    && (forall c :: WasDeleted(run[n], c) ==> FreedSomewhere(run, n, c))
  }

  lemma FreedStays(run: seq<State>, n: nat, i: nat, c: Conn)
    requires FreedBefore(run, n, i, c) && n + 1 < |run|
    ensures FreedBefore(run, n + 1, i, c)
  {
    var m: nat :| m < n < |run| && FreeStep(run[m], run[m + 1], i) && run[m].slots[i].conn == Some(c);
    assert m < n + 1;
  }

  lemma ClosingWasFreed(run: seq<State>, n: nat, i: nat, c: Conn)
    requires OnlyFreed(run, n) && Inv(run[n]) && n + 1 < |run| && Next(run[n], run[n + 1])
    requires Closing(run[n + 1], i, c)
    ensures FreedBefore(run, n + 1, i, c)
  {
    var s, t := run[n], run[n + 1];
    assert SlotOk(s.slots[i], s.holders[i]);
    if Closing(s, i, c) {
      FreedStays(run, n, i, c);
    } else {
      assert FreeStep(s, t, i);
    }
  }

  lemma DeletedWasFreed(run: seq<State>, n: nat, c: Conn)
    requires OnlyFreed(run, n) && Inv(run[n]) && n + 1 < |run| && Next(run[n], run[n + 1])
    requires WasDeleted(run[n + 1], c)
    ensures FreedSomewhere(run, n + 1, c)
  {
    var s, t := run[n], run[n + 1];
    if WasDeleted(s, c) {
      var i: nat :| FreedBefore(run, n, i, c);
      FreedStays(run, n, i, c);
    } else if i: nat :| DoneStep(s, t, i) {
      assert SlotOk(s.slots[i], s.holders[i]);
      assert Closing(s, i, c);
      FreedStays(run, n, i, c);
    } else {
      var i: nat :| FreeStep(s, t, i);
      assert FreedBefore(run, n + 1, i, c);
    }
  }

  lemma OnlyFreedStep(run: seq<State>, n: nat)
    requires 0 < n < |run| && OnlyFreed(run, n - 1) && Inv(run[n - 1]) && Next(run[n - 1], run[n])
    ensures OnlyFreed(run, n)
  {
    forall i: nat, c | Closing(run[n], i, c) ensures FreedBefore(run, n, i, c) {
      ClosingWasFreed(run, n - 1, i, c);
    }
    forall c | WasDeleted(run[n], c) ensures FreedSomewhere(run, n, c) {
      DeletedWasFreed(run, n - 1, c);
    }
  }

  /** No netconn is handed out for deletion that nobody has freed. */
  lemma {:induction false} NoneDeletedUnasked(run: seq<State>, n: nat)
    requires IsRun(run) && n < |run|
    ensures OnlyFreed(run, n)
  {
    if n == 0 {
      assert Init(run[0]);
    } else {
      NoneDeletedUnasked(run, n - 1);
      RunStep(run, n - 1);
      OnlyFreedStep(run, n);
    }
  }

  /** A thread gets hold of a netconn that nobody has freed, up to the limit of the u8_t counter. */
  lemma GetGranted(run: seq<State>, n: nat, i: nat, c: Conn)
    requires IsRun(run) && n < |run| && i < |run[n].slots| && run[n].slots[i].conn == Some(c)
    ensures i < |run[n].holders|
    ensures run[n].holders[i] < 255 && !FreedBefore(run, n, i, c) ==> !NoMore(run[n], i)
  {
    RunsKeep(run, n);
    NoneDeletedUnasked(run, n);
    var s := run[n];
    assert SlotOk(s.slots[i], s.holders[i]);
    if s.holders[i] < 255 && !FreedBefore(run, n, i, c) {
      assert !Closing(s, i, c);
      var t := s.(slots := s.slots[i := IncSlot(s.slots[i])], holders := s.holders[i := s.holders[i] + 1]);
      assert IncStep(s, t, i);
    }
  }

  /** The slots below `n` have a netconn or a holder. */
  ghost predicate AllTaken(s: State, n: nat)
    requires n <= |s.slots| == |s.holders|
  {
    forall i :: 0 <= i < n ==> s.slots[i].conn.Some? || s.holders[i] > 0
  }

  // ----- the sections as sockets.c writes them -----

  /** The global `sockets[]`, with the history that the steps speak of. */
  class Sockets {
    const sockets: array<Slot>
    ghost var holders: seq<nat>
    ghost var created: set<Conn>
    ghost var deleted: seq<Handout>

    ghost function View(): State
      reads this, sockets
    {
      State(sockets[..], holders, created, deleted)
    }

    constructor (numSockets: nat)
      ensures Init(View()) && sockets.Length == numSockets
    {
      sockets := new Slot[numSockets](_ => Slot(None, 0, NotPending));
      holders := seq(numSockets, _ => 0);
      created, deleted := {}, [];
    }

    /** sock_inc_used */
    method SockIncUsed(i: nat) returns (ok: bool)
      requires Inv(View()) && i < sockets.Length && sockets[i].fdUsed < 255
      modifies `holders, sockets
      ensures Inv(View())
      ensures if ok then IncStep(old(View()), View(), i) else View() == old(View()) && !CanInc(sockets[i])
    {
      ghost var s := View();
      if sockets[i].pending != NotPending {
        return false;
      }
      sockets[i] := sockets[i].(fdUsed := sockets[i].fdUsed + 1);
      holders := holders[i := holders[i] + 1];
      assert IncStep(s, View(), i);
      StepKeeps(s, View());
      return true;
    }

    /** alloc_socket: the lowest slot that is empty and not held. */
    method AllocSocket(c: Conn) returns (r: Option<nat>)
      requires Inv(View()) && c !in created
      modifies `holders, `created, sockets
      ensures Inv(View())
      ensures r == None ==> View() == old(View()) && AllTaken(View(), sockets.Length)
      ensures r.Some? ==> AllocStep(old(View()), View(), r.value, c) && AllTaken(View(), r.value)
    {
      var i := 0;
      while i < sockets.Length
        invariant 0 <= i <= sockets.Length && View() == old(View())
        invariant AllTaken(View(), i)
      {
        assert SlotOk(View().slots[i], holders[i]);
        if sockets[i].conn == None && sockets[i].fdUsed == 0 {
          sockets[i] := Slot(Some(c), 1, NotPending);
          holders, created := holders[i := holders[i] + 1], created + {c};
          assert AllocStep(old(View()), View(), i, c);
          StepKeeps(old(View()), View());
          return Some(i);
        }
        i := i + 1;
      }
      return None;
    }

    /** free_socket_locked, under the caller's protection. */
    method FreeSocketLocked(i: nat, isTcp: bool) returns (conn: Option<Conn>)
      requires i < sockets.Length && sockets[i].fdUsed > 0
      modifies sockets
      ensures (sockets[i], conn) == FreeLocked(old(sockets[i]), isTcp)
      ensures sockets[..] == old(sockets[..])[i := sockets[i]]
    {
      sockets[i] := sockets[i].(fdUsed := sockets[i].fdUsed - 1);
      if sockets[i].fdUsed > 0 {
        sockets[i] := sockets[i].(pending := Pending(isTcp));
        return None;
      }
      conn := sockets[i].conn;
      sockets[i] := sockets[i].(conn := None);
    }

    /** done_socket */
    method DoneSocket(i: nat) returns (out: Option<Handout>)
      requires Inv(View()) && i < sockets.Length && holders[i] > 0
      modifies `holders, `deleted, sockets
      ensures Inv(View()) && DoneStep(old(View()), View(), i) && deleted == Log(old(deleted), out)
      ensures out == DoneSlot(old(sockets[i])).1
    {
      ghost var s := View();
      assert SlotOk(s.slots[i], s.holders[i]);
      out := None;
      sockets[i] := sockets[i].(fdUsed := sockets[i].fdUsed - 1);
      if sockets[i].fdUsed == 0 && sockets[i].pending.Pending? {
        sockets[i] := sockets[i].(fdUsed := 1);
        var isTcp := sockets[i].pending.isTcp;
        var conn := FreeSocketLocked(i, isTcp);
        out := if conn == None then None else Some(Handout(conn.value, isTcp));
      }
      holders, deleted := holders[i := holders[i] - 1], Log(deleted, out);
      assert DoneStep(s, View(), i);
      StepKeeps(s, View());
    }

    /** free_socket */
    method FreeSocket(i: nat) returns (out: Option<Handout>)
      requires Inv(View()) && i < sockets.Length && holders[i] > 0 && sockets[i].conn.Some?
      modifies `holders, `deleted, sockets
      ensures Inv(View()) && FreeStep(old(View()), View(), i) && deleted == Log(old(deleted), out)
    {
      ghost var s := View();
      assert SlotOk(s.slots[i], s.holders[i]);
      var isTcp := sockets[i].conn.value.isTcp;
      var conn := FreeSocketLocked(i, isTcp);
      out := if conn == None then None else Some(Handout(conn.value, isTcp));
      holders, deleted := holders[i := holders[i] - 1], Log(deleted, out);
      assert FreeStep(s, View(), i);
      StepKeeps(s, View());
    }
  }
}
