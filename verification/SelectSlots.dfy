/**
 Threads in select together with the descriptor table: whether a slot that is taken anew still has threads
 counted in its select_waiting, as alloc_socket asserts it has not (sockets.c:565).

 lwip_select first marks the slots it watches as used and lets go of them last, so that they are not reused while
 it counts on them. It cannot mark a slot whose free is pending, and goes on without.
 */
module SelectSlots {
  import opened Common
  import Table = SocketTable
  import opened Select

  /**
   `used[who]` are the slots that thread `who` has marked (used_sockets), `missed[who]` those that it could not mark,
   and `raced` tells that some thread has missed one.
   */
  datatype Joint = Joint(table: Table.State, sel: State, used: seq<set<nat>>, missed: seq<set<nat>>, raced: bool)

  /** How many threads have marked the slot. */
  ghost function Marks(used: seq<set<nat>>, i: nat): nat {
    if used == [] then 0 else Marks(used[..|used| - 1], i) + One(i in used[|used| - 1])
  }

  // ----- steps -----

  /** Gets, and the dones and frees of those who hold the slot otherwise. */
  ghost predicate CallStep(s: Joint, t: Joint, i: nat) {
    && t == s.(table := t.table)
    && (|| Table.IncStep(s.table, t.table, i)
        || ((Table.DoneStep(s.table, t.table, i) || Table.FreeStep(s.table, t.table, i))
            && Marks(s.used, i) < s.table.holders[i]))
  }

  /** alloc_socket: the event fields are set; select_waiting is left as it is. */
  ghost predicate TakeStep(s: Joint, t: Joint, i: nat, c: Table.Conn, sendevent: bool) {
    && Table.AllocStep(s.table, t.table, i, c) && i < |s.sel.socks|
    && t == s.(table := t.table,
               sel := s.sel.(socks := s.sel.socks[i := Sock(0, sendevent, false, s.sel.socks[i].waiting)]))
  }

  ghost predicate IsOutside(s: Joint, who: nat) {
    who < |s.sel.sels| == |s.used| == |s.missed| && s.sel.sels[who].phase.Outside?
  }

  /** lwip_select_inc_sockets_used marks a slot, */
  ghost predicate MarkStep(s: Joint, t: Joint, who: nat, i: nat) {
    && IsOutside(s, who) && i !in s.used[who] && Table.IncStep(s.table, t.table, i)
    && t == s.(table := t.table, used := s.used[who := s.used[who] + {i}])
  }

  /** or cannot. */
  ghost predicate MissStep(s: Joint, t: Joint, who: nat, i: nat) {
    && IsOutside(s, who) && i < |s.table.slots| && !Table.CanInc(s.table.slots[i])
    && t == s.(missed := s.missed[who := s.missed[who] + {i}], raced := true)
  }

  /** lwip_select_dec_sockets_used. */
  ghost predicate UnmarkStep(s: Joint, t: Joint, who: nat, i: nat) {
    && IsOutside(s, who) && i in s.used[who] && Table.DoneStep(s.table, t.table, i)
    && t == s.(table := t.table, used := s.used[who := s.used[who] - {i}])
  }

  /** The next call begins. */
  ghost predicate ClearStep(s: Joint, t: Joint, who: nat) {
    && IsOutside(s, who) && s.used[who] == {}
    && t == s.(missed := s.missed[who := {}])
  }

  /** A thread that goes on to wait has tried to mark all that it watches. */
  ghost predicate Tried(s: Joint, who: nat) {
    who < |s.sel.sels| == |s.used| == |s.missed| && !s.sel.sels[who].phase.Outside? ==>
      forall fd: nat :: fd < |s.table.slots| && WatchesAny(s.sel.sels[who], fd) ==>
        fd in s.used[who] || fd in s.missed[who]
  }

  ghost predicate SelectStep(s: Joint, t: Joint) {
    Select.Next(s.sel, t.sel) && t == s.(sel := t.sel) && forall who: nat :: IsOutside(s, who) ==> Tried(t, who)
  }

  ghost predicate JointNext(s: Joint, t: Joint) {
    || (exists i: nat :: CallStep(s, t, i))
    || (exists i: nat, c, b :: TakeStep(s, t, i, c, b))
    || (exists who: nat, i: nat :: MarkStep(s, t, who, i))
    || (exists who: nat, i: nat :: MissStep(s, t, who, i))
    || (exists who: nat, i: nat :: UnmarkStep(s, t, who, i))
    || (exists who: nat :: ClearStep(s, t, who))
    || SelectStep(s, t)
  }

  ghost predicate JointInit(s: Joint) {
    && Table.Init(s.table) && Select.Init(s.sel) && |s.sel.socks| == |s.table.slots| && !s.raced
    && |s.used| == |s.missed| == |s.sel.sels|
    && forall who :: 0 <= who < |s.used| ==> s.used[who] == {} && s.missed[who] == {}
  }

  // ----- invariant -----

  /** select_waiting is the number of threads that count. */
  ghost predicate CountAt(s: State, fd: nat) {
    fd < |s.socks| ==> s.socks[fd].waiting == Waiters(s.sels, fd)
  }

  ghost predicate CountsOk(s: State) {
    forall fd: nat :: CountAt(s, fd)
  }

  ghost predicate MarksOk(s: Joint, i: nat) {
    i < |s.table.holders| ==> Marks(s.used, i) <= s.table.holders[i]
  }

  ghost predicate JointInv(s: Joint) {
    && Table.Inv(s.table) && |s.sel.socks| == |s.table.slots| && |s.used| == |s.missed| == |s.sel.sels|
    && CountsOk(s.sel) && (forall i: nat :: MarksOk(s, i)) && (forall who: nat :: Tried(s, who))
    && (!s.raced ==> Select.Inv(s.sel) && forall who :: 0 <= who < |s.missed| ==> s.missed[who] == {})
  }

  lemma {:induction false} MarksUpdate(used: seq<set<nat>>, who: nat, u: set<nat>, i: nat)
    requires who < |used|
    ensures Marks(used[who := u], i) == Marks(used, i) - One(i in used[who]) + One(i in u)
    ensures i in used[who] ==> Marks(used, i) > 0
  {
    var n := |used| - 1;
    if who == n {
      assert used[who := u][..n] == used[..n];
    } else {
      assert used[who := u][..n] == used[..n][who := u];
      MarksUpdate(used[..n], who, u, i);
    }
  }

  lemma {:induction false} NoMarks(used: seq<set<nat>>, i: nat)
    requires forall who :: 0 <= who < |used| ==> used[who] == {}
    ensures Marks(used, i) == 0
  {
    if used != [] {
      NoMarks(used[..|used| - 1], i);
    }
  }

  lemma {:induction false} SomeWaiter(sels: seq<Selector>, fd: nat)
    ensures Waiters(sels, fd) == 0 <==> forall who :: 0 <= who < |sels| ==> !Counted(sels[who], fd)
  {
    if sels != [] {
      var n := |sels| - 1;
      SomeWaiter(sels[..n], fd);
      assert forall who :: 0 <= who < n ==> sels[..n][who] == sels[who];
    }
  }

  /**
   When alloc_socket finds a slot to take, the threads that are still counted in its select_waiting are those that
   could not mark it when they began; so its assertion fires exactly if there are any.
   */
  lemma TakenSlot(s: Joint, i: nat)
    requires JointInv(s) && i < |s.table.slots| && Table.CanAlloc(s.table.slots[i])
    ensures s.sel.socks[i].waiting == 0 <==> forall who :: 0 <= who < |s.sel.sels| ==> !Counted(s.sel.sels[who], i)
    ensures forall who: nat :: who < |s.sel.sels| && Counted(s.sel.sels[who], i) ==> i in s.missed[who] - s.used[who]
    ensures !s.raced ==> s.sel.socks[i].waiting == 0
  {
    SomeWaiter(s.sel.sels, i);
    assert CountAt(s.sel, i) && MarksOk(s, i) && Table.SlotOk(s.table.slots[i], s.table.holders[i]);
    forall who: nat | who < |s.sel.sels| && Counted(s.sel.sels[who], i) ensures i in s.missed[who] - s.used[who] {
      assert Tried(s, who);
      MarksUpdate(s.used, who, {}, i);
    }
  }

  // ----- every step keeps the invariant -----

  lemma PhaseCounts(s: State, t: State, who: nat, fd: nat)
    requires who < |s.sels| == |t.sels| && |t.socks| == |s.socks| && t.sels == s.sels[who := t.sels[who]]
    requires CountAt(s, fd)
    requires fd < |s.socks| ==>
      t.socks[fd].waiting == s.socks[fd].waiting - One(Counted(s.sels[who], fd)) + One(Counted(t.sels[who], fd))
    ensures CountAt(t, fd)
  {
    WaitersUpdate(s.sels, who, t.sels[who], fd);
  }

  lemma ThreadCounts(s: State, t: State, who: nat, fd: nat)
    requires CountsOk(s) && ThreadStep(s, t, who)
    ensures CountAt(t, fd)
  {
    assert CountAt(s, fd);
    if CountStep(s, t, who) {
      UpCounts(s, t, who, fd);
    } else if UncountStep(s, t, who) {
      DownCounts(s, t, who, fd);
    } else {
      assert t.socks == s.socks;
      PhaseCounts(s, t, who, fd);
    }
  }

  lemma UpCounts(s: State, t: State, who: nat, fd: nat)
    requires CountAt(s, fd) && CountStep(s, t, who)
    ensures CountAt(t, fd)
  {
    PhaseCounts(s, t, who, fd);
  }

  lemma DownCounts(s: State, t: State, who: nat, fd: nat)
    requires CountAt(s, fd) && UncountStep(s, t, who)
    ensures CountAt(t, fd)
  {
    WaitersUpdate(s.sels, who, s.sels[who], fd);
    PhaseCounts(s, t, who, fd);
  }

  lemma SelectCounts(s: State, t: State, fd: nat)
    requires CountsOk(s) && Select.Next(s, t)
    ensures CountAt(t, fd)
  {
    assert CountAt(s, fd);
    if who: nat :| ThreadStep(s, t, who) {
      ThreadCounts(s, t, who, fd);
    } else if NotifyStep(s, t) {
      if s.lock.rest != [] {
        var who := s.lock.rest[0];
        WaitersUpdate(s.sels, who, s.sels[who].(signalled := true), fd);
      }
    }
  }

  /** A step of select leaves the sets of threads that are in it alone. */
  lemma SelectTried(s: Joint, t: Joint, who: nat)
    requires |s.used| == |s.missed| == |s.sel.sels| && Tried(s, who) && SelectStep(s, t)
    ensures |t.sel.sels| == |s.sel.sels| && |t.sel.socks| == |s.sel.socks| && Tried(t, who)
  {
    SameSets(s.sel, t.sel, who);
    if who < |s.sel.sels| && s.sel.sels[who].phase.Outside? {
      assert IsOutside(s, who);
    }
  }

  lemma SameSets(s: State, t: State, who: nat)
    requires Select.Next(s, t)
    ensures |t.sels| == |s.sels| && |t.socks| == |s.socks|
    ensures who < |s.sels| && !s.sels[who].phase.Outside? ==>
      t.sels[who].sets == s.sels[who].sets && t.sels[who].max == s.sels[who].max
  {
    if x: nat :| ThreadStep(s, t, x) {
      ThreadSets(s, t, x, who);
    }
  }

  lemma ThreadSets(s: State, t: State, x: nat, who: nat)
    requires ThreadStep(s, t, x)
    ensures |t.sels| == |s.sels| && |t.socks| == |s.socks|
    ensures who < |s.sels| && !s.sels[who].phase.Outside? ==>
      t.sels[who].sets == s.sels[who].sets && t.sels[who].max == s.sels[who].max
  {
    assert t.sels == s.sels[x := t.sels[x]];
  }

  lemma SelectKeeps(s: Joint, t: Joint)
    requires JointInv(s) && SelectStep(s, t)
    ensures JointInv(t)
  {
    SelectTried(s, t, 0);
    forall fd: nat ensures CountAt(t.sel, fd) {
      SelectCounts(s.sel, t.sel, fd);
    }
    forall who: nat ensures Tried(t, who) {
      SelectTried(s, t, who);
    }
    forall i: nat ensures MarksOk(t, i) {
      assert MarksOk(s, i);
    }
    if !s.raced {
      StepKeeps(s.sel, t.sel);
    }
  }

  /** Steps of the table that leave the selects alone. */
  lemma TableKeeps(s: Joint, t: Joint)
    requires JointInv(s) && Table.Next(s.table, t.table) && t == s.(table := t.table, used := t.used)
    requires |t.used| == |s.used| && |t.table.slots| == |s.table.slots|
    requires forall who: nat :: who < |s.used| && !s.sel.sels[who].phase.Outside? ==> t.used[who] == s.used[who]
    requires forall i: nat :: MarksOk(t, i)
    ensures JointInv(t)
  {
    Table.StepKeeps(s.table, t.table);
    forall who: nat ensures Tried(t, who) {
      assert Tried(s, who);
    }
  }

  lemma CallKeeps(s: Joint, t: Joint, i: nat)
    requires JointInv(s) && CallStep(s, t, i)
    ensures JointInv(t)
  {
    forall j: nat ensures MarksOk(t, j) {
      assert MarksOk(s, j);
    }
    TableKeeps(s, t);
  }

  lemma MarkKeeps(s: Joint, t: Joint, who: nat, i: nat)
    requires JointInv(s) && (MarkStep(s, t, who, i) || UnmarkStep(s, t, who, i))
    ensures JointInv(t)
  {
    forall j: nat ensures MarksOk(t, j) {
      assert MarksOk(s, j);
      MarksUpdate(s.used, who, t.used[who], j);
    }
    TableKeeps(s, t);
  }

  lemma PassedCounted(sel: Selector, fd: nat, k: Kind)
    ensures Passed(sel, fd) && Watches(sel, fd, k) ==> Counted(sel, fd)
  {
    assert k == Read || k == Write || k == Except;
  }

  /** Taking a slot that no one counts on changes nothing for the selects. */
  lemma TakeKeeps(s: Joint, t: Joint, i: nat, c: Table.Conn, b: bool)
    requires JointInv(s) && TakeStep(s, t, i, c, b)
    ensures JointInv(t)
  {
    Table.StepKeeps(s.table, t.table);
    TakenSlot(s, i);
    SomeWaiter(s.sel.sels, i);
    forall fd: nat ensures CountAt(t.sel, fd) {
      assert CountAt(s.sel, fd);
    }
    forall j: nat ensures MarksOk(t, j) {
      assert MarksOk(s, j);
    }
    forall who: nat ensures Tried(t, who) {
      assert Tried(s, who);
    }
    if !s.raced {
      forall who: nat, fd: nat, k | who < |t.sel.sels| && fd < |t.sel.socks| ensures WillWake(t.sel, who, fd, k) {
        assert WillWake(s.sel, who, fd, k);
        PassedCounted(s.sel.sels[who], i, k);
      }
    }
  }

  lemma JointStepKeeps(s: Joint, t: Joint)
    requires JointInv(s) && JointNext(s, t)
    ensures JointInv(t)
  {
    if i: nat :| CallStep(s, t, i) {
      CallKeeps(s, t, i);
    } else if i: nat, c, b :| TakeStep(s, t, i, c, b) {
      TakeKeeps(s, t, i, c, b);
    } else if who: nat, i: nat :| MarkStep(s, t, who, i) {
      MarkKeeps(s, t, who, i);
    } else if who: nat, i: nat :| UnmarkStep(s, t, who, i) {
      MarkKeeps(s, t, who, i);
    } else if SelectStep(s, t) {
      SelectKeeps(s, t);
    } else {
      forall x: nat ensures Tried(t, x) {
        assert Tried(s, x);
      }
      forall i: nat ensures MarksOk(t, i) {
        assert MarksOk(s, i);
      }
    }
  }

  ghost predicate IsJointRun(run: seq<Joint>) {
    0 < |run| && JointInit(run[0]) && forall i :: 0 <= i < |run| - 1 ==> JointNext(run[i], run[i + 1])
  }

  lemma {:induction false} JointRunsKeep(run: seq<Joint>, n: nat)
    requires IsJointRun(run) && n < |run|
    ensures JointInv(run[n])
  {
    if n == 0 {
      var s := run[0];
      Table.InitHolds(s.table);
      Select.InitHolds(s.sel);
      forall fd: nat ensures CountAt(s.sel, fd) && MarksOk(s, fd) {
        NoMarks(s.used, fd);
      }
    } else {
      JointRunsKeep(run, n - 1);
      assert JointNext(run[n - 1], run[n - 1 + 1]);
      JointStepKeeps(run[n - 1], run[n]);
    }
  }

  /**
   In every run up to the first missed slot, no slot with waiting threads is taken, and no wakeup is lost although
   slots are reused.
   */
  lemma NoWaiterOnTakenSlot(run: seq<Joint>, n: nat, i: nat)
    requires IsJointRun(run) && n < |run| && !run[n].raced
    ensures Select.Inv(run[n].sel)
    ensures i < |run[n].table.slots| && Table.CanAlloc(run[n].table.slots[i]) ==>
      i < |run[n].sel.socks| && run[n].sel.socks[i].waiting == 0
  {
    JointRunsKeep(run, n);
    if i < |run[n].table.slots| && Table.CanAlloc(run[n].table.slots[i]) {
      TakenSlot(run[n], i);
    }
  }

  // ----- a slot that is missed -----

  const FIRST := Table.Conn(0, true)
  const SECOND := Table.Conn(1, true)

  /** One slot, and one thread that watches it for reading; `taken` netconns were put into the slot. */
  function Only(slot: Table.Slot, taken: nat, waiting: nat, phase: Phase, missed: bool): Joint {
    var first, second := Table.Handout(FIRST, true), Table.Handout(SECOND, true);
    Joint(Table.State([slot], [slot.fdUsed], if taken == 0 then {} else if taken == 1 then {FIRST} else {FIRST, SECOND},
                      if slot.conn == Some(SECOND) then [first] else if slot.conn == Some(FIRST) || taken == 0 then []
                      else if taken == 1 then [first] else [first, second]),
          State([Sock(0, false, false, waiting)], [Selector(map[Read := {0}], 1, phase, false)],
                if Listed(phase) then [0] else [], Free),
          [{}], [if missed then {0} else {}], missed)
  }

  /** The slot is closed while another thread holds it, select cannot mark it, and it is taken and closed again. */
  function Stage(n: nat): Joint {
    match n
    case 0 => Only(Table.Slot(None, 0, Table.NotPending), 0, 0, Outside, false)
    case 1 => Only(Table.Slot(Some(FIRST), 1, Table.NotPending), 1, 0, Outside, false)
    case 2 => Only(Table.Slot(Some(FIRST), 2, Table.NotPending), 1, 0, Outside, false)
    case 3 => Only(Table.Slot(Some(FIRST), 1, Table.Pending(true)), 1, 0, Outside, false)
    case 4 => Only(Table.Slot(Some(FIRST), 1, Table.Pending(true)), 1, 0, Outside, true)
    case 5 => Only(Table.Slot(None, 0, Table.Pending(true)), 1, 0, Outside, true)
    case 6 => Only(Table.Slot(Some(SECOND), 1, Table.NotPending), 2, 0, Outside, true)
    case 7 => Only(Table.Slot(Some(SECOND), 1, Table.NotPending), 2, 0, Linking, true)
    case 8 => Only(Table.Slot(Some(SECOND), 1, Table.NotPending), 2, 0, Counting(0), true)
    case 9 => Only(Table.Slot(Some(SECOND), 1, Table.NotPending), 2, 1, Counting(1), true)
    case _ => Only(Table.Slot(None, 0, Table.NotPending), 2, 1, Counting(1), true)
  }

  lemma TableStage(n: nat)
    requires n in {0, 1, 2, 4, 5, 9}
    ensures JointNext(Stage(n), Stage(n + 1))
  {
    var s, t := Stage(n), Stage(n + 1);
    assert Marks(s.used, 0) == 0;
    if n == 0 {
      assert TakeStep(s, t, 0, FIRST, false);
    } else if n == 5 {
      assert TakeStep(s, t, 0, SECOND, false);
    } else if n == 1 {
      assert CallStep(s, t, 0);
    } else if n == 4 {
      assert Table.DoneStep(s.table, t.table, 0);
      assert CallStep(s, t, 0);
    } else {
      assert Table.FreeStep(s.table, t.table, 0);
      assert CallStep(s, t, 0);
    }
  }

  lemma SelectStage(n: nat)
    requires n in {3, 6, 7, 8}
    ensures JointNext(Stage(n), Stage(n + 1))
  {
    var s, t := Stage(n), Stage(n + 1);
    if n == 3 {
      assert s.missed[0] + {0} == t.missed[0] == {0};
      assert MissStep(s, t, 0, 0);
    } else {
      if n == 6 {
        assert t.sel == s.sel.(sels := s.sel.sels[0 := Selector(map[Read := {0}], 1, Linking, false)]);
        assert EnterStep(s.sel, t.sel, 0);
      } else if n == 7 {
        assert LinkStep(s.sel, t.sel, 0);
      } else {
        assert CountStep(s.sel, t.sel, 0);
      }
      assert ThreadStep(s.sel, t.sel, 0) && Tried(t, 0);
      assert SelectStep(s, t);
    }
  }

  /** A run at whose end alloc_socket can take a slot with a waiting thread. */
  lemma WaiterOnTakenSlot() returns (run: seq<Joint>)
    ensures IsJointRun(run) && run[|run| - 1] == Stage(10)
    ensures Table.CanAlloc(Stage(10).table.slots[0]) && Stage(10).sel.socks[0].waiting == 1
  {
    run := seq(11, n requires 0 <= n => Stage(n));
    assert JointInit(run[0]);
    forall i | 0 <= i < |run| - 1 ensures JointNext(run[i], run[i + 1]) {
      if i in {3, 6, 7, 8} {
        SelectStage(i);
      } else {
        TableStage(i);
      }
    }
  }
}
