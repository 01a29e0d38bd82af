/**
 The routines behind select (sockets.c): the list of waiting selects, the scan of the descriptor
 sets, event_callback and lwip_select, each as it runs between two steps of other threads. Every run
 of event_callback and of lwip_select is a sequence of steps of the transition system in Select.
 */
module SelectCalls {
  import opened Common
  import opened Select

  // ----- the doubly linked list of waiting selects -----

  class SelectList {
    /** select_cb_list and the links in the entries. */
    var head: Option<nat>
    var next: map<nat, Option<nat>>
    var prev: map<nat, Option<nat>>
    ghost var list: seq<nat>

    /** The links are those of `list`, in both directions. */
    ghost predicate Valid()
      reads this
    {
      && head == At(list, 0)
      && (forall i, j :: 0 <= i < j < |list| ==> list[i] != list[j])
      && (forall i :: 0 <= i < |list| ==> Linked(list, next, prev, i))
    }

    constructor ()
      ensures Valid() && list == []
    {
      head, next, prev, list := None, map[], map[], [];
    }

    /** lwip_link_select_cb: the entry, its own links cleared by the caller, becomes the first. */
    method Link(who: nat)
      requires Valid() && who !in list
      modifies this
      ensures Valid() && list == [who] + old(list)
    {
      ghost var l0 := list;
      prev := prev[who := None];
      next := next[who := head];
      if head.Some? {
        prev := prev[head.value := Some(who)];
      }
      head := Some(who);
      list := [who] + list;
      forall i | 0 <= i < |list| ensures Linked(list, next, prev, i) {
        assert i > 0 ==> list[i] == l0[i - 1] && Linked(l0, old(next), old(prev), i - 1);
      }
    }

    /** lwip_unlink_select_cb: exactly this entry goes, wherever it is; its assertions hold. */
    method Unlink(who: nat)
      requires Valid() && who in list
      modifies this
      ensures Valid() && list == Remove(old(list), who) && who !in list
      ensures exists i :: 0 <= i < |old(list)| && old(list)[i] == who && list == old(list)[..i] + old(list)[i + 1..]
    {
      ghost var i: nat :| i < |list| && list[i] == who;
      assert Linked(list, next, prev, i);
      var n, p := next[who], prev[who];
      ghost var l0, next0, prev0 := list, next, prev;
      if n.Some? {
        prev := prev[n.value := p];
      }
      if head == Some(who) {
        assert p == None;
        head := n;
      } else {
        assert p != None;
        next := next[p.value := n];
      }
      RemoveAt(list, i);
      list := list[..i] + list[i + 1..];
      UnlinkedStays(l0, next0, prev0, i, next, prev);
    }
  }

  ghost function At(list: seq<nat>, i: int): Option<nat> {
    if 0 <= i < |list| then Some(list[i]) else None
  }

  ghost predicate Linked(list: seq<nat>, next: map<nat, Option<nat>>, prev: map<nat, Option<nat>>, i: nat)
    requires i < |list|
  {
    && list[i] in next && next[list[i]] == At(list, i + 1)
    && list[i] in prev && prev[list[i]] == At(list, i - 1)
  }

  lemma {:induction false} RemoveAt(list: seq<nat>, i: nat)
    requires i < |list| && forall j :: 0 <= j < i ==> list[j] != list[i]
    ensures Remove(list, list[i]) == list[..i] + list[i + 1..]
  {
    if i > 0 {
      RemoveAt(list[1..], i - 1);
      assert list[1..][..i - 1] == list[1..i] && list[1..][i..] == list[i + 1..];
    }
  }

  /** Without entry `i`, its neighbours point to each other and all others as before. */
  lemma UnlinkedStays(list: seq<nat>, next: map<nat, Option<nat>>, prev: map<nat, Option<nat>>, i: nat,
                      next': map<nat, Option<nat>>, prev': map<nat, Option<nat>>)
    requires i < |list| && (forall j, k :: 0 <= j < k < |list| ==> list[j] != list[k])
    requires forall j :: 0 <= j < |list| ==> Linked(list, next, prev, j)
    requires prev' == if i + 1 < |list| then prev[list[i + 1] := At(list, i - 1)] else prev
    requires next' == if i > 0 then next[list[i - 1] := At(list, i + 1)] else next
    ensures var r := list[..i] + list[i + 1..]; forall j :: 0 <= j < |r| ==> Linked(r, next', prev', j)
  {
    var r := list[..i] + list[i + 1..];
    forall j | 0 <= j < |r| ensures Linked(r, next', prev', j) {
      var k := if j < i then j else j + 1;
      assert r[j] == list[k] && Linked(list, next, prev, k);
    }
  }

  // ----- event_callback -----

  /** The entry asked for one of the active events of the socket. */
  predicate Asked(sel: Selector, fd: nat, active: set<Kind>) {
    exists k :: k in active && InSet(sel, fd, k)
  }

  /** The entries after those in `seen` were looked at. */
  ghost predicate Woken(before: seq<Selector>, after: seq<Selector>, seen: seq<nat>, fd: nat, active: set<Kind>) {
    && |after| == |before|
    && forall who: nat :: who < |after| ==>
         after[who] == if who in seen && Asked(before[who], fd, active) then before[who].(signalled := true)
                       else before[who]
  }

  /** A sequence of steps of the transition system. */
  ghost predicate IsPath(path: seq<State>, s: State, t: State) {
    && path != [] && path[0] == s && path[|path| - 1] == t
    && forall i :: 0 <= i < |path| - 1 ==> Next(path[i], path[i + 1])
  }

  lemma PathStep(path: seq<State>, s: State, t: State, u: State)
    requires IsPath(path, s, t) && Next(t, u)
    ensures IsPath(path + [u], s, u)
  {
    var p := path + [u];
    forall i | 0 <= i < |p| - 1 ensures Next(p[i], p[i + 1]) {
      assert i < |path| - 1 ==> Next(path[i], path[i + 1]);
    }
  }

  /** A thread's step at the end of a path. */
  lemma ThreadPath(path: seq<State>, s0: State, s: State, t: State, who: nat)
    requires IsPath(path, s0, s) && Inv(s) && ThreadStep(s, t, who)
    ensures Inv(t) && IsPath(path + [t], s0, t)
  {
    assert Next(s, t);
    StepKeeps(s, t);
    PathStep(path, s0, s, t);
  }

  lemma {:induction false} JoinPaths(a: seq<State>, b: seq<State>, s: State, t: State, u: State)
    requires IsPath(a, s, t) && IsPath(b, t, u)
    ensures IsPath(a + b[1..], s, u)
  {
    var p := a + b[1..];
    forall i | 0 <= i < |p| - 1 ensures Next(p[i], p[i + 1]) {
      if i < |a| - 1 {
        assert Next(a[i], a[i + 1]);
      } else {
        assert Next(b[i - |a| + 1], b[i - |a| + 2]);
      }
    }
  }

  /** What happens around a thread in select: the events raised in each gap, and which descriptors are open then. */
  datatype World = World(events: seq<seq<(nat, Event)>>, open: (nat, nat) -> bool, lastdata: nat -> bool)

  /** Why select fails on a descriptor: it is no open socket, or its u8_t counter is full. */
  ghost predicate Broken(s: State, sel: Selector, world: World, n: nat, fd: nat) {
    WatchesAny(sel, fd) && (fd < |s.socks| && world.open(n, fd) ==> s.socks[fd].waiting >= 255)
  }

  ghost predicate SomeBroken(path: seq<State>, sel: Selector, world: World) {
    exists i, n, fd :: 0 <= i < |path| && Broken(path[i], sel, world, n, fd)
  }

  /** Why select stops waiting: the second scan found something, or it was signalled; if `quiet`, neither. */
  ghost predicate Answered(s: State, who: nat, quiet: bool) {
    && who < |s.sels|
    && match s.sels[who].phase
       case Rescanning(_, found) => found && !quiet
       case Blocked => s.sels[who].signalled != quiet
       case _ => false
  }

  ghost predicate SomeAnswered(path: seq<State>, who: nat, quiet: bool) {
    exists i :: 0 <= i < |path| && Answered(path[i], who, quiet)
  }

  /** What was seen on a path is seen on a longer one. */
  lemma SeenLater(path: seq<State>, path': seq<State>, who: nat, quiet: bool, sel: Selector, world: World)
    requires path <= path'
    ensures SomeBroken(path, sel, world) ==> SomeBroken(path', sel, world)
    ensures SomeAnswered(path, who, quiet) ==> SomeAnswered(path', who, quiet)
  {
    if SomeBroken(path, sel, world) {
      var i, n, fd :| 0 <= i < |path| && Broken(path[i], sel, world, n, fd);
      assert Broken(path'[i], sel, world, n, fd);
    }
    if SomeAnswered(path, who, quiet) {
      var i :| 0 <= i < |path| && Answered(path[i], who, quiet);
      assert Answered(path'[i], who, quiet);
    }
  }

  /** The last state of a path is on it. */
  lemma SeenNow(path: seq<State>, s0: State, s: State, sel: Selector, world: World, n: nat, fd: nat)
    requires IsPath(path, s0, s) && Broken(s, sel, world, n, fd)
    ensures SomeBroken(path, sel, world)
  {
    assert Broken(path[|path| - 1], sel, world, n, fd);
  }

  lemma AnsweredNow(path: seq<State>, s0: State, s: State, who: nat, quiet: bool)
    requires IsPath(path, s0, s) && Answered(s, who, quiet)
    ensures SomeAnswered(path, who, quiet)
  {
    assert Answered(path[|path| - 1], who, quiet);
  }

  /** A thread that is counted in select_waiting finds it above 0. */
  lemma CountedWaits(s: State, who: nat, fd: nat)
    requires Inv(s) && who < |s.sels| && fd < |s.socks| && Counted(s.sels[who], fd)
    ensures s.socks[fd].waiting > 0
  {
    WaitersUpdate(s.sels, who, s.sels[who], fd);
  }

  /** Nothing that a blocked thread watches is ready, unless it was signalled. */
  lemma NothingReady(s: State, who: nat, sel: Selector)
    requires Inv(s) && s.lock == Free && who < |s.sels| && s.sels[who].phase.Blocked? && !s.sels[who].signalled
    requires s.sels[who].sets == sel.sets && s.sels[who].max == sel.max
    ensures forall fd: nat, k :: Watches(sel, fd, k) ==> fd < |s.socks| && !Ready(s.socks[fd], k)
  {
    forall fd: nat, k | Watches(sel, fd, k) ensures fd < |s.socks| && !Ready(s.socks[fd], k) {
      assert Watches(s.sels[who], fd, k);
      assert k == Read || k == Write || k == Except;
      assert Passed(s.sels[who], fd) && WatchesAny(s.sels[who], fd);
      assert WillWake(s, who, fd, k);
    }
  }

  /** `fd` is ready for `k`, and every select that waits for that is signalled. */
  ghost predicate AllWoken(s: State, fd: nat, k: Kind) {
    && fd < |s.socks| && Ready(s.socks[fd], k)
    && forall who: nat :: who < |s.sels| && s.sels[who].phase.Blocked? && Watches(s.sels[who], fd, k) ==>
         s.sels[who].signalled
  }

  /** One of the three sets has `fd` in it, and it is ready for that. */
  ghost predicate WantsReady(sel: Selector, fd: nat, sock: Sock) {
    || (Read in sel.sets && fd in sel.sets[Read] && sock.rcvevent > 0)
    || (Write in sel.sets && fd in sel.sets[Write] && sock.sendevent)
    || (Except in sel.sets && fd in sel.sets[Except] && sock.errevent)
  }

  lemma WokenWanted(before: seq<Selector>, after: seq<Selector>, seen: seq<nat>, fd: nat, sock: Sock)
    requires Woken(before, after, seen, fd, Active(sock))
    ensures forall who :: 0 <= who < |after| && after[who].signalled && !before[who].signalled ==>
      who in seen && WantsReady(after[who], fd, sock)
  {
    forall who | 0 <= who < |after| && after[who].signalled && !before[who].signalled
      ensures who in seen && WantsReady(after[who], fd, sock)
    {
      var k :| k in Active(sock) && InSet(before[who], fd, k);
      assert k == Read || k == Write || k == Except;
    }
  }

  lemma ReadyWakes(s: State, fd: nat, k: Kind)
    requires Inv(s) && s.lock == Free && fd < |s.socks| && Ready(s.socks[fd], k)
    ensures AllWoken(s, fd, k)
  {
    forall who: nat | who < |s.sels| && s.sels[who].phase.Blocked? && Watches(s.sels[who], fd, k)
      ensures s.sels[who].signalled
    {
      assert WillWake(s, who, fd, k);
    }
  }

  lemma EventWakes(was: Sock, t: State, fd: nat, e: Event)
    requires Inv(t) && t.lock == Free && fd < |t.socks| && t.socks[fd] == Apply(was, e)
    ensures e.RcvPlus? && 0 <= was.rcvevent < 0x7FFF ==> AllWoken(t, fd, Read)
    ensures (e.SendPlus? ==> AllWoken(t, fd, Write)) && (e.Error? ==> AllWoken(t, fd, Except))
  {
    forall k | Ready(t.socks[fd], k) ensures AllWoken(t, fd, k) {
      ReadyWakes(t, fd, k);
    }
  }

  /** What one event amounts to. */
  lemma OneAmounts(s: State, t: State, fd: nat, e: Event)
    requires EventStep(s, t, fd, e)
    ensures (e.RcvPlus? ==> BelowWrap(s, fd)) ==> Amounts(s.socks[fd], t.socks[fd], [Some(e)])
  {
    NothingAmounts(s.socks[fd]);
    if e.RcvPlus? ==> BelowWrap(s, fd) {
      AmountsStep(s.socks[fd], s, t, fd, [], Some(e));
      assert [] + [Some(e)] == [Some(e)];
    }
  }

  class Layer {
    var socks: seq<Sock>
    var sels: seq<Selector>
    var list: seq<nat>
    ghost var lock: Lock

    ghost function View(): State
      reads this
    {
      State(socks, sels, list, lock)
    }

    /** The switch over the event (sockets.c:2561-2587), and whether waiting selects are looked at after it. */
    static method Switch(sock: Sock, e: Event) returns (sock': Sock, checkWaiters: bool)
      ensures sock' == Apply(sock, e) && checkWaiters == ChecksWaiters(sock, e)
    {
      sock', checkWaiters := sock, true;
      match e {
        case RcvPlus =>
          sock' := sock.(rcvevent := if sock.rcvevent == 0x7FFF then -0x8000 else sock.rcvevent + 1);
          if sock'.rcvevent > 1 {
            checkWaiters := false;
          }
        case RcvMinus =>
          sock' := sock.(rcvevent := sock.rcvevent - 1);
          checkWaiters := false;
        case SendPlus =>
          if sock.sendevent {
            checkWaiters := false;
          }
          sock' := sock.(sendevent := true);
        case SendMinus =>
          sock' := sock.(sendevent := false);
          checkWaiters := false;
        case Error =>
          sock' := sock.(errevent := true);
      }
    }

    /**
     event_callback with the core lock held: the event takes effect, and if somebody waits on the
     socket and the event may have made it ready, exactly the listed selects that asked for an active
     event are signalled.
     */
    method EventCallback(fd: nat, e: Event) returns (ghost path: seq<State>)
      requires Inv(View()) && lock == Free && fd < |socks| && (e.RcvMinus? ==> socks[fd].rcvevent > -0x8000)
      modifies this
      ensures Inv(View()) && lock == Free && list == old(list) && IsPath(path, old(View()), View())
      ensures socks == old(socks)[fd := Apply(old(socks)[fd], e)]
      ensures var checks := socks[fd].waiting > 0 && ChecksWaiters(old(socks)[fd], e);
        Woken(old(sels), sels, if checks then list else [], fd, Active(socks[fd]))
      ensures (e.RcvPlus? ==> old(socks)[fd].rcvevent < 0x7FFF) ==> Amounts(old(socks)[fd], socks[fd], [Some(e)])
      ensures e.RcvPlus? && 0 <= old(socks)[fd].rcvevent < 0x7FFF ==> AllWoken(View(), fd, Read)
      ensures (e.SendPlus? ==> AllWoken(View(), fd, Write)) && (e.Error? ==> AllWoken(View(), fd, Except))
      ensures forall who :: 0 <= who < |sels| && sels[who].signalled && !old(sels)[who].signalled ==>
        who in list && WantsReady(sels[who], fd, socks[fd])
    {
      ghost var s0 := View();
      var sock, checkWaiters := Switch(socks[fd], e);
      socks := socks[fd := sock];
      var checks := sock.waiting > 0 && checkWaiters;
      lock := if checks then Notifying(fd, Active(sock), list) else Free;
      assert EventStep(s0, View(), fd, e);
      EventKeeps(s0, View(), fd, e);
      OneAmounts(s0, View(), fd, e);
      path := [s0, View()];
      if checks {
        path := CheckWaiters(fd, Active(sock), path, s0);
      }
      EventWakes(s0.socks[fd], View(), fd, e);
      WokenWanted(s0.sels, sels, if checks then list else [], fd, socks[fd]);
    }

    /** One entry of the list in select_check_waiters. */
    method CheckWaiter(fd: nat, active: set<Kind>, i: nat,
                       ghost path: seq<State>, ghost s0: State, ghost sels0: seq<Selector>)
      returns (ghost path': seq<State>)
      requires i < |list| && lock == Notifying(fd, active, list[i..]) && Inv(View()) && IsPath(path, s0, View())
      requires Woken(sels0, sels, list[..i], fd, active)
      modifies this`sels, this`lock
      ensures lock == Notifying(fd, active, list[i + 1..]) && Inv(View()) && IsPath(path', s0, View())
      ensures Woken(sels0, sels, list[..i + 1], fd, active)
    {
      var who := list[i];
      ghost var s := View();
      assert who in list && who < |sels|;
      if !sels[who].signalled && Asked(sels[who], fd, active) {
        sels := sels[who := sels[who].(signalled := true)];
      }
      lock := Notifying(fd, active, list[i + 1..]);
      assert list[i..][1..] == list[i + 1..];
      assert NotifyStep(s, View());
      NotifyKeeps(s, View());
      PathStep(path, s0, s, View());
      path' := path + [View()];
      assert list[..i + 1] == list[..i] + [who];
    }

    /** select_check_waiters, one pass over the list. */
    method CheckWaiters(fd: nat, active: set<Kind>, ghost path: seq<State>, ghost s0: State)
      returns (ghost path': seq<State>)
      requires Inv(View()) && lock == Notifying(fd, active, list) && IsPath(path, s0, View())
      modifies this`sels, this`lock
      ensures Inv(View()) && lock == Free && IsPath(path', s0, View())
      ensures Woken(old(sels), sels, list, fd, active)
    {
      path' := path;
      var i := 0;
      ghost var sels0 := sels;
      while i < |list|
        invariant i <= |list| && lock == Notifying(fd, active, list[i..]) && Inv(View()) && IsPath(path', s0, View())
        invariant Woken(sels0, sels, list[..i], fd, active)
      {
        path' := CheckWaiter(fd, active, i, path', s0, sels0);
        i := i + 1;
      }
      ghost var s := View();
      lock := Free;
      assert NotifyStep(s, View());
      NotifyKeeps(s, View());
      PathStep(path', s0, s, View());
      path' := path' + [View()];
      assert list[..|list|] == list;
    }

    /** What a scan reports for one descriptor: an event counter, or for reading also unread lastdata. */
    predicate Hit(sel: Selector, fd: nat, k: Kind, lastdata: nat -> bool)
      reads this
    {
      fd < |socks| && Watches(sel, fd, k) && (Ready(socks[fd], k) || (k == Read && lastdata(fd)))
    }

    /** `out` holds the descriptors below `i` that a scan reports. */
    ghost predicate Scanned(out: set<nat>, i: nat, sel: Selector, k: Kind, lastdata: nat -> bool)
      reads this
    {
      forall fd: nat :: fd in out <==> fd < i && Hit(sel, fd, k, lastdata)
    }

    /** One of the three tests of a round: FD_SET and the count. */
    method Note(out: set<nat>, i: nat, hit: bool, n: nat,
                ghost sel: Selector, ghost k: Kind, ghost lastdata: nat -> bool)
      returns (out': set<nat>, n': nat)
      requires Scanned(out, i, sel, k, lastdata) && hit == Hit(sel, i, k, lastdata)
      ensures Scanned(out', i + 1, sel, k, lastdata) && n' - n == |out'| - |out|
    {
      out', n' := out, n;
      if hit {
        out', n' := out + {i}, n + 1;
      }
    }

    /**
     lwip_selscan: -1 if a watched descriptor is no open socket, otherwise exactly the ready ones and their
     number.
     */
    method SelScan(sel: Selector, open: nat -> bool, lastdata: nat -> bool)
      returns (nready: int, rset: set<nat>, wset: set<nat>, xset: set<nat>)
      ensures nready == -1 <==> exists fd: nat :: fd < sel.max && WatchesAny(sel, fd) && !(fd < |socks| && open(fd))
      ensures nready >= -1
      ensures nready >= 0 ==> nready == |rset| + |wset| + |xset|
      ensures nready >= 0 ==> Scanned(rset, sel.max, sel, Read, lastdata)
      ensures nready >= 0 ==> Scanned(wset, sel.max, sel, Write, lastdata)
      ensures nready >= 0 ==> Scanned(xset, sel.max, sel, Except, lastdata)
      ensures nready >= 0 ==> forall fd: nat :: fd in rset <==>
        Read in sel.sets && fd in sel.sets[Read] && fd < sel.max && fd < |socks|
        && (socks[fd].rcvevent > 0 || lastdata(fd))
      ensures nready >= 0 ==> forall fd: nat :: fd in wset <==>
        Write in sel.sets && fd in sel.sets[Write] && fd < sel.max && fd < |socks| && socks[fd].sendevent
      ensures nready >= 0 ==> forall fd: nat :: fd in xset <==>
        Except in sel.sets && fd in sel.sets[Except] && fd < sel.max && fd < |socks| && socks[fd].errevent
    {
      var n: nat := 0;
      nready, rset, wset, xset := 0, {}, {}, {};
      var i: nat := 0;
      while i < sel.max
        invariant i <= sel.max && n == |rset| + |wset| + |xset|
        invariant forall fd: nat :: fd < i && WatchesAny(sel, fd) ==> fd < |socks| && open(fd)
        invariant Scanned(rset, i, sel, Read, lastdata) && Scanned(wset, i, sel, Write, lastdata)
        invariant Scanned(xset, i, sel, Except, lastdata)
      {
        if WatchesAny(sel, i) && !(i < |socks| && open(i)) {
          return -1, {}, {}, {};
        }
        rset, n :=
          Note(rset, i, Watches(sel, i, Read) && (lastdata(i) || socks[i].rcvevent > 0), n, sel, Read, lastdata);
        wset, n := Note(wset, i, Watches(sel, i, Write) && socks[i].sendevent, n, sel, Write, lastdata);
        xset, n := Note(xset, i, Watches(sel, i, Except) && socks[i].errevent, n, sel, Except, lastdata);
        i := i + 1;
      }
      nready := n;
    }

    // ----- lwip_select -----

    /** Thread `who` watches `sets` below `max` and is at `phase`; `path` leads there from `s0`. */
    ghost predicate Stands(who: nat, sets: map<Kind, set<nat>>, max: nat, phase: Phase, path: seq<State>, s0: State)
      reads this
    {
      && Inv(View()) && lock == Free && IsPath(path, s0, View())
      && who < |sels| && sels[who].sets == sets && sels[who].max == max && sels[who].phase == phase
    }

    /**
     What other threads and the stack do between two sections of thread `who`: here, raise events. Only what is
     ensured here is used, which holds for all their steps.
     */
    method Others(who: nat, world: World, n: nat, ghost phase: Phase, ghost path: seq<State>, ghost s0: State)
      returns (ghost path': seq<State>)
      requires who < |sels| && Stands(who, sels[who].sets, sels[who].max, phase, path, s0)
      modifies this
      ensures |sels| == |old(sels)| && Stands(who, old(sels)[who].sets, old(sels)[who].max, phase, path', s0)
      ensures path <= path'
    {
      path' := path;
      if n < |world.events| {
        for i := 0 to |world.events[n]|
          invariant |sels| == |old(sels)| && Stands(who, old(sels)[who].sets, old(sels)[who].max, phase, path', s0)
          invariant path <= path'
        {
          var (fd, e) := world.events[n][i];
          if fd < |socks| && socks[fd].rcvevent > -0x8000 {
            ghost var s := View();
            ghost var more := EventCallback(fd, e);
            JoinPaths(path', more, s0, s, View());
            path' := path' + more[1..];
          }
        }
      }
    }

    /** A section that changes the phase of the thread only. */
    method Go(who: nat, phase: Phase, ghost path: seq<State>, ghost s0: State) returns (ghost path': seq<State>)
      requires who < |sels| && Stands(who, sels[who].sets, sels[who].max, sels[who].phase, path, s0)
      requires ThreadStep(View(), WithPhase(View(), who, phase), who)
      modifies this`sels
      ensures |sels| == |old(sels)| && Stands(who, old(sels)[who].sets, old(sels)[who].max, phase, path', s0)
      ensures sels[who].signalled == old(sels)[who].signalled && path <= path'
    {
      ghost var s := View();
      sels := sels[who := sels[who].(phase := phase)];
      assert View() == WithPhase(s, who, phase);
      ThreadPath(path, s0, s, View(), who);
      path' := path + [View()];
    }

    /** A section that changes select_waiting of `fd` and the phase. */
    method Count(who: nat, fd: nat, waiting: nat, phase: Phase, ghost path: seq<State>, ghost s0: State)
      returns (ghost path': seq<State>)
      requires who < |sels| && Stands(who, sels[who].sets, sels[who].max, sels[who].phase, path, s0) && fd < |socks|
      requires ThreadStep(View(), WithPhase(Recount(View(), fd, waiting), who, phase), who)
      modifies this`sels, this`socks
      ensures |sels| == |old(sels)| && Stands(who, old(sels)[who].sets, old(sels)[who].max, phase, path', s0)
      ensures path <= path'
    {
      ghost var s := View();
      socks := socks[fd := socks[fd].(waiting := waiting)];
      sels := sels[who := sels[who].(phase := phase)];
      assert View() == WithPhase(Recount(s, fd, waiting), who, phase);
      ThreadPath(path, s0, s, View(), who);
      path' := path + [View()];
    }

    /** A new entry, and lwip_link_select_cb. */
    method Enter(who: nat, sets: map<Kind, set<nat>>, max: nat, world: World, ghost path: seq<State>, ghost s0: State)
      returns (ghost path': seq<State>)
      requires Inv(View()) && lock == Free && IsPath(path, s0, View()) && who < |sels| && sels[who].phase.Outside?
      modifies this
      ensures |sels| == |old(sels)| && Stands(who, sets, max, Counting(0), path', s0)
    {
      ghost var s := View();
      sels := sels[who := Selector(sets, max, Linking, false)];
      assert EnterStep(s, View(), who);
      ThreadPath(path, s0, s, View(), who);
      path' := Others(who, world, 0, Linking, path + [View()], s0);
      s := View();
      sels, list := sels[who := sels[who].(phase := Counting(0))], [who] + list;
      assert LinkStep(s, View(), who);
      ThreadPath(path', s0, s, View(), who);
      path' := path' + [View()];
    }

    /** sockets.c:2074-2109: raise select_waiting; an overflow of the u8_t or a socket that is gone ends it. */
    method RaiseAll(who: nat, sets: map<Kind, set<nat>>, max: nat, world: World, n0: nat,
                    ghost path: seq<State>, ghost s0: State)
      returns (ok: bool, upto: nat, n: nat, ghost path': seq<State>)
      requires Stands(who, sets, max, Counting(0), path, s0)
      modifies this
      ensures |sels| == |old(sels)|
      ensures Stands(who, sets, max, if ok then Rescanning(0, false) else Uncounting(0, upto), path', s0)
      ensures !ok ==> Broken(View(), Selector(sets, max, Outside, false), world, n, upto)
    {
      var i: nat := 0;
      path', n, upto := path, n0, max;
      while i < max
        invariant i <= max && |sels| == |old(sels)| && Stands(who, sets, max, Counting(i), path', s0)
      {
        n := n + 1;
        path' := Others(who, world, n, Counting(i), path', s0);
        if WatchesAny(sels[who], i) {
          if i < |socks| && world.open(n, i) && socks[i].waiting < 255 {
            path' := Count(who, i, socks[i].waiting + 1, Counting(i + 1), path', s0);
          } else {
            path' := Go(who, Uncounting(0, i), path', s0);
            return false, i, n, path';
          }
        } else {
          path' := Go(who, Counting(i + 1), path', s0);
        }
        i := i + 1;
      }
      path' := Go(who, Rescanning(0, false), path', s0);
      ok := true;
    }

    /** One socket of the second scan; `gone` if it is not open. */
    method RescanOne(who: nat, i: nat, found: bool, world: World, n: nat, ghost path: seq<State>, ghost s0: State)
      returns (gone: bool, found': bool, ghost path': seq<State>)
      requires who < |sels| && i < sels[who].max
      requires Stands(who, sels[who].sets, sels[who].max, Rescanning(i, found), path, s0)
      modifies this`sels
      ensures |sels| == |old(sels)|
      ensures Stands(who, old(sels)[who].sets, old(sels)[who].max,
                     if gone then Uncounting(0, sels[who].max) else Rescanning(i + 1, found'), path', s0)
      ensures gone ==> Broken(View(), sels[who], world, n, i)
    {
      gone, found' := false, found;
      var sel := sels[who];
      if !WatchesAny(sel, i) {
        path' := Go(who, Rescanning(i + 1, found), path, s0);
      } else if !(i < |socks| && world.open(n, i)) {
        gone := true;
        path' := Go(who, Uncounting(0, sel.max), path, s0);
      } else {
        if Watches(sel, i, Read) && (world.lastdata(i) || socks[i].rcvevent > 0) {
          found' := true;
        }
        if Watches(sel, i, Write) && socks[i].sendevent {
          found' := true;
        }
        if Watches(sel, i, Except) && socks[i].errevent {
          found' := true;
        }
        path' := Go(who, Rescanning(i + 1, found'), path, s0);
      }
    }

    /** The second scan, and the wait if it has found nothing. */
    method Rescan(who: nat, sets: map<Kind, set<nat>>, max: nat, world: World, n0: nat,
                  ghost path: seq<State>, ghost s0: State)
      returns (gone: bool, waits: bool, n: nat, ghost path': seq<State>)
      requires Stands(who, sets, max, Rescanning(0, false), path, s0)
      modifies this
      ensures |sels| == |old(sels)| && Stands(who, sets, max, if waits then Blocked else Uncounting(0, max), path', s0)
      ensures gone ==> !waits && SomeBroken(path', Selector(sets, max, Outside, false), world)
      ensures !gone && !waits ==> SomeAnswered(path', who, false)
    {
      var i: nat, found := 0, false;
      path', n, gone, waits := path, n0, false, false;
      while i < max
        invariant i <= max && |sels| == |old(sels)| && Stands(who, sets, max, Rescanning(i, found), path', s0)
      {
        n := n + 1;
        path' := Others(who, world, n, Rescanning(i, found), path', s0);
        gone, found, path' := RescanOne(who, i, found, world, n, path', s0);
        if gone {
          SeenNow(path', s0, View(), Selector(sets, max, Outside, false), world, n, i);
          return;
        }
        i := i + 1;
      }
      if found {
        AnsweredNow(path', s0, View(), who, false);
      }
      ghost var before := path';
      path' := Go(who, if found then Uncounting(0, max) else Blocked, path', s0);
      SeenLater(before, path', who, false, sels[who], world);
      waits := !found;
    }

    /** sockets.c:2139-2161: lower select_waiting again; the assertion that it is not 0 holds. */
    method LowerAll(who: nat, sets: map<Kind, set<nat>>, max: nat, upto: nat, world: World, n0: nat,
                    ghost path: seq<State>, ghost s0: State)
      returns (n: nat, ghost path': seq<State>)
      requires Stands(who, sets, max, Uncounting(0, upto), path, s0)
      modifies this
      ensures |sels| == |old(sels)| && Stands(who, sets, max, Unlinking, path', s0) && path <= path'
    {
      var i: nat := 0;
      path', n := path, n0;
      while i < upto
        invariant i <= upto && |sels| == |old(sels)| && Stands(who, sets, max, Uncounting(i, upto), path', s0)
        invariant path <= path'
      {
        n := n + 1;
        path' := Others(who, world, n, Uncounting(i, upto), path', s0);
        if WatchesAny(sels[who], i) && i < |socks| {
          CountedWaits(View(), who, i);
          assert socks[i].waiting > 0;
          path' := Count(who, i, socks[i].waiting - 1, Uncounting(i + 1, upto), path', s0);
        } else {
          path' := Go(who, Uncounting(i + 1, upto), path', s0);
        }
        i := i + 1;
      }
      path' := Go(who, Unlinking, path', s0);
    }

    /** lwip_unlink_select_cb. */
    method Leave(who: nat, world: World, n: nat, ghost path: seq<State>, ghost s0: State)
      returns (ghost path': seq<State>)
      requires who < |sels| && Stands(who, sels[who].sets, sels[who].max, Unlinking, path, s0)
      modifies this
      ensures |sels| == |old(sels)| && Stands(who, old(sels)[who].sets, old(sels)[who].max, Outside, path', s0)
      ensures path <= path'
    {
      path' := Others(who, world, n, Unlinking, path, s0);
      ghost var s := View();
      sels, list := sels[who := sels[who].(phase := Outside)], Remove(list, who);
      assert UnlinkStep(s, View(), who);
      ThreadPath(path', s0, s, View(), who);
      path' := path' + [View()];
    }

    /** The rest of the call once nothing is waited for any more. */
    method Finish(who: nat, sets: map<Kind, set<nat>>, max: nat, upto: nat, world: World, n0: nat,
                  ghost path: seq<State>, ghost s0: State)
      returns (n: nat, ghost path': seq<State>)
      requires Stands(who, sets, max, Uncounting(0, upto), path, s0)
      modifies this
      ensures |sels| == |old(sels)| && Stands(who, sets, max, Outside, path', s0) && path <= path'
    {
      n, path' := LowerAll(who, sets, max, upto, world, n0, path, s0);
      n := n + 1;
      path' := Leave(who, world, n, path', s0);
    }

    /**
     lwip_select behind its first scan, which found nothing: wait for an event on the list. `quiet` if the timeout
     ran out; a call without a timeout that nobody has signalled is still `blocked`.
     */
    method WaitForEvent(who: nat, sets: map<Kind, set<nat>>, max: nat, forever: bool, world: World)
      returns (failed: bool, quiet: bool, blocked: bool, n: nat, ghost path: seq<State>)
      requires Inv(View()) && lock == Free && who < |sels| && sels[who].phase.Outside?
      modifies this
      ensures |sels| == |old(sels)|
      ensures Stands(who, sets, max, if blocked then Blocked else Outside, path, old(View()))
      ensures blocked ==> forever && !sels[who].signalled
      ensures failed ==> !blocked && SomeBroken(path, Selector(sets, max, Outside, false), world)
      ensures quiet ==> !failed && (blocked || !forever)
      ensures !failed && !blocked ==> SomeAnswered(path, who, quiet)
    {
      ghost var s0 := View();
      ghost var sel := Selector(sets, max, Outside, false);
      path := Enter(who, sets, max, world, [s0], s0);
      quiet, blocked := false, false;
      var ok, upto;
      ok, upto, n, path := RaiseAll(who, sets, max, world, 0, path, s0);
      failed := !ok;
      if ok {
        upto := max;
        var waits;
        failed, waits, n, path := Rescan(who, sets, max, world, n, path, s0);
        if waits {
          n := n + 1;
          path := Others(who, world, n, Blocked, path, s0);
          quiet := !sels[who].signalled;
          if quiet && forever {
            blocked := true;
            return;
          }
          AnsweredNow(path, s0, View(), who, quiet);
          ghost var before := path;
          path := Go(who, Uncounting(0, max), path, s0);
          SeenLater(before, path, who, quiet, sel, world);
        }
      } else {
        SeenNow(path, s0, View(), sel, world, n, upto);
      }
      ghost var before := path;
      n, path := Finish(who, sets, max, upto, world, n, path, s0);
      SeenLater(before, path, who, quiet, sel, world);
    }

    /** lwip_selscan at the end of a path. */
    method ScanNow(sel: Selector, n: nat, world: World, ghost path: seq<State>, ghost s0: State)
      returns (nready: int, rset: set<nat>, wset: set<nat>, xset: set<nat>)
      requires IsPath(path, s0, View())
      ensures nready >= 0 ==> nready == |rset| + |wset| + |xset|
      ensures nready >= 0 ==> Scanned(rset, sel.max, sel, Read, world.lastdata)
      ensures nready >= 0 ==> Scanned(wset, sel.max, sel, Write, world.lastdata)
      ensures nready >= 0 ==> Scanned(xset, sel.max, sel, Except, world.lastdata)
      ensures nready < 0 ==> nready == -1 && SomeBroken(path, sel, world)
    {
      nready, rset, wset, xset := SelScan(sel, (fd: nat) => world.open(n, fd), world.lastdata);
      if nready == -1 {
        ghost var fd: nat :| fd < sel.max && WatchesAny(sel, fd) && !(fd < |socks| && world.open(n, fd));
        SeenNow(path, s0, View(), sel, world, n, fd);
      }
    }

    /**
     lwip_select behind the check of its arguments. Its run, with what others do in between, is a run of the
     transition system. A call that is left waiting has nothing to report; one that returns a number reports
     exactly what is ready then, unless it is `quiet`: its timeout ran out before anyone signalled it. It finds
     nothing only if it polls or was answered, and fails only on a descriptor that is not open or whose counter is
     full.
     */
    method DoSelect(who: nat, sets: map<Kind, set<nat>>, max: nat, poll: bool, forever: bool, world: World)
      returns (nready: int, rset: set<nat>, wset: set<nat>, xset: set<nat>,
               quiet: bool, blocked: bool, ghost path: seq<State>)
      requires Inv(View()) && lock == Free && who < |sels| && sels[who].phase.Outside?
      modifies this
      ensures Inv(View()) && lock == Free && IsPath(path, old(View()), View()) && |sels| == |old(sels)|
      ensures sels[who].phase == if blocked then Blocked else Outside
      ensures blocked ==> forever && !poll && forall fd: nat, k ::
        Watches(Selector(sets, max, Outside, false), fd, k) ==> fd < |socks| && !Ready(socks[fd], k)
      ensures !blocked && nready >= 0 ==> nready == |rset| + |wset| + |xset|
      ensures !blocked && nready >= 0 && !quiet ==>
        var sel := Selector(sets, max, Outside, false);
        && Scanned(rset, max, sel, Read, world.lastdata) && Scanned(wset, max, sel, Write, world.lastdata)
        && Scanned(xset, max, sel, Except, world.lastdata)
      ensures !blocked && nready == 0 ==> poll || SomeAnswered(path, who, quiet)
      ensures !blocked && quiet ==> nready == 0 && !forever && !poll
      ensures !blocked && nready < 0 ==>
        nready == -1 && SomeBroken(path, Selector(sets, max, Outside, false), world)
    {
      quiet, blocked, path := false, false, [View()];
      var sel := Selector(sets, max, Outside, false);
      nready, rset, wset, xset := ScanNow(sel, 0, world, path, View());
      if nready != 0 || poll {
        return;
      }
      var failed, n;
      failed, quiet, blocked, n, path := WaitForEvent(who, sets, max, forever, world);
      if blocked {
        NothingReady(View(), who, sel);
      } else if failed {
        nready := -1;
      } else if !quiet {
        nready, rset, wset, xset := ScanNow(sel, n, world, path, old(View()));
      }
    }
  }
}
