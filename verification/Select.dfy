/**
 lwip_select against event_callback, with LWIP_TCPIP_CORE_LOCKING.

 Threads in select, tasks raising events and the list of waiting selects are one transition system.
 A step is one SYS_ARCH_PROTECT section, or one entry handled by select_check_waiters, which runs
 with the core lock held. Linking into and unlinking from the list need the core lock.
 */
module Select {
  import opened Common

  /** The event fields of struct lwip_sock; `rcvevent` is an s16_t. */
  datatype Sock = Sock(rcvevent: int, sendevent: bool, errevent: bool, waiting: nat)

  datatype Kind = Read | Write | Except

  predicate Ready(sock: Sock, k: Kind) {
    match k
    case Read => sock.rcvevent > 0
    case Write => sock.sendevent
    case Except => sock.errevent
  }

  /** Where a thread is in lwip_select, from an empty first scan to the unlinking of its entry. */
  datatype Phase =
    | Outside
    | Linking
    | Counting(next: nat)                  // raising select_waiting, sockets.c:2074-2109
    | Rescanning(next: nat, found: bool)   // the second lwip_selscan, sockets.c:2114
    | Blocked                              // in sys_arch_sem_wait, sockets.c:2131
    | Uncounting(next: nat, upto: nat)     // lowering select_waiting, sockets.c:2139-2161
    | Unlinking

  /** A thread with the sets it passed to select; `signalled` is sem_signalled of its list entry. */
  datatype Selector = Selector(sets: map<Kind, set<nat>>, max: nat, phase: Phase, signalled: bool)

  /** FD_ISSET, which is all that a wake-up looks at: a set may also hold descriptors beyond `max`. */
  predicate InSet(sel: Selector, fd: nat, k: Kind) {
    k in sel.sets && fd in sel.sets[k]
  }

  /** The scans look at the descriptors below `max` only. */
  predicate Watches(sel: Selector, fd: nat, k: Kind) {
    InSet(sel, fd, k) && fd < sel.max
  }

  predicate WatchesAny(sel: Selector, fd: nat) {
    Watches(sel, fd, Read) || Watches(sel, fd, Write) || Watches(sel, fd, Except)
  }

  /** The core lock: free, or held by an event_callback that has the entries `rest` still to look at. */
  datatype Lock = Free | Notifying(fd: nat, active: set<Kind>, rest: seq<nat>)

  datatype State = State(socks: seq<Sock>, sels: seq<Selector>, list: seq<nat>, lock: Lock)

  // ----- events -----

  datatype Event = RcvPlus | RcvMinus | SendPlus | SendMinus | Error

  /** The switch in event_callback (sockets.c:2561-2587). */
  function Apply(sock: Sock, e: Event): Sock {
    match e
    case RcvPlus => sock.(rcvevent := if sock.rcvevent == 0x7FFF then -0x8000 else sock.rcvevent + 1)
    case RcvMinus => sock.(rcvevent := sock.rcvevent - 1)
    case SendPlus => sock.(sendevent := true)
    case SendMinus => sock.(sendevent := false)
    case Error => sock.(errevent := true)
  }

  /** `check_waiters` after the switch, from the fields before it. */
  predicate ChecksWaiters(sock: Sock, e: Event) {
    match e
    case RcvPlus => Apply(sock, e).rcvevent <= 1
    case SendPlus => !sock.sendevent
    case Error => true
    case _ => false
  }

  function Active(sock: Sock): set<Kind> {
    set k | k in {Read, Write, Except} && Ready(sock, k)
  }

  /**
   The section of event_callback. The plus events and errors come with the core lock held; the minus
   events do not need it. RcvMinus follows an earlier RcvPlus, so it never wraps.
   */
  ghost predicate EventStep(s: State, t: State, fd: nat, e: Event) {
    && fd < |s.socks|
    && (e.RcvMinus? ==> s.socks[fd].rcvevent > -0x8000)
    && (e.RcvPlus? || e.SendPlus? || e.Error? ==> s.lock == Free)
    && var sock := Apply(s.socks[fd], e);
       var lock := if sock.waiting > 0 && ChecksWaiters(s.socks[fd], e)
                   then Notifying(fd, Active(sock), s.list) else s.lock;
       t == s.(socks := s.socks[fd := sock], lock := lock)
  }

  /** One round of select_check_waiters: signal this entry if it asked for an active event. */
  ghost predicate NotifyStep(s: State, t: State) {
    && s.lock.Notifying?
    && if s.lock.rest == [] then t == s.(lock := Free)
       else
         var who := s.lock.rest[0];
         && who < |s.sels|
         && var sel := s.sels[who];
            var hit := exists k :: k in s.lock.active && InSet(sel, s.lock.fd, k);
            t == s.(sels := if hit then s.sels[who := sel.(signalled := true)] else s.sels,
                    lock := s.lock.(rest := s.lock.rest[1..]))
  }

  // ----- a thread in select -----

  function WithPhase(s: State, who: nat, phase: Phase): State
    requires who < |s.sels|
  {
    s.(sels := s.sels[who := s.sels[who].(phase := phase)])
  }

  function Recount(s: State, fd: nat, waiting: nat): State
    requires fd < |s.socks|
  {
    s.(socks := s.socks[fd := s.socks[fd].(waiting := waiting)])
  }

  /** A first scan without events; the new list entry is cleared. */
  ghost predicate EnterStep(s: State, t: State, who: nat) {
    && who < |s.sels| && s.sels[who].phase.Outside?
    && exists sets, max :: t == s.(sels := s.sels[who := Selector(sets, max, Linking, false)])
  }

  ghost predicate LinkStep(s: State, t: State, who: nat) {
    && who < |s.sels| && s.sels[who].phase.Linking? && s.lock == Free
    && t == WithPhase(s, who, Counting(0)).(list := [who] + s.list)
  }

  /** select_waiting is a u8_t; an overflow or a socket that is gone ends the call. */
  ghost predicate CountStep(s: State, t: State, who: nat) {
    && who < |s.sels| && s.sels[who].phase.Counting?
    && var sel := s.sels[who];
       var fd := sel.phase.next;
       if fd >= sel.max then t == WithPhase(s, who, Rescanning(0, false))
       else if !WatchesAny(sel, fd) then t == WithPhase(s, who, Counting(fd + 1))
       else
         || t == WithPhase(s, who, Uncounting(0, fd))
         || (fd < |s.socks| && s.socks[fd].waiting < 255
             && t == WithPhase(Recount(s, fd, s.socks[fd].waiting + 1), who, Counting(fd + 1)))
  }

  /** One socket of the second scan. Unread lastdata may make it ready even if the counters do not. */
  ghost predicate RescanStep(s: State, t: State, who: nat) {
    && who < |s.sels| && s.sels[who].phase.Rescanning?
    && var sel := s.sels[who];
       var fd, found := sel.phase.next, sel.phase.found;
       if fd >= sel.max then
         t == WithPhase(s, who, if found then Uncounting(0, sel.max) else Blocked)
       else if !WatchesAny(sel, fd) then t == WithPhase(s, who, Rescanning(fd + 1, found))
       else
         || t == WithPhase(s, who, Uncounting(0, sel.max))
         || t == WithPhase(s, who, Rescanning(fd + 1, true))
         || (fd < |s.socks| && !found && (forall k :: Watches(sel, fd, k) ==> !Ready(s.socks[fd], k))
             && t == WithPhase(s, who, Rescanning(fd + 1, false)))
  }

  /** The semaphore was signalled, or the timeout ran out. */
  ghost predicate WakeStep(s: State, t: State, who: nat) {
    && who < |s.sels| && s.sels[who].phase.Blocked?
    && t == WithPhase(s, who, Uncounting(0, s.sels[who].max))
  }

  ghost predicate UncountStep(s: State, t: State, who: nat) {
    && who < |s.sels| && s.sels[who].phase.Uncounting?
    && var sel := s.sels[who];
       var fd, upto := sel.phase.next, sel.phase.upto;
       if fd >= upto then t == WithPhase(s, who, Unlinking)
       else if WatchesAny(sel, fd) && fd < |s.socks| && s.socks[fd].waiting > 0
       then t == WithPhase(Recount(s, fd, s.socks[fd].waiting - 1), who, Uncounting(fd + 1, upto))
       else t == WithPhase(s, who, Uncounting(fd + 1, upto))
  }

  function Remove(list: seq<nat>, who: nat): seq<nat> {
    if list == [] then [] else if list[0] == who then list[1..] else [list[0]] + Remove(list[1..], who)
  }

  ghost predicate UnlinkStep(s: State, t: State, who: nat) {
    && who < |s.sels| && s.sels[who].phase.Unlinking? && s.lock == Free
    && t == WithPhase(s, who, Outside).(list := Remove(s.list, who))
  }

  ghost predicate ThreadStep(s: State, t: State, who: nat) {
    || EnterStep(s, t, who) || LinkStep(s, t, who) || CountStep(s, t, who) || RescanStep(s, t, who)
    || WakeStep(s, t, who) || UncountStep(s, t, who) || UnlinkStep(s, t, who)
  }

  ghost predicate Next(s: State, t: State) {
    || (exists fd: nat, e :: EventStep(s, t, fd, e))
    || NotifyStep(s, t)
    || (exists who: nat :: ThreadStep(s, t, who))
  }

  ghost predicate Init(s: State) {
    && s.list == [] && s.lock == Free
    && (forall fd :: 0 <= fd < |s.socks| ==> s.socks[fd].waiting == 0)
    && (forall who :: 0 <= who < |s.sels| ==> s.sels[who].phase.Outside?)
  }

  // ----- invariant -----

  /** This thread's share of select_waiting of `fd`. */
  predicate Counted(sel: Selector, fd: nat) {
    && WatchesAny(sel, fd)
    && match sel.phase
       case Counting(next) => fd < next
       case Rescanning(_, _) => true
       case Blocked => true
       case Uncounting(next, upto) => next <= fd < upto
       case _ => false
  }

  ghost function Waiters(sels: seq<Selector>, fd: nat): nat {
    if sels == [] then 0 else Waiters(sels[..|sels| - 1], fd) + if Counted(sels[|sels| - 1], fd) then 1 else 0
  }

  /** The second scan is past `fd` and has found nothing, or is over. */
  predicate Passed(sel: Selector, fd: nat) {
    sel.phase.Blocked? || (sel.phase.Rescanning? && !sel.phase.found && fd < sel.phase.next)
  }

  predicate Listed(phase: Phase) {
    !phase.Outside? && !phase.Linking?
  }

  /** A watched event that came after the scan has been signalled, or is about to be. */
  ghost predicate WillWake(s: State, who: nat, fd: nat, k: Kind)
    requires who < |s.sels| && fd < |s.socks|
  {
    var sel := s.sels[who];
    Passed(sel, fd) && Watches(sel, fd, k) && Ready(s.socks[fd], k) ==>
      || sel.signalled
      || (s.lock.Notifying? && s.lock.fd == fd && k in s.lock.active && who in s.lock.rest)
  }

  ghost predicate Inv(s: State) {
    && (forall fd: nat :: fd < |s.socks| ==> s.socks[fd].waiting == Waiters(s.sels, fd))
    && (forall who: nat :: who < |s.sels| && Listed(s.sels[who].phase) ==> who in s.list)
    && (forall who :: who in s.list ==> who < |s.sels|)
    && (s.lock.Notifying? ==> forall who :: who in s.lock.rest ==> who < |s.sels|)
    && (forall who: nat, fd: nat, k :: who < |s.sels| && fd < |s.socks| ==> WillWake(s, who, fd, k))
    // a watched descriptor that is not a socket ends the call before the thread can block
    && (forall who: nat, fd: nat :: who < |s.sels| && Passed(s.sels[who], fd) && WatchesAny(s.sels[who], fd) ==>
          fd < |s.socks|)
  }

  // ----- counting waiters -----

  function One(b: bool): nat { if b then 1 else 0 }

  lemma {:induction false} WaitersUpdate(sels: seq<Selector>, who: nat, sel: Selector, fd: nat)
    requires who < |sels|
    ensures Waiters(sels[who := sel], fd) == Waiters(sels, fd) - One(Counted(sels[who], fd)) + One(Counted(sel, fd))
    ensures Counted(sels[who], fd) ==> Waiters(sels, fd) > 0
  {
    var n := |sels| - 1;
    if who == n {
      assert sels[who := sel][..n] == sels[..n];
    } else {
      assert sels[who := sel][..n] == sels[..n][who := sel];
      WaitersUpdate(sels[..n], who, sel, fd);
    }
  }

  lemma {:induction false} WaitersNone(sels: seq<Selector>, fd: nat)
    requires forall who :: 0 <= who < |sels| ==> sels[who].phase.Outside?
    ensures Waiters(sels, fd) == 0
  {
    if sels != [] {
      WaitersNone(sels[..|sels| - 1], fd);
    }
  }

  // ----- every step keeps the invariant -----

  lemma InitHolds(s: State)
    requires Init(s)
    ensures Inv(s)
  {
    forall fd: nat | fd < |s.socks| ensures s.socks[fd].waiting == Waiters(s.sels, fd) {
      WaitersNone(s.sels, fd);
    }
  }

  lemma EventKeeps(s: State, t: State, fd: nat, e: Event)
    requires Inv(s) && EventStep(s, t, fd, e)
    ensures Inv(t)
  {
    forall who: nat, f: nat, k | who < |t.sels| && f < |t.socks| ensures WillWake(t, who, f, k) {
      assert WillWake(s, who, f, k);
      if f == fd && Passed(t.sels[who], f) && Watches(t.sels[who], f, k) {
        WaitersUpdate(s.sels, who, s.sels[who], fd);
        assert Counted(s.sels[who], fd) && s.socks[fd].waiting > 0;
        assert Ready(t.socks[f], k) && !Ready(s.socks[f], k) ==> ChecksWaiters(s.socks[fd], e);
      }
    }
  }

  lemma NotifyKeeps(s: State, t: State)
    requires Inv(s) && NotifyStep(s, t)
    ensures Inv(t)
  {
    forall fd: nat | fd < |t.socks| ensures t.socks[fd].waiting == Waiters(t.sels, fd) {
      if s.lock.rest != [] {
        var who := s.lock.rest[0];
        WaitersUpdate(s.sels, who, s.sels[who].(signalled := true), fd);
      }
    }
    forall who: nat, f: nat, k | who < |t.sels| && f < |t.socks| ensures WillWake(t, who, f, k) {
      assert WillWake(s, who, f, k);
    }
    assert t.lock.Notifying? ==> forall x :: x in t.lock.rest ==> x in s.lock.rest;
    forall who: nat, fd: nat | who < |t.sels| && Passed(t.sels[who], fd) && WatchesAny(t.sels[who], fd)
      ensures fd < |t.socks|
    {
      assert Passed(s.sels[who], fd) && WatchesAny(s.sels[who], fd);
    }
  }

  /** What is left to show for a step of thread `who` that changes its phase only. */
  lemma PhaseKeeps(s: State, t: State, who: nat)
    requires Inv(s) && who < |s.sels| == |t.sels| && |t.socks| == |s.socks| && t.lock == s.lock
    requires t.sels == s.sels[who := t.sels[who]]
    requires forall fd: nat :: fd < |s.socks| ==>
      && t.socks[fd] == s.socks[fd].(waiting := t.socks[fd].waiting)
      && t.socks[fd].waiting == s.socks[fd].waiting - One(Counted(s.sels[who], fd)) + One(Counted(t.sels[who], fd))
    requires Listed(t.sels[who].phase) ==> who in t.list
    requires forall x :: x in s.list && x != who ==> x in t.list
    requires forall x :: x in t.list ==> x < |t.sels|
    requires forall fd: nat, k :: fd < |t.socks| ==> WillWake(t, who, fd, k)
    requires forall fd: nat :: Passed(t.sels[who], fd) && WatchesAny(t.sels[who], fd) ==> fd < |t.socks|
    ensures Inv(t)
  {
    forall fd: nat | fd < |t.socks| ensures t.socks[fd].waiting == Waiters(t.sels, fd) {
      WaitersUpdate(s.sels, who, t.sels[who], fd);
    }
    forall x: nat, f: nat, k | x < |t.sels| && f < |t.socks| ensures WillWake(t, x, f, k) {
      assert WillWake(s, x, f, k);
    }
  }

  lemma CountKeeps(s: State, t: State, who: nat)
    requires Inv(s) && CountStep(s, t, who)
    ensures Inv(t)
  {
    PhaseKeeps(s, t, who);
  }

  lemma RescanKeeps(s: State, t: State, who: nat)
    requires Inv(s) && RescanStep(s, t, who)
    ensures Inv(t)
  {
    forall fd: nat, k | fd < |t.socks| ensures WillWake(t, who, fd, k) {
      RescanWakes(s, t, who, fd, k);
    }
    forall fd: nat | Passed(t.sels[who], fd) && WatchesAny(t.sels[who], fd) ensures fd < |t.socks| {
      RescanFinds(s, t, who, fd);
    }
    PhaseKeeps(s, t, who);
  }

  lemma RescanWakes(s: State, t: State, who: nat, fd: nat, k: Kind)
    requires Inv(s) && RescanStep(s, t, who) && fd < |t.socks|
    ensures WillWake(t, who, fd, k)
  {
    assert WillWake(s, who, fd, k);
  }

  lemma RescanFinds(s: State, t: State, who: nat, fd: nat)
    requires Inv(s) && RescanStep(s, t, who) && Passed(t.sels[who], fd) && WatchesAny(t.sels[who], fd)
    ensures fd < |t.socks|
  {
    assert WatchesAny(s.sels[who], fd);
    assert Passed(s.sels[who], fd) || fd == s.sels[who].phase.next;
  }

  lemma UncountKeeps(s: State, t: State, who: nat)
    requires Inv(s) && UncountStep(s, t, who)
    ensures Inv(t)
  {
    var fd := s.sels[who].phase.next;
    if fd < |s.socks| {
      WaitersUpdate(s.sels, who, s.sels[who], fd);
    }
    PhaseKeeps(s, t, who);
  }

  lemma {:induction false} RemoveKeepsOthers(list: seq<nat>, who: nat, x: nat)
    ensures x in list && x != who ==> x in Remove(list, who)
    ensures x in Remove(list, who) ==> x in list
  {
    if list != [] {
      RemoveKeepsOthers(list[1..], who, x);
    }
  }

  lemma UnlinkKeeps(s: State, t: State, who: nat)
    requires Inv(s) && UnlinkStep(s, t, who)
    ensures Inv(t)
  {
    forall x ensures (x in s.list && x != who ==> x in t.list) && (x in t.list ==> x in s.list) {
      RemoveKeepsOthers(s.list, who, x);
    }
    PhaseKeeps(s, t, who);
  }

  lemma StepKeeps(s: State, t: State)
    requires Inv(s) && Next(s, t)
    ensures Inv(t)
  {
    if fd: nat, e :| EventStep(s, t, fd, e) {
      EventKeeps(s, t, fd, e);
    } else if NotifyStep(s, t) {
      NotifyKeeps(s, t);
    } else {
      var who: nat :| ThreadStep(s, t, who);
      if CountStep(s, t, who) {
        CountKeeps(s, t, who);
      } else if RescanStep(s, t, who) {
        RescanKeeps(s, t, who);
      } else if UncountStep(s, t, who) {
        UncountKeeps(s, t, who);
      } else if UnlinkStep(s, t, who) {
        UnlinkKeeps(s, t, who);
      } else {
        PhaseKeeps(s, t, who);
      }
    }
  }

  ghost predicate IsRun(run: seq<State>) {
    0 < |run| && Init(run[0]) && forall i :: 0 <= i < |run| - 1 ==> Next(run[i], run[i + 1])
  }

  lemma {:induction false} RunsKeep(run: seq<State>, i: nat)
    requires IsRun(run) && i < |run|
    ensures Inv(run[i])
  {
    if i == 0 {
      InitHolds(run[0]);
    } else {
      RunsKeep(run, i - 1);
      RunStepKeeps(run, i - 1);
    }
  }

  lemma RunStepKeeps(run: seq<State>, i: nat)
    requires IsRun(run) && i + 1 < |run| && Inv(run[i])
    ensures Inv(run[i + 1])
  {
    StepKeeps(run[i], run[i + 1]);
  }

  /**
   No wakeup is lost. In every state of every run, a thread that blocks and watches an event that is
   ready has been signalled, unless the callback that made it ready is still at work on the list and
   has the thread's entry in front of it.
   */
  lemma NoLostWakeup(run: seq<State>, i: nat, who: nat, fd: nat, k: Kind)
    requires IsRun(run) && i < |run|
    requires who < |run[i].sels| && run[i].sels[who].phase.Blocked? && Watches(run[i].sels[who], fd, k)
    ensures fd < |run[i].socks|
    ensures Ready(run[i].socks[fd], k) ==>
      var s := run[i];
      s.sels[who].signalled || (s.lock.Notifying? && s.lock.fd == fd && k in s.lock.active && who in s.lock.rest)
    ensures Ready(run[i].socks[fd], k) && run[i].lock == Free ==> run[i].sels[who].signalled
  {
    RunsKeep(run, i);
    var s := run[i];
    assert Passed(s.sels[who], fd) && WatchesAny(s.sels[who], fd);
    assert WillWake(s, who, fd, k);
  }

  // ----- what the events of a run amount to -----

  /** What a step is for descriptor `fd`: this event, or one that leaves its event fields alone. */
  ghost predicate IsEvent(s: State, t: State, fd: nat, o: Option<Event>) {
    match o
    case Some(e) => EventStep(s, t, fd, e)
    case None => fd < |s.socks| == |t.socks| && t.socks[fd] == s.socks[fd].(waiting := t.socks[fd].waiting)
  }

  /** `log` are the events of `fd` in the steps of `path`. */
  ghost predicate Logged(path: seq<State>, fd: nat, log: seq<Option<Event>>) {
    && |path| == |log| + 1
    && forall i :: 0 <= i < |log| ==> IsEvent(path[i], path[i + 1], fd, log[i])
  }

  ghost predicate IsSend(o: Option<Event>) {
    o == Some(SendPlus) || o == Some(SendMinus)
  }

  /** `last` is the socket after the events `log`: received less fetched, the last word on sending, any error. */
  ghost predicate Amounts(first: Sock, last: Sock, log: seq<Option<Event>>) {
    && last.rcvevent == first.rcvevent + multiset(log)[Some(RcvPlus)] - multiset(log)[Some(RcvMinus)]
    && (last.errevent <==> first.errevent || Some(Error) in log)
    && ((forall o :: o in log ==> !IsSend(o)) ==> last.sendevent == first.sendevent)
    && forall i :: LastSend(log, i) ==> last.sendevent == (log[i] == Some(SendPlus))
  }

  ghost predicate LastSend(log: seq<Option<Event>>, i: int) {
    0 <= i < |log| && IsSend(log[i]) && forall j :: i < j < |log| ==> !IsSend(log[j])
  }

  /** The s16_t counter does not wrap around. */
  ghost predicate NoWrap(path: seq<State>, fd: nat, log: seq<Option<Event>>)
    requires Logged(path, fd, log)
  {
    forall i :: 0 <= i < |log| && log[i] == Some(RcvPlus) ==> BelowWrap(path[i], fd)
  }

  ghost predicate BelowWrap(s: State, fd: nat) {
    fd < |s.socks| && s.socks[fd].rcvevent < 0x7FFF
  }

  /** Each step is an event of `fd`, or it leaves the event fields of `fd` alone. */
  lemma StepIsEvent(s: State, t: State, fd: nat) returns (o: Option<Event>)
    requires Next(s, t) && fd < |s.socks|
    ensures fd < |t.socks| && IsEvent(s, t, fd, o)
  {
    if e :| EventStep(s, t, fd, e) {
      o := Some(e);
    } else {
      o := None;
    }
  }

  lemma LogMore(path: seq<State>, t: State, fd: nat, log: seq<Option<Event>>, o: Option<Event>)
    requires Logged(path, fd, log) && IsEvent(path[|log|], t, fd, o)
    ensures Logged(path + [t], fd, log + [o])
  {
    var p, l := path + [t], log + [o];
    forall i | 0 <= i < |l| ensures IsEvent(p[i], p[i + 1], fd, l[i]) {
      assert i < |log| ==> IsEvent(path[i], path[i + 1], fd, log[i]);
    }
  }

  ghost predicate IsSteps(path: seq<State>) {
    path != [] && forall i :: 0 <= i < |path| - 1 ==> Next(path[i], path[i + 1])
  }

  lemma FewerSteps(path: seq<State>)
    requires IsSteps(path) && |path| > 1
    ensures IsSteps(path[..|path| - 1]) && Next(path[|path| - 2], path[|path| - 1])
  {
    var n := |path| - 2;
    var p := path[..n + 1];
    assert Next(path[n], path[n + 1]);
    forall i | 0 <= i < |p| - 1 ensures Next(p[i], p[i + 1]) {
      assert Next(path[i], path[i + 1]);
    }
  }

  /** The events of a descriptor in a sequence of steps. */
  lemma {:induction false} EventsOf(path: seq<State>, fd: nat) returns (log: seq<Option<Event>>)
    requires IsSteps(path) && fd < |path[0].socks|
    ensures Logged(path, fd, log) && fd < |path[|path| - 1].socks|
    decreases |path|
  {
    if |path| == 1 {
      log := [];
    } else {
      var n := |path| - 1;
      FewerSteps(path);
      var l := EventsOf(path[..n], fd);
      var o := StepIsEvent(path[n - 1], path[n], fd);
      LogMore(path[..n], path[n], fd, l, o);
      log := l + [o];
      assert path[..n] + [path[n]] == path;
    }
  }

  lemma NothingAmounts(sock: Sock)
    ensures Amounts(sock, sock, [])
  {
    var log: seq<Option<Event>> := [];
    assert multiset(log) == multiset{};
  }

  lemma AmountsStep(first: Sock, s: State, t: State, fd: nat, log: seq<Option<Event>>, o: Option<Event>)
    requires fd < |s.socks| && Amounts(first, s.socks[fd], log) && IsEvent(s, t, fd, o)
    requires o == Some(RcvPlus) ==> BelowWrap(s, fd)
    ensures fd < |t.socks| && Amounts(first, t.socks[fd], log + [o])
  {
    var l, last := log + [o], t.socks[fd];
    assert multiset(l) == multiset(log) + multiset{o};
    assert Some(Error) in l <==> Some(Error) in log || o == Some(Error);
    SendStep(first.sendevent, s.socks[fd].sendevent, last.sendevent, log, o);
  }

  lemma SendStep(first: bool, was: bool, last: bool, log: seq<Option<Event>>, o: Option<Event>)
    requires (forall x :: x in log ==> !IsSend(x)) ==> was == first
    requires forall i :: LastSend(log, i) ==> was == (log[i] == Some(SendPlus))
    requires last == if IsSend(o) then o == Some(SendPlus) else was
    ensures (forall x :: x in log + [o] ==> !IsSend(x)) ==> last == first
    ensures forall i :: LastSend(log + [o], i) ==> last == ((log + [o])[i] == Some(SendPlus))
  {
    var l := log + [o];
    if forall x :: x in l ==> !IsSend(x) {
      assert o in l;
      forall x | x in log ensures !IsSend(x) {
        assert x in l;
      }
    }
    forall i | LastSend(l, i) ensures last == (l[i] == Some(SendPlus)) {
      assert l[|log|] == o;
      if i < |log| {
        forall j | i < j < |log| ensures !IsSend(log[j]) {
          assert l[j] == log[j];
        }
        assert LastSend(log, i);
      }
    }
  }

  lemma LogLess(path: seq<State>, fd: nat, log: seq<Option<Event>>)
    requires Logged(path, fd, log) && NoWrap(path, fd, log) && log != []
    ensures var n := |log| - 1;
      && Logged(path[..n + 1], fd, log[..n]) && NoWrap(path[..n + 1], fd, log[..n])
      && IsEvent(path[n], path[n + 1], fd, log[n]) && (log[n] == Some(RcvPlus) ==> BelowWrap(path[n], fd))
  {
    var n := |log| - 1;
    var p, l := path[..n + 1], log[..n];
    forall i | 0 <= i < n ensures IsEvent(p[i], p[i + 1], fd, l[i]) {
      assert IsEvent(path[i], path[i + 1], fd, log[i]);
    }
    forall i | 0 <= i < n && l[i] == Some(RcvPlus) ensures BelowWrap(p[i], fd) {
      assert log[i] == Some(RcvPlus);
    }
  }

  /** Along any path, below the wrap-around of the counter, the event fields are what its events amount to. */
  lemma {:induction false} EventsAmount(path: seq<State>, fd: nat, log: seq<Option<Event>>)
    requires Logged(path, fd, log) && fd < |path[0].socks| && NoWrap(path, fd, log)
    ensures fd < |path[|log|].socks| && Amounts(path[0].socks[fd], path[|log|].socks[fd], log)
    decreases |log|
  {
    if log == [] {
      NothingAmounts(path[0].socks[fd]);
    } else {
      var n := |log| - 1;
      LogLess(path, fd, log);
      EventsAmount(path[..n + 1], fd, log[..n]);
      AmountsStep(path[0].socks[fd], path[n], path[n + 1], fd, log[..n], log[n]);
      assert log[..n] + [log[n]] == log;
    }
  }

  /** So a socket is ready for reading exactly if more was received than fetched, and so on. */
  lemma ReadyIs(first: Sock, last: Sock, log: seq<Option<Event>>)
    requires Amounts(first, last, log)
    ensures Ready(last, Read) <==> multiset(log)[Some(RcvMinus)] < first.rcvevent + multiset(log)[Some(RcvPlus)]
    ensures Ready(last, Except) <==> first.errevent || Some(Error) in log
    ensures (forall o :: o in log ==> !IsSend(o)) ==> Ready(last, Write) == first.sendevent
    ensures forall i :: LastSend(log, i) ==> (Ready(last, Write) <==> log[i] == Some(SendPlus))
  {
  }
}
