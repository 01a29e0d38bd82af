/**
 The resolver of dns.c: a table of names being asked for and a table of requests waiting for them.

 Several requests can wait for one entry (LWIP_DNS_SECURE_NO_MULTIPLE_OUTSTANDING); addresses are IPv4
 only. A request is known by a number; calling its callback appends that number to `log`. What a packet says is
 input, and so are random numbers and whether a source port is available.
 */
module Dns {
  import opened Common

  type u8 = x: int | 0 <= x < 0x100

  /** DNS_MAX_RETRIES, DNS_MAX_SERVERS, DNS_TABLE_SIZE, DNS_MAX_REQUESTS. */
  datatype Config = Config(retries: nat, servers: nat, tableSize: nat, requests: nat)

  datatype EntryState = UNUSED | NEW | ASKING | DONE

  /** One of dns_table; `started` is how many were started before it, of which `seqno` keeps eight bits. */
  datatype Entry = Entry(state: EntryState, name: seq<byte>, seqno: u8, started: nat, txid: nat,
                         server: nat, tmr: nat, retries: nat, ttl: nat)

  datatype Req = Req(found: Option<nat>, idx: nat)

  /** What dns_recv makes of a packet that carries the txid of an entry. */
  datatype Verdict = IGNORE | FAILURE | ANSWER(ttl: nat) | NO_ANSWER

  datatype Err = INPROGRESS | MEM

  const DNS_MAX_TTL := 604800

  /** IP_ADDR_ANY: no address. */
  const ANY: nat := 0

  // ----- how long an entry can still be asked for -----

  /** The waiting times of the retries that one server still gets. */
  ghost function Rest(c: Config, retries: nat): nat
    decreases c.retries - retries
  {
    if retries + 1 >= c.retries then 0 else retries + 1 + Rest(c, retries + 1)
  }

  /** Ticks for `n` servers. */
  ghost function Laps(c: Config, n: nat): nat {
    if n == 0 then 0 else 1 + Rest(c, 0) + Laps(c, n - 1)
  }

  ghost function Bound(c: Config): nat { Laps(c, c.servers) }

  /** Ticks until the entry is given up, if no packet arrives and every backup server can be used. */
  ghost function Measure(c: Config, e: Entry): nat
    requires e.server < c.servers
  {
    if e.state == NEW then Bound(c) else e.tmr + Rest(c, e.retries) + Laps(c, c.servers - 1 - e.server)
  }

  lemma {:induction false} RestSum(c: Config, r: nat)
    requires r < c.retries
    ensures 2 * Rest(c, r) == c.retries * (c.retries - 1) - (r + 1) * r
    decreases c.retries - r
  {
    if r + 1 < c.retries {
      RestSum(c, r + 1);
    }
  }

  lemma {:induction false} LapsProduct(c: Config, n: nat)
    ensures Laps(c, n) == n * (1 + Rest(c, 0))
  {
    if n > 0 {
      LapsProduct(c, n - 1);
    }
  }

  /** The bound in closed form. */
  lemma BoundIs(c: Config)
    requires c.retries >= 1
    ensures Bound(c) == c.servers * (1 + c.retries * (c.retries - 1) / 2)
  {
    RestSum(c, 0);
    LapsProduct(c, c.servers);
    assert Rest(c, 0) == c.retries * (c.retries - 1) / 2;
  }

  // ----- invariants -----

  ghost predicate Live(e: Entry) { e.state == NEW || e.state == ASKING }

  ghost predicate EntryOk(c: Config, e: Entry) {
    && e.server < c.servers && e.seqno == e.started % 0x100
    && (e.state == ASKING ==> 1 <= e.tmr && e.retries < c.retries)
    && (Live(e) ==> Measure(c, e) <= Bound(c))
  }

  /** Two entries that are asked for have different transaction numbers. */
  ghost predicate Txids(table: seq<Entry>) {
    forall i, j :: 0 <= i < j < |table| && table[i].state == ASKING && table[j].state == ASKING ==>
      table[i].txid != table[j].txid
  }

  /** A request waits for an entry that is asked for, and the time it has waited and may still wait is bounded. */
  ghost predicate Waits(c: Config, table: seq<Entry>, time: seq<nat>, born: map<nat, nat>, q: Req) {
    q.found.Some? ==>
      && q.idx < |table| == |time| && Live(table[q.idx]) && EntryOk(c, table[q.idx])
      && q.found.value in born && born[q.found.value] <= time[q.idx]
      && time[q.idx] - born[q.found.value] + Measure(c, table[q.idx]) <= Bound(c)
  }

  ghost predicate Pending(requests: seq<Req>, id: nat) {
    exists r :: 0 <= r < |requests| && requests[r].found == Some(id)
  }

  /** Every request that was accepted either waits in one slot or was called once. */
  ghost predicate Account(requests: seq<Req>, log: seq<nat>, nextId: nat) {
    && (forall i, j :: 0 <= i < j < |log| ==> log[i] != log[j])
    && (forall id :: id in log ==> id < nextId)
    && (forall r :: 0 <= r < |requests| && requests[r].found.Some? ==>
          requests[r].found.value < nextId && requests[r].found.value !in log)
    && (forall r, s :: 0 <= r < s < |requests| && requests[r].found.Some? ==> requests[r].found != requests[s].found)
    && (forall id: nat :: id < nextId ==> id in log || Pending(requests, id))
  }

  lemma AccountCall(requests: seq<Req>, log: seq<nat>, nextId: nat, r: nat)
    requires Account(requests, log, nextId) && r < |requests| && requests[r].found.Some?
    ensures Account(requests[r := requests[r].(found := None)], log + [requests[r].found.value], nextId)
  {
    var q := requests[r := requests[r].(found := None)];
    var log' := log + [requests[r].found.value];
    forall id: nat | id < nextId ensures id in log' || Pending(q, id) {
      if id !in log' {
        var s :| 0 <= s < |requests| && requests[s].found == Some(id);
        assert q[s].found == Some(id);
      }
    }
  }

  lemma AccountAdd(requests: seq<Req>, log: seq<nat>, nextId: nat, r: nat, idx: nat)
    requires Account(requests, log, nextId) && r < |requests| && requests[r].found.None?
    ensures Account(requests[r := Req(Some(nextId), idx)], log, nextId + 1)
  {
    var q := requests[r := Req(Some(nextId), idx)];
    forall id: nat | id < nextId + 1 ensures id in log || Pending(q, id) {
      if id == nextId {
        assert q[r].found == Some(id);
      } else if id !in log {
        var s :| 0 <= s < |requests| && requests[s].found == Some(id);
        assert q[s].found == Some(id);
      }
    }
  }

  /** A live entry may be replaced by one that will not be asked for longer. */
  lemma WaitsKeep(c: Config, table: seq<Entry>, time: seq<nat>, born: map<nat, nat>, q: Req, i: nat, e: Entry)
    requires Waits(c, table, time, born, q) && i < |table| && Live(e) && EntryOk(c, e) && EntryOk(c, table[i])
    requires Live(table[i]) ==> Measure(c, e) <= Measure(c, table[i])
    ensures Waits(c, table[i := e], time, born, q)
  {
  }

  /** No entry that is asked for has this transaction number. */
  ghost predicate TxidFree(table: seq<Entry>, txid: nat) {
    forall i :: 0 <= i < |table| && table[i].state == ASKING ==> table[i].txid != txid
  }

  /** The entry after a tick while it goes on being asked for: wait, retry with a longer wait, or the next server. */
  function NextAsk(c: Config, e: Entry): Entry {
    if e.tmr > 1 then e.(tmr := e.tmr - 1)
    else if e.retries + 1 == c.retries then e.(server := e.server + 1, tmr := 1, retries := 0)
    else e.(retries := e.retries + 1, tmr := e.retries + 1)
  }

  lemma NextAskMeasure(c: Config, e: Entry)
    requires EntryOk(c, e) && e.state == ASKING
    requires e.tmr == 1 && e.retries + 1 == c.retries ==> e.server + 1 < c.servers
    ensures EntryOk(c, NextAsk(c, e)) && Measure(c, NextAsk(c, e)) + 1 == Measure(c, e)
  {
  }

  /** The first tick of a new entry asks the first server. */
  ghost predicate Begun(e: Entry, e': Entry) {
    && e' == e.(state := e'.state, txid := e'.txid, server := 0, tmr := 1, retries := 0)
    && (e'.state == ASKING || e'.state == UNUSED)
  }

  /** Entry `i` now asks the first server for `name`, or was given up because that server has no address. */
  ghost predicate TakenFor(before: seq<Entry>, after: seq<Entry>, i: nat, name: seq<byte>, started: nat, server: bool) {
    && i < |before| == |after| && after == before[i := after[i]]
    && Begun(before[i].(name := name, seqno := started % 0x100, started := started), after[i])
    && after[i].state == if server then ASKING else UNUSED
  }

  /** A tick takes exactly one from the time that an entry can still be asked for. */
  ghost predicate Ticked(c: Config, e: Entry, e': Entry)
    requires e.server < c.servers && e'.server < c.servers
  {
    && (e'.state == ASKING ==> Live(e))
    && (e'.state == ASKING && e.state == ASKING ==> e'.txid == e.txid && Measure(c, e') + 1 == Measure(c, e))
    && (e.state == DONE ==> e' == if e.ttl <= 1 then e.(ttl := 0, state := UNUSED) else e.(ttl := e.ttl - 1))
    && (e.state == UNUSED ==> e' == e)
  }

  // ----- an entry that nobody answers -----

  /** One tick of an entry that is asked for. */
  ghost predicate AskedTick(c: Config, servers: seq<nat>, e: Entry, e': Entry) {
    && e.state == ASKING && e.server < c.servers == |servers|
    && if e.tmr > 1 then e' == e.(tmr := e.tmr - 1)
       else if e.retries + 1 < c.retries then
         if servers[e.server] != ANY then e' == e.(retries := e.retries + 1, tmr := e.retries + 1)
         else e'.state == UNUSED
       else if e.server + 1 < c.servers && servers[e.server + 1] != ANY
       then e' == e.(server := e.server + 1, tmr := 1, retries := 0)
       else e'.state == UNUSED
  }

  /** One tick of any entry. */
  ghost predicate EntryTick(c: Config, servers: seq<nat>, e: Entry, e': Entry) {
    match e.state
    case NEW => false
    case ASKING => AskedTick(c, servers, e, e')
    case DONE => e' == if e.ttl <= 1 then e.(ttl := 0, state := UNUSED) else e.(ttl := e.ttl - 1)
    case UNUSED => e' == e
  }

  /** The first `n` entries have had their tick. */
  ghost predicate TickedTo(c: Config, servers: seq<nat>, before: seq<Entry>, after: seq<Entry>, n: nat) {
    && n <= |before| == |after|
    && forall i :: 0 <= i < |before| ==>
         if i < n then EntryTick(c, servers, before[i], after[i]) else after[i] == before[i]
  }

  ghost predicate TableTick(c: Config, servers: seq<nat>, before: seq<Entry>, after: seq<Entry>) {
    TickedTo(c, servers, before, after, |before|)
  }

  /** A request waits as long as its entry is asked for, here as far as the first `n` entries have had their tick. */
  ghost predicate WaitsOn(table: seq<Entry>, q: Req, q': Req, n: nat) {
    && n <= |table| && (q.found.None? ==> q'.found.None?) && (q.found.Some? && q.idx >= n ==> q' == q)
    && (q.found.Some? && q.idx < n ==> if table[q.idx].state == ASKING then q' == q else q'.found.None?)
  }

  ghost predicate AllWaitOn(table: seq<Entry>, requests: seq<Req>, requests': seq<Req>, n: nat) {
    |requests| == |requests'| && forall r :: 0 <= r < |requests| ==> WaitsOn(table, requests[r], requests'[r], n)
  }

  lemma OneTicked(c: Config, servers: seq<nat>, t0: seq<Entry>, t1: seq<Entry>, t2: seq<Entry>, n: nat)
    requires TickedTo(c, servers, t0, t1, n) && n < |t0| == |t2|
    requires t2 == t1[n := t2[n]] && EntryTick(c, servers, t1[n], t2[n])
    ensures TickedTo(c, servers, t0, t2, n + 1)
  {
  }

  lemma OneWaited(t1: seq<Entry>, t2: seq<Entry>, q0: seq<Req>, q1: seq<Req>, q2: seq<Req>, n: nat)
    requires AllWaitOn(t1, q0, q1, n) && n < |t1| == |t2| && t2 == t1[n := t2[n]] && |q2| == |q1|
    requires forall r :: 0 <= r < |q1| ==> TickedReq(n, t2[n], q1[r], q2[r])
    ensures AllWaitOn(t2, q0, q2, n + 1)
  {
    forall r | 0 <= r < |q0| ensures WaitsOn(t2, q0[r], q2[r], n + 1) {
      assert WaitsOn(t1, q0[r], q1[r], n) && TickedReq(n, t2[n], q1[r], q2[r]);
    }
  }

  lemma AllTicked(c: Config, table: seq<Entry>, time: seq<nat>, born: map<nat, nat>, q1: seq<Req>, q2: seq<Req>, i: nat)
    requires i < |table| && |q1| == |q2| && table[i].state != NEW && (table[i].state == ASKING ==> q2 == q1)
    requires forall r :: 0 <= r < |q2| ==> Waits(c, table, time, born, q2[r])
    requires forall r :: 0 <= r < |q2| && q2[r].found.Some? ==> q2[r] == q1[r]
    requires forall r :: 0 <= r < |q2| && q1[r].idx != i ==> q2[r] == q1[r]
    ensures forall r :: 0 <= r < |q1| ==> TickedReq(i, table[i], q1[r], q2[r])
  {
    forall r | 0 <= r < |q1| ensures TickedReq(i, table[i], q1[r], q2[r]) {
      assert Waits(c, table, time, born, q2[r]);
    }
  }

  /** What a tick of entry `n` does to a request. */
  ghost predicate TickedReq(n: nat, e: Entry, q: Req, q': Req) {
    if q.found.Some? && (q.idx != n || e.state == ASKING) then q' == q else q'.found.None?
  }

  /** Ticks that a server is asked for. */
  ghost function Lap(c: Config): nat { 1 + Rest(c, 0) }

  /** The first `k` servers have addresses, and then there is none or one without. */
  ghost predicate Usables(c: Config, servers: seq<nat>, k: nat) {
    && 1 <= k <= c.servers == |servers| && (forall s :: 0 <= s < k ==> servers[s] != ANY)
    && (k < c.servers ==> servers[k] == ANY)
  }

  /** The entry after `m` ticks without an answer: it asks each server in turn for one lap. */
  ghost predicate AskedAfter(c: Config, k: nat, e: Entry, m: nat) {
    if e.state == ASKING then
      && e.server < k && 1 <= e.tmr && e.retries < c.retries && e.tmr + Rest(c, e.retries) <= Lap(c)
      && m + e.tmr + Rest(c, e.retries) == (e.server + 1) * Lap(c)
    else e.state == UNUSED && m >= k * Lap(c)
  }

  lemma AskedAfterTick(c: Config, servers: seq<nat>, k: nat, e: Entry, e': Entry, m: nat)
    requires c.retries >= 1 && Usables(c, servers, k) && AskedAfter(c, k, e, m)
    requires e.state == ASKING ==> AskedTick(c, servers, e, e')
    requires e.state == UNUSED ==> e' == e
    ensures AskedAfter(c, k, e', m + 1)
  {
    if e.state == ASKING && e.tmr == 1 && e.retries + 1 == c.retries {
      assert Rest(c, e.retries) == 0 && m + 1 == (e.server + 1) * Lap(c);
      assert (e.server + 2) * Lap(c) == (e.server + 1) * Lap(c) + Lap(c);
    }
  }

  /** The server that is asked tells how many laps have passed, and the asking ends after the last. */
  lemma AskedAfterMeans(c: Config, k: nat, e: Entry, m: nat)
    requires AskedAfter(c, k, e, m)
    ensures e.state == ASKING <==> m < k * Lap(c)
    ensures e.state == ASKING ==> e.server == m / Lap(c)
    ensures e.state != ASKING ==> e.state == UNUSED
  {
    if e.state == ASKING {
      assert e.server * Lap(c) <= m < (e.server + 1) * Lap(c) by {
        assert (e.server + 1) * Lap(c) == e.server * Lap(c) + Lap(c);
      }
      LapsMonotone(e.server + 1, k, Lap(c));
      QuotientIs(m, e.server, Lap(c));
    }
  }

  lemma LapsMonotone(a: nat, b: nat, lap: nat)
    requires a <= b
    ensures a * lap <= b * lap
  {
    assert (b - a) * lap >= 0;
    assert b * lap == a * lap + (b - a) * lap;
  }

  lemma QuotientIs(m: nat, q: nat, d: nat)
    requires 0 < d && q * d <= m < (q + 1) * d
    ensures m / d == q
  {
    var r := m / d;
    assert r * d <= m < r * d + d;
    assert (r + 1) * d == r * d + d;
    if r < q {
      LapsMonotone(r + 1, q, d);
    } else if q < r {
      LapsMonotone(q + 1, r, d);
    }
  }

  /** How an entry begins to ask (dns.c:1075-1085). */
  ghost predicate JustBegun(e: Entry) {
    e.state == ASKING && e.server == 0 && e.tmr == 1 && e.retries == 0
  }

  /**
   Without an answer every server that can be used is asked in its turn, each for one lap, and nothing is asked any
   more after the last of them.
   */
  lemma {:induction false} AskedInTurn(c: Config, servers: seq<nat>, k: nat, history: seq<seq<Entry>>, i: nat, m: nat)
    requires c.retries >= 1 && Usables(c, servers, k) && m < |history| && i < |history[0]| && JustBegun(history[0][i])
    requires forall n :: 0 <= n < |history| - 1 ==> TableTick(c, servers, history[n], history[n + 1])
    ensures i < |history[m]| && AskedAfter(c, k, history[m][i], m)
    ensures history[m][i].state == if m < k * Lap(c) then ASKING else UNUSED
    ensures m < k * Lap(c) ==> history[m][i].server == m / Lap(c)
  {
    if m == 0 {
      assert 1 * Lap(c) == Lap(c);
    } else {
      AskedInTurn(c, servers, k, history, i, m - 1);
      assert TableTick(c, servers, history[m - 1], history[m - 1 + 1]);
      AskedAfterTick(c, servers, k, history[m - 1][i], history[m][i], m - 1);
    }
    AskedAfterMeans(c, k, history[m][i], m);
  }

  /** With an address for every server that takes exactly the bound, and each of them is asked. */
  lemma AllAsked(c: Config, servers: seq<nat>, history: seq<seq<Entry>>, i: nat, m: nat, server: nat)
    requires c.retries >= 1 && Usables(c, servers, c.servers)
    requires m < |history| && i < |history[0]| && JustBegun(history[0][i])
    requires forall n :: 0 <= n < |history| - 1 ==> TableTick(c, servers, history[n], history[n + 1])
    ensures i < |history[m]| && history[m][i].state == if m < Bound(c) then ASKING else UNUSED
    ensures server < c.servers ==> server * Lap(c) < Bound(c)
    ensures server < c.servers && m == server * Lap(c) ==> history[m][i].server == server
  {
    LapsProduct(c, c.servers);
    AskedInTurn(c, servers, c.servers, history, i, m);
    if server < c.servers {
      LapsMonotone(server + 1, c.servers, Lap(c));
      assert (server + 1) * Lap(c) == server * Lap(c) + Lap(c);
      QuotientIs(server * Lap(c), server, Lap(c));
    }
  }

  // ----- names -----

  predicate SameName(a: seq<byte>, b: seq<byte>) {
    |a| == |b| && forall i :: 0 <= i < |a| ==> Lower(a[i]) == Lower(b[i])
  }

  /** Two names are the same if they differ in nothing but the case of letters. */
  lemma SameNameIs(a: seq<byte>, b: seq<byte>)
    ensures SameName(a, b) <==> |a| == |b| && forall i :: 0 <= i < |a| ==> a[i] == b[i] || OtherCase(a[i], b[i])
  {
    forall i | 0 <= i < |a| && i < |b|
      ensures Lower(a[i]) == Lower(b[i]) <==> a[i] == b[i] || OtherCase(a[i], b[i])
    {
      LowerIs(a[i], b[i]);
    }
  }

  /** How many entries were started after one, as a u8_t difference. */
  function Age(seqno: u8, e: Entry): u8 {
    if seqno >= e.seqno then seqno - e.seqno else seqno - e.seqno + 0x100
  }

  /** It is the number of those started since, as long as that fits. */
  lemma AgeIs(seqno: u8, starts: nat, e: Entry)
    requires seqno == starts % 0x100 && e.seqno == e.started % 0x100 && e.started <= starts
    ensures Age(seqno, e) == (starts - e.started) % 0x100
    ensures starts - e.started < 0x100 ==> Age(seqno, e) == starts - e.started
  {
  }

  lemma NextNumber(seqno: u8, starts: nat)
    requires seqno == starts % 0x100
    ensures (if seqno == 0xFF then 0 else seqno + 1) == (starts + 1) % 0x100
  {
  }

  /** Every completed entry was started, and fewer than 256 ago. */
  ghost predicate AllRecent(table: seq<Entry>, starts: nat) {
    forall j :: 0 <= j < |table| && table[j].state == DONE ==> 0 < starts - table[j].started < 0x100
  }

  /** Nothing is unused, and of the completed entries `i` was started first. */
  ghost predicate OldestDone(table: seq<Entry>, i: nat) {
    && i < |table| && table[i].state == DONE
    && forall j :: 0 <= j < |table| ==>
         table[j].state != UNUSED && (table[j].state == DONE ==> table[i].started <= table[j].started)
  }

  /** An entry that is taken although it is completed is the oldest. */
  ghost predicate IsOldest(table: seq<Entry>, starts: nat, i: nat)
    requires i < |table|
  {
    table[i].state == DONE && AllRecent(table, starts) ==> OldestDone(table, i)
  }

  lemma OldestIs(table: seq<Entry>, seqno: u8, starts: nat, i: nat)
    requires i <= |table| && AllRecent(table, starts) && seqno == starts % 0x100
    requires forall j :: 0 <= j < |table| ==> table[j].seqno == table[j].started % 0x100 && table[j].started <= starts
    requires forall j :: 0 <= j < |table| ==> table[j].state != UNUSED
    requires forall j :: 0 <= j < |table| && table[j].state == DONE ==>
      if i < |table| then Age(seqno, table[j]) <= Age(seqno, table[i]) else Age(seqno, table[j]) == 0
    ensures i < |table| && table[i].state == DONE ==> OldestDone(table, i)
    ensures i == |table| ==> forall j :: 0 <= j < |table| ==> table[j].state != DONE
  {
    forall j | 0 <= j < |table| ensures Age(seqno, table[j]) == (starts - table[j].started) % 0x100 {
      AgeIs(seqno, starts, table[j]);
    }
    if i < |table| && table[i].state == DONE {
      forall j | 0 <= j < |table| && table[j].state == DONE ensures table[i].started <= table[j].started {
        AgeIs(seqno, starts, table[i]);
        AgeIs(seqno, starts, table[j]);
      }
    }
    if i == |table| {
      forall j | 0 <= j < |table| ensures table[j].state != DONE {
        AgeIs(seqno, starts, table[j]);
      }
    }
  }

  /** 256 starts later the numbers say otherwise: of two completed entries the younger one counts as the older. */
  lemma OldestForgotten() returns (first: Entry, second: Entry, starts: nat)
    ensures first.state == second.state == DONE && first.started < second.started < starts
    ensures first.seqno == first.started % 0x100 && second.seqno == second.started % 0x100
    ensures 0 < Age(starts % 0x100, first) < Age(starts % 0x100, second)
  {
    first := Entry(DONE, [], 0, 0, 0, 0, 0, 0, 1);
    second := Entry(DONE, [], 200, 200, 0, 0, 0, 0, 1);
    starts := 266;
  }

  /** The entry may be taken for another name. */
  predicate Usable(seqno: u8, e: Entry) {
    e.state == UNUSED || (e.state == DONE && Age(seqno, e) > 0)
  }

  predicate Duplicate(name: seq<byte>, e: Entry) {
    e.state == ASKING && SameName(name, e.name)
  }

  /** The others wait as before, and the new request does if its entry is asked for. */
  ghost predicate Entered(before: seq<Req>, after: seq<Req>, id: nat, i: nat, asking: bool) {
    && |before| == |after| && (asking ==> Req(Some(id), i) in after)
    && forall r :: 0 <= r < |before| && before[r].found.Some? ==> after[r] == before[r]
  }

  lemma EnteredAt(before: seq<Req>, q: seq<Req>, after: seq<Req>, r: nat, id: nat, i: nat, asking: bool)
    requires r < |before| == |after| && before[r].found.None? && q == before[r := Req(Some(id), i)]
    requires forall s :: 0 <= s < |before| && before[s].found.Some? ==> before[s].idx != i || asking
    requires forall s :: 0 <= s < |q| && q[s].idx != i ==> after[s] == q[s]
    requires asking ==> after == q
    ensures Entered(before, after, id, i, asking)
  {
    assert q[r] == Req(Some(id), i);
    forall s | 0 <= s < |before| && before[s].found.Some? ensures after[s] == before[s] {
      assert q[s] == before[s];
    }
  }

  // ----- the resolver -----

  class Resolver {
    const c: Config
    var table: seq<Entry>
    var requests: seq<Req>
    /** dns_servers: addresses. */
    var servers: seq<nat>
    /** dns_seqno, and the number of entries started, which it stands for. */
    var seqno: u8
    var starts: nat
    /** The callbacks that were called, in order. */
    var log: seq<nat>
    var nextId: nat
    /** Timer ticks that each entry has seen, and that had passed when a request was accepted. */
    ghost var time: seq<nat>
    ghost var born: map<nat, nat>

    ghost predicate Core()
      reads this
    {
      && c.retries >= 1 && |servers| == c.servers && |table| == c.tableSize == |time| && |requests| == c.requests
      && (forall i :: 0 <= i < |table| ==> EntryOk(c, table[i]) && table[i].started <= starts)
      && seqno == starts % 0x100
      && Txids(table)
      && (forall r :: 0 <= r < |requests| ==> Waits(c, table, time, born, requests[r]))
      && Account(requests, log, nextId)
      && (forall id: nat :: id < nextId ==> id in born)
    }

    /** What holds between the calls of dns.c; `now` ticks have passed. */
    ghost predicate Valid(now: nat)
      reads this
    {
      && Core()
      && (forall i :: 0 <= i < |table| ==> table[i].state != NEW && time[i] == now)
    }

    /** The zeroed tables of an initialised resolver, with the servers that are set so far. */
    constructor (c: Config, servers: seq<nat>)
      requires c.retries >= 1 && c.servers >= 1 && |servers| == c.servers
      ensures Valid(0) && this.c == c && nextId == 0 && log == []
    {
      this.c, this.servers := c, servers;
      table := seq(c.tableSize, i => Entry(UNUSED, [], 0, 0, 0, 0, 0, 0, 0));
      requests := seq(c.requests, i => Req(None, 0));
      time := seq(c.tableSize, i => 0);
      seqno, starts, log, nextId, born := 0, 0, [], 0, map[];
    }

    /** dns_call_found: exactly the requests that wait for this entry are called, each once. */
    method CallFound(idx: nat)
      requires Account(requests, log, nextId)
      modifies this`requests, this`log
      ensures Account(requests, log, nextId) && |requests| == |old(requests)|
      ensures forall r :: 0 <= r < |requests| ==>
        requests[r] == if old(requests)[r].idx == idx then Req(None, idx) else old(requests)[r]
      ensures old(log) <= log
    {
      var i := 0;
      while i < |requests|
        invariant i <= |requests| == |old(requests)| && Account(requests, log, nextId) && old(log) <= log
        invariant forall r :: i <= r < |requests| ==> requests[r] == old(requests)[r]
        invariant forall r :: 0 <= r < i ==>
          requests[r] == if old(requests)[r].idx == idx then Req(None, idx) else old(requests)[r]
      {
        if requests[i].found.Some? && requests[i].idx == idx {
          AccountCall(requests, log, nextId, i);
          log := log + [requests[i].found.value];
          requests := requests[i := requests[i].(found := None)];
        }
        i := i + 1;
      }
    }

    /** The entry is not asked for any longer: call its requests and leave it as `e`. */
    method Drop(i: nat, e: Entry)
      requires Core() && i < |table| && !Live(e) && EntryOk(c, e) && e.started <= starts
      modifies this`requests, this`log, this`table
      ensures Core() && table == old(table)[i := e] && old(log) <= log
      ensures forall r :: 0 <= r < |requests| ==>
        requests[r] == if old(requests)[r].idx == i then Req(None, i) else old(requests)[r]
    {
      CallFound(i);
      table := table[i := e];
    }

    /** The entry goes on being asked for, not longer than before. */
    method Continue(i: nat, e: Entry)
      requires Core() && i < |table| && Live(e) && EntryOk(c, e) && e.started <= starts
      requires Live(table[i]) ==> Measure(c, e) <= Measure(c, table[i])
      requires e.state == ASKING ==> TxidFree(table, e.txid) || (table[i].state == ASKING && e.txid == table[i].txid)
      modifies this`table
      ensures Core() && table == old(table)[i := e]
    {
      forall r | 0 <= r < |requests| ensures Waits(c, table[i := e], time, born, requests[r]) {
        WaitsKeep(c, table, time, born, requests[r], i, e);
      }
      table := table[i := e];
    }

    /** dns_create_txid; rand(n) is the n-th random number, and one of them is not in use. */
    method CreateTxid(rand: nat -> nat, ghost k: nat) returns (txid: nat)
      requires TxidFree(table, rand(k))
      ensures TxidFree(table, txid)
    {
      var n := 0;
      while true
        invariant n <= k
        decreases k - n
      {
        txid := rand(n);
        var i := 0;
        while i < |table| && !(table[i].state == ASKING && table[i].txid == txid)
          invariant i <= |table| && forall j :: 0 <= j < i && table[j].state == ASKING ==> table[j].txid != txid
        {
          i := i + 1;
        }
        if i == |table| {
          return;
        }
        n := n + 1;
      }
    }

    /** dns_backupserver_available. */
    predicate Backup(i: nat)
      requires i < |table| && |servers| == c.servers
      reads this
    {
      table[i].server + 1 < c.servers && servers[table[i].server + 1] != ANY
    }

    /**
     The entry is asked for no longer after this tick: its server, or after the last retry the next one, has
     no address.
     */
    ghost predicate GivesUp(i: nat)
      requires i < |table| && |servers| == c.servers && EntryOk(c, table[i])
      reads this
    {
      match table[i].state
      case NEW => servers[0] == ANY
      case ASKING =>
        table[i].tmr == 1 && if table[i].retries + 1 == c.retries then !Backup(i) else servers[table[i].server] == ANY
      case _ => true
    }

    /** dns_send, but for the packet itself: without a server the entry is given up. */
    method Send(i: nat)
      requires Core() && i < |table| && table[i].state == ASKING
      modifies this`requests, this`log, this`table
      ensures Core() && old(log) <= log
      ensures table ==
        if servers[old(table)[i].server] != ANY then old(table) else old(table)[i := old(table)[i].(state := UNUSED)]
      ensures servers[old(table)[i].server] != ANY ==> requests == old(requests) && log == old(log)
      ensures forall r :: 0 <= r < |requests| && requests[r].found.Some? ==> requests[r] == old(requests)[r]
      ensures forall r :: 0 <= r < |requests| && old(requests)[r].idx != i ==> requests[r] == old(requests)[r]
    {
      if servers[table[i].server] == ANY {
        Drop(i, table[i].(state := UNUSED));
      }
    }

    /** The entry goes on as `e`, and a query is sent again. */
    method AskAgain(i: nat, e: Entry)
      requires Core() && i < |table| && table[i].state == e.state == ASKING && e.txid == table[i].txid
      requires EntryOk(c, e) && e.started <= starts && Measure(c, e) <= Measure(c, table[i])
      modifies this`requests, this`log, this`table
      ensures Core() && old(log) <= log
      ensures table == old(table)[i := if servers[e.server] != ANY then e else e.(state := UNUSED)]
      ensures servers[e.server] != ANY ==> requests == old(requests) && log == old(log)
      ensures forall r :: 0 <= r < |requests| && requests[r].found.Some? ==> requests[r] == old(requests)[r]
      ensures forall r :: 0 <= r < |requests| && old(requests)[r].idx != i ==> requests[r] == old(requests)[r]
    {
      Continue(i, e);
      Send(i);
    }

    /** The case DNS_STATE_ASKING of dns_check_entry. */
    method TickAsking(i: nat)
      requires Core() && i < |table| && table[i].state == ASKING
      modifies this`requests, this`log, this`table
      ensures Core() && old(log) <= log && table == old(table)[i := table[i]]
      ensures if old(GivesUp(i)) then table[i].state == UNUSED && table[i].server < c.servers
              else table[i] == NextAsk(c, old(table)[i])
      ensures AskedTick(c, servers, old(table)[i], table[i])
      ensures table[i].state == ASKING ==> requests == old(requests) && log == old(log)
      ensures forall r :: 0 <= r < |requests| && requests[r].found.Some? ==> requests[r] == old(requests)[r]
      ensures forall r :: 0 <= r < |requests| && old(requests)[r].idx != i ==> requests[r] == old(requests)[r]
    {
      var e := table[i];
      if e.tmr == 1 && e.retries + 1 == c.retries && !Backup(i) {
        Drop(i, e.(tmr := 0, retries := e.retries + 1, state := UNUSED));
        return;
      }
      NextAskMeasure(c, e);
      if e.tmr > 1 {
        Continue(i, e.(tmr := e.tmr - 1));
      } else if e.retries + 1 == c.retries {
        AskAgain(i, e.(server := e.server + 1, tmr := 1, retries := 0));
      } else {
        AskAgain(i, e.(retries := e.retries + 1, tmr := e.retries + 1));
      }
    }

    /** The case DNS_STATE_NEW of dns_check_entry. */
    method Begin(i: nat, rand: nat -> nat, ghost k: nat)
      requires Core() && i < |table| && table[i].state == NEW && TxidFree(table, rand(k))
      modifies this`requests, this`log, this`table
      ensures Core() && old(log) <= log && table == old(table)[i := table[i]]
      ensures Begun(old(table)[i], table[i]) && TxidFree(old(table), table[i].txid)
      ensures table[i].state == ASKING <==> servers[0] != ANY
      ensures table[i].state == ASKING ==> requests == old(requests) && log == old(log)
      ensures forall r :: 0 <= r < |requests| && requests[r].found.Some? ==> requests[r] == old(requests)[r]
      ensures forall r :: 0 <= r < |requests| && old(requests)[r].idx != i ==> requests[r] == old(requests)[r]
    {
      var txid := CreateTxid(rand, k);
      Continue(i, table[i].(txid := txid, state := ASKING, server := 0, tmr := 1, retries := 0));
      Send(i);
    }

    /** dns_check_entry: a timer tick for one entry. */
    method CheckEntry(i: nat, rand: nat -> nat, ghost k: nat)
      requires Core() && i < |table| && (table[i].state == NEW ==> TxidFree(table, rand(k)))
      modifies this`requests, this`log, this`table
      ensures Core() && old(log) <= log && table == old(table)[i := table[i]] && table[i].state != NEW
      ensures Ticked(c, old(table)[i], table[i])
      ensures table[i].state != ASKING <==> old(GivesUp(i))
      ensures old(table)[i].state == ASKING && table[i].state == ASKING ==> table[i] == NextAsk(c, old(table)[i])
      ensures old(table)[i].state == NEW ==> Begun(old(table)[i], table[i]) && TxidFree(old(table), table[i].txid)
      ensures old(table)[i].state == ASKING ==> AskedTick(c, servers, old(table)[i], table[i])
      ensures var e, s := old(table)[i], old(table)[i].server + 1;
        e.state == ASKING && e.tmr == 1 && e.retries + 1 == c.retries ==>
          && (table[i].state == ASKING <==> s < c.servers && servers[s] != ANY)
          && (table[i].state == ASKING ==> table[i] == e.(server := s, tmr := 1, retries := 0))
      ensures table[i].state == ASKING ==> requests == old(requests) && log == old(log)
      ensures forall r :: 0 <= r < |requests| && requests[r].found.Some? ==> requests[r] == old(requests)[r]
      ensures forall r :: 0 <= r < |requests| && old(requests)[r].idx != i ==> requests[r] == old(requests)[r]
    {
      var e := table[i];
      match e.state
      case NEW =>
        Begin(i, rand, k);
      case ASKING =>
        assert !GivesUp(i) ==> Measure(c, NextAsk(c, e)) + 1 == Measure(c, e) by {
          if !GivesUp(i) {
            NextAskMeasure(c, e);
          }
        }
        TickAsking(i);
      case DONE =>
        table := table[i := if e.ttl <= 1 then e.(ttl := 0, state := UNUSED) else e.(ttl := e.ttl - 1)];
      case UNUSED =>
    }

    /** dns_check_entries: one tick of the timer. */
    method CheckEntries(rand: nat -> nat, ghost now: nat)
      requires Valid(now)
      modifies this`requests, this`log, this`table, this`time
      ensures Valid(now + 1) && old(log) <= log && TableTick(c, servers, old(table), table)
      ensures AllWaitOn(table, old(requests), requests, |table|)
    {
      var i := 0;
      while i < |table|
        invariant Core() && i <= |table| && old(log) <= log && Clocks(now, i)
        invariant TickedTo(c, servers, old(table), table, i) && AllWaitOn(table, old(requests), requests, i)
      {
        TickOne(i, rand, now, old(table), old(requests));
        i := i + 1;
      }
    }

    /** The first `n` entries have seen one tick more than the others; none is new. */
    ghost predicate Clocks(now: nat, n: nat)
      reads this
    {
      && |time| == |table|
      && forall j :: 0 <= j < |table| ==> table[j].state != NEW && time[j] == if j < n then now + 1 else now
    }

    method TickOne(i: nat, rand: nat -> nat, ghost now: nat, ghost t0: seq<Entry>, ghost q0: seq<Req>)
      requires Core() && i < |table| && Clocks(now, i)
      requires TickedTo(c, servers, t0, table, i) && AllWaitOn(table, q0, requests, i)
      modifies this`requests, this`log, this`table, this`time
      ensures Core() && old(log) <= log && |table| == |old(table)| && Clocks(now, i + 1)
      ensures TickedTo(c, servers, t0, table, i + 1) && AllWaitOn(table, q0, requests, i + 1)
    {
      ghost var t1, q1 := table, requests;
      CheckEntry(i, rand, 0);
      AllTicked(c, table, time, born, q1, requests, i);
      OneTicked(c, servers, t0, t1, table, i);
      OneWaited(t1, table, q0, q1, requests, i);
      time := time[i := now + 1];
    }

    /** Ticks of the timer with nothing in between; `history` are the tables before and after each. */
    method Ticks(n: nat, rand: nat -> nat, ghost now: nat) returns (ghost history: seq<seq<Entry>>)
      requires Valid(now)
      modifies this`requests, this`log, this`table, this`time
      ensures Valid(now + n) && |history| == n + 1 && history[0] == old(table) && history[n] == table
      ensures forall m :: 0 <= m < n ==> TableTick(c, servers, history[m], history[m + 1])
    {
      history := [table];
      for i := 0 to n
        invariant Valid(now + i) && |history| == i + 1 && history[0] == old(table) && history[i] == table
        invariant forall m :: 0 <= m < i ==> TableTick(c, servers, history[m], history[m + 1])
      {
        CheckEntries(rand, now + i);
        history := history + [table];
      }
    }

    /** dns_correct_response. */
    method CorrectResponse(i: nat, ttl: nat)
      requires Core() && i < |table|
      modifies this`requests, this`log, this`table
      ensures Core() && old(log) <= log && !Waited(i)
      ensures table == old(table)[i := table[i]] && OthersWait(old(requests), requests, i)
      ensures if ttl == 0 then table[i].state == UNUSED
              else table[i].state == DONE && table[i].ttl == Min(ttl, DNS_MAX_TTL)
    {
      var t := if ttl > DNS_MAX_TTL then DNS_MAX_TTL else ttl;
      Drop(i, table[i].(state := DONE, ttl := t));
      if t == 0 {
        table := table[i := table[i].(state := UNUSED)];
      }
    }

    /** Requests for other entries wait as before. */
    static ghost predicate OthersWait(before: seq<Req>, after: seq<Req>, i: nat) {
      |before| == |after| && forall r :: 0 <= r < |before| && before[r].idx != i ==> after[r] == before[r]
    }

    /** Some request waits for the entry. */
    ghost predicate Waited(i: nat)
      reads this
    {
      exists r :: 0 <= r < |requests| && requests[r].found.Some? && requests[r].idx == i
    }

    /** The entry that is being asked for with this txid. */
    method FindAsking(txid: nat) returns (i: nat)
      ensures i <= |table| && (i == |table| <==> TxidFree(table, txid))
      ensures i < |table| ==> table[i].state == ASKING && table[i].txid == txid
      ensures forall j :: 0 <= j < i && table[j].state == ASKING ==> table[j].txid != txid
    {
      i := 0;
      while i < |table| && !(table[i].state == ASKING && table[i].txid == txid)
        invariant i <= |table| && forall j :: 0 <= j < i && table[j].state == ASKING ==> table[j].txid != txid
      {
        i := i + 1;
      }
    }

    /** An error code in a reply (dns.c:1270-1283). */
    method Failover(i: nat, rand: nat -> nat)
      requires Core() && i < |table| && table[i].state == ASKING
      modifies this`requests, this`log, this`table
      ensures Core() && old(log) <= log && table == old(table)[i := table[i]] && table[i].state != NEW
      ensures OthersWait(old(requests), requests, i)
      ensures var e, s := old(table)[i], old(table)[i].server + 1;
        if s < c.servers && servers[s] != ANY
        then table[i] == e.(server := s, tmr := 1, retries := 0) && requests == old(requests) && log == old(log)
        else table[i].state == UNUSED && !Waited(i)
    {
      if Backup(i) {
        Continue(i, table[i].(retries := c.retries - 1, tmr := 1));
        CheckEntry(i, rand, 0);
      } else {
        Drop(i, table[i].(state := UNUSED));
      }
    }

    /** dns_recv: a packet with this txid, and what the checks on it find. It never makes a request wait longer. */
    method Receive(txid: nat, verdict: Verdict, rand: nat -> nat, ghost now: nat) returns (i: nat)
      requires Valid(now)
      modifies this`requests, this`log, this`table
      ensures Valid(now) && old(log) <= log && i <= |table|
      ensures i == |table| <==> TxidFree(old(table), txid)
      ensures forall j :: 0 <= j < i && old(table)[j].state == ASKING ==> old(table)[j].txid != txid
      ensures i == |table| || verdict == IGNORE ==> table == old(table) && requests == old(requests) && log == old(log)
      ensures i < |table| ==> old(table)[i].state == ASKING && old(table)[i].txid == txid
      ensures i < |table| ==> table == old(table)[i := table[i]] && OthersWait(old(requests), requests, i)
      ensures i < |table| && verdict == FAILURE ==>
        var e, s := old(table)[i], old(table)[i].server + 1;
        if s < c.servers && servers[s] != ANY
        then table[i] == e.(server := s, tmr := 1, retries := 0) && requests == old(requests) && log == old(log)
        else table[i].state == UNUSED && !Waited(i)
      ensures i < |table| && verdict == NO_ANSWER ==> table[i].state == UNUSED && !Waited(i)
      ensures i < |table| && verdict.ANSWER? ==>
        && table[i].state == (if verdict.ttl == 0 then UNUSED else DONE) && !Waited(i)
        && (verdict.ttl > 0 ==> table[i].ttl == Min(verdict.ttl, DNS_MAX_TTL))
    {
      i := FindAsking(txid);
      if i == |table| {
        return;
      }
      match verdict
      case IGNORE =>
      case FAILURE =>
        Failover(i, rand);
      case ANSWER(ttl) =>
        CorrectResponse(i, ttl);
      case NO_ANSWER =>
        Drop(i, table[i].(state := UNUSED));
    }

    /** After the bound, every request that was accepted has been called, and once only. */
    lemma Deadline(now: nat, id: nat)
      requires Valid(now) && id < nextId && id in born && born[id] + Bound(c) <= now
      ensures id in log && forall i, j :: 0 <= i < j < |log| ==> log[i] != log[j]
    {
      forall r | 0 <= r < |requests| ensures requests[r].found != Some(id) {
        assert Waits(c, table, time, born, requests[r]);
      }
    }

    /** dns_setserver; without a server the entry is cleared. */
    method SetServer(n: nat, server: Option<nat>, ghost now: nat)
      requires Valid(now)
      modifies this`servers
      ensures Valid(now)
      ensures servers == if n < c.servers then old(servers)[n := if server == None then ANY else server.value]
                         else old(servers)
    {
      if n < c.servers {
        if server.Some? {
          servers := servers[n := server.value];
        } else {
          servers := servers[n := ANY];
        }
      }
    }

    /** The first slot without a callback, or as many as there are slots. */
    method FreeSlot() returns (r: nat)
      ensures r <= |requests| && (r < |requests| ==> requests[r].found.None?)
      ensures r == |requests| ==> forall s :: 0 <= s < |requests| ==> requests[s].found.Some?
    {
      r := 0;
      while r < |requests| && requests[r].found.Some?
        invariant r <= |requests| && forall s :: 0 <= s < r ==> requests[s].found.Some?
      {
        r := r + 1;
      }
    }

    /** A request enters slot `r` and waits for entry `i`, which is asked for or about to be. */
    method Accept(r: nat, i: nat, ghost now: nat)
      requires Core() && r < |requests| && requests[r].found.None? && i < |table| && Live(table[i]) && time[i] == now
      modifies this`requests, this`nextId, this`born
      ensures Core() && nextId == old(nextId) + 1 && born == old(born)[old(nextId) := now]
      ensures requests == old(requests)[r := Req(Some(old(nextId)), i)]
    {
      AccountAdd(requests, log, nextId, r, i);
      requests := requests[r := Req(Some(nextId), i)];
      born := born[nextId := now];
      nextId := nextId + 1;
    }

    /** The search of dns_enqueue for an unused entry or else the completed one that is oldest. */
    method FindEntry() returns (i: nat)
      requires Core()
      ensures i <= |table| && (i < |table| ==> Usable(seqno, table[i]))
      ensures i < |table| ==> IsOldest(table, starts, i)
      ensures i == |table| && AllRecent(table, starts) ==> forall j :: 0 <= j < |table| ==> Live(table[j])
      ensures i == |table| ==> forall j :: 0 <= j < |table| ==> !Usable(seqno, table[j])
      ensures i < |table| && table[i].state == DONE ==>
        forall j :: 0 <= j < |table| ==>
          table[j].state != UNUSED && (table[j].state == DONE ==> Age(seqno, table[j]) <= Age(seqno, table[i]))
    {
      var lseq: nat, lseqi: nat := 0, |table|;
      i := 0;
      while i < |table|
        invariant i <= |table| && lseqi <= |table| && (lseq > 0 <==> lseqi < |table|)
        invariant lseqi < |table| ==> lseqi < i && table[lseqi].state == DONE && Age(seqno, table[lseqi]) == lseq
        invariant forall j :: 0 <= j < i ==>
          table[j].state != UNUSED && (table[j].state == DONE ==> Age(seqno, table[j]) <= lseq)
      {
        if table[i].state == UNUSED {
          return;
        }
        if table[i].state == DONE {
          var age := Age(seqno, table[i]);
          if age > lseq {
            lseq, lseqi := age, i;
          }
        }
        i := i + 1;
      }
      i := lseqi;
      if AllRecent(table, starts) {
        OldestIs(table, seqno, starts, i);
      }
    }

    /** The search of dns_enqueue for an entry that is asked for under the same name. */
    method FindDuplicate(name: seq<byte>) returns (i: nat)
      ensures i <= |table| && (i < |table| ==> Duplicate(name, table[i]))
      ensures i == |table| ==> forall j :: 0 <= j < |table| ==> !Duplicate(name, table[j])
    {
      i := 0;
      while i < |table| && !Duplicate(name, table[i])
        invariant i <= |table| && forall j :: 0 <= j < i ==> !Duplicate(name, table[j])
      {
        i := i + 1;
      }
    }

    /** No slot, or no entry that is asked for under this name and none that can be taken. */
    ghost predicate Refuses(name: seq<byte>, port: bool)
      reads this
    {
      SlotsFull() || ((forall i :: 0 <= i < |table| ==> !Duplicate(name, table[i])) && (!port || !AnyUsable()))
    }

    /**
     dns_enqueue: the request is accepted, unless there is no room for it or no source port. It waits for
     entry `i`: one that is asked for under the same name, or one that is taken for it.
     */
    method Enqueue(hostname: seq<byte>, port: bool, rand: nat -> nat, ghost k: nat, ghost now: nat)
      returns (e: Err, i: nat)
      requires Valid(now) && TxidFree(table, rand(k))
      modifies this
      ensures Valid(now) && old(log) <= log && i <= |table|
      ensures e == MEM <==> old(Refuses(hostname[..Min(|hostname|, 255)], port))
      ensures e == MEM ==> nextId == old(nextId) && requests == old(requests) && log == old(log)
      ensures e == MEM ==> seqno == old(seqno) && starts == old(starts)
      ensures e == MEM && i == |table| ==> table == old(table) && (old(SlotsFull()) || !old(AnyUsable()))
      ensures e == MEM && i < |table| ==>
        && !port && Usable(seqno, old(table)[i])
        && var name := hostname[..Min(|hostname|, 255)];
           table == old(table)[i := old(table)[i].(state := UNUSED, seqno := seqno, started := starts, name := name)]
      ensures e == INPROGRESS ==> i < |table| && nextId == old(nextId) + 1 && born == old(born)[old(nextId) := now]
      ensures e == INPROGRESS ==>
        && Entered(old(requests), requests, old(nextId), i, table[i].state == ASKING)
        && (table[i].state == ASKING ==> log == old(log))
      ensures e == INPROGRESS && Duplicate(hostname[..Min(|hostname|, 255)], old(table)[i]) ==>
        table == old(table) && seqno == old(seqno)
      ensures e == INPROGRESS && !Duplicate(hostname[..Min(|hostname|, 255)], old(table)[i]) ==>
        && Usable(old(seqno), old(table)[i]) && seqno == (if old(seqno) == 0xFF then 0 else old(seqno) + 1)
        && IsOldest(old(table), old(starts), i)
        && (forall j :: 0 <= j < |table| ==> !Duplicate(hostname[..Min(|hostname|, 255)], old(table)[j]))
        && TakenFor(old(table), table, i, hostname[..Min(|hostname|, 255)], old(starts), servers[0] != ANY)
    {
      var name := hostname[..Min(|hostname|, 255)];
      i := FindDuplicate(name);
      var r := FreeSlot();
      if i < |table| && r < |requests| {
        Accept(r, i, now);
        EnteredAt(old(requests), requests, requests, r, old(nextId), i, true);
        return INPROGRESS, i;
      }
      e, i := EnqueueNew(name, r, port, rand, k, now);
    }

    /** The part of dns_enqueue for a name that no entry is asked for; slot `r` is free unless there is none. */
    method EnqueueNew(name: seq<byte>, r: nat, port: bool, rand: nat -> nat, ghost k: nat, ghost now: nat)
      returns (e: Err, i: nat)
      requires Valid(now) && TxidFree(table, rand(k)) && r <= |requests|
      requires if r < |requests| then requests[r].found.None? else SlotsFull()
      modifies this
      ensures Valid(now) && old(log) <= log && i <= |table| == |old(table)|
      ensures e == MEM <==> r == |old(requests)| || !port || !old(AnyUsable())
      ensures e == MEM ==> nextId == old(nextId) && requests == old(requests) && log == old(log)
      ensures e == MEM ==> seqno == old(seqno) && starts == old(starts)
      ensures e == MEM && i == |table| ==> table == old(table) && (old(SlotsFull()) || !old(AnyUsable()))
      ensures i < |table| ==> Usable(old(seqno), old(table)[i]) && IsOldest(old(table), old(starts), i)
      ensures e == MEM && i < |table| ==>
        && !port
        && table == old(table)[i := old(table)[i].(state := UNUSED, seqno := seqno, started := starts, name := name)]
      ensures e == INPROGRESS ==> i < |table| && nextId == old(nextId) + 1 && born == old(born)[old(nextId) := now]
      ensures e == INPROGRESS ==>
        && Entered(old(requests), requests, old(nextId), i, table[i].state == ASKING)
        && (table[i].state == ASKING ==> log == old(log))
        && seqno == (if old(seqno) == 0xFF then 0 else old(seqno) + 1)
        && TakenFor(old(table), table, i, name, old(starts), servers[0] != ANY)
    {
      i := FindEntry();
      if i == |table| || r == |requests| {
        return MEM, |table|;
      }
      if !port {
        table := table[i := table[i].(state := UNUSED, seqno := seqno, started := starts, name := name)];
        return MEM, i;
      }
      Start(i, r, name, rand, k, now);
      e := INPROGRESS;
    }

    ghost predicate SlotsFull()
      reads this
    {
      forall r :: 0 <= r < |requests| ==> requests[r].found.Some?
    }

    ghost predicate AnyUsable()
      reads this
    {
      exists i: nat :: i < |table| && Usable(seqno, table[i])
    }

    /** Entry `i` is new, and slot `r` waits for it. */
    method Register(i: nat, r: nat, name: seq<byte>, ghost now: nat)
      requires Valid(now) && i < |table| && !Live(table[i]) && r < |requests| && requests[r].found.None?
      modifies this`table, this`requests, this`nextId, this`born, this`seqno, this`starts
      ensures Core() && nextId == old(nextId) + 1 && born == old(born)[old(nextId) := now]
      ensures forall s :: 0 <= s < |old(requests)| && old(requests)[s].found.Some? ==> old(requests)[s].idx != i
      ensures requests == old(requests)[r := Req(Some(old(nextId)), i)]
      ensures table ==
        old(table)[i := old(table)[i].(state := NEW, seqno := old(seqno), started := old(starts), name := name)]
      ensures seqno == (if old(seqno) == 0xFF then 0 else old(seqno) + 1) && starts == old(starts) + 1
    {
      forall s | 0 <= s < |requests| && requests[s].found.Some? ensures requests[s].idx != i {
        assert Waits(c, table, time, born, requests[s]);
      }
      Continue(i, table[i].(state := NEW, seqno := seqno, started := starts, name := name));
      Accept(r, i, now);
      NextNumber(seqno, starts);
      seqno, starts := if seqno == 0xFF then 0 else seqno + 1, starts + 1;
    }

    /** The rest of dns_enqueue: entry `i` is taken for the name, slot `r` for the request. */
    method Start(i: nat, r: nat, name: seq<byte>, rand: nat -> nat, ghost k: nat, ghost now: nat)
      requires Valid(now) && i < |table| && !Live(table[i]) && r < |requests| && requests[r].found.None?
      requires TxidFree(table, rand(k))
      modifies this`table, this`requests, this`nextId, this`born, this`seqno, this`starts, this`log
      ensures Valid(now) && old(log) <= log && nextId == old(nextId) + 1 && born == old(born)[old(nextId) := now]
      ensures TakenFor(old(table), table, i, name, old(starts), servers[0] != ANY)
      ensures Entered(old(requests), requests, old(nextId), i, table[i].state == ASKING)
      ensures table[i].state == ASKING ==> log == old(log)
      ensures seqno == (if old(seqno) == 0xFF then 0 else old(seqno) + 1) && starts == old(starts) + 1
    {
      Register(i, r, name, now);
      ghost var q := requests;
      CheckEntry(i, rand, k);
      EnteredAt(old(requests), q, requests, r, old(nextId), i, table[i].state == ASKING);
    }
  }
}
