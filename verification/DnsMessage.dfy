/**
 What dns_recv makes of the bytes of a packet, and that it understands the replies of section 4.1 of RFC
 1035. Only IPv4 addresses are asked for.
 */
module DnsMessage {
  import opened Common
  import opened DnsName
  import Dns

  const SIZEOF_DNS_HDR: nat := 12
  const SIZEOF_DNS_QUERY: nat := 4
  const SIZEOF_DNS_ANSWER: nat := 10
  const TYPE_A: u16 := 1
  const CLASS_IN: u16 := 1

  /** The two bytes at `off`, in network order. */
  function Word(p: seq<byte>, off: nat): (r: u16)
    requires off + 2 <= |p|
  {
    p[off] as int * 0x100 + p[off + 1] as int
  }

  /** The memory from a zero-terminated name on. */
  function Text(name: seq<byte>): nat -> byte {
    (j: nat) => if j < |name| then name[j] else 0
  }

  // ----- reading -----

  /** One answer: it ends the search, or the next one begins at `next`. */
  datatype Step = Done(verdict: Dns.Verdict, addr: seq<byte>) | Skip(next: nat)

  ghost function AnswerAt(p: seq<byte>, off: nat): Step {
    var at := SkippedFrom(p, off);
    var data := at + SIZEOF_DNS_ANSWER;
    if at == 0xFFFF || data > |p| || data > 0xFFFF then Done(Dns.IGNORE, [])
    else if Word(p, at + 2) == CLASS_IN && Word(p, at) == TYPE_A && Word(p, at + 8) == 4 then
      (if data + 4 > |p| then Done(Dns.IGNORE, [])
       else Done(Dns.ANSWER(Word(p, at + 4) * 0x1_0000 + Word(p, at + 6)), p[data..data + 4]))
    else if data + Word(p, at + 8) > 0xFFFF then Done(Dns.IGNORE, [])
    else Skip(data + Word(p, at + 8))
  }

  /** What the answers from `off` on say, at most `n` of them; time to live and address of the first that counts. */
  ghost function AnsweredFrom(p: seq<byte>, off: nat, n: nat): (r: (Dns.Verdict, seq<byte>))
    decreases n
  {
    if n == 0 || off >= |p| then (Dns.NO_ANSWER, []) else
      match AnswerAt(p, off)
      case Done(v, addr) => (v, addr)
      case Skip(next) => AnsweredFrom(p, next, n - 1)
  }

  /** One round of the loop over the answers. */
  method AnswerRound(p: seq<byte>, start: nat) returns (step: Step)
    requires |p| <= 0xFFFF && start <= 0xFFFF
    ensures step == AnswerAt(p, start) && (step.Skip? ==> step.next <= 0xFFFF)
  {
    var off := SkipName(p, start);
    if off == 0xFFFF {
      return Done(Dns.IGNORE, []);
    }
    if off + SIZEOF_DNS_ANSWER > |p| {
      return Done(Dns.IGNORE, []);
    }
    var kind, cls, len := Word(p, off), Word(p, off + 2), Word(p, off + 8);
    var ttl := Word(p, off + 4) * 0x1_0000 + Word(p, off + 6);
    off := off + SIZEOF_DNS_ANSWER;
    if cls == CLASS_IN && kind == TYPE_A && len == 4 {
      if off + 4 > |p| {
        return Done(Dns.IGNORE, []);
      }
      return Done(Dns.ANSWER(ttl), p[off..off + 4]);
    }
    if off + len > 0xFFFF {
      return Done(Dns.IGNORE, []);
    }
    return Skip(off + len);
  }

  /** The loop over the answers (dns.c:1287-1350). It ends for every packet and reads no byte beyond it. */
  method Answers(p: seq<byte>, start: nat, count: nat) returns (v: Dns.Verdict, addr: seq<byte>)
    requires |p| <= 0xFFFF && start <= 0xFFFF
    ensures (v, addr) == AnsweredFrom(p, start, count)
  {
    var off: nat, n: nat := start, count;
    while n > 0 && off < |p|
      invariant off <= 0xFFFF && AnsweredFrom(p, off, n) == AnsweredFrom(p, start, count)
    {
      var step := AnswerRound(p, off);
      if step.Done? {
        return step.verdict, step.addr;
      }
      off, n := step.next, n - 1;
    }
    return Dns.NO_ANSWER, [];
  }

  /** What the whole packet says about the name. */
  ghost function Judged(p: seq<byte>, name: seq<byte>, fromServer: bool): (r: (Dns.Verdict, seq<byte>)) {
    if |p| < SIZEOF_DNS_HDR + SIZEOF_DNS_QUERY || p[2] < 0x80 || Word(p, 4) != 1 || !fromServer then
      (Dns.IGNORE, [])
    else
      var at := ComparedFrom(Text(name), 0, p, SIZEOF_DNS_HDR);
      if at == 0xFFFF || at + SIZEOF_DNS_QUERY > |p| || Word(p, at + 2) != CLASS_IN || Word(p, at) != TYPE_A then
        (Dns.IGNORE, [])
      else if p[3] % 0x10 != 0 then (Dns.FAILURE, [])
      else AnsweredFrom(p, at + SIZEOF_DNS_QUERY, Word(p, 6))
  }

  /** The checks of dns_recv behind the one on the txid. */
  method Judge(p: seq<byte>, name: seq<byte>, fromServer: bool) returns (v: Dns.Verdict, addr: seq<byte>)
    requires SIZEOF_DNS_HDR + SIZEOF_DNS_QUERY <= |p| <= 0xFFFF
    ensures (v, addr) == Judged(p, name, fromServer)
  {
    var questions, answers := Word(p, 4), Word(p, 6);
    if p[2] < 0x80 {
      return Dns.IGNORE, [];
    }
    if questions != 1 {
      return Dns.IGNORE, [];
    }
    if !fromServer {
      return Dns.IGNORE, [];
    }
    var off := CompareName(Text(name), p, SIZEOF_DNS_HDR);
    if off == 0xFFFF {
      return Dns.IGNORE, [];
    }
    if off + SIZEOF_DNS_QUERY > |p| {
      return Dns.IGNORE, [];
    }
    if Word(p, off + 2) != CLASS_IN || Word(p, off) != TYPE_A {
      return Dns.IGNORE, [];
    }
    off := off + SIZEOF_DNS_QUERY;
    if p[3] % 0x10 != 0 {
      return Dns.FAILURE, [];
    }
    v, addr := Answers(p, off, answers);
  }

  // ----- the replies of RFC 1035 -----

  /** A name field: labels behind their lengths, closed by a zero behind a label, or by a pointer of two bytes. */
  ghost predicate NameField(s: seq<byte>) {
    |s| >= 2 && if s[0] >= 0xC0 then |s| == 2
                else s[0] + 1 < |s| && if s[s[0] + 1] == 0 then |s| == s[0] + 2 else NameField(s[s[0] + 1..])
  }

  ghost predicate At(p: seq<byte>, off: nat, s: seq<byte>) {
    off + |s| <= |p| && p[off..off + |s|] == s
  }

  lemma {:induction false} SkipField(p: seq<byte>, off: nat, s: seq<byte>)
    requires NameField(s) && At(p, off, s) && |p| < 0xFFFF
    ensures SkippedFrom(p, off) == off + |s|
    decreases |s|
  {
    assert p[off] == s[0];
    if s[0] < 0xC0 {
      var k := s[0] as int + 1;
      assert p[off + k] == s[k];
      if s[k] != 0 {
        AtRest(p, off, s, k);
        SkipField(p, off + k, s[k..]);
      }
    }
  }

  lemma AtRest(p: seq<byte>, off: nat, s: seq<byte>, k: nat)
    requires At(p, off, s) && k <= |s|
    ensures At(p, off + k, s[k..]) && At(p, off, s[..k])
  {
    assert p[off + k..off + |s|] == p[off..off + |s|][k..];
    assert p[off..off + k] == p[off..off + |s|][..k];
  }

  /** Every encoded name is one, if it is readable. */
  lemma {:induction false} EncodingIsField(name: seq<byte>, i: nat)
    requires LabelStart(name, i) && |name| <= 255 && Readable(name, i)
    ensures NameField(Encoding(name)[i..])
    decreases |name| - i
  {
    var s, k := Encoding(name)[i..], LabelEnd(name, i);
    InLabel(name, i, k);
    assert s[0] == k - i && s[k - i + 1] == Encoding(name)[k + 1] == ByteAt(name, k + 1);
    assert s[k - i + 1..] == Encoding(name)[k + 1..];
    if k < |name| {
      EncodingIsField(name, k + 1);
    }
  }

  /** A resource record; `owner` is its name field. */
  datatype Record = Record(owner: seq<byte>, kind: u16, cls: u16, ttlHigh: u16, ttlLow: u16, data: seq<byte>)

  ghost predicate WellFormed(r: Record) {
    NameField(r.owner) && |r.data| <= 0xFFFF
  }

  ghost predicate AllWellFormed(records: seq<Record>) {
    forall i :: 0 <= i < |records| ==> WellFormed(records[i])
  }

  function Bytes(w: u16): seq<byte> { [w / 0x100, w % 0x100] }

  /** The ten bytes between name and data. */
  function Fixed(r: Record): (s: seq<byte>)
    requires |r.data| <= 0xFFFF
    ensures |s| == SIZEOF_DNS_ANSWER
  {
    Bytes(r.kind) + Bytes(r.cls) + Bytes(r.ttlHigh) + Bytes(r.ttlLow) + Bytes(|r.data|)
  }

  function RecordBytes(r: Record): (s: seq<byte>)
    requires |r.data| <= 0xFFFF
    ensures |s| == |r.owner| + SIZEOF_DNS_ANSWER + |r.data|
  {
    r.owner + Fixed(r) + r.data
  }

  ghost function Encoded(records: seq<Record>): seq<byte>
    requires AllWellFormed(records)
  {
    if records == [] then [] else RecordBytes(records[0]) + Encoded(records[1..])
  }

  ghost predicate IsAddress(r: Record) { r.cls == CLASS_IN && r.kind == TYPE_A && |r.data| == 4 }

  /** What a list of records says: the first address counts. */
  ghost function Meaning(records: seq<Record>): (Dns.Verdict, seq<byte>) {
    if records == [] then (Dns.NO_ANSWER, [])
    else if IsAddress(records[0]) then
      (Dns.ANSWER(records[0].ttlHigh * 0x1_0000 + records[0].ttlLow), records[0].data)
    else Meaning(records[1..])
  }

  /** Record `i` is the first address of the list. */
  ghost predicate FirstAddress(records: seq<Record>, i: nat) {
    i < |records| && IsAddress(records[i]) && forall j :: 0 <= j < i ==> !IsAddress(records[j])
  }

  lemma LaterAddress(records: seq<Record>, i: nat)
    requires records != [] && !IsAddress(records[0]) && FirstAddress(records[1..], i)
    ensures FirstAddress(records, i + 1) && records[i + 1] == records[1..][i]
  {
    forall j | 0 <= j < i + 1 ensures !IsAddress(records[j]) {
      assert j > 0 ==> records[j] == records[1..][j - 1];
    }
  }

  /** The meaning is the first address with its time to live, and that there is none only if there is none. */
  lemma {:induction false} MeaningSays(records: seq<Record>)
    ensures var v := Meaning(records);
      if v.0.ANSWER? then
        exists i: nat :: FirstAddress(records, i)
          && v == (Dns.ANSWER(records[i].ttlHigh * 0x1_0000 + records[i].ttlLow), records[i].data)
      else v == (Dns.NO_ANSWER, []) && forall r :: r in records ==> !IsAddress(r)
  {
    if records != [] {
      if IsAddress(records[0]) {
        assert FirstAddress(records, 0);
      } else {
        MeaningSays(records[1..]);
        if Meaning(records).0.ANSWER? {
          var i: nat :| FirstAddress(records[1..], i) && Meaning(records) ==
            (Dns.ANSWER(records[1..][i].ttlHigh * 0x1_0000 + records[1..][i].ttlLow), records[1..][i].data);
          LaterAddress(records, i);
        }
      }
    }
  }

  lemma WordAt(p: seq<byte>, off: nat, s: seq<byte>, k: nat, w: u16)
    requires At(p, off, s) && k + 2 <= |s| && s[k] == w / 0x100 && s[k + 1] == w % 0x100
    ensures Word(p, off + k) == w
  {
    assert p[off..off + |s|][k] == p[off + k] && p[off..off + |s|][k + 1] == p[off + k + 1];
  }

  lemma FixedAt(p: seq<byte>, off: nat, r: Record)
    requires |r.data| <= 0xFFFF && At(p, off, Fixed(r))
    ensures Word(p, off) == r.kind && Word(p, off + 2) == r.cls
    ensures Word(p, off + 4) == r.ttlHigh && Word(p, off + 6) == r.ttlLow && Word(p, off + 8) == |r.data|
  {
    WordAt(p, off, Fixed(r), 0, r.kind);
    WordAt(p, off, Fixed(r), 2, r.cls);
    WordAt(p, off, Fixed(r), 4, r.ttlHigh);
    WordAt(p, off, Fixed(r), 6, r.ttlLow);
    WordAt(p, off, Fixed(r), 8, |r.data|);
  }

  lemma AtParts(p: seq<byte>, off: nat, a: seq<byte>, b: seq<byte>)
    requires At(p, off, a + b)
    ensures At(p, off, a) && At(p, off + |a|, b)
  {
    AtRest(p, off, a + b, |a|);
    assert (a + b)[..|a|] == a && (a + b)[|a|..] == b;
  }

  /** The loop over the answers finds in encoded records what they mean. */
  lemma {:induction false} RecordsUnderstood(p: seq<byte>, off: nat, records: seq<Record>)
    requires AllWellFormed(records) && At(p, off, Encoded(records)) && |p| < 0xFFFF
    ensures AnsweredFrom(p, off, |records|) == Meaning(records)
    decreases |records|
  {
    if records != [] {
      var r, rest := records[0], records[1..];
      AtParts(p, off, RecordBytes(r), Encoded(rest));
      OneAnswer(p, off, r);
      if !IsAddress(r) {
        RecordsUnderstood(p, off + |RecordBytes(r)|, rest);
      }
    }
  }

  /** One round: a record in front is taken if it is an address, or skipped. */
  lemma OneAnswer(p: seq<byte>, off: nat, r: Record)
    requires WellFormed(r) && At(p, off, RecordBytes(r)) && |p| < 0xFFFF
    ensures AnswerAt(p, off) == if IsAddress(r) then Done(Dns.ANSWER(r.ttlHigh * 0x1_0000 + r.ttlLow), r.data)
                                else Skip(off + |RecordBytes(r)|)
  {
    AtParts(p, off, r.owner + Fixed(r), r.data);
    AtParts(p, off, r.owner, Fixed(r));
    SkipField(p, off, r.owner);
    FixedAt(p, off + |r.owner|, r);
  }

  /**
   A reply to the query that dns_send makes for the name: header, the question again, the answers, and
   whatever follows them.
   */
  ghost predicate Repeats(p: seq<byte>, name: seq<byte>, records: seq<Record>) {
    && |p| < 0xFFFF && |name| <= 255 && |records| <= 0xFFFF && AllWellFormed(records)
    && |p| >= SIZEOF_DNS_HDR && p[2] >= 0x80 && Word(p, 4) == 1 && Word(p, 6) == |records|
    && At(p, SIZEOF_DNS_HDR, Encoding(name) + Bytes(TYPE_A) + Bytes(CLASS_IN) + Encoded(records))
  }

  /** One with the response code 0, or with another one. */
  ghost predicate IsReply(p: seq<byte>, name: seq<byte>, records: seq<Record>) {
    Repeats(p, name, records) && p[3] % 0x10 == 0
  }

  ghost predicate IsErrorReply(p: seq<byte>, name: seq<byte>, records: seq<Record>) {
    Repeats(p, name, records) && p[3] % 0x10 != 0
  }

  /** A packet that is not ignored is a response from the server, with the question asked and nothing else in it. */
  lemma NothingElse(p: seq<byte>, name: seq<byte>, fromServer: bool)
    requires Judged(p, name, fromServer).0 != Dns.IGNORE
    ensures fromServer && |p| >= 16 && p[2] >= 0x80 && p[4] == 0 && p[5] == 1
    ensures var at := ComparedFrom(Text(name), 0, p, 12);
      at != 0xFFFF && at + 4 <= |p| && p[at] == 0 && p[at + 1] == 1 && p[at + 2] == 0 && p[at + 3] == 1
    ensures Judged(p, name, fromServer).0 == Dns.FAILURE ==> p[3] % 0x10 != 0
    ensures Judged(p, name, fromServer).0.ANSWER? ==> p[3] % 0x10 == 0
  {
    var at := ComparedFrom(Text(name), 0, p, 12);
    NoFailure(p, at + 4, Word(p, 6));
  }

  lemma {:induction false} NoFailure(p: seq<byte>, off: nat, n: nat)
    ensures AnsweredFrom(p, off, n).0 != Dns.FAILURE
    decreases n
  {
    if n > 0 && off < |p| {
      match AnswerAt(p, off)
      case Done(_, _) =>
      case Skip(next) => NoFailure(p, next, n - 1);
    }
  }

  /** A reply with an error code is one, whatever records it has. */
  lemma ErrorUnderstood(p: seq<byte>, name: seq<byte>, records: seq<Record>)
    requires IsErrorReply(p, name, records) && Readable(name, 0)
    ensures Judged(p, name, true) == (Dns.FAILURE, [])
  {
    Split3(Encoding(name), Bytes(TYPE_A), Bytes(CLASS_IN), Encoded(records));
    AtParts(p, SIZEOF_DNS_HDR, Encoding(name) + (Bytes(TYPE_A) + Bytes(CLASS_IN)), Encoded(records));
    QuestionUnderstood(p, name);
  }

  /** A reply is understood exactly: dns_recv finds what its records mean, for every readable name. */
  lemma ReplyUnderstood(p: seq<byte>, name: seq<byte>, records: seq<Record>)
    requires IsReply(p, name, records) && Readable(name, 0)
    ensures Judged(p, name, true) == Meaning(records)
  {
    var q := Bytes(TYPE_A) + Bytes(CLASS_IN);
    var at := SIZEOF_DNS_HDR + |name| + 2;
    Split3(Encoding(name), Bytes(TYPE_A), Bytes(CLASS_IN), Encoded(records));
    AtParts(p, SIZEOF_DNS_HDR, Encoding(name) + q, Encoded(records));
    QuestionUnderstood(p, name);
    RecordsUnderstood(p, at + SIZEOF_DNS_QUERY, records);
  }

  lemma Split3(a: seq<byte>, b: seq<byte>, c: seq<byte>, d: seq<byte>)
    ensures a + b + c + d == a + (b + c) + d
  {
  }

  /** The question that the reply repeats is found to be the one asked. */
  lemma QuestionUnderstood(p: seq<byte>, name: seq<byte>)
    requires |name| <= 255 && |p| < 0xFFFF && Readable(name, 0)
    requires At(p, SIZEOF_DNS_HDR, Encoding(name) + (Bytes(TYPE_A) + Bytes(CLASS_IN)))
    ensures var at := SIZEOF_DNS_HDR + |name| + 2;
      && ComparedFrom(Text(name), 0, p, SIZEOF_DNS_HDR) == at && at + SIZEOF_DNS_QUERY <= |p|
      && Word(p, at) == TYPE_A && Word(p, at + 2) == CLASS_IN
  {
    AtParts(p, SIZEOF_DNS_HDR, Encoding(name), Bytes(TYPE_A) + Bytes(CLASS_IN));
    NameUnderstood(p, name);
    QueryWords(p, SIZEOF_DNS_HDR + |name| + 2);
  }

  lemma NameUnderstood(p: seq<byte>, name: seq<byte>)
    requires |name| <= 255 && |p| < 0xFFFF && Readable(name, 0) && At(p, SIZEOF_DNS_HDR, Encoding(name))
    ensures ComparedFrom(Text(name), 0, p, SIZEOF_DNS_HDR) == SIZEOF_DNS_HDR + |name| + 2
  {
    EncodedNameFound(Text(name), p, SIZEOF_DNS_HDR, name);
  }

  lemma QueryWords(p: seq<byte>, at: nat)
    requires At(p, at, Bytes(TYPE_A) + Bytes(CLASS_IN))
    ensures at + SIZEOF_DNS_QUERY <= |p| && Word(p, at) == TYPE_A && Word(p, at + 2) == CLASS_IN
  {
    WordAt(p, at, Bytes(TYPE_A) + Bytes(CLASS_IN), 0, TYPE_A);
    WordAt(p, at, Bytes(TYPE_A) + Bytes(CLASS_IN), 2, CLASS_IN);
  }

  ghost predicate ReportsError(p: seq<byte>, name: seq<byte>) {
    Readable(name, 0) && exists records :: IsErrorReply(p, name, records)
  }

  /** What dns_recv makes of any reply. */
  lemma VerdictIs(p: seq<byte>, name: seq<byte>)
    requires Readable(name, 0)
    ensures forall records :: IsReply(p, name, records) ==>
      var v := Judged(p, name, true); v == Meaning(records) && (v.0.ANSWER? || v.0 == Dns.NO_ANSWER)
    ensures ReportsError(p, name) ==> Judged(p, name, true).0 == Dns.FAILURE
  {
    forall records | IsReply(p, name, records)
      ensures var v := Judged(p, name, true); v == Meaning(records) && (v.0.ANSWER? || v.0 == Dns.NO_ANSWER)
    {
      ReplyUnderstood(p, name, records);
      MeaningSays(records);
    }
    if records :| IsErrorReply(p, name, records) {
      ErrorUnderstood(p, name, records);
    }
  }

  // ----- dns_recv -----

  /**
   dns_recv, from the bytes of a packet that came from the address `from`. A reply from the address of the
   server that was asked, with an address in it, completes the requests that wait for the entry.
   */
  method Receive(dns: Dns.Resolver, p: seq<byte>, from: nat, rand: nat -> nat, ghost now: nat)
    returns (i: nat, addr: seq<byte>)
    requires dns.Valid(now) && |p| <= 0xFFFF
    modifies dns`requests, dns`log, dns`table
    ensures dns.Valid(now) && old(dns.log) <= dns.log && i <= |dns.table| == |old(dns.table)|
    ensures i < |dns.table| <==> |p| >= SIZEOF_DNS_HDR + SIZEOF_DNS_QUERY && !Dns.TxidFree(old(dns.table), Word(p, 0))
    ensures i == |dns.table| ==> dns.table == old(dns.table) && dns.log == old(dns.log)
    ensures i < |dns.table| ==>
      && old(dns.table)[i].state == Dns.ASKING && old(dns.table)[i].txid == Word(p, 0)
      && dns.table == old(dns.table)[i := dns.table[i]]
      && old(dns.table)[i].server < |dns.servers|
      && (dns.servers[old(dns.table)[i].server] != from ==> dns.table == old(dns.table) && dns.log == old(dns.log))
    ensures i < |dns.table| && dns.servers[old(dns.table)[i].server] == from && Readable(old(dns.table)[i].name, 0) ==>
      forall records :: IsReply(p, old(dns.table)[i].name, records) ==>
        && addr == Meaning(records).1 && !dns.Waited(i)
        && var v := Meaning(records).0;
           && dns.table[i].state == (if v.ANSWER? && v.ttl > 0 then Dns.DONE else Dns.UNUSED)
           && (v.ANSWER? && v.ttl > 0 ==> dns.table[i].ttl == Min(v.ttl, Dns.DNS_MAX_TTL))
    ensures i < |dns.table| && dns.servers[old(dns.table)[i].server] == from && ReportsError(p, old(dns.table)[i].name)
      ==>
        var e, s := old(dns.table)[i], old(dns.table)[i].server + 1;
        if s < |dns.servers| && dns.servers[s] != Dns.ANY
        then dns.table[i] == e.(server := s, tmr := 1, retries := 0) && dns.requests == old(dns.requests)
        else dns.table[i].state == Dns.UNUSED && !dns.Waited(i)
  {
    addr := [];
    i := |dns.table|;
    if |p| < SIZEOF_DNS_HDR + SIZEOF_DNS_QUERY {
      return;
    }
    var txid := Word(p, 0);
    i := dns.FindAsking(txid);
    if i == |dns.table| {
      return;
    }
    var name, asked := dns.table[i].name, dns.servers[dns.table[i].server];
    var v;
    v, addr := Judge(p, name, from == asked);
    if Readable(name, 0) && from == asked {
      VerdictIs(p, name);
    }
    i := dns.Receive(txid, v, rand, now);
  }
}
