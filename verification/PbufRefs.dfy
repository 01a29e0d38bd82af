/**
 Reference counts and chain links of pbuf.c, over chains that may share tails.

 `holders` is the multiset of references held outside the pbufs: by the application, by a queue, or
 by a routine that is just walking a chain. The rule behind every operation is that `ref` is the
 number of `next` pointers to a pbuf plus the number of outside references to it.
 */
module PbufRefs {
  import opened Common

  datatype Node = Node(next: Option<nat>, len: u16, totLen: u16, ref: nat)

  type Mem = map<nat, Node>

  // ----- the counting rule -----

  ghost function Preds(m: Mem, p: nat): set<nat> {
    set q | q in m && m[q].next == Some(p)
  }

  ghost predicate RefOk(m: Mem, holders: multiset<nat>, p: nat) {
    if p in m then
      && m[p].ref == |Preds(m, p)| + holders[p] && 0 < m[p].ref
      && (m[p].next.Some? ==> m[p].next.value in m)
    else holders[p] == 0
  }

  ghost predicate Counted(m: Mem, holders: multiset<nat>) {
    forall p :: RefOk(m, holders, p)
  }

  /** A pbuf is allocated exactly as long as something refers to it. */
  lemma AllocatedIffReferenced(m: Mem, holders: multiset<nat>, p: nat)
    requires Counted(m, holders)
    ensures p in m <==> p in holders || exists q :: q in m && m[q].next == Some(p)
  {
    assert RefOk(m, holders, p);
    if p in m && p !in holders {
      assert Preds(m, p) != {};
      var q :| q in Preds(m, p);
    }
    if q :| q in m && m[q].next == Some(p) {
      assert RefOk(m, holders, q);
    }
  }

  /** One more outside reference: pbuf_ref. */
  lemma AddRef(m: Mem, holders: multiset<nat>, p: nat)
    requires Counted(m, holders) && p in m
    ensures Counted(m[p := m[p].(ref := m[p].ref + 1)], holders + multiset{p})
  {
    var m' := m[p := m[p].(ref := m[p].ref + 1)];
    forall x ensures RefOk(m', holders + multiset{p}, x) {
      assert RefOk(m, holders, x) && Preds(m', x) == Preds(m, x);
    }
  }

  /** Dropping an outside reference that is not the last reference. */
  lemma DropOne(m: Mem, holders: multiset<nat>, p: nat)
    requires Counted(m, holders) && p in holders && p in m && m[p].ref > 1
    ensures Counted(m[p := m[p].(ref := m[p].ref - 1)], holders - multiset{p})
  {
    var m' := m[p := m[p].(ref := m[p].ref - 1)];
    forall x ensures RefOk(m', holders - multiset{p}, x) {
      assert RefOk(m, holders, x) && Preds(m', x) == Preds(m, x);
    }
  }

  function NextRef(next: Option<nat>): multiset<nat> {
    if next == None then multiset{} else multiset{next.value}
  }

  /** Dropping the last reference: the pbuf goes, and its `next` pointer becomes an outside reference. */
  lemma DropLast(m: Mem, holders: multiset<nat>, p: nat)
    requires Counted(m, holders) && p in holders && p in m && m[p].ref == 1
    ensures Counted(m - {p}, holders - multiset{p} + NextRef(m[p].next))
    ensures m[p].next != Some(p)
  {
    assert RefOk(m, holders, p) && Preds(m, p) == {};
    var m', h' := m - {p}, holders - multiset{p} + NextRef(m[p].next);
    forall x ensures RefOk(m', h', x) {
      assert RefOk(m, holders, x) && Preds(m', x) == Preds(m, x) - {p};
      assert x in m' && m'[x].next == Some(p) ==> x in Preds(m, p);
    }
  }

  /** The outside reference to `t` becomes the `next` pointer of `l`. */
  lemma Link(m: Mem, holders: multiset<nat>, l: nat, t: nat)
    requires Counted(m, holders) && l in m && m[l].next == None && t in m && t in holders
    ensures Counted(m[l := m[l].(next := Some(t))], holders - multiset{t})
  {
    var m' := m[l := m[l].(next := Some(t))];
    forall x ensures RefOk(m', holders - multiset{t}, x) {
      assert RefOk(m, holders, x) && RefOk(m, holders, l);
      assert Preds(m', x) == if x == t then Preds(m, x) + {l} else Preds(m, x);
    }
  }

  /** The `next` pointer of `p` becomes an outside reference. */
  lemma Unlink(m: Mem, holders: multiset<nat>, p: nat)
    requires Counted(m, holders) && p in m && m[p].next.Some?
    ensures Counted(m[p := m[p].(next := None)], holders + multiset{m[p].next.value})
  {
    var q := m[p].next.value;
    var m' := m[p := m[p].(next := None)];
    forall x ensures RefOk(m', holders + multiset{q}, x) {
      assert RefOk(m, holders, x) && RefOk(m, holders, p);
      assert Preds(m', x) == if x == q then Preds(m, x) - {p} else Preds(m, x);
    }
  }

  /** A new pbuf with one reference, held by whoever allocated it. */
  lemma Fresh(m: Mem, holders: multiset<nat>, p: nat, len: u16, totLen: u16)
    requires Counted(m, holders) && p !in m
    ensures Counted(m[p := Node(None, len, totLen, 1)], holders + multiset{p})
  {
    var m' := m[p := Node(None, len, totLen, 1)];
    assert RefOk(m, holders, p);
    forall x ensures RefOk(m', holders + multiset{p}, x) {
      assert RefOk(m, holders, x);
      assert Preds(m', x) == Preds(m, x);
      if x == p {
        forall q | q in m ensures m[q].next != Some(p) { assert RefOk(m, holders, q); }
      }
    }
  }

  /** Lengths do not matter to the counts. */
  lemma SetLengths(m: Mem, holders: multiset<nat>, p: nat, len: u16, totLen: u16)
    requires Counted(m, holders) && p in m
    ensures Counted(m[p := m[p].(len := len, totLen := totLen)], holders)
  {
    var m' := m[p := m[p].(len := len, totLen := totLen)];
    forall x ensures RefOk(m', holders, x) {
      assert RefOk(m, holders, x) && Preds(m', x) == Preds(m, x);
    }
  }

  // ----- chains -----

  /** `ch[p]` lists the pbufs from `p` to the end of its chain; that it is finite rules out cycles. */
  ghost predicate ChainAt(m: Mem, ch: map<nat, seq<nat>>, p: nat) {
    p in m ==>
      && p in ch
      && (m[p].next == None ==> ch[p] == [p])
      && (m[p].next.Some? ==> m[p].next.value in m && m[p].next.value in ch && ch[p] == [p] + ch[m[p].next.value])
  }

  ghost predicate Chained(m: Mem, ch: map<nat, seq<nat>>) {
    forall p :: ChainAt(m, ch, p)
  }

  /** The list follows the pointers. */
  lemma {:induction false} ChainFollows(m: Mem, ch: map<nat, seq<nat>>, p: nat, i: nat)
    requires Chained(m, ch) && p in m && p in ch && i < |ch[p]|
    ensures ch[p][i] in m && ch[p][i] in ch && ch[ch[p][i]] == ch[p][i..]
    ensures m[ch[p][i]].next == if i + 1 < |ch[p]| then Some(ch[p][i + 1]) else None
    decreases i
  {
    assert ChainAt(m, ch, p);
    if i > 0 {
      var q := m[p].next.value;
      ChainFollows(m, ch, q, i - 1);
      assert ch[p][i..] == ch[q][i - 1..];
    } else {
      assert ch[p][0..] == ch[p];
      if m[p].next.Some? {
        assert ChainAt(m, ch, m[p].next.value);
      }
    }
  }

  lemma ChainDistinct(m: Mem, ch: map<nat, seq<nat>>, p: nat, i: nat, j: nat)
    requires Chained(m, ch) && p in m && p in ch && i < j < |ch[p]|
    ensures ch[p][i] != ch[p][j]
  {
    ChainFollows(m, ch, p, i);
    ChainFollows(m, ch, p, j);
  }

  function Last(c: seq<nat>): nat
    requires c != []
  {
    c[|c| - 1]
  }

  /** The lists after `l`, the end of a chain, was made to point to `t`. */
  ghost function Extend(ch: map<nat, seq<nat>>, l: nat, t: nat): map<nat, seq<nat>>
    requires t in ch
  {
    map x | x in ch :: if ch[x] != [] && Last(ch[x]) == l then ch[x] + ch[t] else ch[x]
  }

  lemma ExtendChained(m: Mem, ch: map<nat, seq<nat>>, l: nat, t: nat)
    requires Chained(m, ch) && l in m && m[l].next == None && t in m && t in ch
    requires l !in ch[t]
    ensures Chained(m[l := m[l].(next := Some(t))], Extend(ch, l, t))
  {
    var m', ch' := m[l := m[l].(next := Some(t))], Extend(ch, l, t);
    assert ChainAt(m, ch, t) && ch'[t] == ch[t];
    forall x ensures ChainAt(m', ch', x) {
      assert ChainAt(m, ch, x);
      if x in m && m[x].next.Some? {
        ExtendOne(m, ch, l, t, x);
      }
    }
  }

  lemma ExtendOne(m: Mem, ch: map<nat, seq<nat>>, l: nat, t: nat, x: nat)
    requires Chained(m, ch) && t in ch && x in m && m[x].next.Some?
    ensures var n := m[x].next.value;
      x in ch && n in m && n in ch && Extend(ch, l, t)[x] == [x] + Extend(ch, l, t)[n]
  {
    assert ChainAt(m, ch, x);
    var n := m[x].next.value;
    assert ChainAt(m, ch, n) && ch[n] != [] && Last(ch[x]) == Last(ch[n]);
    assert ch[x] + ch[t] == [x] + (ch[n] + ch[t]);
  }

  /** A list cut off behind `p`. */
  ghost function Cut(c: seq<nat>, p: nat): seq<nat> {
    if c == [] then [] else if c[0] == p then [p] else [c[0]] + Cut(c[1..], p)
  }

  lemma CutChained(m: Mem, ch: map<nat, seq<nat>>, p: nat)
    requires Chained(m, ch) && p in m
    ensures Chained(m[p := m[p].(next := None)], map x | x in ch :: Cut(ch[x], p))
  {
    var m', ch' := m[p := m[p].(next := None)], map x | x in ch :: Cut(ch[x], p);
    forall x ensures ChainAt(m', ch', x) {
      assert ChainAt(m, ch, x);
      if x in m {
        assert ch[x][1..] == if m[x].next.Some? then ch[m[x].next.value] else [];
        assert Cut(ch[x], p) == if x == p then [p] else [x] + Cut(ch[x][1..], p);
      }
    }
  }

  /** Dropping a pbuf that nothing points to leaves the other lists as they are. */
  lemma RemoveChained(m: Mem, ch: map<nat, seq<nat>>, p: nat)
    requires Chained(m, ch) && Preds(m, p) == {}
    ensures Chained(m - {p}, ch)
  {
    forall x ensures ChainAt(m - {p}, ch, x) {
      assert ChainAt(m, ch, x);
      assert x in m && m[x].next == Some(p) ==> x in Preds(m, p);
    }
  }

  /** Changes that leave all `next` pointers alone. */
  lemma SameLinksChained(m: Mem, m': Mem, ch: map<nat, seq<nat>>)
    requires Chained(m, ch) && m'.Keys == m.Keys && forall p :: p in m ==> m'[p].next == m[p].next
    ensures Chained(m', ch)
  {
    forall x ensures ChainAt(m', ch, x) {
      assert ChainAt(m, ch, x);
    }
  }

  lemma FreshChained(m: Mem, ch: map<nat, seq<nat>>, q: nat, node: Node)
    requires Chained(m, ch) && q !in m && node.next == None
    ensures Chained(m[q := node], ch[q := [q]])
  {
    var m', ch' := m[q := node], ch[q := [q]];
    forall x ensures ChainAt(m', ch', x) {
      assert ChainAt(m, ch, x);
    }
  }

  // ----- total lengths -----

  ghost predicate TotalAt(m: Mem, p: nat) {
    p in m ==>
      && (m[p].next == None ==> m[p].totLen == m[p].len)
      && (m[p].next.Some? && m[p].next.value in m ==> m[p].totLen == m[p].len + m[m[p].next.value].totLen)
  }

  /** Every total is the own length plus the total of the next pbuf. */
  ghost predicate Totals(m: Mem) {
    forall p :: TotalAt(m, p)
  }

  /** No pbuf outside the list points into it. */
  ghost predicate Unshared(m: Mem, c: seq<nat>) {
    forall x :: x in m && x !in c && m[x].next.Some? ==> m[x].next.value !in c
  }

  /** A u16_t total after a sum or difference. */
  function Add16(a: u16, d: int): (r: u16)
    requires -0xFFFF <= d <= 0xFFFF
    ensures 0 <= a + d <= 0xFFFF ==> r == a + d
  {
    if a + d < 0 then a + d + 0x1_0000 else if a + d > 0xFFFF then a + d - 0x1_0000 else a + d
  }

  /** At the end of a chain the total is the own length. */
  ghost predicate EndOk(m: Mem, p: nat) {
    p in m && m[p].next == None ==> m[p].totLen == m[p].len
  }

  ghost predicate Ends(m: Mem) {
    forall p :: EndOk(m, p)
  }

  /** Bytes in the listed pbufs. */
  ghost function LenSum(m: Mem, c: seq<nat>): nat {
    if c == [] then 0 else LenSum(m, c[..|c| - 1]) + if Last(c) in m then m[Last(c)].len as nat else 0
  }

  lemma LenSumTo(m: Mem, c: seq<nat>, j: nat)
    requires j < |c| && c[j] in m
    ensures LenSum(m, c[..j + 1]) == LenSum(m, c[..j]) + m[c[j]].len
  {
    assert c[..j + 1][..j] == c[..j];
  }

  /** With right totals, a total counts the bytes from there to the end of the chain. */
  lemma {:induction false} TotalIsSum(m: Mem, ch: map<nat, seq<nat>>, p: nat, j: nat)
    requires Chained(m, ch) && Totals(m) && p in m && p in ch && j < |ch[p]|
    ensures ch[p][j] in m && m[p].totLen == LenSum(m, ch[p][..j]) + m[ch[p][j]].totLen
  {
    ChainFollows(m, ch, p, j);
    if j > 0 {
      TotalIsSum(m, ch, p, j - 1);
      ChainFollows(m, ch, p, j - 1);
      assert TotalAt(m, ch[p][j - 1]);
      LenSumTo(m, ch[p], j - 1);
    } else {
      ChainFollows(m, ch, p, 0);
      assert ChainAt(m, ch, p) && ch[p][..0] == [];
    }
  }

  lemma TotalIsAll(m: Mem, ch: map<nat, seq<nat>>, p: nat)
    requires Chained(m, ch) && Totals(m) && p in m && p in ch
    ensures m[p].totLen == LenSum(m, ch[p])
  {
    assert ChainAt(m, ch, p);
    var c, n := ch[p], |ch[p]| - 1;
    TotalIsSum(m, ch, p, n);
    ChainFollows(m, ch, p, n);
    assert TotalAt(m, c[n]);
    LenSumTo(m, c, n);
    assert c[..n + 1] == c;
  }

  // ----- what pbuf_free takes away -----

  /** The leading pbufs of a chain that hold their last reference. */
  ghost predicate IsFreeCount(mem: Mem, c: seq<nat>, k: nat) {
    && k <= |c|
    && (forall j :: 0 <= j < |c| ==> c[j] in mem)
    && (forall j :: 0 <= j < k ==> mem[c[j]].ref == 1)
    && (k < |c| ==> mem[c[k]].ref > 1)
  }

  /** Without the pbufs c[..k]. */
  ghost function Without(mem: Mem, c: seq<nat>, k: nat): Mem
    requires k <= |c|
  {
    map p | p in mem && p !in c[..k] :: mem[p]
  }

  /** Take the pbufs c[..k] away and count down the reference of the one behind them. */
  ghost function Freed(mem: Mem, c: seq<nat>, k: nat): Mem
    requires IsFreeCount(mem, c, k)
  {
    if k < |c| then Without(mem, c, k)[c[k] := mem[c[k]].(ref := mem[c[k]].ref - 1)] else Without(mem, c, k)
  }

  /** A number as a u8_t keeps it. */
  function Low8(n: nat): nat { n % 0x100 }

  lemma WithoutStep(mem: Mem, c: seq<nat>, k: nat)
    requires k < |c|
    ensures Without(mem, c, k + 1) == Without(mem, c, k) - {c[k]}
  {
    assert c[..k + 1] == c[..k] + [c[k]];
  }

  /** What the walk of pbuf_free knows of the pbuf it stands at. */
  lemma WalkAt(m: Mem, ch: map<nat, seq<nat>>, head: nat, k: nat)
    requires Chained(m, ch) && head in m && head in ch && k < |ch[head]|
    ensures ch[head][k] in Without(m, ch[head], k)
    ensures m[ch[head][k]].next == if k + 1 < |ch[head]| then Some(ch[head][k + 1]) else None
  {
    ChainFollows(m, ch, head, k);
    forall j | 0 <= j < k ensures ch[head][j] != ch[head][k] { ChainDistinct(m, ch, head, j, k); }
  }

  /** pbuf_free has taken c[..k] away and stands at `p`, or is done. */
  ghost predicate Progress(m0: Mem, c: seq<nat>, k: nat, m: Mem, p: Option<nat>) {
    && k <= |c| && (forall j :: 0 <= j < |c| ==> c[j] in m0) && (forall j :: 0 <= j < k ==> m0[c[j]].ref == 1)
    && if p.Some? then k < |c| && p.value == c[k] && m == Without(m0, c, k)
       else IsFreeCount(m0, c, k) && m == Freed(m0, c, k)
  }

  /** One round: the pbuf at `x` goes, or its reference is counted down and the walk ends. */
  ghost predicate RoundDone(m: Mem, x: nat, m': Mem, q: Option<nat>, last: bool) {
    && x in m && last == (m[x].ref == 1)
    && if last then q == m[x].next && m' == m - {x}
       else q == None && m[x].ref > 1 && m' == m[x := m[x].(ref := m[x].ref - 1)]
  }

  lemma ProgressStart(m0: Mem, ch: map<nat, seq<nat>>, head: nat)
    requires Chained(m0, ch) && head in m0
    ensures head in ch && Progress(m0, ch[head], 0, m0, Some(head))
  {
    assert ChainAt(m0, ch, head);
    var c := ch[head];
    forall j | 0 <= j < |c| ensures c[j] in m0 { ChainFollows(m0, ch, head, j); }
    assert Without(m0, c, 0) == m0;
  }

  lemma ProgressStep(m0: Mem, ch: map<nat, seq<nat>>, head: nat, k: nat,
                     m: Mem, x: nat, m': Mem, q: Option<nat>, last: bool)
    requires Chained(m0, ch) && head in m0 && head in ch
    requires Progress(m0, ch[head], k, m, Some(x)) && RoundDone(m, x, m', q, last)
    ensures Progress(m0, ch[head], if last then k + 1 else k, m', q)
  {
    WalkAt(m0, ch, head, k);
    WithoutStep(m0, ch[head], k);
  }

  // ----- what pbuf_cat does -----

  /** Every pbuf of the list `c` counts the tail in, and the last one points to it. */
  ghost function Joined(m: Mem, c: seq<nat>, t: nat, added: u16): Mem
    requires c != []
  {
    map x | x in m :: if x !in c then m[x]
                      else m[x].(totLen := Add16(m[x].totLen, added),
                                 next := if x == Last(c) then Some(t) else m[x].next)
  }

  /** The pbufs in `done` count `added` in. */
  ghost function Raised(m: Mem, done: set<nat>, added: int): Mem
    requires -0xFFFF <= added <= 0xFFFF
  {
    map x | x in m :: if x in done then m[x].(totLen := Add16(m[x].totLen, added)) else m[x]
  }

  lemma RaisedStep(m: Mem, done: set<nat>, p: nat, added: int)
    requires p in m && p !in done && -0xFFFF <= added <= 0xFFFF
    ensures Raised(m, done, added)[p] == m[p]
    ensures Raised(m, done + {p}, added) == Raised(m, done, added)[p := m[p].(totLen := Add16(m[p].totLen, added))]
  {
  }

  lemma JoinedIs(m: Mem, c: seq<nat>, t: nat, added: u16)
    requires c != [] && Last(c) in m
    ensures var r := Raised(m, Elems(c), added);
      Last(c) in r && Joined(m, c, t, added) == r[Last(c) := r[Last(c)].(next := Some(t))]
  {
  }

  ghost function Elems(c: seq<nat>): set<nat> {
    set x | x in c
  }

  /** Stepping along a chain adds one new pbuf at a time. */
  lemma ElemsStep(m: Mem, ch: map<nat, seq<nat>>, h: nat, i: nat)
    requires Chained(m, ch) && h in m && h in ch && i < |ch[h]|
    ensures ch[h][i] !in Elems(ch[h][..i]) && Elems(ch[h][..i + 1]) == Elems(ch[h][..i]) + {ch[h][i]}
  {
    var c := ch[h];
    forall j | 0 <= j < i ensures c[j] != c[i] { ChainDistinct(m, ch, h, j, i); }
    assert c[..i + 1] == c[..i] + [c[i]];
  }

  lemma JoinedTotal(m: Mem, ch: map<nat, seq<nat>>, h: nat, t: nat, x: nat)
    requires Chained(m, ch) && Totals(m) && h in m && h in ch && t in m && ch[h] != [] && t !in ch[h]
    requires (m[t].totLen == 0 || Unshared(m, ch[h])) && m[h].totLen + m[t].totLen <= 0xFFFF
    ensures TotalAt(Joined(m, ch[h], t, m[t].totLen), x)
  {
    var c := ch[h];
    assert TotalAt(m, x) && ChainAt(m, ch, x);
    if x in c {
      var i :| 0 <= i < |c| && c[i] == x;
      ChainFollows(m, ch, h, i);
      TotalIsSum(m, ch, h, i);
      if i < |c| - 1 {
        ChainDistinct(m, ch, h, i, |c| - 1);
        TotalIsSum(m, ch, h, i + 1);
      }
    }
  }

  /** If the totals are right after joining, no total has wrapped around. */
  lemma {:induction false} JoinedNoWrap(m: Mem, ch: map<nat, seq<nat>>, h: nat, t: nat, i: nat)
    requires Chained(m, ch) && Totals(m) && h in m && h in ch && t in m && i < |ch[h]| && t !in ch[h]
    requires Totals(Joined(m, ch[h], t, m[t].totLen))
    ensures ch[h][i] in m && m[ch[h][i]].totLen + m[t].totLen <= 0xFFFF
    decreases |ch[h]| - i
  {
    var c, r := ch[h], Joined(m, ch[h], t, m[t].totLen);
    ChainFollows(m, ch, h, i);
    assert TotalAt(m, c[i]) && TotalAt(r, c[i]);
    if i + 1 < |c| {
      JoinedNoWrap(m, ch, h, t, i + 1);
      ChainDistinct(m, ch, h, i, |c| - 1);
    }
  }

  /**
   The total lengths stay right exactly when the sum fits in a u16_t and no other chain runs into this
   one, or the tail is empty.
   */
  lemma CatTotals(m: Mem, ch: map<nat, seq<nat>>, h: nat, t: nat)
    requires Chained(m, ch) && Totals(m) && h in m && h in ch && t in m && t in ch
    requires forall x :: x in ch[h] ==> x !in ch[t]
    ensures ch[h] != []
    ensures Totals(Joined(m, ch[h], t, m[t].totLen)) <==>
      m[h].totLen + m[t].totLen <= 0xFFFF && (m[t].totLen == 0 || Unshared(m, ch[h]))
  {
    assert ChainAt(m, ch, h) && ChainAt(m, ch, t);
    var c, r := ch[h], Joined(m, ch[h], t, m[t].totLen);
    assert t !in c;
    if Totals(r) {
      JoinedNoWrap(m, ch, h, t, 0);
      forall x | x in m && x !in c && m[x].next.Some? && m[x].next.value in c ensures m[t].totLen == 0 {
        assert TotalAt(m, x) && ChainAt(m, ch, x) && TotalAt(r, x);
        var i :| 0 <= i < |c| && c[i] == m[x].next.value;
        JoinedNoWrap(m, ch, h, t, i);
      }
    }
    if m[h].totLen + m[t].totLen <= 0xFFFF && (m[t].totLen == 0 || Unshared(m, c)) {
      forall x ensures TotalAt(r, x) {
        JoinedTotal(m, ch, h, t, x);
      }
    }
  }

  lemma JoinedEnds(m: Mem, ch: map<nat, seq<nat>>, h: nat, t: nat)
    requires Chained(m, ch) && Ends(m) && h in m && h in ch && t in m && ch[h] != []
    ensures Ends(Joined(m, ch[h], t, m[t].totLen))
  {
    var c := ch[h];
    forall x ensures EndOk(Joined(m, c, t, m[t].totLen), x) {
      assert EndOk(m, x);
      if x in c {
        var i :| 0 <= i < |c| && c[i] == x;
        ChainFollows(m, ch, h, i);
      }
    }
  }

  // ----- what pbuf_dechain and pbuf_realloc do -----

  /** `p` cut off from what follows, with its own lengths set. */
  function CutOff(m: Mem, p: nat, len: u16): Mem
    requires p in m
  {
    m[p := m[p].(next := None, len := len, totLen := len)]
  }

  /** Freeing pbufs leaves the total lengths of the others right. */
  lemma FreedTotals(m: Mem, c: seq<nat>, k: nat)
    requires IsFreeCount(m, c, k) && Totals(m)
    ensures Totals(Freed(m, c, k))
  {
    var r := Freed(m, c, k);
    forall x ensures TotalAt(r, x) {
      assert TotalAt(m, x);
    }
  }

  lemma FreedEnds(m: Mem, c: seq<nat>, k: nat)
    requires IsFreeCount(m, c, k) && Ends(m)
    ensures Ends(Freed(m, c, k))
  {
    var r := Freed(m, c, k);
    forall x ensures EndOk(r, x) {
      assert EndOk(m, x);
    }
  }

  lemma {:induction false} CutAbsent(c: seq<nat>, p: nat)
    requires p !in c
    ensures Cut(c, p) == c
  {
    if c != [] {
      CutAbsent(c[1..], p);
      assert c == [c[0]] + c[1..];
    }
  }

  lemma {:induction false} CutAtIndex(c: seq<nat>, j: nat)
    requires j < |c| && forall i :: 0 <= i < j ==> c[i] != c[j]
    ensures Cut(c, c[j]) == c[..j + 1]
  {
    if j > 0 {
      CutAtIndex(c[1..], j - 1);
      assert c[..j + 1] == [c[0]] + c[1..][..j];
    }
  }

  /** The memory when pbuf_dechain calls pbuf_free: the total of the tail is set from that of `p`. */
  function Dechained(m: Mem, p: nat): Mem
    requires p in m && m[p].next.Some? && m[p].next.value in m
  {
    var q := m[p].next.value;
    CutOff(m[q := m[q].(totLen := Add16(m[p].totLen, 0 - m[p].len))], p, m[p].len)
  }

  /** With right totals, setting the total of the tail changes nothing. */
  lemma DechainedIsCut(m: Mem, ch: map<nat, seq<nat>>, p: nat)
    requires Chained(m, ch) && p in m && m[p].next.Some? && TotalAt(m, p)
    ensures m[p].next.value in m && Dechained(m, p) == CutOff(m, p, m[p].len)
  {
    assert ChainAt(m, ch, p);
    var q := m[p].next.value;
    assert m[q := m[q].(totLen := Add16(m[p].totLen, 0 - m[p].len))] == m;
  }

  /** A pbuf that points to `p` is not behind it. */
  lemma PredNotBehind(m: Mem, ch: map<nat, seq<nat>>, x: nat, j: nat)
    requires Chained(m, ch) && x in m && m[x].next.Some?
    requires m[x].next.value in ch && j < |ch[m[x].next.value]|
    ensures ch[m[x].next.value][j] != x
  {
    assert ChainAt(m, ch, x);
    ChainDistinct(m, ch, x, 0, j + 1);
  }

  /**
   After pbuf_dechain the total lengths are right exactly when nothing points to `p`, or nothing with bytes
   followed it.
   */
  lemma DechainTotals(m: Mem, ch: map<nat, seq<nat>>, p: nat, k: nat)
    requires Chained(m, ch) && Totals(m) && p in m && m[p].next.Some? && m[p].next.value in m && m[p].next.value in ch
    requires IsFreeCount(Dechained(m, p), ch[m[p].next.value], k)
    ensures Totals(Freed(Dechained(m, p), ch[m[p].next.value], k)) <==> m[p].totLen == m[p].len || Preds(m, p) == {}
  {
    var c, cut := ch[m[p].next.value], CutOff(m, p, m[p].len);
    var r := Freed(cut, c, k);
    assert TotalAt(m, p) && ChainAt(m, ch, p);
    DechainedIsCut(m, ch, p);
    if Preds(m, p) == {} || m[p].totLen == m[p].len {
      forall x ensures TotalAt(cut, x) {
        assert TotalAt(m, x) && (x in m && m[x].next == Some(p) ==> x in Preds(m, p));
      }
      FreedTotals(cut, c, k);
    } else {
      var x :| x in Preds(m, p);
      assert ChainAt(m, ch, x);
      forall j | 0 <= j < |c| ensures c[j] != p && c[j] != x {
        PredNotBehind(m, ch, p, j);
        PredNotBehind(m, ch, x, j + 1);
      }
      assert TotalAt(m, x);
      assert !TotalAt(r, x);
    }
  }

  /** The chain `c` after pbuf_realloc made c[j] its last pbuf, with `rem` bytes left there. */
  ghost function Shrunk(m: Mem, c: seq<nat>, j: nat, rem: u16, shrink: int): Mem
    requires j < |c| && c[j] in m && 0 <= shrink <= 0xFFFF
  {
    CutOff(Raised(m, Elems(c[..j]), -shrink), c[j], rem)
  }

  /** What the walk of pbuf_realloc finds: pbuf `j` is where the new length ends, `rem` bytes into it. */
  ghost predicate EndsIn(m: Mem, c: seq<nat>, newLen: nat, j: nat, rem: nat) {
    && j < |c| && c[j] in m && rem <= m[c[j]].len
    && LenSum(m, c[..j]) + rem == newLen && (j > 0 ==> rem > 0)
  }

  /** The walk of pbuf_realloc is at pbuf `j`, which is `q`, and has lowered the totals before it. */
  ghost predicate Shrinking(m0: Mem, c: seq<nat>, newLen: nat, q: nat, rem: nat, j: nat, shrink: u16, m: Mem) {
    && j < |c| && q == c[j] && q in m0 && q in m && q !in Elems(c[..j]) && m[q] == m0[q]
    && m == Raised(m0, Elems(c[..j]), -(shrink as int))
    && LenSum(m0, c[..j]) + rem == newLen && (j > 0 ==> rem > 0)
  }

  /** The memory that pbuf_realloc leaves. */
  ghost predicate Reallocated(m: Mem, c: seq<nat>, newLen: nat, shrink: int, j: nat, rem: u16, k: nat, m': Mem)
    requires 0 <= shrink <= 0xFFFF
  {
    && EndsIn(m, c, newLen, j, rem)
    && IsFreeCount(Shrunk(m, c, j, rem, shrink), c[j + 1..], k)
    && m' == Freed(Shrunk(m, c, j, rem, shrink), c[j + 1..], k)
  }

  /** With right totals the rest is what the total of that pbuf leaves. */
  lemma EndsInByTotal(m: Mem, ch: map<nat, seq<nat>>, p: nat, newLen: nat, j: nat, rem: nat)
    requires Chained(m, ch) && Totals(m) && p in m && p in ch && EndsIn(m, ch[p], newLen, j, rem)
    ensures m[p].totLen - newLen == m[ch[p][j]].totLen - rem
  {
    TotalIsSum(m, ch, p, j);
  }

  /** The totals of the part kept fall by what is cut off, all others stay. */
  lemma ShrunkAt(m: Mem, ch: map<nat, seq<nat>>, p: nat, newLen: nat, j: nat, rem: u16, x: nat)
    requires Chained(m, ch) && Totals(m) && p in m && p in ch && x in m
    requires newLen < m[p].totLen && EndsIn(m, ch[p], newLen, j, rem)
    ensures var r := Shrunk(m, ch[p], j, rem, m[p].totLen - newLen);
      r[x].totLen == m[x].totLen - (if x in ch[p][..j + 1] then m[p].totLen - newLen else 0)
  {
    var c := ch[p];
    EndsInByTotal(m, ch, p, newLen, j, rem);
    ElemsStep(m, ch, p, j);
    assert x in c[..j + 1] <==> x in Elems(c[..j + 1]);
    if x in c[..j] {
      var i :| 0 <= i < j && c[i] == x;
      TotalIsSum(m, ch, p, i);
      LenSumMono(m, c, i, j);
    }
  }

  lemma {:induction false} LenSumMono(m: Mem, c: seq<nat>, i: nat, j: nat)
    requires i <= j <= |c|
    ensures LenSum(m, c[..i]) <= LenSum(m, c[..j])
  {
    if i < j {
      LenSumMono(m, c, i, j - 1);
      assert c[..j][..j - 1] == c[..j - 1];
    }
  }

  /** After pbuf_realloc the total lengths are right exactly when no other chain runs into the part that is kept. */
  lemma ReallocTotals(m: Mem, ch: map<nat, seq<nat>>, p: nat, newLen: nat, j: nat, rem: u16, k: nat)
    requires Chained(m, ch) && Totals(m) && p in m && p in ch
    requires newLen < m[p].totLen && EndsIn(m, ch[p], newLen, j, rem)
    requires IsFreeCount(Shrunk(m, ch[p], j, rem, m[p].totLen - newLen), ch[p][j + 1..], k)
    ensures Totals(Freed(Shrunk(m, ch[p], j, rem, m[p].totLen - newLen), ch[p][j + 1..], k)) <==>
      Unshared(m, ch[p][..j + 1])
  {
    var c := ch[p];
    var s, kept := Shrunk(m, c, j, rem, m[p].totLen - newLen), c[..j + 1];
    if Unshared(m, kept) {
      forall x ensures TotalAt(s, x) {
        ShrunkTotalAt(m, ch, p, newLen, j, rem, x);
      }
      FreedTotals(s, c[j + 1..], k);
    } else {
      var x :| x in m && x !in kept && m[x].next.Some? && m[x].next.value in kept;
      assert TotalAt(m, x) && ChainAt(m, ch, x);
      ShrunkAt(m, ch, p, newLen, j, rem, x);
      ShrunkAt(m, ch, p, newLen, j, rem, m[x].next.value);
      NotFreed(m, ch, p, j, x);
      assert !TotalAt(Freed(s, c[j + 1..], k), x);
    }
  }

  lemma ShrunkTotalAt(m: Mem, ch: map<nat, seq<nat>>, p: nat, newLen: nat, j: nat, rem: u16, x: nat)
    requires Chained(m, ch) && Totals(m) && p in m && p in ch
    requires newLen < m[p].totLen && EndsIn(m, ch[p], newLen, j, rem) && Unshared(m, ch[p][..j + 1])
    ensures TotalAt(Shrunk(m, ch[p], j, rem, m[p].totLen - newLen), x)
  {
    var c := ch[p];
    assert TotalAt(m, x) && ChainAt(m, ch, x);
    if x in m {
      ShrunkAt(m, ch, p, newLen, j, rem, x);
      if m[x].next.Some? {
        ShrunkAt(m, ch, p, newLen, j, rem, m[x].next.value);
      }
      if x in c[..j + 1] {
        var i :| 0 <= i <= j && c[i] == x;
        ChainFollows(m, ch, p, i);
        assert i < j ==> c[..j + 1][i + 1] == c[i + 1];
      }
    }
  }

  /** A pbuf outside that points into the part kept, and what it points to, are not in the part freed. */
  lemma NotFreed(m: Mem, ch: map<nat, seq<nat>>, p: nat, j: nat, x: nat)
    requires Chained(m, ch) && p in m && p in ch && j < |ch[p]|
    requires x in m && m[x].next.Some? && m[x].next.value in ch[p][..j + 1]
    ensures x !in ch[p][j + 1..] && m[x].next.value !in ch[p][j + 1..]
  {
    var c := ch[p];
    var i :| 0 <= i <= j && c[i] == m[x].next.value;
    ChainFollows(m, ch, p, i);
    forall n | j + 1 <= n < |c| ensures c[n] != x && c[n] != c[i] {
      ChainDistinct(m, ch, p, i, n);
      assert c[i..][n - i] == c[n];
      PredNotBehind(m, ch, x, n - i);
    }
  }

  // ----- what pbuf_free_header does -----

  /** The first `k` pbufs of a chain are unlinked, and one reference to each is dropped. */
  ghost function HeaderDropped(m: Mem, c: seq<nat>, k: nat): Mem
    requires k <= |c|
  {
    map x | x in m && !(x in c[..k] && m[x].ref <= 1) ::
      if x in c[..k] then m[x].(next := None, ref := m[x].ref - 1) else m[x]
  }

  /** `left` bytes of pbuf `p` are hidden. */
  ghost function Hidden(m: Mem, p: nat, left: nat): Mem
    requires p in m && left <= m[p].len
  {
    m[p := m[p].(len := m[p].len - left, totLen := Add16(m[p].totLen, 0 - left))]
  }

  /** How far `size` bytes reach: over `k` pbufs, and `left` bytes into the next one if there is one. */
  ghost predicate HeaderEnds(m: Mem, c: seq<nat>, size: nat, k: nat, left: nat) {
    && k <= |c| && LenSum(m, c[..k]) + left == size && (k > 0 ==> LenSum(m, c[..k - 1]) < size)
    && (left > 0 && k < |c| ==> c[k] in m && left < m[c[k]].len)
  }

  /** The memory that pbuf_free_header leaves. */
  ghost predicate HeaderFreed(m: Mem, c: seq<nat>, k: nat, left: nat, m': Mem) {
    && k <= |c|
    && var d := HeaderDropped(m, c, k);
       if left == 0 || k == |c| then m' == d else c[k] in d && left <= d[c[k]].len && m' == Hidden(d, c[k], left)
  }

  /** The pbuf that the next round of pbuf_free_header is at. */
  lemma HeadIs(m: Mem, ch: map<nat, seq<nat>>, holders: multiset<nat>, f: nat, m0: Mem, c: seq<nat>, k: nat)
    requires Chained(m, ch) && Counted(m, holders) && f in holders && k < |c| && c[k] == f && f in m0 && f !in c[..k]
    requires m == HeaderDropped(m0, c, k) && f in ch && ch[f] == c[k..]
    ensures f in m && m[f] == m0[f] && m[f].next == if k + 1 < |c| then Some(c[k + 1]) else None
    ensures k + 1 < |c| ==> c[k + 1] in ch && ch[c[k + 1]] == c[k + 1..]
  {
    assert RefOk(m, holders, f) && ChainAt(m, ch, f) && c[k..][1..] == c[k + 1..];
    ChainFollows(m, ch, f, 0);
  }

  /** A reference that is dropped after another one was taken. */
  lemma PassOn(holders: multiset<nat>, f: nat, q: Option<nat>)
    requires f in holders
    ensures var h := holders + NextRef(q);
      f in h && NextRef(q) <= h - multiset{f} && h - multiset{f} == holders - multiset{f} + NextRef(q)
  {
  }

  lemma DropNext(m: Mem, c: seq<nat>, k: nat, d: Mem, m': Mem)
    requires k < |c| && d == HeaderDropped(m, c, k) && c[k] in m && c[k] !in c[..k]
    requires var u := d[c[k] := m[c[k]].(next := None)];
      m' == if m[c[k]].ref <= 1 then u - {c[k]} else u[c[k] := u[c[k]].(ref := u[c[k]].ref - 1)]
    ensures m' == HeaderDropped(m, c, k + 1)
  {
    assert c[..k + 1] == c[..k] + [c[k]];
  }

  /**
   After pbuf_free_header the total lengths are right exactly when each pbuf that it unlinked is gone, or had nothing
   with bytes behind it, and no one else points to a pbuf of which bytes were hidden.
   */
  lemma HeaderTotals(m: Mem, ch: map<nat, seq<nat>>, holders: multiset<nat>, p: nat, size: nat, k: nat, left: nat,
                     m': Mem)
    requires Chained(m, ch) && Counted(m, holders) && Totals(m) && p in m && p in ch && p in holders
    requires HeaderEnds(m, ch[p], size, k, left) && HeaderFreed(m, ch[p], k, left, m')
    ensures Totals(m') <==> HeaderKeeps(m, ch[p], k, left)
  {
    var c := ch[p];
    forall x ensures HeaderOk(m, c, k, left, x) <==> TotalAt(m', x) {
      HeaderTotalAt(m, ch, holders, p, size, k, left, m', x);
    }
    if Totals(m') {
      forall x ensures HeaderOk(m, c, k, left, x) {
        assert TotalAt(m', x);
      }
    } else {
      var x :| !TotalAt(m', x);
      assert !HeaderOk(m, c, k, left, x);
    }
  }

  /** What must hold of each pbuf for that. */
  ghost predicate HeaderOk(m: Mem, c: seq<nat>, k: nat, left: nat, x: nat)
    requires k <= |c|
  {
    && (x in m && x in c[..k] ==> m[x].ref <= 1 || m[x].totLen == m[x].len)
    && (x in m && x !in c[..k] && left > 0 && k < |c| ==> m[x].next != Some(c[k]))
  }

  ghost predicate HeaderKeeps(m: Mem, c: seq<nat>, k: nat, left: nat)
    requires k <= |c|
  {
    forall x :: HeaderOk(m, c, k, left, x)
  }

  /** A pbuf that someone else points to is not gone. */
  lemma StillThere(m: Mem, ch: map<nat, seq<nat>>, holders: multiset<nat>, p: nat, k: nat, x: nat)
    requires Chained(m, ch) && Counted(m, holders) && p in m && p in ch && p in holders && k <= |ch[p]|
    requires x in m && x !in ch[p][..k] && m[x].next.Some? && m[x].next.value in m
    ensures var y, d := m[x].next.value, HeaderDropped(m, ch[p], k); y in d && d[y].totLen == m[y].totLen
  {
    var c, y := ch[p], m[x].next.value;
    if y in c[..k] {
      var i :| 0 <= i < k && c[i] == y;
      assert RefOk(m, holders, y) && x in Preds(m, y);
      if i == 0 {
        assert ChainAt(m, ch, p);
        assert Preds(m, y) != {};
      } else {
        ChainFollows(m, ch, p, i - 1);
        assert {x, c[i - 1]} <= Preds(m, y) && c[i - 1] in c[..k];
        AtLeastTwo(Preds(m, y), x, c[i - 1]);
      }
    }
  }

  lemma AtLeastTwo(s: set<nat>, a: nat, b: nat)
    requires a in s && b in s && a != b
    ensures |s| >= 2
  {
    assert |s - {a}| >= 1 by {
      assert b in s - {a};
    }
  }

  lemma HeaderTotalAt(m: Mem, ch: map<nat, seq<nat>>, holders: multiset<nat>, p: nat, size: nat, k: nat, left: nat,
                      m': Mem, x: nat)
    requires Chained(m, ch) && Counted(m, holders) && Totals(m) && p in m && p in ch && p in holders
    requires HeaderEnds(m, ch[p], size, k, left) && HeaderFreed(m, ch[p], k, left, m')
    ensures HeaderOk(m, ch[p], k, left, x) <==> TotalAt(m', x)
  {
    var c := ch[p];
    assert TotalAt(m, x) && RefOk(m, holders, x) && ChainAt(m, ch, x);
    if k < |c| {
      ElemsStep(m, ch, p, k);
      assert TotalAt(m, c[k]) && ChainAt(m, ch, p);
      ChainFollows(m, ch, p, k);
    }
    if x in m && x !in c[..k] && m[x].next.Some? {
      StillThere(m, ch, holders, p, k, x);
    }
  }

  // ----- the bytes behind these -----

  /** pbuf_cat adds the length of the tail to the total of the head, and changes no other length. */
  lemma JoinedBytes(m: Mem, c: seq<nat>, t: nat, added: u16)
    requires c != [] && c[0] in m
    ensures var r := Joined(m, c, t, added);
      && r.Keys == m.Keys && r[c[0]].totLen as int == (m[c[0]].totLen as int + added) % 0x1_0000
      && forall x :: x in m ==> r[x].len == m[x].len && r[x].ref == m[x].ref
  {
  }

  /** pbuf_dechain leaves `p` alone with its bytes, and every other pbuf that stays with its own and those behind it. */
  lemma DechainedBytes(m: Mem, p: nat, c: seq<nat>, k: nat)
    requires p in m && m[p].next.Some? && m[p].next.value in m && m[p].next.value != p
    requires IsFreeCount(Dechained(m, p), c, k) && p !in c
    ensures var r := Freed(Dechained(m, p), c, k);
      && p in r && r[p].next == None && r[p].totLen == r[p].len == m[p].len
      && (forall x :: x in r && x != p ==> x in m && r[x].len == m[x].len && r[x].next == m[x].next)
      && (TotalAt(m, p) ==> forall x :: x in r && x != p ==> r[x].totLen == m[x].totLen)
  {
  }

  lemma {:induction false} LenSumSame(m: Mem, m': Mem, c: seq<nat>)
    requires forall x :: x in c ==> x in m && x in m' && m[x].len == m'[x].len
    ensures LenSum(m, c) == LenSum(m', c)
  {
    if c != [] {
      LenSumSame(m, m', c[..|c| - 1]);
    }
  }

  /** After pbuf_realloc the chain has exactly the new length in bytes, and its total says so. */
  lemma ReallocatedBytes(m: Mem, ch: map<nat, seq<nat>>, p: nat, newLen: nat, j: nat, rem: u16, k: nat, m': Mem)
    requires Chained(m, ch) && p in m && p in ch && newLen < m[p].totLen
    requires Reallocated(m, ch[p], newLen, m[p].totLen - newLen, j, rem, k, m')
    ensures p in m' && m'[p].totLen == newLen && LenSum(m', ch[p][..j + 1]) == newLen
  {
    var c := ch[p];
    assert ChainAt(m, ch, p);
    forall x | x in c[..j + 1] ensures x in m && x !in c[j + 1..] && x in m' {
      PartsApart(m, ch, p, j + 1, x);
    }
    assert c[j] in c[..j + 1] && c[0] in c[..j + 1] && c[j] in c[j..];
    forall x | x in c[..j] ensures x in m && x in m' && m[x].len == m'[x].len {
      PartsApart(m, ch, p, j, x);
      assert x in c[..j + 1];
    }
    if j > 0 {
      assert c[0] in c[..j];
      PartsApart(m, ch, p, j, c[0]);
    }
    LenSumSame(m, m', c[..j]);
    LenSumTo(m', c, j);
  }

  /** After pbuf_free_header the chain that is left has `size` bytes less, if so many were there. */
  lemma HeaderFreedBytes(m: Mem, ch: map<nat, seq<nat>>, p: nat, size: nat, k: nat, left: nat, m': Mem)
    requires Chained(m, ch) && p in m && p in ch && k < |ch[p]|
    requires HeaderEnds(m, ch[p], size, k, left) && HeaderFreed(m, ch[p], k, left, m')
    ensures ch[p][k] in m' && LenSum(m', ch[p][k..]) + size == LenSum(m, ch[p])
    ensures m'[ch[p][k]].totLen as int == (m[ch[p][k]].totLen as int - left) % 0x1_0000
  {
    var c := ch[p];
    BehindHeader(m, ch, p, k, left, m');
    LenSumSame(m, m', c[k + 1..]);
    LenSumSplit(m, c, k);
    LenSumSplit(m, c[k..], 1);
    LenSumSplit(m', c[k..], 1);
    assert c[k..][1..] == c[k + 1..] && c[k..][..1] == [c[k]];
  }

  /** What pbuf_free_header leaves of the pbuf in which it ends, and of those behind it. */
  lemma BehindHeader(m: Mem, ch: map<nat, seq<nat>>, p: nat, k: nat, left: nat, m': Mem)
    requires Chained(m, ch) && p in m && p in ch && k < |ch[p]| && HeaderFreed(m, ch[p], k, left, m')
    ensures var x := ch[p][k];
      && x in m && x in m' && left <= m[x].len
      && m'[x] == m[x].(len := m[x].len - left, totLen := Add16(m[x].totLen, 0 - left))
    ensures forall x :: x in ch[p][k + 1..] ==> x in m && x in m' && m'[x].len == m[x].len
  {
    var c := ch[p];
    forall i | k <= i < |c| ensures c[i] in m && c[i] !in c[..k] && (k < i ==> c[i] != c[k]) {
      ChainFollows(m, ch, p, i);
      assert c[i] in c[k..];
      if c[i] in c[..k] {
        PartsApart(m, ch, p, k, c[i]);
      }
      if k < i {
        ChainDistinct(m, ch, p, k, i);
      }
    }
  }

  lemma {:induction false} LenSumSplit(m: Mem, c: seq<nat>, k: nat)
    requires k <= |c|
    ensures LenSum(m, c) == LenSum(m, c[..k]) + LenSum(m, c[k..])
    decreases |c|
  {
    if k == |c| {
      assert c[..k] == c;
    } else {
      var n := |c| - 1;
      LenSumSplit(m, c[..n], k);
      assert c[..n][..k] == c[..k] && c[..n][k..] == c[k..][..n - k];
    }
  }

  /** The two parts of a chain share no pbuf. */
  lemma PartsApart(m: Mem, ch: map<nat, seq<nat>>, p: nat, n: nat, x: nat)
    requires Chained(m, ch) && p in m && p in ch && n <= |ch[p]| && x in ch[p][..n]
    ensures x in m && x !in ch[p][n..]
  {
    var c := ch[p];
    var i :| 0 <= i < n && c[i] == x;
    ChainFollows(m, ch, p, i);
    if x in c[n..] {
      var l :| n <= l < |c| && c[l] == x;
      ChainDistinct(m, ch, p, i, l);
    }
  }

  // ----- what pbuf_alloc builds -----

  /** Number of pool buffers for `length` bytes, the first taking `first` and each later one `size` of them. */
  function BuffersFor(length: nat, first: nat, size: nat): nat
    requires 0 < first && 0 < size
    decreases length
  {
    if length <= first then 1 else 1 + BuffersFor(length - first, size, size)
  }

  function FurtherBuffers(left: nat, size: nat): nat
    requires 0 < size
  {
    if left == 0 then 0 else BuffersFor(left, size, size)
  }

  lemma FirstStep(length: nat, first: nat, size: nat)
    requires 0 < first && 0 < size
    ensures BuffersFor(length, first, size) == 1 + FurtherBuffers(length - Min(length, first), size)
  {
  }

  lemma FurtherStep(left: nat, size: nat)
    requires 0 < size && 0 < left
    ensures FurtherBuffers(left, size) == 1 + FurtherBuffers(left - Min(left, size), size)
  {
  }

  /** A pbuf of a new chain holds what it has room for of the bytes from it on, of which there are some. */
  ghost predicate PackedAt(m: Mem, c: seq<nat>, first: nat, size: nat, i: int) {
    0 <= i < |c| && c[i] in m ==>
      && m[c[i]].len == Min(m[c[i]].totLen, if i == 0 then first else size)
      && (i > 0 ==> m[c[i]].totLen > 0)
  }

  ghost predicate Packed(m: Mem, c: seq<nat>, first: nat, size: nat) {
    forall i :: PackedAt(m, c, first, size, i)
  }

  /** Then all but the last are full, and the last holds the rest. */
  lemma FullButLast(m: Mem, c: seq<nat>, length: nat, first: nat, size: nat, i: nat)
    requires Building(m, c, length, 0) && Packed(m, c, first, size) && i < |c|
    ensures i < |c| - 1 ==> m[c[i]].len == if i == 0 then first else size
    ensures i == |c| - 1 ==> m[c[i]].len == m[c[i]].totLen
  {
    assert PackedAt(m, c, first, size, i) && StepTotal(m, c, i) && PackedAt(m, c, first, size, i + 1);
  }

  lemma PackedOne(m: Mem, q: nat, first: nat, size: nat)
    requires q in m && m[q].len == Min(m[q].totLen, first)
    ensures Packed(m, [q], first, size)
  {
  }

  lemma PackedMore(m: Mem, c: seq<nat>, q: nat, first: nat, size: nat, len: u16, rem: u16)
    requires c != [] && Last(c) in m && Packed(m, c, first, size) && q !in c && 0 < rem && len == Min(rem, size)
    ensures Packed(Appended(m, c, q, len, rem), c + [q], first, size)
  {
    var r, d := Appended(m, c, q, len, rem), c + [q];
    forall i ensures PackedAt(r, d, first, size, i) {
      assert PackedAt(m, c, first, size, i);
    }
  }

  /** New pbufs, linked in order, each counted once; the last total still expects `rem` more bytes. */
  ghost predicate Building(m: Mem, c: seq<nat>, length: nat, rem: nat) {
    && c != [] && (forall i :: 0 <= i < |c| ==> c[i] in m && m[c[i]].ref == 1)
    && m[c[0]].totLen == length && m[Last(c)].totLen == m[Last(c)].len + rem
    && (forall i :: StepTotal(m, c, i))
  }

  ghost predicate StepTotal(m: Mem, c: seq<nat>, i: int) {
    0 <= i < |c| - 1 && c[i] in m && c[i + 1] in m ==> m[c[i]].totLen == m[c[i]].len + m[c[i + 1]].totLen
  }

  /** The memory after a new last pbuf `q` was put behind `c`. */
  ghost function Appended(m: Mem, c: seq<nat>, q: nat, len: u16, totLen: u16): Mem
    requires c != [] && Last(c) in m
  {
    m[q := Node(None, len, totLen, 1)][Last(c) := m[Last(c)].(next := Some(q))]
  }

  lemma BuildStep(m: Mem, c: seq<nat>, q: nat, length: nat, rem: u16, len: u16)
    requires Building(m, c, length, rem) && q !in m && len <= rem
    ensures Building(Appended(m, c, q, len, rem), c + [q], length, rem - len)
  {
    var r, c' := Appended(m, c, q, len, rem), c + [q];
    forall i ensures StepTotal(r, c', i) {
      assert StepTotal(m, c, i);
    }
  }

  lemma AppendWithout(m: Mem, c: seq<nat>, q: nat, len: u16, rem: u16)
    requires c != [] && Last(c) in m && q !in m
    ensures Without(Appended(m, c, q, len, rem), c + [q], |c| + 1) == Without(m, c, |c|)
  {
    assert (c + [q])[..|c| + 1] == c + [q] && c[..|c|] == c;
  }

  /** What cutting a chain behind its pbuf `j` leaves. */
  lemma CutFacts(m: Mem, ch: map<nat, seq<nat>>, p: nat, j: nat)
    requires Chained(m, ch) && p in m && p in ch && j < |ch[p]|
    ensures var c := ch[p];
      && c[j] in m && c[j] in ch && ch[c[j]] == c[j..] && ch[c[j]] != [] && c[j..][1..] == c[j + 1..]
      && Cut(c, c[j]) == c[..j + 1] && (m[c[j]].next == None ==> c[..j + 1] == c)
  {
    var c := ch[p];
    assert ChainAt(m, ch, p);
    ChainFollows(m, ch, p, j);
    forall i | 0 <= i < j ensures c[i] != c[j] { ChainDistinct(m, ch, p, i, j); }
    CutAtIndex(c, j);
    assert ChainAt(m, ch, c[j]);
  }

  // ----- what keeps the ends of chains right -----

  lemma RefEnds(m: Mem, p: nat)
    requires p in m
    ensures Ends(m) ==> Ends(m[p := m[p].(ref := m[p].ref + 1)])
  {
    var r := m[p := m[p].(ref := m[p].ref + 1)];
    if Ends(m) {
      forall x ensures EndOk(r, x) {
        assert EndOk(m, x);
      }
    }
  }

  lemma DechainedEnds(m: Mem, p: nat)
    requires p in m && m[p].next.Some? && m[p].next.value in m && TotalAt(m, p) && Ends(m)
    ensures Ends(Dechained(m, p))
  {
    forall x ensures EndOk(Dechained(m, p), x) {
      assert EndOk(m, x);
    }
  }

  lemma ShrunkEnds(m: Mem, ch: map<nat, seq<nat>>, p: nat, j: nat, rem: u16, shrink: int)
    requires Chained(m, ch) && Ends(m) && p in m && p in ch && j < |ch[p]| && ch[p][j] in m && 0 <= shrink <= 0xFFFF
    ensures Ends(Shrunk(m, ch[p], j, rem, shrink))
  {
    var c := ch[p];
    forall x ensures EndOk(Shrunk(m, c, j, rem, shrink), x) {
      assert EndOk(m, x);
      if x in Elems(c[..j]) {
        var i :| 0 <= i < j && c[i] == x;
        ChainFollows(m, ch, p, i);
      }
    }
  }

  lemma BuiltEnds(m: Mem, ch: map<nat, seq<nat>>, c: seq<nat>, length: nat, m0: Mem)
    requires Chained(m, ch) && Building(m, c, length, 0) && Without(m, c, |c|) == m0 && Ends(m0)
    requires c[0] in ch && ch[c[0]] == c
    ensures Ends(m)
  {
    assert c[..|c|] == c;
    forall x ensures EndOk(m, x) {
      assert EndOk(m0, x);
      if x in c {
        var i :| 0 <= i < |c| && c[i] == x;
        ChainFollows(m, ch, c[0], i);
      }
    }
  }

  // ----- the operations -----

  class Pbufs {
    const all: set<nat>
    var m: Mem
    var pool: set<nat>
    /** Some assertion on total lengths has fired; the code behind it has gone on. */
    var asserted: bool
    ghost var holders: multiset<nat>
    ghost var ch: map<nat, seq<nat>>
    /** pbuf_free_header has left a pbuf without a next one and with the total of what was behind it. */
    ghost var stale: bool

    /** Counts are exact, there are no cycles, and every pbuf is either in use or in the pool. */
    ghost predicate Core()
      reads this
    {
      Counted(m, holders) && Chained(m, ch) && m.Keys <= all && pool == all - m.Keys
    }

    ghost predicate Clean()
      reads this
    {
      !asserted && !stale
    }

    /** Up to the first assertion or stale total, chains end in pbufs whose total is their length. */
    ghost predicate Valid()
      reads this
    {
      Core() && (Clean() ==> Ends(m))
    }

    constructor (pbufs: set<nat>)
      ensures Valid() && all == pool == pbufs && m == map[] && holders == multiset{} && Clean()
    {
      all, pool, asserted := pbufs, pbufs, false;
      m, holders, ch, stale := map[], multiset{}, map[], false;
    }

    /** One round of pbuf_free for a pbuf whose last reference goes. */
    method FreeOne(p: nat)
      requires Core() && p in holders && p in m && m[p].ref == 1
      modifies `m, `pool, `holders
      ensures Core() && m == old(m) - {p}
      ensures holders == old(holders) - multiset{p} + NextRef(old(m)[p].next)
    {
      assert RefOk(m, holders, p);
      DropLast(m, holders, p);
      assert Preds(m, p) == {};
      RemoveChained(m, ch, p);
      holders := holders - multiset{p} + NextRef(m[p].next);
      m := m - {p};
      pool := pool + {p};
    }

    /** One round of pbuf_free for a pbuf that is still referenced. */
    method CountDown(p: nat)
      requires Core() && p in holders && p in m && m[p].ref > 1
      modifies `m, `holders
      ensures Core() && m == old(m)[p := old(m)[p].(ref := old(m)[p].ref - 1)]
      ensures holders == old(holders) - multiset{p}
    {
      DropOne(m, holders, p);
      SameLinksChained(m, m[p := m[p].(ref := m[p].ref - 1)], ch);
      holders := holders - multiset{p};
      m := m[p := m[p].(ref := m[p].ref - 1)];
    }

    /** The loop of pbuf_free: pbufs go back to the pool exactly as long as their last reference goes. */
    method FreeChain(head: nat) returns (k: nat)
      requires Core() && head in holders
      modifies `m, `pool, `holders
      ensures Core() && holders == old(holders) - multiset{head}
      ensures head in old(ch) && IsFreeCount(old(m), old(ch)[head], k)
      ensures m == Freed(old(m), old(ch)[head], k)
    {
      assert RefOk(m, holders, head);
      ghost var m0, ch0, base := m, ch, holders - multiset{head};
      ProgressStart(m0, ch0, head);
      ghost var c := ch0[head];
      var p := Some(head);
      k := 0;
      while p.Some?
        invariant Core() && Progress(m0, c, k, m, p)
        invariant holders == base + NextRef(p)
        decreases if p.Some? then |c| - k + 1 else 0
      {
        ghost var x, before := p.value, m;
        var last;
        p, last := Round(p.value);
        ProgressStep(m0, ch0, head, k, before, x, m, p, last);
        if last {
          k := k + 1;
        }
      }
    }

    /** pbuf_free; the number of pbufs that went is returned in a u8_t. */
    method Free(head: nat) returns (count: nat, ghost k: nat)
      requires Valid() && head in holders
      modifies `m, `pool, `holders
      ensures Valid() && holders == old(holders) - multiset{head}
      ensures head in old(ch) && IsFreeCount(old(m), old(ch)[head], k)
      ensures m == Freed(old(m), old(ch)[head], k)
      ensures count == k % 0x100
    {
      ghost var m0 := m;
      var n := FreeChain(head);
      count, k := Low8(n), n;
      if Clean() {
        FreedEnds(m0, ch[head], k);
      }
    }

    /** One round of pbuf_free: `last` if the pbuf went back to the pool, and then `q` is the next one. */
    method Round(x: nat) returns (q: Option<nat>, last: bool)
      requires Core() && x in holders
      modifies `m, `pool, `holders
      ensures Core() && RoundDone(old(m), x, m, q, last)
      ensures holders == old(holders) - multiset{x} + NextRef(q)
    {
      assert RefOk(m, holders, x);
      last := m[x].ref - 1 == 0;
      if last {
        q := m[x].next;
        FreeOne(x);
      } else {
        q := None;
        CountDown(x);
      }
    }

    /** pbuf_ref, below the limit of the u8_t counter. */
    method Ref(p: nat)
      requires Valid() && p in m && m[p].ref < 255
      modifies `m, `holders
      ensures Valid() && holders == old(holders) + multiset{p}
      ensures m == old(m)[p := old(m)[p].(ref := old(m)[p].ref + 1)]
    {
      AddRef(m, holders, p);
      SameLinksChained(m, m[p := m[p].(ref := m[p].ref + 1)], ch);
      RefEnds(m, p);
      m, holders := m[p := m[p].(ref := m[p].ref + 1)], holders + multiset{p};
    }

    /** Add to one more total; counts and links stay. */
    method AddTotal(p: nat, added: int, ghost m0: Mem, ghost done: set<nat>)
      requires Core() && -0xFFFF <= added <= 0xFFFF && p in m0 && p !in done && m == Raised(m0, done, added)
      modifies `m
      ensures Core() && m == Raised(m0, done + {p}, added)
    {
      RaisedStep(m0, done, p, added);
      var total := Add16(m[p].totLen, added);
      SetLengths(m, holders, p, m[p].len, total);
      SameLinksChained(m, m[p := m[p].(totLen := total)], ch);
      m := m[p := m[p].(totLen := total)];
    }

    /**
     pbuf_cat: the caller's reference to the tail becomes the pointer from the last pbuf of the head. Its
     assertion on the total of that pbuf can fire only after another one has.
     */
    method Cat(h: nat, t: nat)
      requires Valid() && h in m && t in m && t in holders
      requires h in ch && t in ch && forall x :: x in ch[h] ==> x !in ch[t]
      modifies `m, `holders, `ch, `asserted
      ensures Valid() && holders == old(holders) - multiset{t}
      ensures old(ch)[h] != [] && m == Joined(old(m), old(ch)[h], t, old(m)[t].totLen)
      ensures h in ch && ch == Extend(old(ch), Last(old(ch)[h]), t) && ch[h] == old(ch)[h] + old(ch)[t]
      ensures asserted == (old(asserted) || !EndOk(old(m), Last(old(ch)[h]))) && (old(Clean()) ==> Clean())
    {
      assert ChainAt(m, ch, h) && ChainAt(m, ch, t);
      ghost var m0, c := m, ch[h];
      ChainFollows(m, ch, h, |c| - 1);
      if Clean() {
        assert EndOk(m, Last(c));
        JoinedEnds(m, ch, h, t);
      }
      var p := RaiseTotals(h, m[t].totLen);
      if m[p].totLen != m[p].len {
        asserted := true;
      }
      ElemsStep(m0, ch, h, |c| - 1);
      assert c[..|c|] == c;
      AddTotal(p, m[t].totLen, m0, Elems(c[..|c| - 1]));
      Append(p, t);
      JoinedIs(m0, c, t, m0[t].totLen);
    }

    /** The walk of pbuf_cat to the last pbuf, adding to every total on the way (pbuf.c:863-866). */
    method RaiseTotals(h: nat, added: u16) returns (p: nat)
      requires Core() && h in m
      modifies `m
      ensures Core() && h in ch && ch[h] != [] && p == Last(ch[h]) && p in m
      ensures m == Raised(old(m), Elems(ch[h][..|ch[h]| - 1]), added) && m[p] == old(m)[p]
    {
      assert ChainAt(m, ch, h);
      ghost var m0, i, done: set<nat> := m, 0, {};
      p := h;
      ChainFollows(m0, ch, h, 0);
      while m[p].next.Some?
        invariant Core() && i < |ch[h]| && p == ch[h][i] && p in m && p !in done && m[p] == m0[p]
        invariant done == Elems(ch[h][..i]) && m == Raised(m0, done, added)
        invariant m[p].next == if i + 1 < |ch[h]| then Some(ch[h][i + 1]) else None
        decreases |ch[h]| - i
      {
        ElemsStep(m0, ch, h, i);
        ElemsStep(m0, ch, h, i + 1);
        ChainFollows(m0, ch, h, i + 1);
        var q := m[p].next.value;
        AddTotal(p, added, m0, done);
        done := done + {p};
        p, i := q, i + 1;
      }
    }

    /** pbuf_chain: like pbuf_cat, but the caller keeps its reference to the tail. */
    method Chain(h: nat, t: nat)
      requires Valid() && h in m && t in m && t in holders
      requires h in ch && t in ch && forall x :: x in ch[h] ==> x !in ch[t]
      requires m[t].ref < 255
      modifies `m, `holders, `ch, `asserted
      ensures Valid() && holders == old(holders)
      ensures old(ch)[h] != []
      ensures var j := Joined(old(m), old(ch)[h], t, old(m)[t].totLen);
        t in j && m == j[t := j[t].(ref := j[t].ref + 1)]
      ensures h in ch && ch[h] == old(ch)[h] + old(ch)[t]
      ensures asserted == (old(asserted) || !EndOk(old(m), Last(old(ch)[h]))) && (old(Clean()) ==> Clean())
    {
      assert ChainAt(m, ch, t);
      Cat(h, t);
      Ref(t);
      assert holders == old(holders);
    }

    /** Cut `p` off from its successor, whose reference passes to the caller. */
    method Detach(p: nat, len: u16) returns (q: nat)
      requires Core() && p in m && m[p].next.Some?
      modifies `m, `holders, `ch
      ensures Core() && Some(q) == old(m)[p].next && m == CutOff(old(m), p, len)
      ensures holders == old(holders) + multiset{q}
      ensures q in ch && q in old(ch) && ch[q] == old(ch)[q]
      ensures ch == map x | x in old(ch) :: Cut(old(ch)[x], p)
    {
      assert ChainAt(m, ch, p);
      q := m[p].next.value;
      assert p !in ch[q] by {
        forall j | 0 <= j < |ch[q]| ensures ch[q][j] != p { PredNotBehind(m, ch, p, j); }
      }
      CutAbsent(ch[q], p);
      CutChained(m, ch, p);
      Unlink(m, holders, p);
      var m1 := m[p := m[p].(next := None)];
      SetLengths(m1, holders + multiset{q}, p, len, len);
      assert m1[p := m1[p].(len := len, totLen := len)] == CutOff(m, p, len);
      ch := map x | x in ch :: Cut(ch[x], p);
      SameLinksChained(m1, CutOff(m, p, len), ch);
      m, holders := CutOff(m, p, len), holders + multiset{q};
    }

    /** The total of the tail is set from that of `p`, in case the assertion before it fired (pbuf.c:922-925). */
    method Repair(p: nat)
      requires Core() && p in m && m[p].next.Some? && m[p].next.value in m
      modifies `m, `asserted
      ensures Core() && (asserted <==> old(asserted) || !TotalAt(old(m), p))
      ensures var q := old(m)[p].next.value;
        m == old(m)[q := old(m)[q].(totLen := Add16(old(m)[p].totLen, 0 - old(m)[p].len))]
      ensures !asserted ==> m == old(m)
    {
      var q := m[p].next.value;
      if m[q].totLen != m[p].totLen - m[p].len {
        asserted := true;
      }
      var total := Add16(m[p].totLen, 0 - m[p].len);
      SetLengths(m, holders, q, m[q].len, total);
      SameLinksChained(m, m[q := m[q].(totLen := total)], ch);
      m := m[q := m[q].(totLen := total)];
    }

    /**
     pbuf_dechain. NULL is returned when the u8_t count of freed pbufs is not 0; the pointer returned
     otherwise is valid unless a positive multiple of 256 pbufs was freed.
     */
    method Dechain(p: nat) returns (r: Option<nat>, ghost k: nat)
      requires Valid() && p in m
      modifies `m, `pool, `holders, `ch, `asserted
      ensures Valid() && holders == old(holders) && (asserted <==> old(asserted) || !TotalAt(old(m), p))
      ensures old(m)[p].next == None ==> r == None && m == old(m) && ch == old(ch)
      ensures old(m)[p].next.Some? ==>
        var q := old(m)[p].next.value;
        && q in old(m) && q in old(ch) && IsFreeCount(Dechained(old(m), p), old(ch)[q], k)
        && m == Freed(Dechained(old(m), p), old(ch)[q], k)
        && r == (if k % 0x100 > 0 then None else Some(q))
        && (r.Some? ==> (r.value in m <==> k == 0))
        && (Totals(old(m)) ==> (Totals(m) <==> old(m)[p].totLen == old(m)[p].len || Preds(old(m), p) == {}))
    {
      assert ChainAt(m, ch, p);
      if m[p].next == None {
        if m[p].totLen != m[p].len {
          asserted := true;
        }
        r, k := None, 0;
      } else {
        ghost var m0, ch0, q0 := m, ch, m[p].next.value;
        Repair(p);
        var q := Detach(p, m[p].len);
        assert m == Dechained(m0, p);
        r, k := DropTail(q);
        if Totals(m0) {
          DechainTotals(m0, ch0, p, k);
        }
        if Clean() {
          DechainedEnds(m0, p);
          FreedEnds(Dechained(m0, p), ch0[q], k);
        }
      }
    }

    /** The end of pbuf_dechain: the reference to the tail goes (pbuf.c:932-941). */
    method DropTail(q: nat) returns (r: Option<nat>, ghost k: nat)
      requires Core() && q in holders && q in m && q in ch
      modifies `m, `pool, `holders
      ensures Core() && holders == old(holders) - multiset{q}
      ensures IsFreeCount(old(m), ch[q], k) && m == Freed(old(m), ch[q], k)
      ensures r == (if k % 0x100 > 0 then None else Some(q)) && (r.Some? ==> (r.value in m <==> k == 0))
    {
      ghost var m1 := m;
      assert ChainAt(m, ch, q);
      var n := FreeChain(q);
      k := n;
      var tailGone := Low8(n);
      r := if tailGone > 0 then None else Some(q);
      assert ch[q][0] == q;
      forall j | 1 <= j < |ch[q]| ensures ch[q][j] != q { ChainDistinct(m1, ch, q, 0, j); }
    }

    /**
     The walk of pbuf_realloc to the new last pbuf (pbuf.c:418-432). It runs off the chain, where the
     assertion at pbuf.c:431 fires, exactly when the chain has fewer bytes than `newLen`.
     */
    method ShrinkTotals(p: nat, newLen: nat) returns (stuck: bool, q: nat, rem: u16, ghost j: nat)
      requires Core() && p in m && newLen < m[p].totLen
      modifies `m
      ensures Core() && p in ch && (stuck <==> LenSum(old(m), ch[p]) < newLen)
      ensures stuck ==> m == Raised(old(m), Elems(ch[p]), newLen - old(m)[p].totLen)
      ensures !stuck ==>
        && EndsIn(old(m), ch[p], newLen, j, rem) && q == ch[p][j] && q !in Elems(ch[p][..j])
        && m == Raised(old(m), Elems(ch[p][..j]), newLen - old(m)[p].totLen)
    {
      assert ChainAt(m, ch, p);
      ghost var m0, c := m, ch[p];
      var shrink := m[p].totLen - newLen;
      stuck, q, rem, j := false, p, newLen, 0;
      while rem > m[q].len
        invariant Core() && Shrinking(m0, c, newLen, q, rem, j, shrink, m)
        decreases |c| - j
      {
        var next := ShrinkOne(p, q, rem, shrink, newLen, m0, j);
        rem := rem - m[q].len;
        if next == None {
          stuck := true;
          return;
        }
        q, j := next.value, j + 1;
      }
      ChainFollows(m0, ch, p, j);
      LenSumTo(m0, c, j);
      LenSumMono(m0, c, j + 1, |c|);
      assert c[..|c|] == c;
    }

    /** One round of the loop: the total of `q` falls, and the walk goes on unless `q` is the last. */
    method ShrinkOne(p: nat, q: nat, rem: u16, shrink: u16, ghost newLen: nat, ghost m0: Mem, ghost j: nat)
      returns (next: Option<nat>)
      requires Core() && p in m0 && p in ch && Chained(m0, ch)
      requires Shrinking(m0, ch[p], newLen, q, rem, j, shrink, m) && rem > m[q].len
      modifies `m
      ensures Core() && q in m && m[q].len == m0[q].len && LenSum(m0, ch[p][..j + 1]) + rem - m[q].len == newLen
      ensures next == None ==> ch[p][..j + 1] == ch[p] && m == Raised(m0, Elems(ch[p]), -(shrink as int))
      ensures next.Some? ==> Shrinking(m0, ch[p], newLen, next.value, rem - m[q].len, j + 1, shrink, m)
    {
      ghost var c := ch[p];
      ChainFollows(m0, ch, p, j);
      ElemsStep(m0, ch, p, j);
      LenSumTo(m0, c, j);
      next := m[q].next;
      AddTotal(q, -(shrink as int), m0, Elems(c[..j]));
      if next == None {
        assert c[..j + 1] == c;
      } else {
        ElemsStep(m0, ch, p, j + 1);
        ChainFollows(m0, ch, p, j + 1);
      }
    }

    /** Make `q` the last pbuf of its chain, with `len` bytes, and drop the reference to the rest (pbuf.c:451-460). */
    method EndChainAt(q: nat, len: u16) returns (ghost k: nat)
      requires Core() && q in m && q in ch && ch[q] != []
      modifies `m, `pool, `holders, `ch
      ensures Core() && holders == old(holders)
      ensures IsFreeCount(CutOff(old(m), q, len), old(ch)[q][1..], k)
      ensures m == Freed(CutOff(old(m), q, len), old(ch)[q][1..], k)
      ensures ch == map x | x in old(ch) :: if old(m)[q].next == None then old(ch)[x] else Cut(old(ch)[x], q)
    {
      assert ChainAt(m, ch, q);
      ghost var h0, tail := holders, ch[q][1..];
      if m[q].next == None {
        SetLengths(m, holders, q, len, len);
        assert m[q := m[q].(len := len, totLen := len)] == CutOff(m, q, len);
        SameLinksChained(m, CutOff(m, q, len), ch);
        m, k := CutOff(m, q, len), 0;
        assert Without(m, tail, 0) == m;
      } else {
        var n := Detach(q, len);
        assert ch[n] == tail;
        assert RefOk(m, holders, n);
        var gone := FreeChain(n);
        k := gone;
        assert holders == h0;
      }
    }

    /**
     pbuf_realloc: the chain ends in c[j] now, `rem` bytes into it, and the reference to what followed is
     dropped. That needs nothing of total lengths but that the chain has `newLen` bytes, which is exactly
     when the assertion at pbuf.c:431 holds.
     */
    method Realloc(p: nat, newLen: nat) returns (stuck: bool, ghost j: nat, ghost rem: u16, ghost k: nat)
      requires Valid() && p in m
      modifies `m, `pool, `holders, `ch, `asserted
      ensures Valid() && holders == old(holders) && p in old(ch) && asserted == (old(asserted) || stuck)
      ensures stuck <==> LenSum(old(m), old(ch)[p]) < newLen < old(m)[p].totLen
      ensures newLen >= old(m)[p].totLen ==> m == old(m) && ch == old(ch)
      ensures stuck ==> ch == old(ch) && m == Raised(old(m), Elems(ch[p]), newLen - old(m)[p].totLen)
      ensures newLen < old(m)[p].totLen && !stuck ==>
        && Reallocated(old(m), old(ch)[p], newLen, old(m)[p].totLen - newLen, j, rem, k, m)
        && p in ch && ch[p] == old(ch)[p][..j + 1]
      ensures Totals(old(m)) ==> !stuck
      ensures Totals(old(m)) && newLen < old(m)[p].totLen ==> (Totals(m) <==> Unshared(old(m), old(ch)[p][..j + 1]))
    {
      ghost var m0, ch0 := m, ch;
      assert ChainAt(m, ch, p);
      if Totals(m) {
        TotalIsAll(m, ch, p);
      }
      stuck, j, rem, k := false, 0, 0, 0;
      if newLen >= m[p].totLen {
        return;
      }
      stuck, j, rem, k := Shorten(p, newLen);
      if stuck {
        asserted := true;
        return;
      }
      if Totals(m0) {
        ReallocTotals(m0, ch0, p, newLen, j, rem, k);
      }
      if Clean() {
        ShrunkEnds(m0, ch0, p, j, rem, m0[p].totLen - newLen);
        FreedEnds(Shrunk(m0, ch0[p], j, rem, m0[p].totLen - newLen), ch0[p][j + 1..], k);
      }
    }

    /** The walk and the cut of pbuf_realloc. */
    method Shorten(p: nat, newLen: nat) returns (stuck: bool, ghost j: nat, ghost rem: u16, ghost k: nat)
      requires Core() && p in m && newLen < m[p].totLen
      modifies `m, `pool, `holders, `ch
      ensures Core() && holders == old(holders) && p in old(ch) && (stuck <==> LenSum(old(m), old(ch)[p]) < newLen)
      ensures stuck ==> ch == old(ch) && m == Raised(old(m), Elems(ch[p]), newLen - old(m)[p].totLen)
      ensures !stuck ==>
        && Reallocated(old(m), old(ch)[p], newLen, old(m)[p].totLen - newLen, j, rem, k, m)
        && p in ch && ch[p] == old(ch)[p][..j + 1]
    {
      var q, left;
      rem, k := 0, 0;
      stuck, q, left, j := ShrinkTotals(p, newLen);
      if !stuck {
        rem := left;
        CutFacts(m, ch, p, j);
        k := EndChainAt(q, left);
      }
    }

    /** memp_malloc(MEMP_PBUF_POOL) and pbuf_init_alloced_pbuf */
    method Take(len: u16, totLen: u16) returns (q: nat)
      requires Core() && pool != {}
      modifies `m, `pool, `holders, `ch
      ensures Core() && q in old(pool) && pool == old(pool) - {q}
      ensures m == old(m)[q := Node(None, len, totLen, 1)] && holders == old(holders) + multiset{q}
      ensures ch == old(ch)[q := [q]]
    {
      q :| q in pool;
      Fresh(m, holders, q, len, totLen);
      FreshChained(m, ch, q, Node(None, len, totLen, 1));
      holders, ch, pool := holders + multiset{q}, ch[q := [q]], pool - {q};
      m := m[q := Node(None, len, totLen, 1)];
    }

    /** The new pbuf is linked behind `last`: its reference passes from the routine to the chain. */
    method Append(last: nat, q: nat)
      requires Core() && last in m && q in m && m[last].next == None && q in holders && q in ch && last !in ch[q]
      modifies `m, `holders, `ch
      ensures Core() && m == old(m)[last := old(m)[last].(next := Some(q))]
      ensures holders == old(holders) - multiset{q} && ch == Extend(old(ch), last, q)
    {
      ExtendChained(m, ch, last, q);
      Link(m, holders, last, q);
      ch, holders := Extend(ch, last, q), holders - multiset{q};
      m := m[last := m[last].(next := Some(q))];
    }

    /** Everything that the loop of pbuf_alloc has built so far hangs together. */
    ghost predicate Built(c: seq<nat>, length: nat, rem: nat, m0: Mem, h0: multiset<nat>)
      reads this
    {
      && Core() && Building(m, c, length, rem) && Without(m, c, |c|) == m0
      && holders == h0 + multiset{c[0]} && c[0] in ch && ch[c[0]] == c
    }

    /** One more pbuf for the chain (pbuf.c:243-269). */
    method Grow(last: nat, len: u16, rem: u16,
                ghost c: seq<nat>, ghost length: nat, ghost m0: Mem, ghost h0: multiset<nat>)
      returns (q: nat)
      requires Built(c, length, rem, m0, h0) && last == Last(c) && pool != {} && len <= rem
      modifies `m, `pool, `holders, `ch
      ensures Built(c + [q], length, rem - len, m0, h0)
      ensures |pool| == |old(pool)| - 1
      ensures q !in c && m == Appended(old(m), c, q, len, rem)
    {
      ghost var m1 := m;
      ChainFollows(m, ch, c[0], |c| - 1);
      q := Take(len, rem);
      BuildStep(m1, c, q, length, rem, len);
      AppendWithout(m1, c, q, len, rem);
      Append(last, q);
      assert m == Appended(m1, c, q, len, rem);
      assert holders == h0 + multiset{c[0]};
    }

    /**
     pbuf_alloc for PBUF_POOL: a new chain of `length` bytes with one reference, or NULL with nothing
     changed exactly when the pool has too few pbufs. `first` is what the first one holds behind the
     headers left free in front.
     */
    method AllocPool(length: u16, first: u16, size: u16) returns (p: Option<nat>, ghost c: seq<nat>)
      requires Valid() && 0 < first <= size
      modifies `m, `pool, `holders, `ch
      ensures Valid() && (p == None <==> |old(pool)| < BuffersFor(length, first, size))
      ensures p == None ==> m == old(m) && holders == old(holders) && pool == old(pool)
      ensures p.Some? ==> |c| == BuffersFor(length, first, size) && c != [] && p == Some(c[0])
      ensures p.Some? ==> Built(c, length, 0, old(m), old(holders)) && |pool| + |c| == |old(pool)|
      ensures p.Some? ==> Packed(m, c, first, size)
    {
      p, c := BuildChain(length, first, size);
      if p.Some? && Clean() {
        BuiltEnds(m, ch, c, length, old(m));
      }
    }

    method BuildChain(length: u16, first: u16, size: u16) returns (p: Option<nat>, ghost c: seq<nat>)
      requires Core() && 0 < first <= size
      modifies `m, `pool, `holders, `ch
      ensures Core() && (p == None <==> |old(pool)| < BuffersFor(length, first, size))
      ensures p == None ==> m == old(m) && holders == old(holders) && pool == old(pool)
      ensures p.Some? ==> |c| == BuffersFor(length, first, size) && c != [] && p == Some(c[0])
      ensures p.Some? ==> Built(c, length, 0, old(m), old(holders)) && |pool| + |c| == |old(pool)|
      ensures p.Some? ==> Packed(m, c, first, size)
    {
      FirstStep(length, first, size);
      if pool == {} {
        return None, [];
      }
      ghost var m0, h0 := m, holders;
      var qlen := if length < first then length else first;
      var head := StartChain(qlen, length);
      var ok;
      PackedOne(m, head, first, size);
      ok, c := Complete(head, length - qlen, first, size, length, m0, h0);
      p := if ok then Some(head) else None;
    }

    /** The further pbufs, for the `left` bytes that the first one does not hold. */
    method Complete(head: nat, left: u16, ghost first: nat, size: u16,
                    ghost length: nat, ghost m0: Mem, ghost h0: multiset<nat>)
      returns (ok: bool, ghost c: seq<nat>)
      requires Built([head], length, left, m0, h0) && 0 < size && Packed(m, [head], first, size)
      modifies `m, `pool, `holders, `ch
      ensures Core() && (ok <==> |old(pool)| >= FurtherBuffers(left, size))
      ensures !ok ==> m == m0 && holders == h0 && pool == all - m0.Keys
      ensures ok ==> Built(c, length, 0, m0, h0) && c[0] == head && |c| == 1 + FurtherBuffers(left, size)
                     && |pool| + |c| == |old(pool)| + 1 && Packed(m, c, first, size)
    {
      c := [head];
      var last, rem: u16 := head, left;
      ghost var n0 := |pool|;
      while rem > 0 && pool != {}
        invariant Built(c, length, rem, m0, h0) && c[0] == head && last == Last(c) && Packed(m, c, first, size)
        invariant |pool| + |c| == n0 + 1 && |c| + FurtherBuffers(rem, size) == 1 + FurtherBuffers(left, size)
        decreases rem
      {
        var qlen := if rem < size then rem else size;
        ghost var m1 := m;
        var q := Grow(last, qlen, rem, c, length, m0, h0);
        PackedMore(m1, c, q, first, size, qlen, rem);
        FurtherStep(rem, size);
        last, rem, c := q, rem - qlen, c + [q];
      }
      ok := rem == 0;
      if !ok {
        Abandon(head, c, length, rem, m0, h0);
      }
    }

    /** The first pbuf of a new chain. */
    method StartChain(len: u16, length: u16) returns (q: nat)
      requires Core() && pool != {} && len <= length
      modifies `m, `pool, `holders, `ch
      ensures Built([q], length, length - len, old(m), old(holders))
      ensures |pool| == |old(pool)| - 1 && q in m && m[q].len == len && m[q].totLen == length
    {
      ghost var m0 := m;
      q := Take(len, length);
      assert [q][..1] == [q];
      assert Without(m, [q], 1) == m0;
    }

    /** Out of pbufs: pbuf_free takes the unfinished chain down again. */
    method Abandon(head: nat, ghost c: seq<nat>, ghost length: nat, ghost rem: nat,
                   ghost m0: Mem, ghost h0: multiset<nat>)
      requires Built(c, length, rem, m0, h0) && head == c[0]
      modifies `m, `pool, `holders
      ensures Core() && m == m0 && holders == h0 && pool == all - m0.Keys
    {
      var k := FreeChain(head);
      assert holders == h0;
    }

    /** `next` of `f` is cleared, and its reference passes to the caller. */
    method Unhook(f: nat) returns (q: Option<nat>)
      requires Core() && f in m && f in ch
      modifies `m, `holders, `ch
      ensures Core() && q == old(m)[f].next && m == old(m)[f := old(m)[f].(next := None)]
      ensures holders == old(holders) + NextRef(q)
      ensures f in ch && ch[f] == [f]
      ensures q.Some? ==> q.value in old(ch) && q.value in ch && ch[q.value] == old(ch)[q.value]
    {
      q := m[f].next;
      assert ChainAt(m, ch, f);
      if q.Some? {
        assert f !in ch[q.value] by {
          forall j | 0 <= j < |ch[q.value]| ensures ch[q.value][j] != f { PredNotBehind(m, ch, f, j); }
        }
        CutAbsent(ch[q.value], f);
        CutChained(m, ch, f);
        Unlink(m, holders, f);
        ch := map x | x in ch :: Cut(ch[x], f);
        m, holders := m[f := m[f].(next := None)], holders + multiset{q.value};
      } else {
        assert m[f := m[f].(next := None)] == m;
      }
    }

    /** pbuf_free of a pbuf without a next one; what else is held is still there. */
    method ReleaseOne(f: nat, ghost q: Option<nat>)
      requires Core() && f in m && f in holders && m[f].next == None && NextRef(q) <= holders - multiset{f}
      modifies `m, `pool, `holders
      ensures Core() && holders == old(holders) - multiset{f} && (q.Some? ==> q.value in m)
      ensures m == if old(m)[f].ref <= 1 then old(m) - {f} else old(m)[f := old(m)[f].(ref := old(m)[f].ref - 1)]
    {
      assert RefOk(m, holders, f);
      var none, last := Round(f);
      assert q.Some? ==> RefOk(m, holders, q.value);
    }

    /** One round of pbuf_free_header that drops a pbuf (pbuf.c:680-684). */
    method DropFirst(f: nat, ghost m0: Mem, ghost c: seq<nat>, ghost k: nat) returns (q: Option<nat>)
      requires Core() && f in holders && k < |c| && c[k] == f && f in m0 && f !in c[..k]
      requires m == HeaderDropped(m0, c, k) && f in ch && ch[f] == c[k..]
      modifies `m, `pool, `holders, `ch
      ensures Core() && m == HeaderDropped(m0, c, k + 1) && q == (if k + 1 < |c| then Some(c[k + 1]) else None)
      ensures holders == old(holders) - multiset{f} + NextRef(q)
      ensures q.Some? ==> q.value in m && q.value in ch && ch[q.value] == c[k + 1..]
    {
      ghost var d, h0 := m, holders;
      HeadIs(m, ch, holders, f, m0, c, k);
      q := Unhook(f);
      PassOn(h0, f, q);
      ReleaseOne(f, q);
      DropNext(m0, c, k, d, m);
    }

    /**
     pbuf_free_header: the leading pbufs that `size` bytes fill are unlinked and a reference to each is dropped, and
     what is left is hidden in the next one. The caller's reference passes on to that.
     */
    method FreeHeader(head: nat, size: u16) returns (p: Option<nat>, ghost k: nat, ghost left: nat)
      requires Valid() && head in holders
      modifies `m, `pool, `holders, `ch, `stale
      ensures Valid() && head in old(ch) && stale == (old(stale) || !Ends(m))
      ensures HeaderEnds(old(m), old(ch)[head], size, k, left) && HeaderFreed(old(m), old(ch)[head], k, left, m)
      ensures p == (if k < |old(ch)[head]| then Some(old(ch)[head][k]) else None)
      ensures holders == old(holders) - multiset{head} + NextRef(p)
      ensures p.Some? ==> p.value in ch && ch[p.value] == old(ch)[head][k..]
      ensures Totals(old(m)) ==> (Totals(m) <==> HeaderKeeps(old(m), old(ch)[head], k, left))
    {
      ghost var m0, ch0, h0 := m, ch, holders;
      assert RefOk(m, holders, head) && ChainAt(m, ch, head);
      ghost var c := ch[head];
      var rest;
      p, rest, k := DropLeading(head, size, c);
      left := rest;
      if k < |c| {
        ElemsStep(m0, ch0, head, k);
        ChainFollows(m0, ch0, head, k);
        assert m[c[k]] == m0[c[k]];
      }
      if rest > 0 && p.Some? {
        HideBytes(p.value, rest);
      }
      stale := stale || !Ends(m);
      if Totals(m0) {
        HeaderTotals(m0, ch0, h0, head, size, k, left, m);
      }
    }

    /** pbuf_remove_header of fewer bytes than the pbuf holds. */
    method HideBytes(p: nat, n: u16)
      requires Core() && p in m && n <= m[p].len
      modifies `m
      ensures Core() && m == Hidden(old(m), p, n)
    {
      SetLengths(m, holders, p, m[p].len - n, Add16(m[p].totLen, 0 - n));
      SameLinksChained(m, Hidden(m, p, n), ch);
      m := m[p := m[p].(len := m[p].len - n, totLen := Add16(m[p].totLen, 0 - n))];
    }

    /** pbuf_free_header has dropped `k` pbufs of the chain `c` and stands at `p`, with `left` bytes to go. */
    ghost predicate Dropping(m0: Mem, c: seq<nat>, base: multiset<nat>, size: nat, k: nat, p: Option<nat>, left: nat)
      reads this
    {
      && Core() && k <= |c| && m == HeaderDropped(m0, c, k) && p == (if k < |c| then Some(c[k]) else None)
      && holders == base + NextRef(p) && (p.Some? ==> p.value in m && p.value in ch && ch[p.value] == c[k..])
      && LenSum(m0, c[..k]) + left == size && (k > 0 ==> LenSum(m0, c[..k - 1]) < size)
    }

    method DropRound(f: nat, left: u16, ghost m0: Mem, ghost ch0: map<nat, seq<nat>>, ghost head: nat,
                     ghost base: multiset<nat>, ghost size: nat, ghost k: nat) returns (p: Option<nat>, left': u16)
      requires Chained(m0, ch0) && head in m0 && head in ch0 && k < |ch0[head]|
      requires Dropping(m0, ch0[head], base, size, k, Some(f), left) && 0 < left && m[f].len <= left
      modifies `m, `pool, `holders, `ch
      ensures Dropping(m0, ch0[head], base, size, k + 1, p, left')
    {
      ghost var c := ch0[head];
      ElemsStep(m0, ch0, head, k);
      ChainFollows(m0, ch0, head, k);
      LenSumTo(m0, c, k);
      assert m[f] == m0[f];
      left' := left - m[f].len;
      p := DropFirst(f, m0, c, k);
    }

    /** The loop of pbuf_free_header over the pbufs that it drops. */
    method DropLeading(head: nat, size: u16, ghost c: seq<nat>) returns (p: Option<nat>, left: u16, ghost k: nat)
      requires Core() && head in holders && head in m && head in ch && c == ch[head]
      modifies `m, `pool, `holders, `ch
      ensures Dropping(old(m), c, old(holders) - multiset{head}, size, k, p, left)
      ensures left > 0 && p.Some? ==> left < m[p.value].len
    {
      ghost var m0, ch0, base := m, ch, holders - multiset{head};
      p, left, k := Some(head), size, 0;
      assert Dropping(m0, c, base, size, k, p, left) by {
        assert ChainAt(m, ch, head);
        assert c[0..] == c && c[..0] == [] && m == HeaderDropped(m0, c, 0);
      }
      while left > 0 && p.Some?
        invariant k <= |c| && Dropping(m0, c, base, size, k, p, left)
        decreases |c| - k
      {
        if left < m[p.value].len {
          return;
        }
        p, left := DropRound(p.value, left, m0, ch0, head, base, size, k);
        k := k + 1;
      }
    }
  }
}
