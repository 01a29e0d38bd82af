/**
 Calls of pbuf.c after which a promise on total lengths, or on the pointer returned, does not hold. They
 show that the conditions proved in PbufRefs are needed.
 */
module PbufExamples {
  import opened Common
  import opened PbufRefs

  /** pbuf_alloc of a single pbuf with `n` bytes. */
  method Single(b: Pbufs, n: u16) returns (p: nat)
    requires b.Valid() && b.pool != {} && n > 0
    modifies b
    ensures b.Valid() && (old(b.Clean()) ==> b.Clean()) && |b.pool| + 1 == |old(b.pool)|
    ensures p !in old(b.m) && b.m == old(b.m)[p := Node(None, n, n, 1)]
    ensures b.holders == old(b.holders) + multiset{p} && b.ch.Keys >= b.m.Keys && b.ch[p] == [p]
  {
    var q, c := b.AllocPool(n, n, n);
    p := q.value;
    SingleBuilt(b.m, b.ch, c, n, old(b.m));
    forall x | x in b.m ensures x in b.ch {
      assert ChainAt(b.m, b.ch, x);
    }
  }

  lemma SingleBuilt(m: Mem, ch: map<nat, seq<nat>>, c: seq<nat>, n: u16, m0: Mem)
    requires |c| == 1 && Chained(m, ch) && Building(m, c, n, 0) && Without(m, c, 1) == m0 && c[0] in ch && ch[c[0]] == c
    ensures c[0] !in m0 && m == m0[c[0] := Node(None, n, n, 1)]
  {
    var p := c[0];
    assert c[..1] == c;
    ChainFollows(m, ch, p, 0);
    assert m[p] == Node(None, n, n, 1);
    forall x | x in m0 ensures x in m && x != p {
      assert x in Without(m, c, 1);
    }
  }

  /** pbuf_chain of a single pbuf and another one. */
  method ChainOne(b: Pbufs, a: nat, t: nat)
    requires b.Valid() && b.Clean() && a in b.m && t in b.m && t in b.holders && a != t
    requires b.m[a].next == None && (b.m[t].next.Some? ==> b.m[t].next.value != a && End(b.m, b.m[t].next.value))
    requires b.m[t].ref < 255
    modifies b
    ensures b.Valid() && b.Clean() && b.holders == old(b.holders) && b.pool == old(b.pool)
    ensures var node := old(b.m)[a];
      b.m == old(b.m)[a := node.(next := Some(t), totLen := Add16(node.totLen, old(b.m)[t].totLen))]
                     [t := old(b.m)[t].(ref := old(b.m)[t].ref + 1)]
  {
    assert ChainAt(b.m, b.ch, a) && ChainAt(b.m, b.ch, t);
    if b.m[t].next.Some? {
      assert ChainAt(b.m, b.ch, b.m[t].next.value);
    }
    b.Chain(a, t);
  }

  ghost predicate End(m: Mem, p: nat) {
    p in m && m[p].next == None
  }

  /** Two pbufs with a common tail. */
  method SharedTail(b: Pbufs) returns (a: nat, c: nat, t: nat)
    requires b.Valid() && b.Clean() && |b.pool| >= 3
    modifies b
    ensures b.Valid() && b.Clean() && |b.pool| + 3 == |old(b.pool)| && a != c && t in b.holders
    ensures Holds(b.m, a, Node(Some(t), 1, 2, 1)) && Holds(b.m, c, Node(Some(t), 1, 2, 1))
    ensures Holds(b.m, t, Node(None, 1, 1, 3))
  {
    a := Single(b, 1);
    c := Single(b, 1);
    t := Single(b, 1);
    ChainOne(b, a, t);
    ChainOne(b, c, t);
  }

  ghost predicate Holds(m: Mem, p: nat, node: Node) {
    p in m && m[p] == node
  }

  /** Two heads share a tail; the chain of one of them is made longer, and the total of the other is wrong. */
  method CatSpoilsTotals() returns (b: Pbufs)
    ensures b.Valid() && b.Clean() && !Totals(b.m)
  {
    b := new Pbufs({0, 1, 2, 3});
    var a, c, t := SharedTail(b);
    var u := Single(b, 1);
    AppendTo(b, a, t, c, u);
  }

  method AppendTo(b: Pbufs, a: nat, t: nat, c: nat, u: nat)
    requires b.Valid() && b.Clean() && u in b.holders && Holds(b.m, u, Node(None, 1, 1, 1)) && a != c
    requires Holds(b.m, a, Node(Some(t), 1, 2, 1)) && Holds(b.m, c, Node(Some(t), 1, 2, 1))
    requires Holds(b.m, t, Node(None, 1, 1, 3))
    modifies b
    ensures b.Valid() && b.Clean() && !Totals(b.m)
  {
    assert ChainAt(b.m, b.ch, a) && ChainAt(b.m, b.ch, t) && ChainAt(b.m, b.ch, u);
    b.Cat(a, u);
    assert !TotalAt(b.m, c);
  }

  /** A chain of three. */
  method Three(b: Pbufs) returns (a: nat, t: nat, u: nat)
    requires b.Valid() && b.Clean() && |b.pool| >= 3
    modifies b
    ensures b.Valid() && b.Clean() && a != t && a != u && t != u
    ensures Holds(b.m, a, Node(Some(t), 1, 3, 1)) && Holds(b.m, t, Node(Some(u), 1, 2, 2))
    ensures Holds(b.m, u, Node(None, 1, 1, 2))
  {
    a := Single(b, 1);
    t := Single(b, 1);
    u := Single(b, 1);
    ChainOne(b, t, u);
    ChainOne(b, a, t);
  }

  /** The middle pbuf of a chain is dechained while the first still points to it. */
  method DechainSpoilsTotals() returns (b: Pbufs)
    ensures b.Valid() && b.Clean() && !Totals(b.m)
  {
    b := new Pbufs({0, 1, 2});
    var a, t, u := Three(b);
    DechainMiddle(b, a, t, u);
  }

  method DechainMiddle(b: Pbufs, a: nat, t: nat, u: nat)
    requires b.Valid() && b.Clean() && a != t && a != u && t != u
    requires Holds(b.m, a, Node(Some(t), 1, 3, 1)) && Holds(b.m, t, Node(Some(u), 1, 2, 2))
    requires Holds(b.m, u, Node(None, 1, 1, 2))
    modifies b
    ensures b.Valid() && b.Clean() && !Totals(b.m)
  {
    ghost var m0 := b.m;
    assert ChainAt(m0, b.ch, u) && TotalAt(m0, t);
    var r, k := b.Dechain(t);
    assert Holds(b.m, a, m0[a]) && Holds(b.m, t, Node(None, 1, 1, 2));
    assert !TotalAt(b.m, a);
  }

  /** A tail is shortened while another pbuf points to it. */
  method ReallocSpoilsTotals() returns (b: Pbufs)
    ensures b.Valid() && b.Clean() && !Totals(b.m)
  {
    b := new Pbufs({0, 1});
    var a := Single(b, 1);
    var t := Single(b, 1);
    ChainOne(b, a, t);
    ShortenTail(b, a, t);
  }

  method ShortenTail(b: Pbufs, a: nat, t: nat)
    requires b.Valid() && b.Clean() && Holds(b.m, a, Node(Some(t), 1, 2, 1)) && Holds(b.m, t, Node(None, 1, 1, 2))
    modifies b
    ensures b.Valid() && b.Clean() && !Totals(b.m)
  {
    ghost var m0 := b.m;
    assert ChainAt(m0, b.ch, t);
    var stuck, j, rem, k := b.Realloc(t, 0);
    assert Holds(b.m, a, m0[a]) && Holds(b.m, t, Node(None, 0, 0, 2));
    assert !TotalAt(b.m, a);
  }

  /** After that, shortening the other chain runs off its end: its total promises bytes that are gone. */
  method ReallocRunsOff() returns (b: Pbufs)
    ensures b.Valid() && b.asserted
  {
    b := new Pbufs({0, 1});
    var a := Single(b, 1);
    var t := Single(b, 3);
    ChainOne(b, a, t);
    EmptyTail(b, a, t);
    ShortenStale(b, a, t);
  }

  method EmptyTail(b: Pbufs, a: nat, t: nat)
    requires b.Valid() && b.Clean() && Holds(b.m, a, Node(Some(t), 1, 4, 1)) && Holds(b.m, t, Node(None, 3, 3, 2))
    modifies b
    ensures b.Valid() && b.Clean() && Holds(b.m, a, Node(Some(t), 1, 4, 1)) && Holds(b.m, t, Node(None, 0, 0, 2))
  {
    ghost var m0 := b.m;
    assert ChainAt(m0, b.ch, t);
    var stuck, j, rem, k := b.Realloc(t, 0);
    assert Holds(b.m, a, m0[a]) && Holds(b.m, t, Node(None, 0, 0, 2));
  }

  method ShortenStale(b: Pbufs, a: nat, t: nat)
    requires b.Valid() && Holds(b.m, a, Node(Some(t), 1, 4, 1)) && Holds(b.m, t, Node(None, 0, 0, 2))
    modifies b
    ensures b.Valid() && b.asserted
  {
    assert ChainAt(b.m, b.ch, a) && ChainAt(b.m, b.ch, t);
    LenSumTo(b.m, [a, t], 0);
    LenSumTo(b.m, [a, t], 1);
    assert [a, t][..2] == [a, t] && [a, t][..0] == [];
    var stuck, j, rem, k := b.Realloc(a, 2);
  }

  lemma {:induction false} OneEach(n: nat)
    requires n > 0
    ensures BuffersFor(n, 1, 1) == n
  {
    if n > 1 {
      OneEach(n - 1);
    }
  }

  /** A tail of 256 pbufs goes with its last reference, and pbuf_dechain returns a pointer to it all the same. */
  method DechainReturnsDead(pbufs: set<nat>) returns (b: Pbufs, r: Option<nat>)
    requires |pbufs| == 257
    ensures b.Valid() && b.Clean() && r.Some? && r.value !in b.m
  {
    b := new Pbufs(pbufs);
    var a := Single(b, 1);
    OneEach(256);
    var t, c := b.AllocPool(256, 1, 1);
    r := DechainLong(b, a, t.value, c);
  }

  method DechainLong(b: Pbufs, a: nat, t: nat, ghost c: seq<nat>) returns (r: Option<nat>)
    requires b.Valid() && b.Clean() && Holds(b.m, a, Node(None, 1, 1, 1)) && a !in c
    requires Building(b.m, c, 256, 0) && |c| == 256 && t == c[0] && t in b.holders && t in b.ch && b.ch[t] == c
    modifies b
    ensures b.Valid() && b.Clean() && r.Some? && r.value !in b.m
  {
    assert ChainAt(b.m, b.ch, a);
    ghost var m0 := b.m;
    b.Cat(a, t);
    assert b.ch[t] == c && forall i :: 0 <= i < |c| ==> Holds(b.m, c[i], m0[c[i]]);
    ghost var k;
    r, k := b.Dechain(a);
    assert k == 256;
  }

  /** Two pbufs, the first held twice: pbuf_free_header leaves the first alone with the total of both. */
  method FreeHeaderSpoilsTotals() returns (b: Pbufs)
    ensures b.Valid() && !b.asserted && !Totals(b.m)
  {
    b := new Pbufs({0, 1});
    var a, t := HeldTwice(b);
    DropHeader(b, a, t);
  }

  method HeldTwice(b: Pbufs) returns (a: nat, t: nat)
    requires b.Valid() && b.Clean() && |b.pool| >= 2
    modifies b
    ensures b.Valid() && b.Clean() && |b.pool| + 2 == |old(b.pool)| && a in b.holders && a != t
    ensures Holds(b.m, a, Node(Some(t), 1, 2, 2)) && Holds(b.m, t, Node(None, 1, 1, 2))
  {
    a := Single(b, 1);
    HoldAgain(b, a);
    t := Single(b, 1);
    ChainOne(b, a, t);
  }

  method HoldAgain(b: Pbufs, a: nat)
    requires b.Valid() && b.Clean() && Holds(b.m, a, Node(None, 1, 1, 1)) && a in b.holders
    modifies b
    ensures b.Valid() && b.Clean() && b.pool == old(b.pool) && a in b.holders
    ensures b.m == old(b.m)[a := Node(None, 1, 1, 2)] && b.ch == old(b.ch)
  {
    b.Ref(a);
  }

  method DropHeader(b: Pbufs, a: nat, t: nat)
    requires b.Valid() && !b.asserted && a in b.holders && a != t
    requires Holds(b.m, a, Node(Some(t), 1, 2, 2)) && Holds(b.m, t, Node(None, 1, 1, 2))
    modifies b
    ensures b.Valid() && !b.asserted && b.pool == old(b.pool)
    ensures b.m == old(b.m)[a := Node(None, 1, 2, 1)] && !Totals(b.m)
  {
    ghost var m0 := b.m;
    assert ChainAt(m0, b.ch, a) && ChainAt(m0, b.ch, t);
    LenSumTo(m0, [a, t], 0);
    LenSumTo(m0, [a, t], 1);
    assert [a, t][..2] == [a, t] && [a, t][..0] == [] && [a, t][..1] == [a];
    var p, k, left := b.FreeHeader(a, 1);
    assert k == 1 && left == 0;
    assert b.m == m0[a := Node(None, 1, 2, 1)];
    assert !TotalAt(b.m, a);
  }

  /** After that, pbuf_cat to the first pbuf fires its assertion. */
  method CatAfterFreeHeader() returns (b: Pbufs)
    ensures b.Valid() && b.asserted
  {
    b := new Pbufs({0, 1, 2});
    var a, t := HeldTwice(b);
    DropHeader(b, a, t);
    var u := Single(b, 1);
    CatTo(b, a, u);
  }

  method CatTo(b: Pbufs, a: nat, u: nat)
    requires b.Valid() && a != u && u in b.holders && Holds(b.m, a, Node(None, 1, 2, 1))
    requires Holds(b.m, u, Node(None, 1, 1, 1))
    modifies b
    ensures b.Valid() && b.asserted
  {
    assert ChainAt(b.m, b.ch, a) && ChainAt(b.m, b.ch, u);
    b.Cat(a, u);
  }
}
