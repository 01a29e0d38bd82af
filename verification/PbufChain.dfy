/**
 One pbuf chain as the byte sequence that it carries.

 The pbufs of an unshared chain are a list that the routines of pbuf.c walk and change in place:
 each has its payload, the room in front of it, and the total length from there to the end.
 */
module PbufChain {
  import opened Common

  /**
   `front` is what lies in front of the payload in the same buffer, where headers can be added; with a
   payload that follows its struct (`contiguous`), it begins at the end of the struct.
   */
  datatype Buf = Buf(front: seq<byte>, payload: seq<byte>, totLen: nat, contiguous: bool)

  datatype Err = OK | MEM | ARG | VAL

  // ----- the bytes of a chain -----

  ghost function Flatten(bufs: seq<Buf>): seq<byte> {
    if bufs == [] then [] else Flatten(bufs[..|bufs| - 1]) + bufs[|bufs| - 1].payload
  }

  lemma PrefixStep(w: seq<byte>, rest: seq<byte>, done: nat, count: nat)
    requires done + count <= |rest|
    ensures w + rest[..done] + rest[done..done + count] == w + rest[..done + count]
  {
  }

  lemma DropConcat(a: seq<byte>, b: seq<byte>, n: nat)
    requires n <= |a|
    ensures (a + b)[n..] == a[n..] + b
  {
  }

  lemma FlattenSnoc(bufs: seq<Buf>, b: Buf)
    ensures Flatten(bufs + [b]) == Flatten(bufs) + b.payload
  {
    assert (bufs + [b])[..|bufs|] == bufs;
  }

  lemma {:induction false} FlattenConcat(a: seq<Buf>, b: seq<Buf>)
    ensures Flatten(a + b) == Flatten(a) + Flatten(b)
    decreases |b|
  {
    if b == [] {
      assert a + b == a;
    } else {
      var b', x := b[..|b| - 1], b[|b| - 1];
      FlattenConcat(a, b');
      FlattenSnoc(b', x);
      FlattenSnoc(a + b', x);
      assert b == b' + [x] && a + b == a + b' + [x];
      Assoc(Flatten(a), Flatten(b'), x.payload);
    }
  }

  lemma FlattenSplit(bufs: seq<Buf>, i: nat)
    requires i <= |bufs|
    ensures Flatten(bufs) == Flatten(bufs[..i]) + Flatten(bufs[i..])
  {
    assert bufs[..i] + bufs[i..] == bufs;
    FlattenConcat(bufs[..i], bufs[i..]);
  }

  lemma FlattenDrop(bufs: seq<Buf>, i: nat)
    requires i <= |bufs|
    ensures |Flatten(bufs[..i])| <= |Flatten(bufs)| && Flatten(bufs)[|Flatten(bufs[..i])|..] == Flatten(bufs[i..])
  {
    FlattenSplit(bufs, i);
  }

  lemma FlattenTo(bufs: seq<Buf>, i: nat)
    requires i < |bufs|
    ensures Flatten(bufs[..i + 1]) == Flatten(bufs[..i]) + bufs[i].payload
  {
    assert bufs[..i + 1][..i] == bufs[..i];
  }

  lemma FlattenFrom(bufs: seq<Buf>, i: nat)
    requires i < |bufs|
    ensures Flatten(bufs[i..]) == bufs[i].payload + Flatten(bufs[i + 1..])
  {
    assert [bufs[i]][..0] == [];
    FlattenConcat([bufs[i]], bufs[i + 1..]);
    assert bufs[i..] == [bufs[i]] + bufs[i + 1..];
  }

  /** What lies before, in and behind pbuf `i`. */
  lemma FlattenAt(bufs: seq<Buf>, i: nat)
    requires i < |bufs|
    ensures Flatten(bufs) == Flatten(bufs[..i]) + bufs[i].payload + Flatten(bufs[i + 1..])
  {
    FlattenSplit(bufs, i);
    FlattenFrom(bufs, i);
    Assoc(Flatten(bufs[..i]), bufs[i].payload, Flatten(bufs[i + 1..]));
  }

  // ----- total lengths -----

  /** tot_len counts the bytes from this pbuf to the end of the chain. */
  ghost predicate TotalAt(bufs: seq<Buf>, i: int) {
    0 <= i < |bufs| ==> bufs[i].totLen == |Flatten(bufs[i..])|
  }

  ghost predicate Valid(bufs: seq<Buf>) {
    forall i :: TotalAt(bufs, i)
  }

  /** The invariant as pbuf.h states it: len plus the next pbuf's tot_len. */
  lemma TotalStep(bufs: seq<Buf>, i: nat)
    requires Valid(bufs) && i < |bufs|
    ensures bufs[i].totLen == |bufs[i].payload| + if i + 1 < |bufs| then bufs[i + 1].totLen else 0
  {
    FlattenFrom(bufs, i);
    assert TotalAt(bufs, i) && TotalAt(bufs, i + 1);
  }

  lemma TotalOf(bufs: seq<Buf>)
    requires Valid(bufs) && bufs != []
    ensures bufs[0].totLen == |Flatten(bufs)|
  {
    assert TotalAt(bufs, 0) && bufs[0..] == bufs;
  }

  /** Rewriting payloads in place, length for length, keeps the totals. */
  lemma SamePayloadLength(bufs: seq<Buf>, i: nat, payload: seq<byte>)
    requires Valid(bufs) && i < |bufs| && |payload| == |bufs[i].payload|
    ensures var r := bufs[i := bufs[i].(payload := payload)];
      && Valid(r)
      && Flatten(r) == Flatten(bufs[..i]) + payload + Flatten(bufs[i + 1..])
  {
    var r := bufs[i := bufs[i].(payload := payload)];
    forall j ensures TotalAt(r, j) {
      assert TotalAt(bufs, j);
      if 0 <= j < |bufs| {
        if j <= i {
          assert r[j..] == bufs[j..][i - j := r[i]];
          FlattenAt(bufs[j..], i - j);
          FlattenAt(r[j..], i - j);
          assert r[j..][..i - j] == bufs[j..][..i - j];
          assert r[j..][i - j + 1..] == bufs[j..][i - j + 1..];
        } else {
          assert r[j..] == bufs[j..];
        }
      }
    }
    FlattenAt(r, i);
    assert r[..i] == bufs[..i] && r[i + 1..] == bufs[i + 1..];
  }

  /** Totals can be checked from the front: what all pbufs hold less what those before hold. */
  ghost predicate TotalFromFront(bufs: seq<Buf>, i: int, total: int) {
    0 <= i < |bufs| ==> bufs[i].totLen == total - |Flatten(bufs[..i])|
  }

  lemma FrontTotal(bufs: seq<Buf>, i: int)
    requires Valid(bufs)
    ensures TotalFromFront(bufs, i, |Flatten(bufs)|)
  {
    assert TotalAt(bufs, i);
    if 0 <= i < |bufs| {
      FlattenSplit(bufs, i);
    }
  }

  lemma ValidFromFront(bufs: seq<Buf>)
    requires forall i :: TotalFromFront(bufs, i, |Flatten(bufs)|)
    ensures Valid(bufs)
  {
    forall i ensures TotalAt(bufs, i) {
      assert TotalFromFront(bufs, i, |Flatten(bufs)|);
      if 0 <= i < |bufs| {
        FlattenSplit(bufs, i);
      }
    }
  }

  /** The pbufs before `q` with their totals changed by `delta`. */
  ghost function Adjusted(bufs: seq<Buf>, q: nat, delta: int): (r: seq<Buf>)
    requires q <= |bufs| && forall i :: 0 <= i < q ==> 0 <= bufs[i].totLen + delta
  {
    seq(|bufs|, i requires 0 <= i < |bufs| =>
      if i < q then bufs[i].(totLen := bufs[i].totLen + delta) else bufs[i])
  }

  /** Totals do not matter to the bytes. */
  lemma {:induction false} AdjustedBytes(bufs: seq<Buf>, q: nat, delta: int, i: nat)
    requires q <= |bufs| && (forall i :: 0 <= i < q ==> 0 <= bufs[i].totLen + delta) && i <= |bufs|
    ensures Flatten(Adjusted(bufs, q, delta)[..i]) == Flatten(bufs[..i])
  {
    if i > 0 {
      AdjustedBytes(bufs, q, delta, i - 1);
      FlattenTo(bufs, i - 1);
      FlattenTo(Adjusted(bufs, q, delta), i - 1);
    }
  }

  // ----- reading: pbuf_skip and pbuf_copy_partial -----

  /** pbuf_skip: the pbuf and the offset in it where byte `offset` of the chain lies; |bufs| stands for NULL. */
  method Skip(bufs: seq<Buf>, offset: nat) returns (q: nat, left: nat)
    ensures q <= |bufs| && |Flatten(bufs[..q])| + left == offset
    ensures q < |bufs| ==> left < |bufs[q].payload|
    ensures q == |bufs| <==> offset >= |Flatten(bufs)|
  {
    q, left := 0, offset;
    while q < |bufs| && |bufs[q].payload| <= left
      invariant q <= |bufs| && |Flatten(bufs[..q])| + left == offset
    {
      FlattenTo(bufs, q);
      left := left - |bufs[q].payload|;
      q := q + 1;
    }
    assert bufs[..|bufs|] == bufs;
    if q < |bufs| {
      FlattenAt(bufs, q);
    }
  }

  /** Bytes offset .. offset + len of `s`, as far as there are any. */
  ghost function Slice(s: seq<byte>, offset: nat, len: nat): seq<byte> {
    if offset >= |s| then [] else s[offset..Min(offset + len, |s|)]
  }

  /** pbuf_copy_partial: exactly the bytes of the chain from `offset` on, at most `len` of them. */
  method CopyPartial(bufs: seq<Buf>, len: nat, offset: nat) returns (data: seq<byte>)
    ensures data == Slice(Flatten(bufs), offset, len)
  {
    data := [];
    var p: nat, len: nat, off: nat := 0, len, offset;
    ghost var n := len;
    while len != 0 && p < |bufs|
      invariant p <= |bufs| && len == n - |data| && CopiedTo(Flatten(bufs[..p]), offset, n, data, off)
    {
      FlattenTo(bufs, p);
      var b := bufs[p].payload;
      if off != 0 && off >= |b| {
        CopyPast(Flatten(bufs[..p]), b, offset, n, data, off);
        off := off - |b|;
      } else {
        var count := Min(|b| - off, len);
        CopySome(Flatten(bufs[..p]), b, offset, n, data, off, count);
        data := data + b[off..off + count];
        len := len - count;
        off := 0;
      }
      p := p + 1;
    }
    FlattenSplit(bufs, p);
    CopiedAll(Flatten(bufs[..p]), Flatten(bufs[p..]), offset, n, data, off);
    assert p == |bufs| ==> bufs[p..] == [];
  }

  /** The loop has `s` behind it: what it has copied, and how far into the rest it still has to go. */
  ghost predicate CopiedTo(s: seq<byte>, offset: nat, n: nat, data: seq<byte>, off: nat) {
    data == Slice(s, offset, n) && off == if offset > |s| then offset - |s| else 0
  }

  lemma CopyPast(s: seq<byte>, b: seq<byte>, offset: nat, n: nat, data: seq<byte>, off: nat)
    requires CopiedTo(s, offset, n, data, off) && off != 0 && off >= |b|
    ensures CopiedTo(s + b, offset, n, data, off - |b|)
  {
  }

  lemma CopySome(s: seq<byte>, b: seq<byte>, offset: nat, n: nat, data: seq<byte>, off: nat, count: nat)
    requires CopiedTo(s, offset, n, data, off) && |data| <= n && off <= |b| && count == Min(|b| - off, n - |data|)
    ensures CopiedTo(s + b, offset, n, data + b[off..off + count], 0)
  {
    SliceStep(s, b, offset, n, off, count);
  }

  lemma CopiedAll(s: seq<byte>, rest: seq<byte>, offset: nat, n: nat, data: seq<byte>, off: nat)
    requires CopiedTo(s, offset, n, data, off) && (|data| == n || rest == [])
    ensures data == Slice(s + rest, offset, n)
  {
    assert rest == [] ==> s + rest == s;
  }

  lemma SliceStep(s: seq<byte>, b: seq<byte>, offset: nat, n: nat, off: nat, count: nat)
    requires off == (if offset > |s| then offset - |s| else 0) <= |b|
    requires |Slice(s, offset, n)| <= n && count == Min(|b| - off, n - |Slice(s, offset, n)|)
    ensures Slice(s + b, offset, n) == Slice(s, offset, n) + b[off..off + count]
  {
  }

  // ----- comparing and searching: pbuf_memcmp and pbuf_memfind -----

  /** pbuf_get_at: the byte at `offset`, or zero beyond the end. */
  method GetAt(bufs: seq<Buf>, offset: nat) returns (r: byte)
    ensures r == if offset < |Flatten(bufs)| then Flatten(bufs)[offset] else 0
  {
    var q, i := Skip(bufs, offset);
    if q == |bufs| {
      return 0;
    }
    FlattenAt(bufs, q);
    r := bufs[q].payload[i];
  }

  /** The first `n` bytes of `t` are those of `s` from `offset` on. */
  ghost predicate Agree(s: seq<byte>, offset: nat, t: seq<byte>, n: nat) {
    offset + n <= |s| && n <= |t| && forall j :: 0 <= j < n ==> t[j] == s[offset + j]
  }

  /** The result promised: 0xFFFF if `s` is too short, zero if equal, otherwise one more than the first difference. */
  ghost predicate Compares(s: seq<byte>, offset: nat, t: seq<byte>, r: nat) {
    if offset + |t| > |s| then r == 0xFFFF
    else if r == 0 then Agree(s, offset, t, |t|)
    else r <= |t| && Agree(s, offset, t, r - 1) && t[r - 1] != s[offset + r - 1]
  }

  /** That on the bytes compared. */
  lemma ComparesMeans(s: seq<byte>, offset: nat, t: seq<byte>, r: nat)
    requires Compares(s, offset, t, r) && offset + |t| <= |s|
    ensures r == 0 <==> s[offset..offset + |t|] == t
    ensures r > 0 ==> r <= |t| && s[offset..offset + r - 1] == t[..r - 1] && s[offset + r - 1] != t[r - 1]
  {
    if r == 0 {
      assert s[offset..offset + |t|] == t;
    } else {
      assert s[offset..offset + |t|][r - 1] == s[offset + r - 1];
      assert s[offset..offset + r - 1] == t[..r - 1];
    }
  }

  /** pbuf_memcmp on the bytes of the chain. */
  method MemCmp(bufs: seq<Buf>, offset: nat, s2: seq<byte>) returns (r: nat)
    requires Valid(bufs) && bufs != [] && |Flatten(bufs)| <= 0xFFFF
    ensures Compares(Flatten(bufs), offset, s2, r)
  {
    TotalOf(bufs);
    if bufs[0].totLen < offset + |s2| {
      return 0xFFFF;
    }
    var q, start := Skip(bufs, offset);
    assert Flatten(bufs)[offset - start..] == Flatten(bufs[q..]) by { FlattenDrop(bufs, q); }
    r := CmpFrom(bufs[q..], start, s2, Flatten(bufs), offset);
  }

  method CmpFrom(bufs: seq<Buf>, start: nat, s2: seq<byte>, ghost s: seq<byte>, ghost offset: nat) returns (r: nat)
    requires start <= offset && offset + |s2| <= |s| <= 0xFFFF && s[offset - start..] == Flatten(bufs)
    ensures Compares(s, offset, s2, r)
  {
    var i := 0;
    while i < |s2|
      invariant i <= |s2| && Agree(s, offset, s2, i)
    {
      var a := GetAt(bufs, start + i);
      if a != s2[i] {
        return Min(i + 1, 0xFFFF);
      }
      i := i + 1;
    }
    r := 0;
  }

  ghost predicate Occurs(s: seq<byte>, i: nat, mem: seq<byte>) {
    Agree(s, i, mem, |mem|)
  }

  lemma OccursIs(s: seq<byte>, i: nat, mem: seq<byte>)
    ensures Occurs(s, i, mem) <==> i + |mem| <= |s| && s[i..i + |mem|] == mem
  {
    if i + |mem| <= |s| && s[i..i + |mem|] == mem {
      forall j | 0 <= j < |mem| ensures mem[j] == s[i + j] {
        assert s[i..i + |mem|][j] == s[i + j];
      }
    }
  }

  /** pbuf_memfind: the first occurrence at or behind `start`, or 0xFFFF. */
  method MemFind(bufs: seq<Buf>, mem: seq<byte>, start: nat) returns (r: nat)
    requires Valid(bufs) && bufs != [] && |Flatten(bufs)| <= 0xFFFF
    ensures r < 0xFFFF ==> start <= r && Occurs(Flatten(bufs), r, mem)
    ensures forall i: nat :: start <= i < r ==> !Occurs(Flatten(bufs), i, mem)
    ensures r <= 0xFFFF
  {
    TotalOf(bufs);
    ghost var s := Flatten(bufs);
    if bufs[0].totLen >= |mem| + start {
      var i, max := start, bufs[0].totLen - |mem|;
      while i <= max
        invariant start <= i <= max + 1
        invariant forall j: nat :: start <= j < i ==> !Occurs(s, j, mem)
      {
        var plus := MemCmp(bufs, i, mem);
        if plus == 0 {
          return i;
        }
        i := i + 1;
      }
    }
    r := 0xFFFF;
  }

  // ----- shrinking and joining -----

  /** The chain after pbuf_realloc made pbuf `q` the last one, with `rem` bytes. */
  ghost function Shrunk(bufs: seq<Buf>, q: nat, rem: nat, shrink: nat): seq<Buf>
    requires q < |bufs| && rem <= |bufs[q].payload| && forall i :: 0 <= i < q ==> shrink <= bufs[i].totLen
  {
    Adjusted(bufs, q, 0 - shrink)[..q] + [bufs[q].(payload := bufs[q].payload[..rem], totLen := rem)]
  }

  lemma ShrunkIsPrefix(bufs: seq<Buf>, q: nat, rem: nat, newLen: nat)
    requires Valid(bufs) && q < |bufs| && rem <= |bufs[q].payload|
    requires newLen < |Flatten(bufs)| && |Flatten(bufs[..q])| + rem == newLen
    requires forall i :: 0 <= i < q ==> |Flatten(bufs)| - newLen <= bufs[i].totLen
    ensures var r := Shrunk(bufs, q, rem, |Flatten(bufs)| - newLen);
      Valid(r) && Flatten(r) == Flatten(bufs)[..newLen]
  {
    var d := |Flatten(bufs)| - newLen;
    var r := Shrunk(bufs, q, rem, d);
    ShrunkFlat(bufs, q, rem, d);
    FlattenAt(bufs, q);
    TakeInto(Flatten(bufs[..q]), bufs[q].payload, Flatten(bufs[q + 1..]), rem);
    forall i ensures TotalFromFront(r, i, |Flatten(r)|) {
      if 0 <= i <= q {
        ShrunkTotal(bufs, q, rem, d, i);
      }
    }
    ValidFromFront(r);
  }

  lemma ShrunkFlat(bufs: seq<Buf>, q: nat, rem: nat, d: nat)
    requires q < |bufs| && rem <= |bufs[q].payload| && forall i :: 0 <= i < q ==> d <= bufs[i].totLen
    ensures Flatten(Shrunk(bufs, q, rem, d)) == Flatten(bufs[..q]) + bufs[q].payload[..rem]
  {
    var r := Shrunk(bufs, q, rem, d);
    AdjustedBytes(bufs, q, 0 - d, q);
    assert r[..q] == Adjusted(bufs, q, 0 - d)[..q];
    FlattenTo(r, q);
    assert r[..q + 1] == r;
  }

  lemma TakeInto(a: seq<byte>, b: seq<byte>, rest: seq<byte>, n: nat)
    requires n <= |b|
    ensures (a + b + rest)[..|a| + n] == a + b[..n]
  {
  }

  lemma ShrunkTotal(bufs: seq<Buf>, q: nat, rem: nat, d: nat, i: nat)
    requires Valid(bufs) && q < |bufs| && rem <= |bufs[q].payload| && i <= q
    requires forall j :: 0 <= j < q ==> d <= bufs[j].totLen
    requires |Flatten(bufs[..q])| + rem + d == |Flatten(bufs)|
    ensures TotalFromFront(Shrunk(bufs, q, rem, d), i, |Flatten(bufs)| - d)
  {
    ShrunkAt(bufs, q, rem, d, i);
    ShrunkBytes(bufs, q, rem, d, i);
    FrontTotal(bufs, i);
  }

  lemma ShrunkAt(bufs: seq<Buf>, q: nat, rem: nat, d: nat, i: nat)
    requires q < |bufs| && rem <= |bufs[q].payload| && i <= q
    requires forall j :: 0 <= j < q ==> d <= bufs[j].totLen
    ensures |Shrunk(bufs, q, rem, d)| == q + 1
    ensures Shrunk(bufs, q, rem, d)[i].totLen == if i < q then bufs[i].totLen - d else rem
  {
  }

  lemma ShrunkBytes(bufs: seq<Buf>, q: nat, rem: nat, d: nat, i: nat)
    requires q < |bufs| && rem <= |bufs[q].payload| && i <= q
    requires forall j :: 0 <= j < q ==> d <= bufs[j].totLen
    ensures Flatten(Shrunk(bufs, q, rem, d)[..i]) == Flatten(bufs[..i])
  {
    AdjustedBytes(bufs, q, 0 - d, i);
    assert Shrunk(bufs, q, rem, d)[..i] == Adjusted(bufs, q, 0 - d)[..i];
  }

  /** Dropping more bytes. */
  lemma DropStep(s: seq<byte>, gone: nat, a: seq<byte>, b: seq<byte>, n: nat)
    requires gone <= |s| && s[gone..] == a + b && n <= |a|
    ensures gone + n <= |s| && s[gone + n..] == a[n..] + b && (n == |a| ==> s[gone + n..] == b)
  {
    assert s[gone + n..] == s[gone..][n..];
    DropConcat(a, b, n);
    assert n == |a| ==> a[n..] + b == b;
  }

  /** Dropping the first pbuf. */
  lemma TailValid(bufs: seq<Buf>)
    requires Valid(bufs) && bufs != []
    ensures Valid(bufs[1..]) && Flatten(bufs) == bufs[0].payload + Flatten(bufs[1..])
  {
    FlattenFrom(bufs, 0);
    assert bufs[0..] == bufs;
    forall i ensures TotalAt(bufs[1..], i) {
      assert TotalAt(bufs, i + 1);
      assert 0 <= i < |bufs| - 1 ==> bufs[1..][i..] == bufs[i + 1..];
    }
  }

  /** pbuf_remove_header: hide `n` bytes at the front of the first pbuf. */
  function Hide(bufs: seq<Buf>, n: nat): seq<Buf>
    requires bufs != [] && n <= |bufs[0].payload| && n <= bufs[0].totLen
  {
    var b := bufs[0];
    bufs[0 := b.(front := b.front + b.payload[..n], payload := b.payload[n..], totLen := b.totLen - n)]
  }

  /** Another first pbuf, its total adapted to its length. */
  lemma ReplaceHead(bufs: seq<Buf>, b: Buf)
    requires Valid(bufs) && bufs != [] && b.totLen - |b.payload| == bufs[0].totLen - |bufs[0].payload|
    ensures Valid(bufs[0 := b]) && Flatten(bufs[0 := b]) == b.payload + Flatten(bufs[1..])
  {
    var r := bufs[0 := b];
    FlattenFrom(bufs, 0);
    FlattenFrom(r, 0);
    assert r[0..] == r && r[1..] == bufs[1..] && bufs[0..] == bufs;
    forall i ensures TotalAt(r, i) {
      assert TotalAt(bufs, i);
      assert 1 <= i < |bufs| ==> r[i..] == bufs[i..];
    }
  }

  lemma HideDropsBytes(bufs: seq<Buf>, n: nat)
    requires Valid(bufs) && bufs != [] && n <= |bufs[0].payload|
    ensures n <= bufs[0].totLen && n <= |Flatten(bufs)|
    ensures Valid(Hide(bufs, n)) && Flatten(Hide(bufs, n)) == Flatten(bufs)[n..]
  {
    TailValid(bufs);
    TotalOf(bufs);
    ReplaceHead(bufs, Hide(bufs, n)[0]);
    DropConcat(bufs[0].payload, Flatten(bufs[1..]), n);
  }

  /** pbuf_add_header: reveal `n` bytes in front of the first pbuf again. */
  function Reveal(bufs: seq<Buf>, n: nat): seq<Buf>
    requires bufs != [] && n <= |bufs[0].front|
  {
    var b := bufs[0];
    var k := |b.front| - n;
    bufs[0 := b.(front := b.front[..k], payload := b.front[k..] + b.payload, totLen := b.totLen + n)]
  }

  /** The room in front that is known: with an external payload, what the caller vouches for. */
  predicate CanReveal(b: Buf, n: nat, force: bool) {
    if b.contiguous then n <= |b.front| else force
  }

  lemma RevealAddsBytes(bufs: seq<Buf>, n: nat)
    requires Valid(bufs) && bufs != [] && n <= |bufs[0].front|
    ensures Valid(Reveal(bufs, n))
    ensures Flatten(Reveal(bufs, n)) == bufs[0].front[|bufs[0].front| - n..] + Flatten(bufs)
  {
    TailValid(bufs);
    TotalOf(bufs);
    ReplaceHead(bufs, Reveal(bufs, n)[0]);
    Assoc(bufs[0].front[|bufs[0].front| - n..], bufs[0].payload, Flatten(bufs[1..]));
  }

  lemma HideNothing(bufs: seq<Buf>)
    requires bufs != []
    ensures Hide(bufs, 0) == bufs
  {
    var b := bufs[0];
    assert b.front + b.payload[..0] == b.front && b.payload[0..] == b.payload;
  }

  lemma RevealNothing(bufs: seq<Buf>)
    requires bufs != []
    ensures Reveal(bufs, 0) == bufs
  {
    var b := bufs[0];
    assert b.front[..|b.front|] == b.front && b.front[|b.front|..] + b.payload == b.payload;
  }

  /** Hiding and revealing a header again restores the chain. */
  lemma RevealUndoesHide(bufs: seq<Buf>, n: nat)
    requires bufs != [] && n <= |bufs[0].payload| && n <= bufs[0].totLen
    ensures Reveal(Hide(bufs, n), n) == bufs
  {
    var b := bufs[0];
    assert b.payload[..n] + b.payload[n..] == b.payload;
  }

  /** The first chain of pbuf_cat after its loop: every pbuf counts the second chain in. */
  ghost function Lengthened(a: seq<Buf>, n: nat): (r: seq<Buf>)
    ensures |r| == |a|
  {
    Adjusted(a, |a|, n)
  }

  lemma CatJoins(a: seq<Buf>, b: seq<Buf>)
    requires Valid(a) && Valid(b) && b != []
    ensures var r := Lengthened(a, b[0].totLen) + b;
      Valid(r) && Flatten(r) == Flatten(a) + Flatten(b)
  {
    var r := Lengthened(a, b[0].totLen) + b;
    LengthenedBytes(a, b[0].totLen);
    FlattenConcat(Lengthened(a, b[0].totLen), b);
    forall i ensures TotalFromFront(r, i, |Flatten(r)|) {
      CatTotal(a, b, i);
    }
    ValidFromFront(r);
  }

  lemma CatTotal(a: seq<Buf>, b: seq<Buf>, i: int)
    requires Valid(a) && Valid(b) && b != []
    ensures TotalFromFront(Lengthened(a, b[0].totLen) + b, i, |Flatten(a)| + |Flatten(b)|)
  {
    if 0 <= i < |a| {
      CatTotalFirst(a, b, i);
    } else if |a| <= i < |a| + |b| {
      LengthenedBytes(a, b[0].totLen);
      CatTotalSecond(Lengthened(a, b[0].totLen), b, i);
    }
  }

  lemma LengthenedBytes(a: seq<Buf>, n: nat)
    ensures Flatten(Lengthened(a, n)) == Flatten(a)
  {
    AdjustedBytes(a, |a|, n, |a|);
    assert Lengthened(a, n)[..|a|] == Lengthened(a, n) && a[..|a|] == a;
  }

  lemma TakeConcat(a: seq<Buf>, b: seq<Buf>, i: nat)
    requires i <= |a| + |b|
    ensures (a + b)[..i] == if i < |a| then a[..i] else a + b[..i - |a|]
  {
  }

  lemma CatTotalFirst(a: seq<Buf>, b: seq<Buf>, i: nat)
    requires Valid(a) && Valid(b) && b != [] && i < |a|
    ensures TotalFromFront(Lengthened(a, b[0].totLen) + b, i, |Flatten(a)| + |Flatten(b)|)
  {
    TotalOf(b);
    FrontTotal(a, i);
    AdjustedBytes(a, |a|, b[0].totLen, i);
    TakeConcat(Lengthened(a, b[0].totLen), b, i);
  }

  lemma CatTotalSecond(a: seq<Buf>, b: seq<Buf>, i: nat)
    requires |a| <= i < |a| + |b| && Valid(b)
    ensures TotalFromFront(a + b, i, |Flatten(a)| + |Flatten(b)|)
  {
    var k := i - |a|;
    assert b[k].totLen == |Flatten(b)| - |Flatten(b[..k])| by {
      FrontTotal(b, k);
    }
    assert |Flatten(a + b[..k])| == |Flatten(a)| + |Flatten(b[..k])| by {
      FlattenConcat(a, b[..k]);
    }
    TakeConcat(a, b, i);
  }

  // ----- writing in place -----

  /** `d` written over the bytes from `off` on. */
  ghost function Overwrite(s: seq<byte>, off: nat, d: seq<byte>): seq<byte>
    requires off + |d| <= |s|
  {
    s[..off] + d + s[off + |d|..]
  }

  ghost predicate Written(bufs: seq<Buf>, s: seq<byte>, at: nat, d: seq<byte>) {
    at + |d| <= |s| && Flatten(bufs) == Overwrite(s, at, d)
  }

  lemma OverwriteNone(s: seq<byte>, at: nat, d: seq<byte>)
    requires at <= |s|
    ensures Overwrite(s, at, d[..0]) == s
  {
  }

  lemma OverwriteTwice(s: seq<byte>, off: nat, d: seq<byte>, e: seq<byte>)
    requires off + |d| + |e| <= |s|
    ensures Overwrite(Overwrite(s, off, d), off + |d|, e) == Overwrite(s, off, d + e)
  {
  }

  lemma OverwriteMiddle(a: seq<byte>, b: seq<byte>, c: seq<byte>, off: nat, d: seq<byte>)
    requires off + |d| <= |b|
    ensures Overwrite(a + b + c, |a| + off, d) == a + (b[..off] + d + b[off + |d|..]) + c
  {
  }

  /** Same pbufs with the same lengths; only payload bytes may differ. */
  ghost predicate SameShape(a: seq<Buf>, b: seq<Buf>) {
    && |a| == |b|
    && forall i :: 0 <= i < |a| ==> a[i] == b[i].(payload := a[i].payload) && |a[i].payload| == |b[i].payload|
  }

  lemma {:induction false} SameShapeLength(a: seq<Buf>, b: seq<Buf>, i: nat)
    requires SameShape(a, b) && i <= |a|
    ensures |Flatten(a[..i])| == |Flatten(b[..i])|
  {
    if i > 0 {
      SameShapeLength(a, b, i - 1);
      FlattenTo(a, i - 1);
      FlattenTo(b, i - 1);
    }
  }

  /** What is left of the bytes `s` without the first `gone`. */
  ghost predicate LeftOf(bufs: seq<Buf>, s: seq<byte>, gone: nat) {
    Valid(bufs) && gone <= |s| && Flatten(bufs) == s[gone..]
  }

  /** pbuf_realloc has come to pbuf `q`, where `rem` bytes of the new length are left. */
  ghost predicate ShrunkTo(b0: seq<Buf>, newLen: nat, q: nat, rem: nat) {
    && Valid(b0) && q < |b0| && newLen < b0[0].totLen == |Flatten(b0)| && |Flatten(b0[..q])| + rem == newLen
    && forall i :: 0 <= i < q ==> b0[0].totLen - newLen <= b0[i].totLen
  }

  lemma ShrunkFurther(b0: seq<Buf>, newLen: nat, q: nat, rem: nat)
    requires ShrunkTo(b0, newLen, q, rem) && rem > |b0[q].payload|
    ensures ShrunkTo(b0, newLen, q + 1, rem - |b0[q].payload|)
  {
    FlattenTo(b0, q);
    FrontTotal(b0, q);
    assert q + 1 < |b0| by { assert b0[..|b0|] == b0; }
  }

  class Chain {
    var bufs: seq<Buf>

    constructor (bufs: seq<Buf>)
      ensures this.bufs == bufs
    {
      this.bufs := bufs;
    }

    /** MEMCPY into the payload of pbuf `p`. */
    method Write(p: nat, off: nat, d: seq<byte>)
      requires Valid(bufs) && p < |bufs| && off + |d| <= |bufs[p].payload|
      modifies this
      ensures Valid(bufs) && SameShape(bufs, old(bufs))
      ensures |Flatten(old(bufs)[..p])| + off + |d| <= |Flatten(old(bufs))|
      ensures Flatten(bufs) == Overwrite(Flatten(old(bufs)), |Flatten(old(bufs)[..p])| + off, d)
    {
      var b := bufs[p].payload;
      var b' := b[..off] + d + b[off + |d|..];
      SamePayloadLength(bufs, p, b');
      FlattenAt(bufs, p);
      OverwriteMiddle(Flatten(bufs[..p]), b, Flatten(bufs[p + 1..]), off, d);
      bufs := bufs[p := bufs[p].(payload := b')];
    }

    /** A further piece written behind `w`, which was written at `at` over the bytes `s`. */
    method Put(p: nat, off: nat, piece: seq<byte>,
               ghost b0: seq<Buf>, ghost s: seq<byte>, ghost at: nat, ghost w: seq<byte>)
      requires Valid(bufs) && SameShape(bufs, b0) && at + |w| + |piece| <= |s| && Written(bufs, s, at, w)
      requires p < |bufs| && off + |piece| <= |bufs[p].payload| && |Flatten(b0[..p])| + off == at + |w|
      modifies this
      ensures Valid(bufs) && SameShape(bufs, b0) && Written(bufs, s, at, w + piece)
    {
      SameShapeLength(bufs, b0, p);
      OverwriteTwice(s, at, w, piece);
      Write(p, off, piece);
    }

    /** The loop of pbuf_take (pbuf.c:1243-1254), behind the bytes `w` that are already in place. */
    method PutRest(i: nat, rest: seq<byte>, ghost b0: seq<Buf>, ghost s: seq<byte>, ghost at: nat, ghost w: seq<byte>)
      requires Valid(bufs) && SameShape(bufs, b0) && at + |w| + |rest| <= |s| && Written(bufs, s, at, w)
      requires i <= |b0| && |s| == |Flatten(b0)| && (|rest| > 0 ==> |Flatten(b0[..i])| == at + |w|)
      modifies this
      ensures Valid(bufs) && SameShape(bufs, b0) && Written(bufs, s, at, w + rest)
    {
      var p, done: nat := i, 0;
      assert w + rest[..0] == w;
      while |rest| - done != 0
        invariant InPut(bufs, b0, s, at, w, rest, done, p)
        decreases |b0| - p
      {
        done := PutRound(p, rest, done, b0, s, at, w);
        p := p + 1;
      }
      assert rest[..|rest|] == rest;
    }

    /** One pbuf in the loop of pbuf_take. */
    method PutRound(p: nat, rest: seq<byte>, done: nat,
                    ghost b0: seq<Buf>, ghost s: seq<byte>, ghost at: nat, ghost w: seq<byte>)
      returns (done': nat)
      requires InPut(bufs, b0, s, at, w, rest, done, p) && done < |rest|
      modifies this
      ensures p < |b0| && InPut(bufs, b0, s, at, w, rest, done', p + 1)
    {
      assert p < |b0| by { assert b0[..|b0|] == b0; }
      FlattenTo(b0, p);
      var count := Min(|rest| - done, |bufs[p].payload|);
      Put(p, 0, rest[done..done + count], b0, s, at, w + rest[..done]);
      PrefixStep(w, rest, done, count);
      done' := done + count;
    }

    /** pbuf_take: overwrite the first bytes of the chain, or report that it is too short; an empty list is NULL. */
    method Take(data: seq<byte>) returns (e: Err)
      requires Valid(bufs)
      modifies this
      ensures Valid(bufs) && SameShape(bufs, old(bufs))
      ensures e == if bufs == [] then ARG else if |Flatten(old(bufs))| < |data| then MEM else OK
      ensures e != OK ==> bufs == old(bufs)
      ensures e == OK ==> Flatten(bufs) == Overwrite(Flatten(old(bufs)), 0, data)
    {
      if bufs == [] {
        return ARG;
      }
      TotalOf(bufs);
      if bufs[0].totLen < |data| {
        return MEM;
      }
      ghost var s := Flatten(bufs);
      assert s == Overwrite(s, 0, []);
      PutRest(0, data, bufs, s, 0, []);
      assert [] + data == data;
      e := OK;
    }

    /** pbuf_take_at: overwrite the chain's bytes from `offset` on, or report that it is too short. */
    method TakeAt(data: seq<byte>, offset: nat) returns (e: Err)
      requires Valid(bufs)
      modifies this
      ensures Valid(bufs) && SameShape(bufs, old(bufs))
      ensures e == if offset < |Flatten(old(bufs))| && offset + |data| <= |Flatten(old(bufs))| then OK else MEM
      ensures e == MEM ==> bufs == old(bufs)
      ensures e == OK ==> Flatten(bufs) == Overwrite(Flatten(old(bufs)), offset, data)
    {
      var q, target := Skip(bufs, offset);
      if q == |bufs| {
        return MEM;
      }
      ghost var b0, s := bufs, Flatten(bufs);
      FlattenSplit(bufs, q);
      FlattenTo(bufs, q);
      assert TotalAt(bufs, q);
      if bufs[q].totLen < target + |data| {
        return MEM;
      }
      var first := Min(|bufs[q].payload| - target, |data|);
      assert s == Overwrite(s, offset, []) && [] + data[..first] == data[..first];
      Put(q, target, data[..first], b0, s, offset, []);
      assert data[..first] + data[first..] == data;
      PutRest(q + 1, data[first..], b0, s, offset, data[..first]);
      e := OK;
    }

    /** pbuf_realloc: the chain shrinks to its first `newLen` bytes; it never grows. */
    method Realloc(newLen: nat)
      requires Valid(bufs) && bufs != []
      modifies this
      ensures Valid(bufs) && bufs != []
      ensures newLen >= |Flatten(old(bufs))| ==> bufs == old(bufs)
      ensures newLen < |Flatten(old(bufs))| ==> Flatten(bufs) == Flatten(old(bufs))[..newLen]
    {
      TotalOf(bufs);
      if newLen >= bufs[0].totLen {
        return;
      }
      ghost var b0 := bufs;
      var shrink := bufs[0].totLen - newLen;
      var q, rem: nat := 0, newLen;
      while rem > |bufs[q].payload|
        invariant ShrunkTo(b0, newLen, q, rem) && shrink == b0[0].totLen - newLen
        invariant bufs == Adjusted(b0, q, 0 - shrink)
        decreases |b0| - q
      {
        ShrunkFurther(b0, newLen, q, rem);
        rem := rem - |bufs[q].payload|;
        bufs := bufs[q := bufs[q].(totLen := bufs[q].totLen - shrink)];
        q := q + 1;
      }
      ShrunkIsPrefix(b0, q, rem, newLen);
      bufs := bufs[..q] + [bufs[q].(payload := bufs[q].payload[..rem], totLen := rem)];
    }

    /** pbuf_free_header: drop the first `size` bytes, freeing the pbufs they fill; an empty list is NULL. */
    method FreeHeader(size: nat)
      requires Valid(bufs)
      modifies this
      ensures Valid(bufs)
      ensures Flatten(bufs) == Flatten(old(bufs))[Min(size, |Flatten(old(bufs))|)..]
    {
      var left: nat := size;
      ghost var s, gone: nat := Flatten(bufs), 0;
      while left > 0 && bufs != []
        invariant gone + left == size && LeftOf(bufs, s, gone)
        decreases |bufs|, left
      {
        ghost var was := left;
        left := FreeHeaderRound(left, s, gone);
        gone := gone + was - left;
      }
      assert gone == Min(size, |s|);
    }

    /** One round of pbuf_free_header: a pbuf goes, or the rest is hidden in it. */
    method FreeHeaderRound(left: nat, ghost s: seq<byte>, ghost gone: nat) returns (left': nat)
      requires left > 0 && bufs != [] && LeftOf(bufs, s, gone)
      modifies this
      ensures left' <= left && LeftOf(bufs, s, gone + left - left')
      ensures |bufs| < |old(bufs)| || (|bufs| == |old(bufs)| && left' == 0)
    {
      TailValid(bufs);
      DropStep(s, gone, bufs[0].payload, Flatten(bufs[1..]), Min(left, |bufs[0].payload|));
      if left >= |bufs[0].payload| {
        left' := left - |bufs[0].payload|;
        bufs := bufs[1..];
      } else {
        HideDropsBytes(bufs, left);
        DropConcat(bufs[0].payload, Flatten(bufs[1..]), left);
        bufs := Hide(bufs, left);
        left' := 0;
      }
    }

    /** pbuf_remove_header, with its checks; the result is the source's failure code. */
    method RemoveHeader(n: nat) returns (failed: bool)
      requires Valid(bufs) && bufs != []
      modifies this
      ensures Valid(bufs) && (failed <==> n > 0xFFFF || n > |old(bufs)[0].payload|)
      ensures failed ==> bufs == old(bufs)
      ensures !failed ==> n <= old(bufs)[0].totLen && bufs == Hide(old(bufs), n) && n <= |Flatten(old(bufs))|
                          && Flatten(bufs) == Flatten(old(bufs))[n..]
    {
      if n > 0xFFFF {
        return true;
      }
      if n == 0 {
        assert Hide(bufs, 0) == bufs && Flatten(bufs)[0..] == Flatten(bufs) by { HideNothing(bufs); }
        return false;
      }
      if n > |bufs[0].payload| {
        return true;
      }
      HideDropsBytes(bufs, n);
      bufs := Hide(bufs, n);
      failed := false;
    }

    /**
     pbuf_add_header, and pbuf_add_header_force with `force`; tot_len must stay a u16_t. With an external
     payload only the forced form goes on, and only its caller knows that the bytes in front are there.
     */
    method AddHeader(n: nat, force: bool) returns (failed: bool)
      requires Valid(bufs) && bufs != []
      requires force && !bufs[0].contiguous && n <= 0xFFFF ==> n <= |bufs[0].front|
      modifies this
      ensures Valid(bufs)
      ensures failed <==>
        n > 0xFFFF || (n > 0 && (n + old(bufs)[0].totLen > 0xFFFF || !CanReveal(old(bufs)[0], n, force)))
      ensures failed ==> bufs == old(bufs)
      ensures failed <==>
        n > 0xFFFF || (n > 0 && (n + old(bufs)[0].totLen > 0xFFFF
                                 || (if old(bufs)[0].contiguous then n > |old(bufs)[0].front| else !force)))
      ensures !failed ==>
        && n <= |old(bufs)[0].front| && bufs == Reveal(old(bufs), n)
        && Flatten(bufs) == old(bufs)[0].front[|old(bufs)[0].front| - n..] + Flatten(old(bufs))
    {
      if n > 0xFFFF {
        return true;
      }
      if n == 0 {
        RevealNothing(bufs);
        return false;
      }
      if n + bufs[0].totLen > 0xFFFF {
        return true;
      }
      if bufs[0].contiguous {
        if n > |bufs[0].front| {
          return true;
        }
      } else if !force {
        return true;
      }
      RevealAddsBytes(bufs, n);
      bufs := Reveal(bufs, n);
      failed := false;
    }

    /** A header taken off a packet can be put back; in front of an external payload only by force. */
    method RemoveThenAdd(n: nat, force: bool) returns (failed: bool)
      requires Valid(bufs) && bufs != [] && n <= |bufs[0].payload| && bufs[0].totLen <= 0xFFFF
      modifies this
      ensures failed <==> n > 0 && !force && !old(bufs)[0].contiguous
      ensures !failed ==> bufs == old(bufs)
    {
      TotalOf(bufs);
      TailValid(bufs);
      failed := RemoveHeader(n);
      RevealUndoesHide(old(bufs), n);
      failed := AddHeader(n, force);
    }

    /** What pbuf_take_at wrote, pbuf_copy_partial reads back, and every other byte is unchanged. */
    method TakeThenCopy(data: seq<byte>, offset: nat) returns (e: Err, back: seq<byte>)
      requires Valid(bufs)
      modifies this
      ensures Valid(bufs) && SameShape(bufs, old(bufs)) && |Flatten(bufs)| == |Flatten(old(bufs))|
      ensures e == OK <==> offset < |Flatten(old(bufs))| && offset + |data| <= |Flatten(old(bufs))|
      ensures e == OK ==> back == data
      ensures forall i :: 0 <= i < |Flatten(bufs)| && !(e == OK && offset <= i < offset + |data|) ==>
        Flatten(bufs)[i] == Flatten(old(bufs))[i]
    {
      e := TakeAt(data, offset);
      back := CopyPartial(bufs, |data|, offset);
    }

    /** pbuf_cat: the bytes of `tail` follow, as long as the u16_t total can hold them; NULL pointers are refused. */
    method Cat(tail: seq<Buf>)
      requires Valid(bufs) && Valid(tail) && |Flatten(bufs)| + |Flatten(tail)| <= 0xFFFF
      modifies this
      ensures Valid(bufs)
      ensures bufs == if old(bufs) == [] || tail == [] then old(bufs)
                      else Lengthened(old(bufs), tail[0].totLen) + tail
      ensures old(bufs) != [] && tail != [] ==> Flatten(bufs) == Flatten(old(bufs)) + Flatten(tail)
    {
      if bufs == [] || tail == [] {
        return;
      }
      CatJoins(bufs, tail);
      RaiseTotals(tail[0].totLen);
      bufs := bufs + tail;
    }

    method RaiseTotals(n: nat)
      modifies this
      ensures bufs == Lengthened(old(bufs), n)
    {
      ghost var b0 := bufs;
      var p := 0;
      while p < |bufs|
        invariant p <= |b0| && bufs == Adjusted(b0, p, n)
      {
        bufs := bufs[p := bufs[p].(totLen := bufs[p].totLen + n)];
        p := p + 1;
      }
    }

    /** Copy what both current pbufs allow. */
    method CopyPiece(from: seq<Buf>, pt: nat, offTo: nat, pf: nat, offFrom: nat, copyLen: nat,
                     ghost b0: seq<Buf>, ghost s: seq<byte>, ghost at: nat, ghost done: nat) returns (len: nat)
      requires Valid(bufs) && SameShape(bufs, b0) && pt < |b0| && offTo <= |b0[pt].payload|
      requires pf < |from| && offFrom <= |from[pf].payload| && |Flatten(from[..pf])| + offFrom == done
      requires at + done + copyLen <= |s| == |Flatten(b0)| && done + copyLen <= |Flatten(from)|
      requires |Flatten(b0[..pt])| + offTo == at + done && Filled(bufs, s, at, from, done)
      modifies this
      ensures len == Min(copyLen, Min(|b0[pt].payload| - offTo, |from[pf].payload| - offFrom))
      ensures Valid(bufs) && SameShape(bufs, b0) && Filled(bufs, s, at, from, done + len)
    {
      len := if |bufs[pt].payload| - offTo >= |from[pf].payload| - offFrom then |from[pf].payload| - offFrom
             else |bufs[pt].payload| - offTo;
      len := Min(copyLen, len);
      var piece := from[pf].payload[offFrom..offFrom + len];
      FlattenAt(from, pf);
      assert Flatten(from)[..done + len] == Flatten(from)[..done] + piece;
      Put(pt, offTo, piece, b0, s, at, Flatten(from)[..done]);
    }

    /** One round of pbuf_copy_partial_pbuf; `done` bytes were copied before it, done + len after it. */
    method CopyRound(from: seq<Buf>, pt: nat, offTo: nat, pf: nat, offFrom: nat, copyLen: nat,
                     ghost b0: seq<Buf>, ghost s: seq<byte>, ghost at: nat, ghost done: nat)
      returns (len: nat, pt': nat, offTo': nat, pf': nat, offFrom': nat)
      requires Valid(bufs) && SameShape(bufs, b0) && pt < |b0| && offTo <= |b0[pt].payload|
      requires pf < |from| && offFrom <= |from[pf].payload| && |Flatten(from[..pf])| + offFrom == done
      requires at + done + copyLen <= |s| == |Flatten(b0)| && done + copyLen <= |Flatten(from)|
      requires |Flatten(b0[..pt])| + offTo == at + done && Filled(bufs, s, at, from, done)
      modifies this
      ensures len == Min(copyLen, Min(|b0[pt].payload| - offTo, |from[pf].payload| - offFrom))
      ensures Moved(from, pf, offFrom + len, pf', offFrom') && Moved(b0, pt, offTo + len, pt', offTo')
      ensures Valid(bufs) && SameShape(bufs, b0) && Filled(bufs, s, at, from, done + len)
      ensures pf' < |from| ==> offFrom' <= |from[pf'].payload| && |Flatten(from[..pf'])| + offFrom' == done + len
      ensures pt' < |b0| ==> offTo' <= |b0[pt'].payload| && |Flatten(b0[..pt'])| + offTo' == at + done + len
      ensures len < copyLen ==> pt' < |b0| && pf' < |from| && (pt < pt' || pf < pf')
    {
      len := CopyPiece(from, pt, offTo, pf, offFrom, copyLen, b0, s, at, done);
      pf', offFrom' := Advance(from, pf, offFrom + len, copyLen - len, done + len);
      SameShapeLength(bufs, b0, pt);
      SameShapeLength(bufs, b0, |b0|);
      assert bufs[..|b0|] == bufs && b0[..|b0|] == b0;
      pt', offTo' := Advance(bufs, pt, offTo + len, copyLen - len, at + done + len);
      SameShapeLength(bufs, b0, pt');
    }

    /**
     pbuf_copy_partial_pbuf: the first `copyLen` bytes of `from` over the bytes at `offset`, however
     either chain is split. The checks that neither chain ends early never fail; the one against
     packet queues stops the copy exactly for the chains that `StopsCopy` describes.
     */
    method CopyFrom(from: seq<Buf>, copyLen: nat, offset: nat) returns (e: Err)
      requires Valid(bufs) && Valid(from) && (bufs != [] ==> offset <= |bufs[0].payload|)
      modifies this
      ensures Valid(bufs) && SameShape(bufs, old(bufs)) && e != MEM
      ensures e == ARG <==>
        from == [] || |Flatten(from)| < copyLen || bufs == [] || |Flatten(old(bufs))| < offset + copyLen
      ensures e == ARG ==> bufs == old(bufs)
      ensures e == OK ==> Flatten(bufs) == Overwrite(Flatten(old(bufs)), offset, Flatten(from)[..copyLen])
      ensures e != ARG ==> (e == VAL <==> QueueStops(from, old(bufs), copyLen, offset))
      ensures e == VAL ==> exists m: nat :: m <= copyLen && Filled(bufs, Flatten(old(bufs)), offset, from, m)
    {
      if from == [] || from[0].totLen < copyLen {
        FirstTotal(from);
        return ARG;
      }
      if bufs == [] || bufs[0].totLen < offset + copyLen {
        FirstTotal(bufs);
        return ARG;
      }
      TotalOf(from);
      TotalOf(bufs);
      ghost var copied;
      e, copied := CopyRounds(from, copyLen, offset);
    }

    /** pbuf_copy: the whole of `from` over the first bytes. */
    method Copy(from: seq<Buf>) returns (e: Err)
      requires Valid(bufs) && Valid(from)
      modifies this
      ensures Valid(bufs) && SameShape(bufs, old(bufs)) && e != MEM
      ensures e == ARG <==> from == [] || bufs == [] || |Flatten(old(bufs))| < |Flatten(from)|
      ensures e == OK ==> Flatten(bufs) == Overwrite(Flatten(old(bufs)), 0, Flatten(from))
      ensures e != ARG ==> (e == VAL <==> CopyStops(from, old(bufs)))
    {
      if from == [] {
        return ARG;
      }
      TotalOf(from);
      e := CopyFrom(from, from[0].totLen, 0);
      assert Flatten(from)[..|Flatten(from)|] == Flatten(from);
      if e != ARG {
        WholeCopyStops(from, old(bufs));
      }
    }

    /** A round and the test for packet queues after it. */
    method CopyStep(from: seq<Buf>, pt: nat, offTo: nat, pf: nat, offFrom: nat, left: nat,
                    ghost b0: seq<Buf>, ghost copyLen: nat, ghost offset: nat, ghost first: bool)
      returns (len: nat, pt': nat, offTo': nat, pf': nat, offFrom': nat, queued: bool)
      requires InCopy(bufs, b0, from, copyLen, offset, first, pt, offTo, pf, offFrom, left)
      modifies this
      ensures Valid(bufs) && SameShape(bufs, b0) && len <= left
      ensures Filled(bufs, Flatten(b0), offset, from, copyLen - left + len)
      ensures queued ==> QueueStops(from, b0, copyLen, offset)
      ensures !queued && len == left ==> !QueueStops(from, b0, copyLen, offset)
      ensures !queued && len < left ==>
        && (pt < pt' || pf < pf') && pt <= pt' && pf <= pf'
        && InCopy(bufs, b0, from, copyLen, offset, false, pt', offTo', pf', offFrom', left - len)
    {
      ghost var done := copyLen - left;
      len, pt', offTo', pf', offFrom' := CopyRound(from, pt, offTo, pf, offFrom, left, b0, Flatten(b0), offset, done);
      RoundEnds(from, b0, copyLen, offset, first, pf, offFrom, pt, offTo, left, len, pf', offFrom', pt', offTo');
      SameQueued(bufs, b0, pt');
      queued := LooksQueued(from, pf') || LooksQueued(bufs, pt');
    }

    /** The same, as the loop needs it; `left'` bytes are left to copy. */
    method CopyTurn(from: seq<Buf>, pt: nat, offTo: nat, pf: nat, offFrom: nat, left: nat,
                    ghost b0: seq<Buf>, ghost copyLen: nat, ghost offset: nat, ghost first: bool)
      returns (left': nat, pt': nat, offTo': nat, pf': nat, offFrom': nat, queued: bool)
      requires InCopy(bufs, b0, from, copyLen, offset, first, pt, offTo, pf, offFrom, left)
      modifies this
      ensures left' <= copyLen
      ensures queued || left' == 0 ==>
        CopyDone(bufs, b0, from, copyLen, offset, if queued then VAL else OK, copyLen - left')
      ensures !queued && left' > 0 ==>
        && Before(b0, from, pt', pf', pt, pf)
        && InCopy(bufs, b0, from, copyLen, offset, false, pt', offTo', pf', offFrom', left')
    {
      var len: nat;
      len, pt', offTo', pf', offFrom', queued :=
        CopyStep(from, pt, offTo, pf, offFrom, left, b0, copyLen, offset, first);
      left' := left - len;
    }

    /** The loop of pbuf_copy_partial_pbuf, from the beginning of both chains. */
    method CopyLoop(from: seq<Buf>, copyLen: nat, offset: nat, ghost b0: seq<Buf>) returns (e: Err, ghost copied: nat)
      requires InCopy(bufs, b0, from, copyLen, offset, true, 0, offset, 0, 0, copyLen)
      modifies this
      ensures CopyDone(bufs, b0, from, copyLen, offset, e, copied)
    {
      ghost var first := true;
      var pt: nat, pf: nat, offTo: nat, offFrom: nat, left: nat := 0, 0, offset, 0, copyLen;
      while true
        invariant InCopy(bufs, b0, from, copyLen, offset, first, pt, offTo, pf, offFrom, left)
        decreases |from| - pf + |b0| - pt
      {
        var queued: bool;
        left, pt, offTo, pf, offFrom, queued :=
          CopyTurn(from, pt, offTo, pf, offFrom, left, b0, copyLen, offset, first);
        first, copied := false, copyLen - left;
        if queued {
          return VAL, copied;
        }
        if left == 0 {
          return OK, copied;
        }
      }
    }

    method CopyRounds(from: seq<Buf>, copyLen: nat, offset: nat) returns (e: Err, ghost copied: nat)
      requires Valid(bufs) && Valid(from) && bufs != [] && from != [] && offset <= |bufs[0].payload|
      requires copyLen <= |Flatten(from)| && offset + copyLen <= |Flatten(bufs)|
      modifies this
      ensures CopyDone(bufs, old(bufs), from, copyLen, offset, e, copied)
    {
      CopyBegins(bufs, from, copyLen, offset);
      e, copied := CopyLoop(from, copyLen, offset, bufs);
    }
  }

  /** The state of the copy loop: the pbufs and offsets reached, and what was copied so far. */
  ghost predicate InCopy(bufs: seq<Buf>, b0: seq<Buf>, from: seq<Buf>, copyLen: nat, offset: nat, first: bool,
                         pt: nat, offTo: nat, pf: nat, offFrom: nat, left: nat) {
    && Valid(bufs) && Valid(b0) && Valid(from) && SameShape(bufs, b0) && left <= copyLen <= |Flatten(from)|
    && pt < |b0| && offTo <= |b0[pt].payload| && offset <= |b0[0].payload| && offset + copyLen <= |Flatten(b0)|
    && pf < |from| && offFrom <= |from[pf].payload| && |Flatten(from[..pf])| + offFrom == copyLen - left
    && |Flatten(b0[..pt])| + offTo == offset + copyLen - left
    && Filled(bufs, Flatten(b0), offset, from, copyLen - left)
    && OnBoth(from, b0, copyLen, offset, first, pf, offFrom, pt, offTo, left)
  }

  /** The copy has come closer to the end of one of the chains. */
  ghost predicate Before(b0: seq<Buf>, from: seq<Buf>, pt': nat, pf': nat, pt: nat, pf: nat) {
    pt' < |b0| && pf' < |from| && pt + pf < pt' + pf'
  }

  /** How the copy ends, with `copied` bytes in place. */
  ghost predicate CopyDone(bufs: seq<Buf>, b0: seq<Buf>, from: seq<Buf>, copyLen: nat, offset: nat, e: Err, copied: nat)
  {
    && from != [] && b0 != [] && offset <= |b0[0].payload|
    && Valid(bufs) && SameShape(bufs, b0) && (e == OK || e == VAL) && (e == OK ==> copied == copyLen)
    && copied <= copyLen && Filled(bufs, Flatten(b0), offset, from, copied)
    && (e == VAL <==> QueueStops(from, b0, copyLen, offset))
  }

  /** The state of the loop of pbuf_take: the pbuf reached, and how much of `rest` is in place behind `w`. */
  ghost predicate InPut(bufs: seq<Buf>, b0: seq<Buf>, s: seq<byte>, at: nat, w: seq<byte>,
                        rest: seq<byte>, done: nat, p: nat) {
    && Valid(bufs) && SameShape(bufs, b0) && p <= |b0| && done <= |rest|
    && at + |w| + |rest| <= |s| == |Flatten(b0)| && Written(bufs, s, at, w + rest[..done])
    && (done < |rest| ==> |Flatten(b0[..p])| == at + |w| + done)
  }

  lemma CopyBegins(bufs: seq<Buf>, from: seq<Buf>, copyLen: nat, offset: nat)
    requires Valid(bufs) && Valid(from) && bufs != [] && from != [] && offset <= |bufs[0].payload|
    requires copyLen <= |Flatten(from)| && offset + copyLen <= |Flatten(bufs)|
    ensures InCopy(bufs, bufs, from, copyLen, offset, true, 0, offset, 0, 0, copyLen)
  {
    assert bufs[..0] == [] && from[..0] == [];
    OverwriteNone(Flatten(bufs), offset, Flatten(from));
  }

  /** The bytes `s` with the first n bytes of `from` written over those at `at`. */
  ghost predicate Filled(bufs: seq<Buf>, s: seq<byte>, at: nat, from: seq<Buf>, n: nat) {
    n <= |Flatten(from)| && Written(bufs, s, at, Flatten(from)[..n])
  }

  // ----- the test for packet queues in pbuf_copy -----

  /** The test for packet queues: the packet ends at this pbuf but the list goes on. */
  predicate LooksQueued(bufs: seq<Buf>, p: nat) {
    p + 1 < |bufs| && |bufs[p].payload| == bufs[p].totLen
  }

  lemma SameQueued(a: seq<Buf>, b: seq<Buf>, p: nat)
    requires SameShape(a, b)
    ensures LooksQueued(a, p) == LooksQueued(b, p)
  {
  }

  /** The chain has several pbufs and the last one is empty. */
  ghost predicate EndsEmpty(bufs: seq<Buf>) {
    |bufs| > 1 && bufs[|bufs| - 1].payload == []
  }

  /** The last pbuf that is not empty, or the first one if all are. */
  function LastFull(bufs: seq<Buf>): (l: nat)
    ensures bufs != [] ==> l < |bufs|
    ensures l > 0 ==> l < |bufs| && bufs[l].payload != []
    ensures forall i :: l < i < |bufs| ==> bufs[i].payload == []
  {
    if |bufs| <= 1 then 0
    else if bufs[|bufs| - 1].payload != [] then |bufs| - 1
    else LastFull(bufs[..|bufs| - 1])
  }

  lemma {:induction false} EmptyFrom(bufs: seq<Buf>, i: nat)
    requires i <= |bufs|
    ensures |Flatten(bufs[i..])| == 0 <==> forall j :: i <= j < |bufs| ==> bufs[j].payload == []
    decreases |bufs| - i
  {
    if i == |bufs| {
      assert bufs[i..] == [];
    } else {
      FlattenFrom(bufs, i);
      EmptyFrom(bufs, i + 1);
    }
  }

  /** On a single packet the test fires at the last pbuf that is not empty and behind it, but for the very last. */
  lemma QueuedAt(bufs: seq<Buf>, p: nat)
    requires Valid(bufs) && bufs != []
    ensures LooksQueued(bufs, p) <==> LastFull(bufs) <= p < |bufs| - 1
  {
    if p + 1 < |bufs| {
      FlattenFrom(bufs, p);
      assert TotalAt(bufs, p);
      EmptyFrom(bufs, p + 1);
    }
  }

  /** The test fires somewhere on a single packet exactly when the packet ends in an empty pbuf. */
  lemma QueueTestExact(bufs: seq<Buf>)
    requires Valid(bufs)
    ensures EndsEmpty(bufs) <==> exists i: nat :: LooksQueued(bufs, i)
  {
    if EndsEmpty(bufs) {
      QueuedAt(bufs, |bufs| - 2);
      assert LooksQueued(bufs, |bufs| - 2);
    }
    forall i: nat | LooksQueued(bufs, i) ensures EndsEmpty(bufs) {
      QueuedAt(bufs, i);
    }
  }

  /**
   A copy of `n` bytes that begins `start` bytes into this chain, and whose first round is limited to
   `other` bytes by the other chain, meets a pbuf where the test fires.
   */
  ghost predicate StopsCopy(bufs: seq<Buf>, start: nat, n: nat, other: nat)
    requires bufs != []
  {
    var l := LastFull(bufs);
    var before := |Flatten(bufs[..l])|;
    && l < |bufs| - 1
    && if l > 0 then start + n > before || (start + n == before && (l == 1 || bufs[l - 1].payload != []))
       else |bufs| > 2 || |bufs[0].payload| - start > Min(n, other)
  }

  ghost predicate QueueStops(from: seq<Buf>, to: seq<Buf>, copyLen: nat, offset: nat)
    requires from != [] && to != [] && offset <= |to[0].payload|
  {
    StopsCopy(from, 0, copyLen, |to[0].payload| - offset) || StopsCopy(to, offset, copyLen, |from[0].payload|)
  }

  /** The same for pbuf_copy, which copies all of `from` to the beginning. */
  ghost predicate CopyStops(from: seq<Buf>, to: seq<Buf>)
    requires from != [] && to != []
  {
    var n, l, before := |Flatten(from)|, LastFull(to), |Flatten(to[..LastFull(to)])|;
    || (EndsEmpty(from) && (LastFull(from) > 0 || |from| > 2 || |from[0].payload| > |to[0].payload|))
    || (EndsEmpty(to) && if l > 0 then n > before || (n == before && (l == 1 || to[l - 1].payload != []))
                         else |to| > 2 || |to[0].payload| > Min(n, |from[0].payload|))
  }

  lemma WholeCopyStops(from: seq<Buf>, to: seq<Buf>)
    requires Valid(from) && from != [] && to != []
    ensures QueueStops(from, to, |Flatten(from)|, 0) <==> CopyStops(from, to)
  {
    var l := LastFull(from);
    FlattenAt(from, l);
  }

  /** Where the copy loop stands at its head: at the start, or before the pbuf where the test would fire. */
  ghost predicate OnWalk(bufs: seq<Buf>, start: nat, n: nat, first: bool, p: nat, off: nat, left: nat) {
    if first then p == 0 && off == start && left == n
    else left > 0 && (LastFull(bufs) < |bufs| - 1 ==> LastFull(bufs) > 0 && p < LastFull(bufs))
  }

  /** On to the next pbuf when this one is used up. */
  ghost predicate Moved(bufs: seq<Buf>, p: nat, off: nat, p': nat, off': nat)
    requires p < |bufs|
  {
    if off == |bufs[p].payload| then p' == p + 1 && off' == 0 else p' == p && off' == off
  }

  lemma FlattenMono(bufs: seq<Buf>, i: nat, j: nat)
    requires i <= j <= |bufs|
    ensures |Flatten(bufs[..i])| <= |Flatten(bufs[..j])|
    ensures |Flatten(bufs[..i])| == |Flatten(bufs[..j])| ==> forall k :: i <= k < j ==> bufs[k].payload == []
  {
    FlattenSplit(bufs[..j], i);
    assert bufs[..j][..i] == bufs[..i];
    EmptyFrom(bufs[..j], i);
    assert forall k :: i <= k < j ==> bufs[..j][k] == bufs[k];
  }

  /** After a round, the test fires only where `StopsCopy` says so, and a copy that ends was not to be stopped. */
  lemma RoundStops(bufs: seq<Buf>, start: nat, n: nat, other: nat, first: bool,
                   p: nat, off: nat, left: nat, len: nat, p': nat, off': nat, queued: bool)
    requires p < |bufs| && start <= |bufs[0].payload| && start + n <= |Flatten(bufs)|
    requires OnWalk(bufs, start, n, first, p, off, left) && off + len <= |bufs[p].payload| && len <= left <= n
    requires first ==> len == Min(left, Min(|bufs[0].payload| - start, other))
    requires |Flatten(bufs[..p])| + off == start + n - left && Moved(bufs, p, off + len, p', off')
    requires queued <==> LastFull(bufs) <= p' < |bufs| - 1
    ensures queued ==> StopsCopy(bufs, start, n, other)
    ensures !queued && len == left ==> !StopsCopy(bufs, start, n, other)
    ensures !queued && len < left ==> OnWalk(bufs, start, n, false, p', off', left - len)
  {
    var l := LastFull(bufs);
    if 0 < l < |bufs| - 1 {
      StopsLater(bufs, start, n, first, p, off, left, len, p', off');
    } else if l < |bufs| - 1 {
      OnlyFirst(bufs);
    }
  }

  lemma OnlyFirst(bufs: seq<Buf>)
    requires bufs != [] && LastFull(bufs) == 0
    ensures |Flatten(bufs)| == |bufs[0].payload|
  {
    FlattenFrom(bufs, 0);
    EmptyFrom(bufs, 1);
    assert bufs[0..] == bufs;
  }

  ghost predicate OnBoth(from: seq<Buf>, to: seq<Buf>, copyLen: nat, offset: nat, first: bool,
                         pf: nat, offFrom: nat, pt: nat, offTo: nat, left: nat) {
    OnWalk(from, 0, copyLen, first, pf, offFrom, left) && OnWalk(to, offset, copyLen, first, pt, offTo, left)
  }

  lemma RoundEnds(from: seq<Buf>, to: seq<Buf>, copyLen: nat, offset: nat, first: bool, pf: nat, offFrom: nat, pt: nat,
                  offTo: nat, left: nat, len: nat, pf': nat, offFrom': nat, pt': nat, offTo': nat)
    requires Valid(from) && Valid(to) && pf < |from| && pt < |to| && offset <= |to[0].payload|
    requires copyLen <= |Flatten(from)| && offset + copyLen <= |Flatten(to)| && left <= copyLen
    requires offFrom <= |from[pf].payload| && offTo <= |to[pt].payload|
    requires OnBoth(from, to, copyLen, offset, first, pf, offFrom, pt, offTo, left)
    requires len == Min(left, Min(|to[pt].payload| - offTo, |from[pf].payload| - offFrom))
    requires |Flatten(from[..pf])| + offFrom == copyLen - left && |Flatten(to[..pt])| + offTo == offset + copyLen - left
    requires Moved(from, pf, offFrom + len, pf', offFrom') && Moved(to, pt, offTo + len, pt', offTo')
    ensures LooksQueued(from, pf') || LooksQueued(to, pt') ==> QueueStops(from, to, copyLen, offset)
    ensures !LooksQueued(from, pf') && !LooksQueued(to, pt') && len == left ==> !QueueStops(from, to, copyLen, offset)
    ensures !LooksQueued(from, pf') && !LooksQueued(to, pt') && len < left ==>
      OnBoth(from, to, copyLen, offset, false, pf', offFrom', pt', offTo', left - len)
  {
    QueuedAt(from, pf');
    QueuedAt(to, pt');
    RoundStops(from, 0, copyLen, |to[0].payload| - offset, first, pf, offFrom, left, len, pf', offFrom',
               LooksQueued(from, pf'));
    RoundStops(to, offset, copyLen, |from[0].payload|, first, pt, offTo, left, len, pt', offTo', LooksQueued(to, pt'));
  }

  lemma StopsLater(bufs: seq<Buf>, start: nat, n: nat, first: bool,
                   p: nat, off: nat, left: nat, len: nat, p': nat, off': nat)
    requires 0 < LastFull(bufs) < |bufs| - 1 && p < LastFull(bufs) && len <= left <= n
    requires if first then p == 0 else left > 0
    requires off + len <= |bufs[p].payload| && |Flatten(bufs[..p])| + off == start + n - left
    requires Moved(bufs, p, off + len, p', off')
    ensures var l, before := LastFull(bufs), |Flatten(bufs[..LastFull(bufs)])|;
      var stops := start + n > before || (start + n == before && (l == 1 || bufs[l - 1].payload != []));
      && (p' == l ==> stops)
      && (p' < l && len == left ==> !stops)
  {
    var l := LastFull(bufs);
    FlattenTo(bufs, p);
    FlattenMono(bufs, p + 1, l);
  }

  lemma FirstTotal(bufs: seq<Buf>)
    requires Valid(bufs)
    ensures bufs != [] ==> bufs[0].totLen == |Flatten(bufs)|
  {
    if bufs != [] {
      TotalOf(bufs);
    }
  }

  /** On to the next pbuf when this one is used up; there is one as long as bytes are left. */
  method Advance(bufs: seq<Buf>, p: nat, off: nat, left: nat, ghost at: nat) returns (p': nat, off': nat)
    requires p < |bufs| && off <= |bufs[p].payload| && |Flatten(bufs[..p])| + off == at && at + left <= |Flatten(bufs)|
    ensures Moved(bufs, p, off, p', off') && |Flatten(bufs[..p'])| + off' == at && (p' < |bufs| || left == 0)
  {
    p', off' := p, off;
    if off == |bufs[p].payload| {
      p', off' := p + 1, 0;
      FlattenTo(bufs, p);
      assert bufs[..|bufs|] == bufs;
    }
  }

  // ----- a packet that ends in an empty pbuf -----

  function Packet(a: seq<byte>, b: seq<byte>): seq<Buf> {
    [Buf([], a, |a| + |b|, true), Buf([], b, |b|, true)]
  }

  lemma PacketBytes(a: seq<byte>, b: seq<byte>)
    ensures var p := Packet(a, b);
      Valid(p) && Flatten(p) == a + b && LastFull(p) == if b == [] then 0 else 1
  {
    var p := Packet(a, b);
    FlattenFrom(p, 0);
    FlattenFrom(p, 1);
    assert p[0..] == p && p[2..] == [];
    forall i ensures TotalAt(p, i) {
      assert i == 0 || i == 1 || !(0 <= i < |p|);
    }
  }

  /** pbuf_copy into two pbufs of one byte: one byte and an empty pbuf fit, two bytes and an empty pbuf are refused. */
  method CopyEmptyEnd() returns (one: Err, two: Err)
    ensures one == OK && two == VAL
  {
    PacketBytes([0], [0]);
    PacketBytes([1], []);
    PacketBytes([1, 2], []);
    var c := new Chain(Packet([0], [0]));
    one := c.Copy(Packet([1], []));
    c := new Chain(Packet([0], [0]));
    two := c.Copy(Packet([1, 2], []));
  }
}
