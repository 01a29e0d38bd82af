/**
 The Internet checksum of inet_chksum.c on a little-endian host.

 Everything is measured against the weighted byte sum: a byte at an even offset counts once, at
 an odd offset 256 times. The checksum is that sum brought into 16 bits with end-around carry
 (sections 1 and 2 of RFC 1071).
 */
module Checksum {
  import opened Common

  const U32: int := 0x1_0000_0000

  // ----- one's complement arithmetic -----

  /** The sum brought into 16 bits by end-around carry; only 0 gives 0. */
  function Norm(n: nat): (r: u16)
    ensures r == 0 <==> n == 0
  {
    if n <= 0xFFFF then n else Norm(n - 0xFFFF)
  }

  /** One's complement addition of RFC 1071: the carry out of 16 bits is added back in. */
  function OnesAdd(a: u16, b: u16): u16 {
    if a + b > 0xFFFF then a + b - 0xFFFF else a + b
  }

  /** Addition in the u32_t accumulators. */
  function Add32(a: nat, b: nat): (r: nat)
    ensures r < U32 && (a + b < U32 ==> r == a + b)
  {
    (a + b) % U32
  }

  /** FOLD_U32T */
  function Fold(u: nat): nat {
    u / 0x1_0000 + u % 0x1_0000
  }

  /** SWAP_BYTES_IN_WORD, and lwip_htons on this host. */
  function Swap(w: u16): u16 {
    w % 0x100 * 0x100 + w / 0x100
  }

  // ----- sums that stand for one another -----

  function Laps(k: int): int { 0xFFFF * k }

  /** `x` stands for the sum `n`: they differ by a multiple of 0xFFFF, and are zero together. */
  ghost predicate Tracks(x: nat, n: nat) {
    (x == 0 <==> n == 0) && exists k :: x == n + Laps(k)
  }

  lemma TracksBy(x: nat, n: nat, k: int)
    requires x == n + Laps(k) && (x == 0 <==> n == 0)
    ensures Tracks(x, n)
  {
  }

  lemma TracksAdd(x: nat, n: nat, y: nat, m: nat)
    requires Tracks(x, n) && Tracks(y, m)
    ensures Tracks(x + y, n + m)
  {
    var k :| x == n + Laps(k);
    var l :| y == m + Laps(l);
    TracksBy(x + y, n + m, k + l);
  }

  lemma TracksAddSame(x: nat, n: nat, c: nat)
    requires Tracks(x, n)
    ensures Tracks(x + c, n + c)
  {
    TracksBy(c, c, 0);
    TracksAdd(x, n, c, c);
  }

  lemma TracksTrans(x: nat, y: nat, z: nat)
    requires Tracks(x, y) && Tracks(y, z)
    ensures Tracks(x, z)
  {
    var k :| x == y + Laps(k);
    var l :| y == z + Laps(l);
    TracksBy(x, z, k + l);
  }

  lemma {:induction false} NormLaps(n: nat, k: nat)
    requires 0 < n
    ensures Norm(n + Laps(k)) == Norm(n)
  {
    if k > 0 {
      NormLaps(n, k - 1);
      assert n + Laps(k) - 0xFFFF == n + Laps(k - 1);
    }
  }

  /** Sums that stand for one another have the same checksum. */
  lemma TracksNorm(x: nat, n: nat)
    requires Tracks(x, n)
    ensures Norm(x) == Norm(n)
  {
    var k :| x == n + Laps(k);
    if n > 0 {
      if k >= 0 {
        NormLaps(n, k);
      } else {
        NormLaps(x, -k);
        assert x + Laps(-k) == n;
      }
    }
  }

  lemma {:induction false} NormTracks(n: nat)
    ensures Tracks(Norm(n), n)
  {
    if n <= 0xFFFF {
      TracksBy(n, n, 0);
    } else {
      NormTracks(n - 0xFFFF);
      TracksBy(n - 0xFFFF, n, -1);
      TracksTrans(Norm(n), n - 0xFFFF, n);
    }
  }

  lemma FoldTracks(u: nat)
    ensures Tracks(Fold(u), u)
  {
    TracksBy(Fold(u), u, -(u / 0x1_0000));
  }

  lemma FoldNorm(u: nat)
    ensures Norm(Fold(u)) == Norm(u)
  {
    FoldTracks(u);
    TracksNorm(Fold(u), u);
  }

  /** Two folds bring any 32-bit sum into 16 bits, without losing a carry. */
  function FoldTwice(u: nat): (r: u16)
    requires u < U32
    ensures r == Norm(u)
  {
    FoldNorm(u);
    FoldNorm(Fold(u));
    Fold(Fold(u))
  }

  /** The same with the second fold only where it is needed (inet_chksum.c:106-109). */
  function FoldDown(u: nat): (r: u16)
    requires u < U32
    ensures r == Norm(u)
  {
    FoldNorm(u);
    if Fold(u) > 0xFFFF then Fold(Fold(u)) else Fold(u)
  }

  /** Swapping the bytes multiplies by 256. */
  lemma SwapTracks(w: u16)
    ensures Tracks(Swap(w), 0x100 * (w as int))
  {
    TracksBy(Swap(w), 0x100 * (w as int), -(w / 0x100));
  }

  lemma TracksTimes256(x: nat, n: nat)
    requires Tracks(x, n)
    ensures Tracks(0x100 * x, 0x100 * n)
  {
    var k :| x == n + Laps(k);
    TracksBy(0x100 * x, 0x100 * n, 0x100 * k);
  }

  // ----- the reference: RFC 1071 over 16-bit words -----

  /** A 16-bit load on this host. */
  function Le16(lo: byte, hi: byte): u16 {
    lo as int + 0x100 * (hi as int)
  }

  /** The buffer as little-endian words, the last byte padded with zero. */
  function Words(b: seq<byte>): seq<u16> {
    if |b| == 0 then []
    else if |b| == 1 then [b[0]]
    else [Le16(b[0], b[1])] + Words(b[2..])
  }

  function OnesSum(ws: seq<u16>): u16 {
    if ws == [] then 0 else OnesAdd(ws[0], OnesSum(ws[1..]))
  }

  /** What every routine here computes: the one's complement sum of the 16-bit words. */
  function InternetSum(b: seq<byte>): u16 {
    OnesSum(Words(b))
  }

  // ----- the weighted byte sum -----

  /** What byte `x` at offset `i` adds to the sum. */
  function Part(x: byte, i: nat, odd: bool): nat {
    if (i % 2 == 1) != odd then 0x100 * (x as int) else x
  }

  /** Weighted byte sum; `odd` says that the first byte counts as an odd one. */
  ghost function Sum(b: seq<byte>, odd: bool): nat {
    if b == [] then 0 else Sum(b[..|b| - 1], odd) + Part(b[|b| - 1], |b| - 1, odd)
  }

  /** Taking one more byte into the sum. */
  lemma SumStep(b: seq<byte>, i: nat, odd: bool)
    requires i < |b|
    ensures Sum(b[..i + 1], odd) == Sum(b[..i], odd) + Part(b[i], i, odd)
  {
    assert b[..i + 1][..i] == b[..i];
  }

  /** Taking two more bytes in: one word, its byte order set by the parity of the offset. */
  lemma SumStepWord(b: seq<byte>, i: nat, odd: bool)
    requires i + 1 < |b|
    ensures Sum(b[..i + 2], odd) == Sum(b[..i], odd)
      + if (i % 2 == 1) == odd then Le16(b[i], b[i + 1]) else Le16(b[i + 1], b[i])
  {
    SumStep(b, i, odd);
    SumStep(b, i + 1, odd);
  }

  lemma SumSnoc(b: seq<byte>, x: byte, odd: bool)
    ensures Sum(b + [x], odd) == Sum(b, odd) + Part(x, |b|, odd)
  {
    assert (b + [x])[..|b|] == b;
  }

  lemma PartShift(x: byte, k: nat, n: nat, odd: bool)
    ensures Part(x, k + n, odd) == Part(x, n, odd != (k % 2 == 1))
  {
  }

  lemma {:induction false} SumConcat(a: seq<byte>, b: seq<byte>, odd: bool)
    ensures Sum(a + b, odd) == Sum(a, odd) + Sum(b, odd != (|a| % 2 == 1))
    decreases |b|
  {
    if b == [] {
      assert a + b == a;
    } else {
      var b', x := b[..|b| - 1], b[|b| - 1];
      SumConcat(a, b', odd);
      SumSnoc(b', x, odd != (|a| % 2 == 1));
      SumSnoc(a + b', x, odd);
      PartShift(x, |a|, |b'|, odd);
      assert b == b' + [x] && a + b == a + b' + [x];
    }
  }

  /** Shifting a buffer by one byte multiplies its sum by 256. */
  lemma {:induction false} SumShift(b: seq<byte>, odd: bool)
    ensures Tracks(0x100 * Sum(b, !odd), Sum(b, odd))
  {
    if b == [] {
      TracksBy(0, 0, 0);
    } else {
      var n := |b| - 1;
      SumShift(b[..n], odd);
      var x: int := b[n];
      var p, q := Part(b[n], n, !odd), Part(b[n], n, odd);
      TracksBy(0x100 * p, q, if p == 0x100 * x then x else 0);
      TracksAdd(0x100 * Sum(b[..n], !odd), Sum(b[..n], odd), 0x100 * p, q);
    }
  }

  lemma SwapShift(b: seq<byte>, odd: bool)
    ensures Swap(Norm(Sum(b, !odd))) == Norm(Sum(b, odd))
  {
    var n := Sum(b, !odd);
    SwapTracks(Norm(n));
    NormTracks(n);
    TracksTimes256(Norm(n), n);
    SumShift(b, odd);
    TracksTrans(Swap(Norm(n)), 0x100 * (Norm(n) as int), 0x100 * n);
    TracksTrans(Swap(Norm(n)), 0x100 * n, Sum(b, odd));
    TracksNorm(Swap(Norm(n)), Sum(b, odd));
  }

  lemma OnesAddNorm(a: u16, n: nat)
    ensures OnesAdd(a, Norm(n)) == Norm(a + n)
  {
    NormAdd(a, n);
  }

  /** The RFC 1071 sum of the words is the weighted byte sum brought into 16 bits. */
  lemma {:induction false} InternetSumIs(b: seq<byte>)
    ensures InternetSum(b) == Norm(Sum(b, false))
  {
    if |b| == 1 {
      SumStep(b, 0, false);
      assert b[..1] == b && b[..0] == [] && Words(b)[1..] == [];
      assert OnesSum(Words(b)) == b[0];
      assert Sum(b, false) == b[0];
    } else if |b| > 1 {
      assert b == b[..2] + b[2..] && b[..0] == [];
      SumConcat(b[..2], b[2..], false);
      SumStepWord(b, 0, false);
      InternetSumIs(b[2..]);
      OnesAddNorm(Words(b)[0], Sum(b[2..], false));
      assert Words(b)[1..] == Words(b[2..]);
    }
  }

  // ----- the three versions of lwip_standard_chksum -----

  /** 0x1_0001 full words still fit into the 32-bit accumulator; the source promises 0x20000 bytes. */
  const MAX_LEN: nat := 0x2_0002

  lemma {:induction false} SumBound(b: seq<byte>, i: nat, odd: bool)
    requires i <= |b|
    ensures Sum(b[..i], odd) <= (i + 1) / 2 * 0xFFFF
  {
    if i >= 2 {
      SumBound(b, i - 2, odd);
      SumStepWord(b, i - 2, odd);
    } else if i == 1 {
      SumStep(b, 0, odd);
      assert b[..0] == [];
    }
  }

  /** The accumulator does not overflow. */
  lemma SumFits(b: seq<byte>, i: nat, odd: bool)
    requires i <= |b| <= MAX_LEN
    ensures Sum(b[..i], odd) < U32
  {
    SumBound(b, i, odd);
  }

  /** The loop of version 1 (inet_chksum.c:86-104). */
  method AccumulateBytes(data: seq<byte>) returns (acc: nat)
    requires |data| <= MAX_LEN
    ensures acc == Sum(data, true) < U32
  {
    SumFits(data, |data|, true);
    acc := 0;
    var i, len := 0, |data|;
    while len > 1
      invariant 0 <= len && 0 <= i && i + len == |data| && i % 2 == 0
      invariant acc == Sum(data[..i], true)
    {
      var src := Le16(data[i + 1], data[i]);
      SumStepWord(data, i, true);
      SumFits(data, i + 2, true);
      acc := Add32(acc, src);
      i, len := i + 2, len - 2;
    }
    assert data[..|data|] == data;
    if len > 0 {
      SumStep(data, i, true);
      acc := Add32(acc, Le16(0, data[i]));
    }
  }

  /** Version 1: network order, then reordered with lwip_htons. */
  method StandardChksum1(data: seq<byte>) returns (r: u16)
    requires |data| <= MAX_LEN
    ensures r == InternetSum(data)
  {
    var acc := AccumulateBytes(data);
    var folded := FoldDown(acc);
    SwapIfOdd(data, true, folded);
    r := Swap(folded);
  }

  /** A sum over a buffer at an odd address is swapped back. */
  lemma SwapIfOdd(data: seq<byte>, odd: bool, sum: u16)
    requires sum == Norm(Sum(data, odd))
    ensures InternetSum(data) == if odd then Swap(sum) else sum
  {
    SwapShift(data, false);
    InternetSumIs(data);
  }

  /** The end of versions 2 and 3 (inet_chksum.c:162-172 and 245-254). */
  method Finish(ghost data: seq<byte>, odd: bool, sum: nat) returns (r: u16)
    requires sum < U32 && Tracks(sum, Sum(data, odd))
    ensures r == InternetSum(data)
  {
    TracksNorm(sum, Sum(data, odd));
    r := FoldTwice(sum);
    SwapIfOdd(data, odd, r);
    if odd {
      r := Swap(r);
    }
  }

  /** The loop of version 2 (inet_chksum.c:135-160). */
  method AccumulateWords(data: seq<byte>, odd: bool) returns (sum: nat)
    requires |data| <= MAX_LEN
    ensures sum == Sum(data, odd) < U32
  {
    SumFits(data, |data|, odd);
    var i, len := 0, |data|;
    var t: nat := 0;
    sum := 0;
    if odd && len > 0 {
      SumStep(data, 0, odd);
      t := Le16(0, data[i]);
      i, len := i + 1, len - 1;
    }
    while len > 1
      invariant 0 <= len && 0 <= i && i + len == |data| && (len > 0 ==> (i % 2 == 1) == odd)
      invariant sum + t == Sum(data[..i], odd)
    {
      SumStepWord(data, i, odd);
      SumFits(data, i + 2, odd);
      sum := Add32(sum, Le16(data[i], data[i + 1]));
      i, len := i + 2, len - 2;
    }
    assert data[..|data|] == data;
    if len > 0 {
      SumStep(data, i, odd);
      t := t + data[i];
    }
    sum := Add32(sum, t);
  }

  /** Version 2: two bytes at a time from an address that may be odd. */
  method StandardChksum2(data: seq<byte>, addr: nat) returns (r: u16)
    requires |data| <= MAX_LEN
    ensures r == InternetSum(data)
  {
    var odd := addr % 2 == 1;
    var sum := AccumulateWords(data, odd);
    TracksBy(sum, sum, 0);
    r := Finish(data, odd, sum);
  }

  // ----- version 3: 32-bit loads with end-around carry -----

  /** The "ping" and "pong" additions at inet_chksum.c:214-222. */
  function AddCarry32(a: nat, b: nat): (r: nat)
    requires a < U32 && b < U32
    ensures r < U32
  {
    var tmp := (a + b) % U32;
    if tmp < a then tmp + 1 else tmp
  }

  lemma AddCarryTracks(a: nat, n: nat, b: nat, m: nat)
    requires a < U32 && b < U32 && Tracks(a, n) && Tracks(b, m)
    ensures Tracks(AddCarry32(a, b), n + m)
  {
    var r := AddCarry32(a, b);
    TracksAdd(a, n, b, m);
    TracksBy(r, a + b, if r == a + b then 0 else -0x1_0001);
    TracksTrans(r, a + b, n + m);
  }

  /** A 32-bit load at offset `i`. */
  function Le32(data: seq<byte>, i: nat): (r: nat)
    requires i + 3 < |data|
    ensures r < U32
  {
    Le16(data[i], data[i + 1]) as int + 0x1_0000 * (Le16(data[i + 2], data[i + 3]) as int)
  }

  /** The two 16-bit words that a 32-bit load brings in. */
  function TwoWords(data: seq<byte>, i: nat): nat
    requires i + 3 < |data|
  {
    Le16(data[i], data[i + 1]) as int + Le16(data[i + 2], data[i + 3])
  }

  lemma Le32Tracks(data: seq<byte>, i: nat)
    requires i + 3 < |data|
    ensures Tracks(Le32(data, i), TwoWords(data, i))
  {
    TracksBy(Le32(data, i), TwoWords(data, i), Le16(data[i + 2], data[i + 3]));
  }

  lemma SumStepLong(data: seq<byte>, i: nat, odd: bool)
    requires i + 3 < |data| && (i % 2 == 1) == odd
    ensures Sum(data[..i + 4], odd) == Sum(data[..i], odd) + TwoWords(data, i)
  {
    SumStepWord(data, i, odd);
    SumStepWord(data, i + 2, odd);
  }

  /** One "ping": `sum` goes on standing for what was read so far. */
  method Ping(data: seq<byte>, i: nat, odd: bool, sum: nat, ghost n: nat) returns (r: nat)
    requires i + 3 < |data| && (i % 2 == 1) == odd && sum < U32 && Tracks(sum, n)
    ensures r < U32 && Tracks(r, n + TwoWords(data, i))
    ensures Sum(data[..i + 4], odd) == Sum(data[..i], odd) + TwoWords(data, i)
  {
    SumStepLong(data, i, odd);
    Le32Tracks(data, i);
    AddCarryTracks(sum, n, Le32(data, i), TwoWords(data, i));
    r := AddCarry32(sum, Le32(data, i));
  }

  /** One round of the unrolled loop: eight bytes. */
  method PingPong(data: seq<byte>, i: nat, odd: bool, sum: nat, ghost n: nat) returns (r: nat, ghost m: nat)
    requires i + 7 < |data| && (i % 2 == 1) == odd && sum < U32 && Tracks(sum, n)
    ensures r < U32 && Tracks(r, m)
    ensures n <= m && Sum(data[..i + 8], odd) == Sum(data[..i], odd) + m - n
  {
    var tmp := Ping(data, i, odd, sum, n);
    r := Ping(data, i + 4, odd, tmp, n + TwoWords(data, i));
    m := n + TwoWords(data, i) + TwoWords(data, i + 4);
  }

  /** One word first where that brings the address to a multiple of four (inet_chksum.c:206-209). */
  method AccumulateToLong(data: seq<byte>, addr: nat, start: nat, odd: bool) returns (sum: nat, i: nat)
    requires start <= |data| && (start < |data| ==> (start % 2 == 1) == odd)
    ensures start <= i <= |data| && (i < |data| ==> (i % 2 == 1) == odd)
    ensures sum <= 0xFFFF && Sum(data[..i], odd) == Sum(data[..start], odd) + sum
  {
    sum, i := 0, start;
    if (addr + start) % 4 != 0 && |data| - i > 1 {
      SumStepWord(data, i, odd);
      sum := Le16(data[i], data[i + 1]);
      i := i + 2;
    }
  }

  /** The unrolled loop of version 3 (inet_chksum.c:204-225), from offset `start` on. */
  method AccumulateLongs(data: seq<byte>, addr: nat, start: nat, odd: bool)
      returns (sum: nat, i: nat, ghost n: nat)
    requires start <= |data| && (start < |data| ==> (start % 2 == 1) == odd)
    ensures start <= i <= |data| && |data| - i <= 7 && (i < |data| ==> (i % 2 == 1) == odd)
    ensures sum < U32 && Tracks(sum, n) && Sum(data[..i], odd) == Sum(data[..start], odd) + n
  {
    sum, i := AccumulateToLong(data, addr, start, odd);
    n := sum;
    TracksBy(sum, n, 0);
    while |data| - i > 7
      invariant start <= i <= |data| && (i < |data| ==> (i % 2 == 1) == odd)
      invariant sum < U32 && Tracks(sum, n) && Sum(data[..i], odd) == Sum(data[..start], odd) + n
    {
      sum, n := PingPong(data, i, odd, sum, n);
      i := i + 8;
    }
  }

  /** The remaining words of version 3 (inet_chksum.c:233-236): at most three, so no carry is lost. */
  method AddTailWords(data: seq<byte>, start: nat, odd: bool, before: nat) returns (sum: nat, i: nat, ghost m: nat)
    requires start <= |data| <= start + 7 && (start < |data| ==> (start % 2 == 1) == odd)
    requires before <= 0x1_FFFE
    ensures start <= i <= |data| <= i + 1 && (i < |data| ==> (i % 2 == 1) == odd)
    ensures sum == before + m <= 0x1_FFFE + 7 * 0xFFFF
    ensures Sum(data[..i], odd) == Sum(data[..start], odd) + m
  {
    sum, i, m := before, start, 0;
    while |data| - i > 1
      invariant start <= i <= |data| && (i < |data| ==> (i % 2 == 1) == odd)
      invariant sum == before + m && m <= 0xFFFF * (i - start)
      invariant Sum(data[..i], odd) == Sum(data[..start], odd) + m
    {
      SumStepWord(data, i, odd);
      sum := Add32(sum, Le16(data[i], data[i + 1]));
      m := m + Le16(data[i], data[i + 1]);
      i := i + 2;
    }
  }

  /** All whole words from `start` on (inet_chksum.c:204-236). */
  method AccumulateBulk(data: seq<byte>, addr: nat, start: nat, odd: bool)
      returns (sum: nat, i: nat, ghost n: nat)
    requires start <= |data| && (start < |data| ==> (start % 2 == 1) == odd)
    ensures start <= i <= |data| <= i + 1 && (i < |data| ==> (i % 2 == 1) == odd)
    ensures sum <= 0x1_FFFE + 7 * 0xFFFF && Tracks(sum, n) && Sum(data[..i], odd) == Sum(data[..start], odd) + n
  {
    var longs, j, n0 := AccumulateLongs(data, addr, start, odd);
    var folded := FoldOnce(longs, n0);
    ghost var m;
    sum, i, m := AddTailWords(data, j, odd, folded);
    n := n0 + m;
    TracksAddSame(folded, n0, m);
  }

  /** Version 3: eight bytes at a time; no limit on the length. */
  method StandardChksum3(data: seq<byte>, addr: nat) returns (r: u16)
    ensures r == InternetSum(data)
  {
    var odd := addr % 2 == 1;
    var t: u16, start: nat := 0, 0;
    assert data[..0] == [];
    if odd && |data| > 0 {
      SumStep(data, 0, odd);
      t, start := Le16(0, data[0]), 1;
    }
    var sum, i, n := AccumulateBulk(data, addr, start, odd);
    assert data[..|data|] == data;
    if i < |data| {
      SumStep(data, i, odd);
      t := SetLowByte(t, data[i]);
    }
    TracksAddSame(sum, n, t);
    r := Finish(data, odd, Add32(sum, t));
  }

  /** `((u8_t *)&t)[0] = b` for a `t` whose low byte is still zero. */
  function SetLowByte(t: u16, b: byte): (r: u16)
    ensures t % 0x100 == 0 ==> r == t + b
  {
    t / 0x100 * 0x100 + b
  }

  /** A single fold still stands for the same sum and leaves room for more words. */
  function FoldOnce(u: nat, ghost n: nat): (r: nat)
    requires u < U32 && Tracks(u, n)
    ensures r <= 0x1_FFFE && Tracks(r, n)
  {
    FoldTracks(u);
    TracksTrans(Fold(u), u, n);
    Fold(u)
  }

  // ----- buffers: inet_chksum, and pbuf chains -----

  /** The complement that is stored in a header. */
  function Complement(w: u16): u16 { 0xFFFF - w }

  /** inet_chksum, with version 2 as LWIP_CHKSUM. */
  method InetChksum(data: seq<byte>, addr: nat) returns (r: u16)
    requires |data| <= 0xFFFF
    ensures r == Complement(InternetSum(data))
  {
    var sum := StandardChksum2(data, addr);
    r := Complement(sum);
  }

  /** A buffer whose checksum was computed with a zero field and then stored there checks out to 0. */
  lemma StoredChecksumVerifies(front: seq<byte>, back: seq<byte>)
    requires |front| % 2 == 0
    ensures var c := Complement(InternetSum(front + [0, 0] + back));
      Complement(InternetSum(front + [c % 0x100, c / 0x100] + back)) == 0
  {
    var zero, c := front + [0, 0] + back, Complement(InternetSum(front + [0, 0] + back));
    var full := front + [c % 0x100, c / 0x100] + back;
    FieldSum(front, 0, 0, back);
    FieldSum(front, c % 0x100, c / 0x100, back);
    InternetSumIs(zero);
    InternetSumIs(full);
    NormTracks(Sum(zero, false));
    TracksAddSame(Norm(Sum(zero, false)), Sum(zero, false), c);
    TracksNorm(0xFFFF, Sum(full, false));
  }

  lemma FieldSum(front: seq<byte>, lo: byte, hi: byte, back: seq<byte>)
    requires |front| % 2 == 0
    ensures Sum(front + [lo, hi] + back, false) == Sum(front, false) + Le16(lo, hi) + Sum(back, false)
  {
    SumConcat(front + [lo, hi], back, false);
    SumConcat(front, [lo, hi], false);
    SumStepWord([lo, hi], 0, false);
    assert [lo, hi][..2] == [lo, hi] && [lo, hi][..0] == [];
  }

  /** The payloads of a chain of pbufs. */
  ghost predicate ChainOk(chain: seq<seq<byte>>) {
    forall q :: q in chain ==> |q| <= 0xFFFF
  }

  predicate Odd(b: seq<byte>) { |b| % 2 == 1 }

  lemma OddConcat(a: seq<byte>, b: seq<byte>)
    ensures Odd(a + b) == (Odd(a) != Odd(b))
  {
  }

  /** Adding the sum of `part` to that of what came before it, taken in the byte order that fits. */
  lemma SegmentSum(done: seq<byte>, part: seq<byte>)
    ensures Norm(Norm(Sum(done, Odd(done))) + InternetSum(part)) == Norm(Sum(done + part, Odd(done)))
  {
    SumConcat(done, part, Odd(done));
    InternetSumIs(part);
    NormAdd(Sum(done, Odd(done)), Sum(part, false));
  }

  /** One round of the chain loops: add the sum of `part`, fold once, and swap after an odd pbuf length. */
  method AddSegment(acc: u16, swapped: bool, part: seq<byte>, addr: nat, oddLen: bool, ghost done: seq<byte>)
      returns (acc': u16, swapped': bool)
    requires acc == Norm(Sum(done, swapped)) && swapped == Odd(done) && |part| <= 0xFFFF
    ensures acc' == Norm(Sum(done + part, swapped'))
    ensures oddLen == Odd(part) ==> swapped' == Odd(done + part)
  {
    var sum := StandardChksum2(part, addr);
    SegmentSum(done, part);
    OddConcat(done, part);
    acc', swapped' := FoldSmall(acc + sum), swapped;
    if oddLen {
      SwapShift(done + part, !swapped);
      acc', swapped' := Swap(acc'), !swapped;
    }
  }

  lemma NormAdd(a: nat, b: nat)
    ensures Norm(Norm(a) as int + Norm(b)) == Norm(a + b)
  {
    NormTracks(a);
    NormTracks(b);
    TracksAdd(Norm(a), a, Norm(b), b);
    TracksNorm(Norm(a) as int + Norm(b), a + b);
  }

  /** Two 16-bit values added need one fold only: the result is again 16 bits wide, so no byte is lost in a swap. */
  function FoldSmall(u: nat): (r: u16)
    requires u <= 0x1_FFFE
    ensures r == Norm(u)
  {
    FoldNorm(u);
    Fold(u)
  }

  /** The bytes were summed in halves of either order; swap back if that ended odd. */
  method Unswap(acc: u16, swapped: bool, ghost done: seq<byte>) returns (r: u16)
    requires acc == Norm(Sum(done, swapped))
    ensures r == Norm(Sum(done, false))
  {
    r := acc;
    if swapped {
      SwapShift(done, false);
      r := Swap(r);
    }
  }

  /** The loop over a chain, starting from the sum of `head` (inet_chksum.c:266-283 and 575-586). */
  method SumChain(chain: seq<seq<byte>>, addr: nat -> nat, start: u16, ghost head: seq<byte>) returns (acc: u16)
    requires ChainOk(chain) && !Odd(head) && start == Norm(Sum(head, false))
    ensures acc == Norm(Sum(head + Concat(chain), false))
  {
    acc := start;
    var swapped, i := false, 0;
    ghost var done := head;
    assert head + Concat(chain[..0]) == head;
    while i < |chain|
      invariant 0 <= i <= |chain| && done == head + Concat(chain[..i])
      invariant swapped == Odd(done) && acc == Norm(Sum(done, swapped))
    {
      ConcatTo(chain, i);
      Assoc(head, Concat(chain[..i]), chain[i]);
      acc, swapped := AddSegment(acc, swapped, chain[i], addr(i), Odd(chain[i]), done);
      done := done + chain[i];
      i := i + 1;
    }
    assert chain[..|chain|] == chain;
    acc := Unswap(acc, swapped, done);
  }

  /** inet_chksum_pbuf: the checksum of a chain is that of its bytes laid end to end. */
  method InetChksumPbuf(chain: seq<seq<byte>>, addr: nat -> nat) returns (r: u16)
    requires ChainOk(chain)
    ensures r == Complement(InternetSum(Concat(chain)))
  {
    var acc := SumChain(chain, addr, 0, []);
    assert [] + Concat(chain) == Concat(chain);
    InternetSumIs(Concat(chain));
    r := Complement(acc);
  }

  // ----- pseudo headers -----

  /** The pseudo header of TCP and UDP over IPv4 (section 3.1 of RFC 793), as bytes on the wire. */
  function PseudoHeader(src: seq<byte>, dst: seq<byte>, proto: byte, len: u16): seq<byte> {
    src + dst + [0, proto, len / 0x100, len % 0x100]
  }

  /** Halves of an address held in network order, as `addr & 0xffff` and `addr >> 16` give them. */
  lemma AddressSum(addr: seq<byte>)
    requires |addr| == 4
    ensures Sum(addr, false) == Le16(addr[0], addr[1]) as int + Le16(addr[2], addr[3])
  {
    SumStepWord(addr, 0, false);
    SumStepWord(addr, 2, false);
    assert addr[..4] == addr && addr[..0] == [];
  }

  /** The addresses' part of the pseudo header (inet_chksum.c:316-324). */
  method AddressPart(src: seq<byte>, dst: seq<byte>) returns (acc: u16)
    requires |src| == 4 && |dst| == 4
    ensures acc == Norm(Sum(src + dst, false))
  {
    AddressSum(src);
    AddressSum(dst);
    SumConcat(src, dst, false);
    var sum: nat := Le16(src[0], src[1]);
    sum := Add32(sum, Le16(src[2], src[3]));
    sum := Add32(sum, Le16(dst[0], dst[1]));
    sum := Add32(sum, Le16(dst[2], dst[3]));
    acc := FoldTwice(sum);
  }

  /** Protocol and length, swapped to network order, add what their bytes in the pseudo header do. */
  lemma TrailerSum(src: seq<byte>, dst: seq<byte>, proto: byte, len: u16, data: seq<byte>)
    requires |src| == 4 && |dst| == 4
    ensures Sum(PseudoHeader(src, dst, proto, len) + data, false)
         == Sum(src + dst + data, false) + Swap(proto) + Swap(len)
  {
    TrailerBytes(proto, len);
    InsertSum(src + dst, [0, proto, len / 0x100, len % 0x100], data);
  }

  lemma TrailerBytes(proto: byte, len: u16)
    ensures Sum([0, proto, len / 0x100, len % 0x100], false) == Swap(proto) as int + Swap(len)
  {
    FourBytes(0, proto, len / 0x100, len % 0x100);
    SwapBytes(proto);
    SwapBytes(len);
  }

  lemma FourBytes(a: byte, b: byte, c: byte, d: byte)
    ensures Sum([a, b, c, d], false) == Le16(a, b) as int + Le16(c, d)
  {
    AddressSum([a, b, c, d]);
  }

  lemma SwapBytes(w: u16)
    ensures Swap(w) == Le16(w / 0x100, w % 0x100)
  {
  }

  lemma InsertSum(a: seq<byte>, b: seq<byte>, data: seq<byte>)
    requires !Odd(a) && !Odd(b)
    ensures Sum(a + b + data, false) == Sum(a + data, false) + Sum(b, false)
  {
    EvenConcat(a, data);
    EvenConcat(a + b, data);
    EvenConcat(a, b);
  }

  lemma EvenConcat(a: seq<byte>, b: seq<byte>)
    requires !Odd(a)
    ensures Sum(a + b, false) == Sum(a, false) + Sum(b, false)
  {
    SumConcat(a, b, false);
  }

  /** Protocol and length are added last; the order of the parts does not matter (inet_chksum.c:285-293). */
  method AddTrailer(acc: u16, proto: byte, len: u16, ghost src: seq<byte>, ghost dst: seq<byte>, ghost data: seq<byte>)
      returns (r: u16)
    requires |src| == 4 && |dst| == 4 && acc == Norm(Sum(src + dst + data, false))
    ensures r == Complement(InternetSum(PseudoHeader(src, dst, proto, len) + data))
  {
    TrailerSum(src, dst, proto, len, data);
    InternetSumIs(PseudoHeader(src, dst, proto, len) + data);
    r := AddTwoWords(acc, Swap(proto), Swap(len), Sum(src + dst + data, false));
    r := Complement(r);
  }

  method AddTwoWords(acc: u16, x: u16, y: u16, ghost n: nat) returns (r: u16)
    requires acc == Norm(n)
    ensures r == Norm(n + x + y)
  {
    NormTracks(n);
    TracksAddSame(acc, n, x as int + y);
    var sum := Add32(acc, x);
    sum := Add32(sum, y);
    TracksNorm(sum, n + x + y);
    r := FoldTwice(sum);
  }

  /** inet_chksum_pseudo: the flat checksum over pseudo header and data, however the data is split. */
  method InetChksumPseudo(chain: seq<seq<byte>>, addr: nat -> nat, proto: byte, len: u16,
                          src: seq<byte>, dst: seq<byte>)
      returns (r: u16)
    requires ChainOk(chain) && |src| == 4 && |dst| == 4
    ensures r == Complement(InternetSum(PseudoHeader(src, dst, proto, len) + Concat(chain)))
  {
    var acc := AddressPart(src, dst);
    acc := SumChain(chain, addr, acc, src + dst);
    r := AddTrailer(acc, proto, len, src, dst, Concat(chain));
  }

  /** The first `n` bytes, or all if there are fewer. */
  ghost function Prefix(b: seq<byte>, n: nat): seq<byte> {
    if n <= |b| then b[..n] else b
  }

  /**
   The loop of the partial variant (inet_chksum.c:407-429). The swap follows the whole pbuf's length
   even where only part of it is summed; it is undone at the end. `asserted` tells that the assertion
   at inet_chksum.c:416 fires on the way.
   */
  method SumChainPrefix(chain: seq<seq<byte>>, addr: nat -> nat, n: u16, start: u16, ghost head: seq<byte>)
      returns (acc: u16, asserted: bool)
    requires ChainOk(chain) && !Odd(head) && start == Norm(Sum(head, false))
    ensures acc == Norm(Sum(head + Prefix(Concat(chain), n), false))
    ensures asserted <==> chain != [] && n - |chain[0]| >= 0x7FFF
  {
    acc, asserted := start, false;
    var swapped, i, left: nat := false, 0, n;
    ghost var have: seq<byte> := [];
    ghost var done := head;
    while i < |chain| && left > 0
      invariant 0 <= i <= |chain| && have == Concat(chain[..i])
      invariant left == (if |have| < n then n - |have| else 0)
      invariant done == head + Prefix(have, n) && acc == Norm(Sum(done, swapped))
      invariant left > 0 ==> swapped == Odd(done)
      invariant i > 0 ==> |chain[0]| <= |have|
      invariant asserted <==> i > 0 && n - |chain[0]| >= 0x7FFF
    {
      var q := chain[i];
      var chklen := if |q| > left then left else |q|;
      ConcatTo(chain, i);
      acc, swapped := AddSegment(acc, swapped, q[..chklen], addr(i), Odd(q), done);
      PrefixStep(head, have, q, n, chklen);
      done, have := done + q[..chklen], have + q;
      left := left - chklen;
      asserted := asserted || left >= 0x7FFF;
      i := i + 1;
    }
    PrefixStops(chain, i, n);
    acc := Unswap(acc, swapped, done);
  }

  /** inet_chksum_pseudo_partial: the flat checksum over pseudo header and the first `chksumLen` bytes. */
  method InetChksumPseudoPartial(chain: seq<seq<byte>>, addr: nat -> nat, proto: byte, len: u16, chksumLen: u16,
                                 src: seq<byte>, dst: seq<byte>) returns (r: u16, asserted: bool)
    requires ChainOk(chain) && |src| == 4 && |dst| == 4
    ensures r == Complement(InternetSum(PseudoHeader(src, dst, proto, len) + Prefix(Concat(chain), chksumLen)))
    ensures asserted <==> chain != [] && chksumLen - |chain[0]| >= 0x7FFF
  {
    var acc := AddressPart(src, dst);
    acc, asserted := SumChainPrefix(chain, addr, chksumLen, acc, src + dst);
    r := AddTrailer(acc, proto, len, src, dst, Prefix(Concat(chain), chksumLen));
  }

  /** One more pbuf adds what is still missing of the prefix. */
  lemma PrefixStep(head: seq<byte>, have: seq<byte>, p: seq<byte>, n: nat, m: nat)
    requires |have| <= n && m == if |p| > n - |have| then n - |have| else |p|
    ensures head + Prefix(have, n) + p[..m] == head + Prefix(have + p, n)
  {
    assert have[..|have|] == have && p[..|p|] == p;
  }

  /** Later pbufs do not change a prefix that is already complete. */
  lemma {:induction false} PrefixStops(chain: seq<seq<byte>>, i: nat, n: nat)
    requires i <= |chain| && (i == |chain| || n <= |Concat(chain[..i])|)
    ensures Prefix(Concat(chain), n) == Prefix(Concat(chain[..i]), n)
    decreases |chain| - i
  {
    if i == |chain| {
      assert chain[..i] == chain;
    } else {
      ConcatTo(chain, i);
      PrefixStops(chain, i + 1, n);
    }
  }
}
