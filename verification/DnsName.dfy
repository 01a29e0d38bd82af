/**
 Names in DNS messages (sections 3.1 and 4.1.2 of RFC 1035): the encoder of dns_send, and
 dns_compare_name and dns_skip_name, which walk over an encoded name in a packet.
 */
module DnsName {
  import opened Common

  const DOT: byte := 46

  // ----- labels and their encoding -----

  /** Where the label that begins at `i` ends. */
  ghost function LabelEnd(name: seq<byte>, i: nat): (r: nat)
    requires i <= |name|
    ensures i <= r <= |name|
    decreases |name| - i
  {
    if i == |name| || name[i] == DOT then i else LabelEnd(name, i + 1)
  }

  lemma {:induction false} LabelEndIs(name: seq<byte>, i: nat, k: nat)
    requires i <= k <= |name| && (k < |name| ==> name[k] == DOT) && forall j :: i <= j < k ==> name[j] != DOT
    ensures LabelEnd(name, i) == k
    decreases k - i
  {
    if i < k {
      LabelEndIs(name, i + 1, k);
    }
  }

  /** The parts between the dots, from `i` on. */
  ghost function Labels(name: seq<byte>, i: nat): seq<seq<byte>>
    requires i <= |name|
    decreases |name| - i
  {
    var k := LabelEnd(name, i);
    [name[i..k]] + if k == |name| then [] else Labels(name, k + 1)
  }

  ghost predicate LabelStart(name: seq<byte>, i: nat) {
    i <= |name| && (i == 0 || name[i - 1] == DOT)
  }

  /** Byte `j` of an encoded name: the text with each dot replaced by the length of the label behind it. */
  ghost function ByteAt(name: seq<byte>, j: nat): byte
    requires j <= |name| + 1 <= 256
  {
    if j == |name| + 1 then 0 else if LabelStart(name, j) then LabelEnd(name, j) - j else name[j - 1]
  }

  /** Each label behind its length, and a zero at the end. */
  ghost function Encoding(name: seq<byte>): (r: seq<byte>)
    requires |name| <= 255
    ensures |r| == |name| + 2 && forall j :: 0 <= j <= |name| + 1 ==> r[j] == ByteAt(name, j)
  {
    seq(|name| + 2, j requires 0 <= j <= |name| + 1 => ByteAt(name, j))
  }

  /** The labels in an encoding, as RFC 1035 reads it: length and text, up to a length of zero. */
  ghost function Decoding(s: seq<byte>): seq<seq<byte>> {
    if s == [] || s[0] == 0 || s[0] >= |s| then []
    else [s[1..s[0] + 1]] + Decoding(s[s[0] + 1..])
  }

  lemma {:induction false} InLabel(name: seq<byte>, i: nat, j: nat)
    requires i <= |name| && i <= j <= LabelEnd(name, i)
    ensures j < LabelEnd(name, i) ==> name[j] != DOT
    ensures j == LabelEnd(name, i) < |name| ==> name[j] == DOT
    decreases |name| - i
  {
    if i < j {
      InLabel(name, i + 1, j);
    }
  }

  /** No label from `i` on is empty. */
  ghost predicate NoEmptyLabel(name: seq<byte>, i: nat)
    requires i <= |name|
    decreases |name| - i
  {
    var k := LabelEnd(name, i);
    k > i && (k == |name| || NoEmptyLabel(name, k + 1))
  }

  lemma TextAt(name: seq<byte>, i: nat)
    requires LabelStart(name, i) && |name| <= 255
    ensures Encoding(name)[i + 1..LabelEnd(name, i) + 1] == name[i..LabelEnd(name, i)]
  {
    forall m | i <= m < LabelEnd(name, i) ensures Encoding(name)[m + 1] == name[m] {
      InLabel(name, i, m);
    }
  }

  /** Read as RFC 1035 says, the encoding has the labels of the name. */
  lemma {:induction false} RoundTrip(name: seq<byte>, i: nat)
    requires LabelStart(name, i) && |name| <= 255 && NoEmptyLabel(name, i)
    ensures Decoding(Encoding(name)[i..]) == Labels(name, i)
    decreases |name| - i
  {
    var k := LabelEnd(name, i);
    DecodeLabel(name, i);
    if k < |name| {
      InLabel(name, i, k);
      RoundTrip(name, k + 1);
    }
  }

  /** The first label of an encoding, and what follows it. */
  lemma DecodeLabel(name: seq<byte>, i: nat)
    requires LabelStart(name, i) && |name| <= 255 && LabelEnd(name, i) > i
    ensures var k := LabelEnd(name, i);
      Decoding(Encoding(name)[i..]) == [name[i..k]] + Decoding(Encoding(name)[k + 1..])
  {
    var k := LabelEnd(name, i);
    var e := Encoding(name);
    TextAt(name, i);
    DecodeOne(e, i, k - i);
  }

  lemma DecodeOne(e: seq<byte>, i: nat, n: nat)
    requires i + 1 + n <= |e| && e[i] == n && n > 0
    ensures Decoding(e[i..]) == [e[i + 1..i + 1 + n]] + Decoding(e[i + 1 + n..])
  {
    DropSlice(e, i, 1, n + 1);
    DropSlice(e, i, n + 1, |e| - i);
  }

  lemma DropSlice(s: seq<byte>, i: nat, a: nat, b: nat)
    requires i <= |s| && a <= b <= |s| - i
    ensures s[i..][a..b] == s[i + a..i + b] && (i + b == |s| ==> s[i..][a..] == s[i + a..])
  {
  }

  // ----- the encoder -----

  /** pbuf_put_at: nothing happens beyond the end. */
  function PutAt(data: seq<byte>, off: nat, b: byte): seq<byte> {
    if off < |data| then data[off := b] else data
  }

  /** pbuf_take_at: all of `d` or nothing. */
  function TakeAt(data: seq<byte>, off: nat, d: seq<byte>): seq<byte> {
    if off < |data| && off + |d| <= |data| then data[..off] + d + data[off + |d|..] else data
  }

  /** The bytes before `i` are already as they should be. */
  ghost predicate Filled(data: seq<byte>, name: seq<byte>, i: nat) {
    i <= |name| + 1 <= 256 && |data| == |name| + 2 && forall j :: 0 <= j < i ==> data[j] == ByteAt(name, j)
  }

  lemma WriteLabel(data: seq<byte>, name: seq<byte>, i: nat, k: nat)
    requires Filled(data, name, i) && LabelStart(name, i) && k == LabelEnd(name, i)
    ensures Filled(TakeAt(PutAt(data, i, k - i), i + 1, name[i..k]), name, k + 1)
  {
    var r := TakeAt(PutAt(data, i, k - i), i + 1, name[i..k]);
    forall j | 0 <= j < k + 1 ensures r[j] == ByteAt(name, j) {
      if i < j {
        InLabel(name, i, j - 1);
      }
    }
  }

  /** The end of the label that begins at `part`, and its length. */
  method FindDot(name: seq<byte>, part: nat) returns (host: nat, n: nat)
    requires LabelStart(name, part)
    ensures host == LabelEnd(name, part) && n == host - part
  {
    host, n := part, 0;
    while host < |name| && name[host] != DOT
      invariant part <= host <= |name| && n == host - part && forall j :: part <= j < host ==> name[j] != DOT
    {
      host, n := host + 1, n + 1;
    }
    LabelEndIs(name, part, host);
  }

  /** One round of the loop: the label that begins at `part` goes to `idx`. */
  method EncodeLabel(name: seq<byte>, space: seq<byte>, idx: nat, part: nat) returns (data: seq<byte>, host: nat)
    requires Filled(space, name, part) && LabelStart(name, part) && idx == part
    ensures host == LabelEnd(name, part) && Filled(data, name, host + 1)
  {
    var n;
    host, n := FindDot(name, part);
    WriteLabel(space, name, part, host);
    data := TakeAt(PutAt(space, idx, n), idx + 1, name[part..host]);
  }

  /** The loop of dns_send: it fills the strlen + 2 bytes of `space` exactly with the encoding. */
  method EncodeName(name: seq<byte>, space: seq<byte>) returns (data: seq<byte>)
    requires |name| <= 255 && |space| == |name| + 2
    ensures data == Encoding(name)
  {
    data := space;
    var host: nat, idx: nat := 0, 0;
    while true
      invariant idx == host && LabelStart(name, host) && Filled(data, name, host)
      decreases |name| - host
    {
      ghost var part := host;
      data, host := EncodeLabel(name, data, idx, host);
      idx := host + 1;
      if host == |name| {
        break;
      }
      InLabel(name, part, host);
      host := host + 1;
    }
    data := PutAt(data, idx, 0);
  }

  // ----- walking over a name in a packet -----

  /** pbuf_try_get_at. */
  function TryGetAt(p: seq<byte>, off: nat): int {
    if off < |p| then p[off] else -1
  }

  ghost predicate SameByte(query: nat -> byte, at: nat, p: seq<byte>, off: nat) {
    off < |p| && off < 0xFFFF && Lower(p[off]) == Lower(query(at))
  }

  /** The `n` bytes of the packet are those of the name, but for case. */
  ghost predicate SameLabel(query: nat -> byte, at: nat, p: seq<byte>, off: nat, n: nat) {
    n == 0 || (SameLabel(query, at, p, off, n - 1) && SameByte(query, at + n - 1, p, off + n - 1))
  }

  lemma {:induction false} SameLabelAt(query: nat -> byte, at: nat, p: seq<byte>, off: nat, n: nat, j: nat)
    requires SameLabel(query, at, p, off, n) && j < n
    ensures SameByte(query, at + j, p, off + j)
  {
    if j < n - 1 {
      SameLabelAt(query, at, p, off, n - 1, j);
    }
  }

  /** What dns_compare_name finds from a label on: the offset behind the name, or 0xFFFF. */
  ghost function ComparedFrom(query: nat -> byte, at: nat, p: seq<byte>, off: nat): nat
    decreases |p| - off
  {
    if off >= |p| || off >= 0xFFFF || p[off] >= 0xC0 || !SameLabel(query, at, p, off + 1, p[off]) then 0xFFFF
    else
      var end := off + 1 + p[off];
      if end >= |p| then 0xFFFF
      else if p[end] == 0 then (if end >= 0xFFFF then 0xFFFF else end + 1)
      else ComparedFrom(query, at + p[off] + 1, p, end)
  }

  /** Labels behind their lengths up to a zero before `end`: no pointer, and all in the packet. */
  ghost predicate PlainName(p: seq<byte>, off: nat, end: nat)
    decreases |p| - off
  {
    && off < end <= |p| && p[off] < 0xC0
    && var next := off + 1 + p[off];
       next < end && if p[next] == 0 then end == next + 1 else PlainName(p, next, end)
  }

  /** A name that is accepted is one without pointers, and ends within the packet. */
  lemma {:induction false} ComparedIsPlain(query: nat -> byte, at: nat, p: seq<byte>, off: nat)
    ensures var r := ComparedFrom(query, at, p, off); r == 0xFFFF || PlainName(p, off, r)
    decreases |p| - off
  {
    if off < |p| && off < 0xFFFF && p[off] < 0xC0 && SameLabel(query, at, p, off + 1, p[off]) {
      var end := off + 1 + p[off];
      if end < |p| && p[end] != 0 {
        ComparedIsPlain(query, at + p[off] + 1, p, end);
      }
    }
  }

  /** dns_compare_name; `query` is the memory from the name on. */
  method CompareName(query: nat -> byte, p: seq<byte>, start: nat) returns (r: nat)
    requires start <= 0xFFFF
    ensures r == ComparedFrom(query, 0, p, start)
  {
    var off, at := start, 0;
    while true
      invariant off <= 0xFFFF && ComparedFrom(query, at, p, off) == ComparedFrom(query, 0, p, start)
      decreases 0xFFFF - off
    {
      var n := TryGetAt(p, off);
      if n < 0 || off == 0xFFFF {
        return 0xFFFF;
      }
      off := off + 1;
      if n >= 0xC0 {
        return 0xFFFF;
      }
      var same;
      same, off, at := CompareLabel(query, p, off, at, n);
      if !same {
        return 0xFFFF;
      }
      at := at + 1;
      n := TryGetAt(p, off);
      if n < 0 {
        return 0xFFFF;
      }
      if n == 0 {
        break;
      }
    }
    if off == 0xFFFF {
      return 0xFFFF;
    }
    r := off + 1;
  }

  /** The inner loop of dns_compare_name. */
  method CompareLabel(query: nat -> byte, p: seq<byte>, off: nat, at: nat, len: nat)
    returns (same: bool, off': nat, at': nat)
    requires off <= 0xFFFF
    ensures same <==> SameLabel(query, at, p, off, len)
    ensures same ==> off' == off + len <= 0xFFFF && at' == at + len
  {
    var n: nat := len;
    off', at' := off, at;
    while n > 0
      invariant n <= len && off' == off + (len - n) && at' == at + (len - n) && off' <= 0xFFFF
      invariant SameLabel(query, at, p, off, len - n)
    {
      var c := TryGetAt(p, off');
      if c < 0 || Lower(query(at')) != Lower(c) || off' == 0xFFFF {
        assert SameLabel(query, at, p, off, len) ==> SameByte(query, at', p, off') by {
          if SameLabel(query, at, p, off, len) {
            SameLabelAt(query, at, p, off, len, len - n);
          }
        }
        return false, off', at';
      }
      off', at', n := off' + 1, at' + 1, n - 1;
    }
    same := true;
  }

  /** What dns_skip_name finds from a label on. */
  ghost function SkippedFrom(p: seq<byte>, off: nat): nat
    decreases |p| - off
  {
    if off >= |p| || off >= 0xFFFF then 0xFFFF
    else if p[off] >= 0xC0 then (if off + 1 >= 0xFFFF then 0xFFFF else off + 2)
    else
      var end := off + 1 + p[off];
      if end >= |p| then 0xFFFF
      else if p[end] == 0 then (if end >= 0xFFFF then 0xFFFF else end + 1)
      else SkippedFrom(p, end)
  }

  /** dns_skip_name. */
  method SkipName(p: seq<byte>, start: nat) returns (r: nat)
    requires |p| <= 0xFFFF && start <= 0xFFFF
    ensures r == SkippedFrom(p, start)
  {
    var off := start;
    while true
      invariant off <= 0xFFFF && SkippedFrom(p, off) == SkippedFrom(p, start)
      decreases 0xFFFF - off
    {
      var n := TryGetAt(p, off);
      off := if off == 0xFFFF then 0 else off + 1;
      if n < 0 || off == 0 {
        return 0xFFFF;
      }
      if n >= 0xC0 {
        break;
      }
      if off + n >= |p| {
        return 0xFFFF;
      }
      off := off + n;
      // pbuf_try_get_at cannot fail here, so that its check never does
      n := TryGetAt(p, off);
      if n == 0 {
        break;
      }
    }
    if off == 0xFFFF {
      return 0xFFFF;
    }
    r := off + 1;
  }

  // ----- both find the end of an encoded name -----

  /** No label is too long to be told from a compressed name, and none behind a dot is empty. */
  ghost predicate Readable(name: seq<byte>, i: nat)
    requires i <= |name|
    decreases |name| - i
  {
    var k := LabelEnd(name, i);
    k - i < 0xC0 && (k == |name| || (LabelEnd(name, k + 1) > k + 1 && Readable(name, k + 1)))
  }

  /** The packet holds the encoding of the name at `off`. */
  ghost predicate Spelled(p: seq<byte>, off: nat, name: seq<byte>) {
    |name| <= 255 && off + |name| + 2 <= |p| && forall j :: 0 <= j <= |name| + 1 ==> ByteAt(name, j) == p[off + j]
  }

  lemma {:induction false} LabelIsSame(query: nat -> byte, p: seq<byte>, off: nat, name: seq<byte>, i: nat, n: nat)
    requires Spelled(p, off, name) && off + |name| + 2 < 0xFFFF && i <= |name| && i + n <= LabelEnd(name, i)
    requires forall j :: 0 <= j < |name| ==> query(j) == name[j]
    ensures SameLabel(query, i, p, off + i + 1, n)
  {
    if n > 0 {
      LabelIsSame(query, p, off, name, i, n - 1);
      InLabel(name, i, i + n - 1);
      assert ByteAt(name, i + n) == name[i + n - 1];
    }
  }

  /** dns_compare_name, given the name itself and its encoding, returns the end of it exactly for readable names. */
  lemma {:induction false} CompareFinds(query: nat -> byte, p: seq<byte>, off: nat, name: seq<byte>, i: nat)
    requires Spelled(p, off, name) && LabelStart(name, i) && off + |name| + 2 < 0xFFFF
    requires forall j :: 0 <= j < |name| ==> query(j) == name[j]
    ensures ComparedFrom(query, i, p, off + i) == off + |name| + 2 <==> Readable(name, i)
    decreases |name| - i
  {
    var k := LabelEnd(name, i);
    InLabel(name, i, k);
    LabelIsSame(query, p, off, name, i, k - i);
    assert p[off + i] == ByteAt(name, i) == k - i && p[off + k + 1] == ByteAt(name, k + 1);
    if k < |name| {
      assert p[off + k + 1] == LabelEnd(name, k + 1) - (k + 1);
      CompareFinds(query, p, off, name, k + 1);
    }
  }

  /** So does dns_skip_name, whatever the name. */
  lemma {:induction false} SkipFinds(p: seq<byte>, off: nat, name: seq<byte>, i: nat)
    requires Spelled(p, off, name) && LabelStart(name, i) && off + |name| + 2 < 0xFFFF
    ensures SkippedFrom(p, off + i) == off + |name| + 2 <==> Readable(name, i)
    decreases |name| - i
  {
    var k := LabelEnd(name, i);
    InLabel(name, i, k);
    assert p[off + i] == ByteAt(name, i) && p[off + k + 1] == ByteAt(name, k + 1);
    if k < |name| {
      SkipFinds(p, off, name, k + 1);
    }
  }

  /** Both walks over an encoded name end right behind its terminating zero, exactly for readable names. */
  lemma EncodedNameFound(query: nat -> byte, p: seq<byte>, off: nat, name: seq<byte>)
    requires |name| <= 255 && off + |name| + 2 <= |p| && off + |name| + 2 < 0xFFFF
    requires p[off..off + |name| + 2] == Encoding(name)
    requires forall j :: 0 <= j < |name| ==> query(j) == name[j]
    ensures ComparedFrom(query, 0, p, off) == off + |Encoding(name)| <==> Readable(name, 0)
    ensures SkippedFrom(p, off) == off + |Encoding(name)| <==> Readable(name, 0)
  {
    forall j | 0 <= j <= |name| + 1 ensures ByteAt(name, j) == p[off + j] {
      assert p[off..off + |name| + 2][j] == p[off + j];
    }
    CompareFinds(query, p, off, name, 0);
    SkipFinds(p, off, name, 0);
  }

  // ----- which names are taken for the one asked for -----

  ghost predicate SameLetter(query: nat -> byte, other: seq<byte>, j: nat) {
    j < |other| ==> other[j] == DOT || Lower(other[j]) == Lower(query(j))
  }

  /** From `i` on the name agrees with what is in memory, but for case and for what stands where it has dots. */
  ghost predicate Agrees(query: nat -> byte, other: seq<byte>, i: nat) {
    forall j: nat :: i <= j ==> SameLetter(query, other, j)
  }

  lemma {:induction false} LabelAgrees(query: nat -> byte, p: seq<byte>, off: nat, other: seq<byte>, i: nat, n: nat)
    requires Spelled(p, off, other) && off + |other| + 2 < 0xFFFF && i <= |other| && i + n <= LabelEnd(other, i)
    ensures SameLabel(query, i, p, off + i + 1, n) <==> forall j: nat :: i <= j < i + n ==> SameLetter(query, other, j)
  {
    if n > 0 {
      LabelAgrees(query, p, off, other, i, n - 1);
      InLabel(other, i, i + n - 1);
      assert ByteAt(other, i + n) == other[i + n - 1] == p[off + i + n];
      assert SameByte(query, i + n - 1, p, off + i + n) <==> SameLetter(query, other, i + n - 1);
    }
  }

  /**
   Over the encoding of any readable name, dns_compare_name returns the end of it exactly when it agrees with the
   name asked for at every place but its dots; it does not look at those, nor at where the name asked for ends.
   */
  lemma {:induction false} CompareAccepts(query: nat -> byte, p: seq<byte>, off: nat, other: seq<byte>, i: nat)
    requires Spelled(p, off, other) && LabelStart(other, i) && off + |other| + 2 < 0xFFFF && Readable(other, i)
    ensures ComparedFrom(query, i, p, off + i) == if Agrees(query, other, i) then off + |other| + 2 else 0xFFFF
    decreases |other| - i
  {
    var k := LabelEnd(other, i);
    InLabel(other, i, k);
    LabelAgrees(query, p, off, other, i, k - i);
    assert p[off + i] == ByteAt(other, i) == k - i && p[off + k + 1] == ByteAt(other, k + 1);
    if k < |other| {
      assert p[off + k + 1] == LabelEnd(other, k + 1) - (k + 1);
      CompareAccepts(query, p, off, other, k + 1);
    }
    AgreesSplit(query, other, i, k);
  }

  lemma AgreesSplit(query: nat -> byte, other: seq<byte>, i: nat, k: nat)
    requires i <= k <= |other| && (k < |other| ==> other[k] == DOT)
    ensures Agrees(query, other, i) <==>
      (forall j: nat :: i <= j < k ==> SameLetter(query, other, j)) && Agrees(query, other, k + 1)
  {
    assert SameLetter(query, other, k);
    if Agrees(query, other, k + 1) && forall j: nat :: i <= j < k ==> SameLetter(query, other, j) {
      forall j: nat | i <= j ensures SameLetter(query, other, j) {
        assert j > k ==> SameLetter(query, other, j);
      }
    }
  }

  /** A reply about "a" is taken for one about "ab". */
  lemma OtherNameAccepted(query: nat -> byte)
    requires query(0) == 97 && query(1) == 98 && query(2) == 0
    ensures ComparedFrom(query, 0, [1, 97, 0], 0) == 3
  {
    var p: seq<byte> := [1, 97, 0];
    assert SameLabel(query, 0, p, 1, 0) && SameByte(query, 0, p, 1);
    assert SameLabel(query, 0, p, 1, 1);
  }

  /** All labels have 1 to 63 bytes. */
  ghost predicate ShortLabels(labels: seq<seq<byte>>) {
    labels == [] || (1 <= |labels[0]| <= 63 && ShortLabels(labels[1..]))
  }

  lemma ShortRest(name: seq<byte>, i: nat)
    requires i <= |name| && ShortLabels(Labels(name, i))
    ensures var k := LabelEnd(name, i);
      1 <= k - i <= 63 && (k < |name| ==> ShortLabels(Labels(name, k + 1)))
  {
    var k := LabelEnd(name, i);
    assert Labels(name, i)[0] == name[i..k];
    assert k < |name| ==> Labels(name, i)[1..] == Labels(name, k + 1);
  }

  /** A name with labels of 1 to 63 bytes is readable. */
  lemma {:induction false} ShortLabelsReadable(name: seq<byte>, i: nat)
    requires i <= |name| && ShortLabels(Labels(name, i))
    ensures Readable(name, i) && NoEmptyLabel(name, i)
    decreases |name| - i
  {
    var k := LabelEnd(name, i);
    ShortRest(name, i);
    if k < |name| {
      ShortRest(name, k + 1);
      ShortLabelsReadable(name, k + 1);
    }
  }

  /** An empty label in the middle stops both walks early: a..b */
  lemma EmptyLabelUnreadable()
    ensures !Readable([97, DOT, DOT, 98], 0)
  {
    var name: seq<byte> := [97, DOT, DOT, 98];
    assert LabelEnd(name, 1) == 1 && LabelEnd(name, 2) == 2;
  }

  /** dns_skip_name takes two bytes at least: it never ends behind a single zero, the name of the root. */
  lemma {:induction false} NameTakesTwo(p: seq<byte>, off: nat)
    ensures SkippedFrom(p, off) == 0xFFFF || SkippedFrom(p, off) >= off + 2
    decreases |p| - off
  {
    if off < |p| && off < 0xFFFF && p[off] < 0xC0 {
      var end := off + 1 + p[off];
      if end < |p| && p[end] != 0 {
        NameTakesTwo(p, end);
      }
    }
  }
}
