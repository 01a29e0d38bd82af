/** What several parts of the stack share: bytes and their sequences, optional values, and two small functions. */
module Common {

  type byte = x: int | 0 <= x < 0x100

  type u16 = x: int | 0 <= x < 0x1_0000

  datatype Option<+T> = None | Some(value: T)

  function Min(a: nat, b: nat): nat { if a < b then a else b }

  /** lwip_tolower. */
  function Lower(b: byte): byte { if 65 <= b <= 90 then b + 32 else b }

  /** One of them is a letter A to Z, the other the same letter in a to z. */
  ghost predicate OtherCase(a: byte, b: byte) {
    ('A' as int <= a <= 'Z' as int && b - a == 'a' as int - 'A' as int)
    || ('A' as int <= b <= 'Z' as int && a - b == 'a' as int - 'A' as int)
  }

  lemma LowerIs(a: byte, b: byte)
    ensures Lower(a) == Lower(b) <==> a == b || OtherCase(a, b)
  {
  }

  lemma Assoc(a: seq<byte>, b: seq<byte>, c: seq<byte>)
    ensures a + b + c == a + (b + c)
  {
  }

  /** The parts laid end to end. */
  ghost function Concat(parts: seq<seq<byte>>): seq<byte> {
    if parts == [] then [] else Concat(parts[..|parts| - 1]) + parts[|parts| - 1]
  }

  lemma ConcatTo(parts: seq<seq<byte>>, i: nat)
    requires i < |parts|
    ensures Concat(parts[..i + 1]) == Concat(parts[..i]) + parts[i]
  {
    assert parts[..i + 1][..i] == parts[..i];
  }
}
