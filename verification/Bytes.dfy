/** Byte strings and the small vocabulary shared by the other modules. */
module Bytes {

  type byte = b: int | 0 <= b < 256

  type bytes = seq<byte>

  datatype Option<+T> = None | Some(value: T)

  const SPACE: byte := 32
  const LPAREN: byte := 40
  const RPAREN: byte := 41
  const MINUS: byte := 45
  const SLASH: byte := 47
  const COLON: byte := 58

  /** The largest value of a C long. */
  const LONG_MAX := 0x7fff_ffff_ffff_ffff

  function Min(a: int, b: int): int { if a < b then a else b }

  function Max(a: int, b: int): int { if a < b then b else a }

  /** The bytes of a string without letters beyond ASCII. */
  function Ascii(s: string): bytes {
    seq<byte>(|s|, i requires 0 <= i < |s| => if s[i] < 128 as char then s[i] as int else 0)
  }

  function Concat(parts: seq<bytes>): bytes {
    if parts == [] then [] else parts[0] + Concat(parts[1..])
  }

  lemma {:induction false} ConcatAppend(a: seq<bytes>, b: seq<bytes>)
    ensures Concat(a + b) == Concat(a) + Concat(b)
  {
    if a == [] {
      assert a + b == b;
    } else {
      assert (a + b)[0] == a[0] && (a + b)[1..] == a[1..] + b;
      ConcatAppend(a[1..], b);
    }
  }

  lemma ConcatLast(a: seq<bytes>, x: bytes)
    ensures Concat(a + [x]) == Concat(a) + x
  {
    ConcatAppend(a, [x]);
    assert Concat([x]) == x + Concat([x][1..]);
  }

  // ---- hexadecimal digits ----

  const LOWER := "0123456789abcdef"
  const UPPER := "0123456789ABCDEF"

  /** The byte prints the digit v, as a small or a capital letter. */
  predicate Prints(c: byte, v: nat)
    requires v < 16
  {
    c == LOWER[v] as int || c == UPPER[v] as int
  }

  lemma DigitsAreBytes()
    ensures forall v | 0 <= v < 10 :: LOWER[v] as int == 48 + v && UPPER[v] as int == 48 + v
    ensures forall v | 10 <= v < 16 :: LOWER[v] as int == 87 + v && UPPER[v] as int == 55 + v
  {
    assert LOWER[0] == '0' && LOWER[1] == '1' && LOWER[2] == '2' && LOWER[3] == '3' && LOWER[4] == '4';
    assert LOWER[5] == '5' && LOWER[6] == '6' && LOWER[7] == '7' && LOWER[8] == '8' && LOWER[9] == '9';
    assert LOWER[10] == 'a' && LOWER[11] == 'b' && LOWER[12] == 'c' && LOWER[13] == 'd' && LOWER[14] == 'e';
    assert LOWER[15] == 'f';
    assert UPPER[0] == '0' && UPPER[1] == '1' && UPPER[2] == '2' && UPPER[3] == '3' && UPPER[4] == '4';
    assert UPPER[5] == '5' && UPPER[6] == '6' && UPPER[7] == '7' && UPPER[8] == '8' && UPPER[9] == '9';
    assert UPPER[10] == 'A' && UPPER[11] == 'B' && UPPER[12] == 'C' && UPPER[13] == 'D' && UPPER[14] == 'E';
    assert UPPER[15] == 'F';
  }
}
