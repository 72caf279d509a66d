/** The percent codec (RFC 3986 section 2.1): encoding into a fresh buffer, decoding in place. */
module UrlCodec {
  import opened Bytes

  const PERCENT: byte := 37

  /** The bytes the table flags as unreserved: letters and - . _ ~. Digits are not among them. */
  predicate Unreserved(c: int) {
    65 <= c <= 90 || 97 <= c <= 122 || c == 45 || c == 46 || c == 95 || c == 126
  }

  function HexDigit(v: nat): byte
    requires v < 16
  {
    if v < 10 then 48 + v else 55 + v
  }

  function DigitOf(c: int): Option<nat> {
    if 48 <= c <= 57 then Some(c - 48)
    else if 97 <= c <= 102 then Some(c - 87)
    else if 65 <= c <= 70 then Some(c - 55)
    else None
  }

  function EncodeByte(c: byte): bytes {
    if Unreserved(c) then [c] else [PERCENT, HexDigit(c / 16), HexDigit(c % 16)]
  }

  function Encode(s: bytes): bytes { if s == [] then [] else EncodeByte(s[0]) + Encode(s[1..]) }

  function Behind(done: bytes, r: Option<bytes>): Option<bytes> {
    match r case None => None case Some(rest) => Some(done + rest)
  }

  /** Decoding up to the NUL; None for a percent sign without two digits. */
  function Decode(s: bytes): Option<bytes> {
    if s == [] || s[0] == 0 then Some([])
    else if s[0] != PERCENT then Behind([s[0]], Decode(s[1..]))
    else if |s| < 3 || DigitOf(s[1]) == None || DigitOf(s[2]) == None then None
    else Behind([DigitOf(s[1]).value * 16 + DigitOf(s[2]).value], Decode(s[3..]))
  }

  // ---- the codec as the program runs it ----

  lemma {:induction false} EncodeSnoc(s: bytes, c: byte)
    ensures Encode(s + [c]) == Encode(s) + EncodeByte(c)
  {
    if s == [] {
      assert [c][1..] == [];
    } else {
      assert (s + [c])[1..] == s[1..] + [c];
      EncodeSnoc(s[1..], c);
    }
  }

  predicate UpperHex(c: int) { 48 <= c <= 57 || 65 <= c <= 70 }

  /** Unreserved bytes and percent triples, one after another. */
  predicate Triples(s: bytes) {
    s == [] || (Unreserved(s[0]) && Triples(s[1..]))
    || (|s| >= 3 && s[0] == PERCENT && UpperHex(s[1]) && UpperHex(s[2]) && Triples(s[3..]))
  }

  /** Three bytes at most for one, and nothing but unreserved bytes and percent triples. */
  lemma {:induction false} EncodedForm(s: bytes)
    ensures |s| <= |Encode(s)| <= 3 * |s|
    ensures Triples(Encode(s))
  {
    if s != [] {
      EncodedForm(s[1..]);
      var one, rest := EncodeByte(s[0]), Encode(s[1..]);
      assert (one + rest)[|one|..] == rest;
    }
  }

  /** http_urlencode_reserved: a NUL-terminated string in a buffer of its own. */
  method EncodeReserved(s: bytes) returns (res: array<byte>, j: nat)
    ensures fresh(res) && res.Length == 3 * |s| + 1 && j < res.Length
    ensures res[..j] == Encode(s) && res[j] == 0
  {
    hide Encode;
    res := new byte[3 * |s| + 1];
    j := 0;
    var i := 0;
    EncodedForm([]);
    assert s[..0] == [];
    while i < |s|
      invariant 0 <= i <= |s| && j == |Encode(s[..i])| <= 3 * i && res[..j] == Encode(s[..i])
    {
      var c := s[i];
      ghost var done := res[..j];
      EncodeSnoc(s[..i], c);
      assert s[..i + 1] == s[..i] + [c];
      if !Unreserved(c) {
        res[j] := PERCENT;
        res[j + 1] := HexDigit(c / 16);
        res[j + 2] := HexDigit(c % 16);
        j := j + 3;
        assert res[..j] == done + EncodeByte(c);
      } else {
        res[j] := c;
        j := j + 1;
        assert res[..j] == done + EncodeByte(c);
      }
      i := i + 1;
    }
    assert s[..i] == s;
    res[j] := 0;
  }

  lemma BehindMore(done: bytes, x: bytes, r: Option<bytes>)
    ensures Behind(done, Behind(x, r)) == Behind(done + x, r) && Behind([], r) == r
  {
    match r {
      case None =>
      case Some(rest) => assert done + (x + rest) == done + x + rest && [] + rest == rest;
    }
  }

  /** Where decoding goes on, and what it has added. None at a malformed triple. */
  function DecodeOne(s: bytes): Option<(byte, nat)>
    requires s != []
  {
    if s[0] != PERCENT then Some((s[0], 1))
    else if |s| < 3 || DigitOf(s[1]) == None || DigitOf(s[2]) == None then None
    else Some((DigitOf(s[1]).value * 16 + DigitOf(s[2]).value, 3))
  }

  lemma DecodeStep(s: bytes, src: nat, done: bytes)
    requires src < |s| && 0 in s[src..] && s[src] != 0
    ensures match DecodeOne(s[src..])
            case None => Behind(done, Decode(s[src..])) == None
            case Some((c, n)) => src + n < |s| && 0 in s[src + n..]
                                 && Behind(done, Decode(s[src..])) == Behind(done + [c], Decode(s[src + n..]))
  {
    var rest := s[src..];
    if rest[0] == PERCENT {
      assert 0 in rest[1..] && (rest[1] != 0 ==> 0 in rest[2..]);
    } else {
      assert 0 in rest[1..];
    }
    var one := DecodeOne(rest);
    if one.Some? {
      var (c, n) := one.value;
      assert s[src + n..] == rest[n..] && 0 in rest[n..];
      BehindMore(done, [c], Decode(rest[n..]));
    }
  }

  /** http_urldecode: in place, the write cursor never ahead of the read cursor. The length of the
      result, or -1 for a malformed triple. */
  method DecodeInPlace(a: array<byte>) returns (n: int)
    requires 0 in a[..]
    modifies a
    ensures match Decode(old(a[..]))
            case None => n == -1
            case Some(r) => n == |r| <= a.Length && a[..n] == r
  {
    hide Decode;
    var src, dst := 0, 0;
    ghost var s := a[..];
    assert s[0..] == s;
    BehindMore([], [], Decode(s));
    while a[src] != 0
      invariant 0 <= dst <= src < a.Length && 0 in s[src..]
      invariant forall k | src <= k < a.Length :: a[k] == s[k]
      invariant Behind(a[..dst], Decode(s[src..])) == Decode(s)
      decreases a.Length - src
    {
      ghost var done := a[..dst];
      DecodeStep(s, src, done);
      ghost var from := src;
      NulAhead(s, src);
      if a[src] == PERCENT {
        src := src + 1;
        var high := DigitOf(a[src]);
        if high == None { return -1; }
        a[dst] := high.value * 16;
        src := src + 1;
        var low := DigitOf(a[src]);
        if low == None { return -1; }
        a[dst] := a[dst] + low.value;
      } else {
        a[dst] := a[src];
      }
      assert a[..dst + 1] == done + [a[dst]];
      src, dst := src + 1, dst + 1;
    }
    n := dst;
    DecodeEnd(s[src..]);
  }

  lemma NulAhead(s: bytes, src: nat)
    requires src < |s| && 0 in s[src..] && s[src] != 0
    ensures src + 1 < |s| && (s[src + 1] != 0 ==> src + 2 < |s|)
  {
  }

  lemma DecodeEnd(s: bytes)
    requires s != [] && s[0] == 0
    ensures Decode(s) == Some([])
  {
  }

  // ---- what is encoded, and what is decoded ----

  /** Letters and four marks are kept; every other byte is spelled with two capital digits. */
  lemma EncodeByteExactly(c: byte)
    ensures EncodeByte(c)
         == if ('A' as int <= c <= 'Z' as int) || ('a' as int <= c <= 'z' as int)
               || c == '-' as int || c == '.' as int || c == '_' as int || c == '~' as int
            then [c] else ['%' as int, UPPER[c / 16] as int, UPPER[c % 16] as int]
  {
    DigitsAreBytes();
  }

  lemma DigitOfExactly(c: byte)
    ensures forall v | 0 <= v < 16 :: Prints(c, v) <==> DigitOf(c) == Some(v)
    ensures DigitOf(c).Some? ==> DigitOf(c).value < 16
  {
    DigitsAreBytes();
  }

  /** A byte that stands for itself, or one that is escaped, each digit small or capital as asked. */
  datatype Piece = Itself(c: byte) | Escaped(c: byte, high: bool, low: bool)

  function Digit(v: nat, capital: bool): byte
    requires v < 16
  {
    DigitsAreBytes();
    (if capital then UPPER else LOWER)[v] as int
  }

  predicate GoodPiece(p: Piece) { p.Itself? ==> p.c != 0 && p.c != '%' as int }

  function Spell(p: Piece): bytes {
    match p
    case Itself(c) => [c]
    case Escaped(c, high, low) => ['%' as int, Digit(c / 16, high), Digit(c % 16, low)]
  }

  function SpellAll(ps: seq<Piece>): bytes { if ps == [] then [] else Spell(ps[0]) + SpellAll(ps[1..]) }

  function Values(ps: seq<Piece>): bytes { if ps == [] then [] else [ps[0].c] + Values(ps[1..]) }

  /** A percent sign that two hexadecimal digits do not follow. */
  ghost predicate Malformed(s: bytes) {
    s != [] && s[0] == '%' as int
    && !(|s| >= 3 && exists v, w :: 0 <= v < 16 && 0 <= w < 16 && Prints(s[1], v) && Prints(s[2], w))
  }

  lemma DigitDecoded(v: nat, capital: bool)
    requires v < 16
    ensures DigitOf(Digit(v, capital)) == Some(v)
  {
    DigitsAreBytes();
    DigitOfExactly(Digit(v, capital));
  }

  lemma DecodePiece(p: Piece, rest: bytes)
    requires GoodPiece(p)
    ensures Decode(Spell(p) + rest) == Behind([p.c], Decode(rest))
  {
    hide DigitOf, Digit;
    var s := Spell(p) + rest;
    if p.Escaped? {
      DigitDecoded(p.c / 16, p.high);
      DigitDecoded(p.c % 16, p.low);
      assert s[0] == PERCENT && s[3..] == rest;
    } else {
      assert s[1..] == rest;
    }
  }

  lemma MalformedIsNone(s: bytes)
    requires Malformed(s)
    ensures Decode(s) == None
  {
    if |s| >= 3 {
      DigitOfExactly(s[1]);
      DigitOfExactly(s[2]);
    }
  }

  /** Decoding, exactly: every string is a run of pieces and then its end, a NUL, or a malformed triple;
      up to an end or a NUL the pieces give their bytes, and a malformed triple gives nothing. */
  lemma {:induction false} DecodeExactly(ps: seq<Piece>, rest: bytes)
    requires forall p | p in ps :: GoodPiece(p)
    ensures rest == [] || rest[0] == 0 ==> Decode(SpellAll(ps) + rest) == Some(Values(ps))
    ensures Malformed(rest) ==> Decode(SpellAll(ps) + rest) == None
  {
    hide Decode, Spell, GoodPiece, Malformed;
    if ps == [] {
      assert SpellAll(ps) + rest == rest;
      if rest == [] || rest[0] == 0 { DecodeNothing(rest); }
      if Malformed(rest) { MalformedIsNone(rest); }
    } else {
      assert SpellAll(ps) + rest == Spell(ps[0]) + (SpellAll(ps[1..]) + rest);
      assert ps[0] in ps;
      DecodePiece(ps[0], SpellAll(ps[1..]) + rest);
      DecodeExactly(ps[1..], rest);
    }
  }

  lemma DecodeNothing(rest: bytes)
    requires rest == [] || rest[0] == 0
    ensures Decode(rest) == Some([])
  {
  }

  lemma PieceFits(s: bytes) returns (p: Piece)
    requires s != [] && s[0] != 0 && !Malformed(s)
    ensures GoodPiece(p) && Spell(p) <= s
  {
    p := Itself(s[0]);
    if s[0] == '%' as int {
      DigitsAreBytes();
      var v, w :| 0 <= v < 16 && 0 <= w < 16 && Prints(s[1], v) && Prints(s[2], w);
      p := Escaped(v * 16 + w, s[1] == UPPER[v] as int, s[2] == UPPER[w] as int);
      assert p.c / 16 == v && p.c % 16 == w;
      assert s[..3] == [s[0], s[1], s[2]];
    }
  }

  /** Indeed every string is such a run. */
  lemma {:induction false} PiecesOf(s: bytes) returns (ps: seq<Piece>, rest: bytes)
    ensures s == SpellAll(ps) + rest && forall p | p in ps :: GoodPiece(p)
    ensures rest == [] || rest[0] == 0 || Malformed(rest)
    decreases |s|
  {
    hide Spell, Malformed, GoodPiece;
    ps, rest := [], s;
    if s != [] && s[0] != 0 && !Malformed(s) {
      var p := PieceFits(s);
      SpellsSome(p);
      var more;
      more, rest := PiecesOf(s[|Spell(p)|..]);
      ps := [p] + more;
      assert ps[1..] == more;
      assert s == Spell(p) + (SpellAll(more) + rest);
    }
  }

  lemma SpellsSome(p: Piece)
    ensures Spell(p) != []
  {
  }

  // ---- round trip ----

  lemma DecodeByte(c: byte, rest: bytes)
    ensures Decode(EncodeByte(c) + rest) == Behind([c], Decode(rest))
  {
    var s := EncodeByte(c) + rest;
    if Unreserved(c) {
      assert s[1..] == rest;
    } else {
      assert s[3..] == rest && s[1] == HexDigit(c / 16) && s[2] == HexDigit(c % 16);
    }
  }

  /** Decoding what encoding made, up to its NUL, restores every byte string. */
  lemma {:induction false} UrlRoundTrip(s: bytes, behind: bytes)
    ensures Decode(Encode(s) + [0] + behind) == Some(s)
  {
    hide Decode, EncodeByte;
    if s == [] {
      DecodeEnd([0] + behind);
      assert Encode(s) + [0] + behind == [0] + behind;
    } else {
      assert Encode(s) + [0] + behind == EncodeByte(s[0]) + (Encode(s[1..]) + [0] + behind);
      UrlRoundTrip(s[1..], behind);
      DecodeByte(s[0], Encode(s[1..]) + [0] + behind);
      assert [s[0]] + s[1..] == s;
    }
  }
}
