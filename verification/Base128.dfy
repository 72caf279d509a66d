/** The variable-length integers of svndiff: seven bits a byte, most significant
    group first, the high bit set on every byte but the last. */
module Base128 {
  import opened Bytes

  const MAX_ENCODED_INT_LEN := 10

  const LONG_LIMIT := 0x8000_0000_0000_0000

  /** The value a C long holds after an operation whose exact result is x. */
  function Wrap(x: int): (r: int)
    ensures -LONG_LIMIT <= r < LONG_LIMIT
  {
    var m := x % 0x1_0000_0000_0000_0000;
    if m < LONG_LIMIT then m else m - 0x1_0000_0000_0000_0000
  }

  /** What a decoded number stores, and how many bytes it took. Broken keeps what was
      stored before the decoder gave up for lack of a final byte. */
  datatype Number = Number(val: int, used: nat) | Broken(val: int)

  /** Decoding continued at s, with room for at most `room` more bytes. */
  function Scan(s: bytes, room: nat, acc: int, used: nat): (n: Number)
    ensures n.Number? ==> used < n.used <= used + Min(room, |s|)
    decreases |s|
  {
    if s == [] || room == 0 then Broken(acc)
    else
      var v := Wrap(acc * 128 + s[0] % 128);
      if s[0] < 128 then Number(v, used + 1) else Scan(s[1..], room - 1, v, used + 1)
  }

  function Decode(s: bytes): (n: Number)
    ensures n.Number? ==> 0 < n.used <= |s|
  {
    Scan(s, MAX_ENCODED_INT_LEN, 0, 0)
  }

  method DecodeNumber(buf: bytes, start: nat, end: nat) returns (n: Number)
    requires start <= end <= |buf|
    ensures n == Decode(buf[start..end])
  {
    var val := 0;
    var limit := Min(end, start + MAX_ENCODED_INT_LEN);
    var p := start;
    while p < limit
      invariant start <= p <= limit
      invariant Scan(buf[p..end], start + MAX_ENCODED_INT_LEN - p, val, p - start) == Decode(buf[start..end])
    {
      var c := buf[p];
      assert buf[p..end][1..] == buf[p + 1..end];
      val := Wrap(val * 128 + c % 128);
      p := p + 1;
      if c < 128 {
        return Number(val, p - start);
      }
    }
    n := Broken(val);
  }

  /** All seven-bit groups of n, each marked as having a successor. */
  function EncodeHigh(n: nat): bytes {
    if n == 0 then [] else EncodeHigh(n / 128) + [128 + n % 128]
  }

  function Encode(n: nat): (r: bytes) { EncodeHigh(n / 128) + [n % 128] }

  function Pow128(k: nat): nat { if k == 0 then 1 else 128 * Pow128(k - 1) }

  lemma {:induction false} EncodeHighLength(n: nat, k: nat)
    requires n < Pow128(k)
    ensures |EncodeHigh(n)| <= k
  {
    if n != 0 {
      assert k > 0;
      EncodeHighLength(n / 128, k - 1);
    }
  }

  lemma {:induction false} ScanHigh(n: nat, rest: bytes, room: nat, used: nat)
    requires n < LONG_LIMIT && |EncodeHigh(n)| <= room
    ensures Scan(EncodeHigh(n) + rest, room, 0, used)
         == Scan(rest, room - |EncodeHigh(n)|, n, used + |EncodeHigh(n)|)
  {
    if n == 0 {
      assert EncodeHigh(n) + rest == rest;
    } else {
      var d: byte := 128 + n % 128;
      var tail := [d] + rest;
      assert EncodeHigh(n) + rest == EncodeHigh(n / 128) + tail;
      ScanHigh(n / 128, tail, room, used);
      ScanDigit(n, n / 128, d, rest, room - |EncodeHigh(n / 128)|, used + |EncodeHigh(n / 128)|);
    }
  }

  /** One more digit of n, with or without the continuation bit. */
  lemma ScanDigit(n: nat, acc: nat, d: byte, rest: bytes, room: nat, used: nat)
    requires n == acc * 128 + d % 128 && n < LONG_LIMIT && room > 0
    ensures Scan([d] + rest, room, acc, used)
         == if d < 128 then Number(n, used + 1) else Scan(rest, room - 1, n, used + 1)
  {
    assert ([d] + rest)[1..] == rest;
  }

  lemma Pow128Nine()
    ensures Pow128(8) == 0x100_0000_0000_0000
  {
    assert Pow128(2) == 16384;
    assert Pow128(4) == 16384 * 16384;
    assert Pow128(6) == 16384 * 16384 * 16384;
  }

  lemma EncodedLength(n: nat)
    requires n < LONG_LIMIT
    ensures |EncodeHigh(n / 128)| <= 8
  {
    Pow128Nine();
    EncodeHighLength(n / 128, 8);
  }

  /** Every number a C long can hold survives, within nine bytes and so within the cap. */
  lemma NumberRoundTrip(n: nat, rest: bytes)
    requires n < LONG_LIMIT
    ensures |Encode(n)| <= 9 < MAX_ENCODED_INT_LEN
    ensures Decode(Encode(n) + rest) == Number(n, |Encode(n)|)
  {
    EncodedLength(n);
    ScanNumber(n, n / 128, n % 128, rest);
  }

  lemma ScanNumber(n: nat, high: nat, low: byte, rest: bytes)
    requires n == high * 128 + low && low < 128 && n < LONG_LIMIT && |EncodeHigh(high)| <= 8
    ensures Decode(EncodeHigh(high) + [low] + rest) == Number(n, |EncodeHigh(high)| + 1)
  {
    hide Scan, EncodeHigh;
    assert EncodeHigh(high) + [low] + rest == EncodeHigh(high) + ([low] + rest);
    ScanHigh(high, [low] + rest, MAX_ENCODED_INT_LEN, 0);
    ScanDigit(n, high, low, rest, MAX_ENCODED_INT_LEN - |EncodeHigh(high)|, |EncodeHigh(high)|);
  }

  /** Exactly the numbers below 2^63 come back. */
  lemma NumberRoundTripExactly(n: nat, rest: bytes)
    ensures Decode(Encode(n) + rest) == Number(n, |Encode(n)|) <==> n < LONG_LIMIT
  {
    if n < LONG_LIMIT {
      NumberRoundTrip(n, rest);
    } else {
      ScanInRange(Encode(n) + rest, MAX_ENCODED_INT_LEN, 0, 0);
    }
  }

  lemma {:induction false} ScanInRange(s: bytes, room: nat, acc: int, used: nat)
    ensures Scan(s, room, acc, used).Number? ==> -LONG_LIMIT <= Scan(s, room, acc, used).val < LONG_LIMIT
    decreases |s|
  {
    if s != [] && room != 0 && s[0] >= 128 {
      ScanInRange(s[1..], room - 1, Wrap(acc * 128 + s[0] % 128), used + 1);
    }
  }

  /** The exact number that a digit string spells, after acc. */
  function Value(s: bytes, acc: int): int {
    if s == [] then acc else Value(s[1..], acc * 128 + s[0] % 128)
  }

  /** The digits that are read: up to the last one, or all for which there is room. */
  function Taken(s: bytes, room: nat, acc: int): nat {
    var n := Scan(s, room, acc, 0);
    if n.Number? then n.used else Min(room, |s|)
  }

  lemma ScanFrom(s: bytes, room: nat, acc: int, used: nat)
    ensures var n := Scan(s, room, acc, 0);
            Scan(s, room, acc, used) == if n.Number? then Number(n.val, n.used + used) else n
    decreases |s|
  {
    if s != [] && room != 0 && s[0] >= 128 {
      var v := Wrap(acc * 128 + s[0] % 128);
      ScanFrom(s[1..], room - 1, v, used + 1);
      ScanFrom(s[1..], room - 1, v, 1);
    }
  }

  /** Whatever is stored is the number that the digits read spell, modulo 2^64, also when no last
      digit is found. */
  lemma {:induction false} DecodedValue(s: bytes, room: nat, acc: int, exact: int)
    requires (exact - acc) % 0x1_0000_0000_0000_0000 == 0
    ensures (Value(s[..Taken(s, room, acc)], exact) - Scan(s, room, acc, 0).val) % 0x1_0000_0000_0000_0000 == 0
    decreases |s|
  {
    var k := Taken(s, room, acc);
    if s != [] && room != 0 {
      var v := Wrap(acc * 128 + s[0] % 128);
      var e := exact * 128 + s[0] % 128;
      assert (e - v) % 0x1_0000_0000_0000_0000 == 0 by { WrapStep(exact, acc, s[0] % 128); }
      assert s[..k][0] == s[0] && s[..k][1..] == s[1..k];
      if s[0] < 128 {
        assert s[1..k] == [];
      } else {
        ScanFrom(s[1..], room - 1, v, 1);
        DecodedValue(s[1..], room - 1, v, e);
        assert s[1..][..k - 1] == s[1..k];
      }
    }
  }

  /** The k-th byte is the first without the high bit, and among the first ten. */
  predicate EndsAt(s: bytes, k: int) {
    0 <= k < |s| && k < 10 && s[k] < 0x80 && forall j | 0 <= j < k :: s[j] >= 0x80
  }

  lemma {:induction false} ScanEndsAt(s: bytes, room: nat, acc: int, used: nat, k: nat)
    requires k <= |s| && k <= room && forall j | 0 <= j < k :: s[j] >= 128
    ensures k < |s| && k < room && s[k] < 128 ==> var n := Scan(s, room, acc, used); n.Number? && n.used == used + k + 1
    ensures k == |s| || k == room ==> Scan(s, room, acc, used).Broken?
    decreases k
  {
    if k > 0 { ScanEndsAt(s[1..], room - 1, Wrap(acc * 128 + s[0] % 128), used + 1, k - 1); }
  }

  lemma {:induction false} FirstLow(s: bytes, room: nat) returns (k: nat)
    ensures k <= |s| && k <= room && forall j | 0 <= j < k :: s[j] >= 128
    ensures k == |s| || k == room || s[k] < 128
  {
    k := 0;
    if s != [] && room > 0 && s[0] >= 128 {
      k := FirstLow(s[1..], room - 1);
      forall j | 0 <= j < k + 1 ensures s[j] >= 128 {
        if j > 0 { assert s[j] == s[1..][j - 1]; }
      }
      k := k + 1;
    }
  }

  /** A number is decoded exactly when one of the first ten bytes ends it, and then up to that byte. */
  lemma DecodesExactly(s: bytes)
    ensures Decode(s).Number? <==> exists k :: EndsAt(s, k)
    ensures forall k | EndsAt(s, k) :: Decode(s).Number? && Decode(s).used == k + 1
  {
    hide Scan;
    var k := FirstLow(s, 10);
    ScanEndsAt(s, 10, 0, 0, k);
    if k < |s| && k < 10 { assert EndsAt(s, k); }
    forall j | EndsAt(s, j) ensures j == k {
    }
  }

  lemma WrapStep(exact: int, acc: int, d: int)
    requires (exact - acc) % 0x1_0000_0000_0000_0000 == 0
    ensures (exact * 128 + d - Wrap(acc * 128 + d)) % 0x1_0000_0000_0000_0000 == 0
  {
    var q := (exact - acc) / 0x1_0000_0000_0000_0000;
    var w := Wrap(acc * 128 + d);
    assert (acc * 128 + d - w) % 0x1_0000_0000_0000_0000 == 0;
    var r := (acc * 128 + d - w) / 0x1_0000_0000_0000_0000;
    assert exact * 128 + d - w == (q * 128 + r) * 0x1_0000_0000_0000_0000;
  }

  /** The bytes after the number do not matter. */
  lemma {:induction false} ScanLocal(a: bytes, b: bytes, room: nat, acc: int, used: nat)
    requires var n := Scan(a, room, acc, used);
             n.Number? && n.used - used <= |b| && a[..n.used - used] == b[..n.used - used]
    ensures Scan(b, room, acc, used) == Scan(a, room, acc, used)
    decreases |a|
  {
    var n := Scan(a, room, acc, used);
    var k := n.used - used;
    assert a[0] == a[..k][0] == b[..k][0] == b[0];
    if a[0] >= 128 {
      assert a[1..][..k - 1] == a[..k][1..] == b[..k][1..] == b[1..][..k - 1];
      ScanLocal(a[1..], b[1..], room - 1, Wrap(acc * 128 + a[0] % 128), used + 1);
    }
  }

  lemma DecodeLocal(a: bytes, b: bytes)
    requires Decode(a).Number? && Decode(a).used <= |b|
    requires a[..Decode(a).used] == b[..Decode(a).used]
    ensures Decode(b) == Decode(a)
  {
    ScanLocal(a, b, MAX_ENCODED_INT_LEN, 0, 0);
  }
}
