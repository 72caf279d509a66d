/** HTTP body framing: chunked bodies (RFC 7230 section 4.1) and bodies of a given length
    (section 3.3.3), from the first byte of the body on. Positions are absolute stream offsets. */
module HttpBody {
  import opened Bytes

  const CR: byte := 13
  const LF: byte := 10

  // ---- strtol, base 16 ----

  predicate IsBlank(c: int) { c == 32 || 9 <= c <= 13 }

  predicate IsHex(c: int) { 48 <= c <= 57 || 65 <= c <= 70 || 97 <= c <= 102 }

  function HexOf(c: int): nat
    requires IsHex(c)
  {
    if c <= 57 then c - 48 else if c <= 70 then c - 55 else c - 87
  }

  function Blanks(s: bytes): (n: nat)
    ensures n <= |s|
  {
    if s != [] && IsBlank(s[0]) then 1 + Blanks(s[1..]) else 0
  }

  function HexRun(s: bytes): (n: nat)
    ensures n <= |s| && forall i | 0 <= i < n :: IsHex(s[i])
  {
    if s != [] && IsHex(s[0]) then 1 + HexRun(s[1..]) else 0
  }

  function HexValue(s: bytes): nat
    requires forall c | c in s :: IsHex(c)
  {
    if s == [] then 0 else HexValue(s[..|s| - 1]) * 16 + HexOf(s[|s| - 1])
  }

  function Sign(s: bytes): nat { if s != [] && (s[0] == 43 || s[0] == 45) then 1 else 0 }

  function Prefix(s: bytes): nat {
    if |s| >= 3 && s[0] == 48 && (s[1] == 88 || s[1] == 120) && IsHex(s[2]) then 2 else 0
  }

  /** The value read and the number of bytes it takes; (0, 0) if there is no number. */
  function Strtol(s: bytes): (int, nat) {
    var b := Blanks(s);
    var g := b + Sign(s[b..]);
    var p := g + Prefix(s[g..]);
    var n := HexRun(s[p..]);
    if n == 0 then (0, 0)
    else
      var v := HexValue(s[p..p + n]);
      (if s[b] == 45 then -Min(v, LONG_MAX + 1) else Min(v, LONG_MAX), p + n)
  }

  /** A long stored in an int. */
  function Int32(x: int): int { (x + 0x8000_0000) % 0x1_0000_0000 - 0x8000_0000 }

  /** The size on a line that is all number and not negative. */
  function LineSize(line: bytes): Option<nat> {
    var (v, used) := Strtol(line);
    if used == |line| && Int32(v) >= 0 then Some(Int32(v)) else None
  }

  lemma {:induction false} BlanksLocal(line: bytes, rest: bytes)
    ensures Blanks(line + [CR] + rest) == Blanks(line) < |line|
         || (Blanks(line) == |line| && Blanks(line + [CR] + rest) > |line|)
  {
    var s := line + [CR] + rest;
    if line != [] && IsBlank(line[0]) {
      BlanksLocal(line[1..], rest);
      assert s[1..] == line[1..] + [CR] + rest;
    }
  }

  lemma {:induction false} HexRunLocal(line: bytes, rest: bytes)
    ensures HexRun(line + [CR] + rest) == HexRun(line)
  {
    var s := line + [CR] + rest;
    if line != [] && IsHex(line[0]) {
      HexRunLocal(line[1..], rest);
      assert s[1..] == line[1..] + [CR] + rest;
    }
  }

  lemma NumberLocal(line: bytes, rest: bytes, k: nat)
    requires k <= |line|
    ensures var s := line + [CR] + rest;
            && Sign(s[k..]) == Sign(line[k..]) && Prefix(s[k..]) == Prefix(line[k..])
            && HexRun(s[k..]) == HexRun(line[k..])
  {
    var s := line + [CR] + rest;
    assert s[k..] == line[k..] + [CR] + rest;
    HexRunLocal(line[k..], rest);
  }

  /** The carriage return ends the number, so that reading on past the line changes nothing, unless
      the line is empty. */
  lemma StrtolLocal(line: bytes, rest: bytes)
    requires line != []
    ensures var (v, used), (v', used') := Strtol(line + [CR] + rest), Strtol(line);
            (used == |line| <==> used' == |line|) && (used == |line| ==> v == v')
  {
    hide Blanks, HexRun, HexValue, Sign, Prefix;
    var s, b := line + [CR] + rest, Blanks(line);
    BlanksLocal(line, rest);
    if b < |line| {
      NumberLocal(line, rest, b);
      var g := b + Sign(line[b..]);
      SignFits(line[b..]);
      NumberLocal(line, rest, g);
      var p := g + Prefix(line[g..]);
      SignFits(line[g..]);
      NumberLocal(line, rest, p);
      var n := HexRun(line[p..]);
      assert s[p..p + n] == line[p..p + n] && s[b] == line[b];
    } else {
      assert line[b..] == [];
      SignFits([]);
    }
  }

  lemma SignFits(s: bytes)
    ensures Sign(s) <= |s| && Prefix(s) <= |s| && HexRun(s) <= |s|
  {
  }

  // ---- chunks ----

  /** The first CR LF pair at or after i. */
  function FindCrlf(s: bytes, i: nat): (e: Option<nat>)
    ensures e.Some? ==> i <= e.value && e.value + 2 <= |s|
    decreases |s| - i
  {
    if i + 1 >= |s| then None else if s[i] == CR && s[i + 1] == LF then Some(i) else FindCrlf(s, i + 1)
  }

  /** The user's callback: what it answers when the slices so far have been passed to it. */
  type Callback = seq<bytes> -> int

  /** How a body ends: read to its end, cut off by the end of the stream, failed, or led to a line
      that is empty where a size is due, of which nothing is said. */
  datatype Outcome =
    | Complete(slices: seq<bytes>, pos: int)
    | CutOff(slices: seq<bytes>)
    | Failed(slices: seq<bytes>, code: int)
    | BlankSize

  const PROCESS_BODY := 0x6000

  /** From a size line on. */
  function Chunks(s: bytes, start: nat, cb: Callback, got: seq<bytes>): (o: Outcome)
    ensures o.Failed? ==> o.code > 0
    decreases |s| - start, 1
  {
    match FindCrlf(s, start)
    case None => CutOff(got)
    case Some(e) =>
      if e == start then BlankSize
      else match LineSize(s[start..e])
        case None => Failed(got, PROCESS_BODY + 1)
        case Some(size) => ChunkData(s, e + 2, size, cb, got)
  }

  /** From the first byte of a chunk's data on. The last chunk is passed on like the others. */
  function ChunkData(s: bytes, start: nat, size: nat, cb: Callback, got: seq<bytes>): (o: Outcome)
    ensures o.Failed? ==> o.code > 0
    decreases |s| - start, 0
  {
    var end := start + size;
    if end >= |s| then CutOff(got)
    else
      var more := got + [s[start..end]];
      if cb(more) != 0 then Failed(more, PROCESS_BODY + 2)
      else if size > 0 then Chunks(s, end + 2, cb, more)
      else Complete(more, end + 2)
  }

  function Slice(s: bytes, start: int, end: int): bytes {
    if 0 <= start <= end <= |s| then s[start..end] else []
  }

  /** A body of a given length; -1 stands for a length not given. */
  function Fixed(s: bytes, start: nat, size: int, cb: Callback): (o: Outcome)
    ensures o.Failed? ==> o.code > 0
  {
    if start + size > |s| then CutOff([])
    else
      var slices := [Slice(s, start, start + size)];
      if cb(slices) != 0 then Failed(slices, PROCESS_BODY + 3) else Complete(slices, start + size)
  }

  lemma {:induction false} FindCrlfMore(s: bytes, i: nat, more: bytes)
    requires FindCrlf(s, i).Some?
    ensures FindCrlf(s + more, i) == FindCrlf(s, i)
    decreases |s| - i
  {
    if !(s[i] == CR && s[i + 1] == LF) { FindCrlfMore(s, i + 1, more); }
  }

  lemma FindCrlfAt(s: bytes, i: nat)
    requires FindCrlf(s, i).Some?
    ensures var e := FindCrlf(s, i).value; s[i..] == s[i..e] + [CR] + s[e + 1..]
    decreases |s| - i
  {
    if !(s[i] == CR && s[i + 1] == LF) { FindCrlfAt(s, i + 1); }
  }

  /** Reading a size off what has arrived, with the whole stream in view. */
  lemma SizeStep(data: bytes, more: bytes, start: nat, cb: Callback, got: seq<bytes>)
    requires FindCrlf(data, start).Some?
    ensures var e := FindCrlf(data, start).value;
            var (v, used) := Strtol(data[start..]);
            var whole := Chunks(data + more, start, cb, got);
            if e == start then whole == BlankSize
            else if start + used == e && Int32(v) >= 0 then whole == ChunkData(data + more, e + 2, Int32(v), cb, got)
            else whole == Failed(got, PROCESS_BODY + 1)
    ensures var e := FindCrlf(data, start).value;
            var (v, used) := Strtol(data[start..]);
            e > start ==> (LineSize(data[start..e]).Some? <==> start + used == e && Int32(v) >= 0)
  {
    hide Strtol, FindCrlf, ChunkData;
    var e := FindCrlf(data, start).value;
    FindCrlfMore(data, start, more);
    FindCrlfAt(data, start);
    if e > start {
      StrtolLocal(data[start..e], data[e + 1..]);
      assert (data + more)[start..e] == data[start..e];
    }
  }

  lemma CrlfIn(s: bytes, i: nat)
    ensures i >= |s| ==> FindCrlf(s, i) == None
  {
  }

  // ---- the parser as the program runs it ----

  datatype ChunkState = AtSize | AtData

  const PARSE_NEED_MORE := -2

  const HTTP_PARSE_RESPONSE := 0x7000

  /** The line that has arrived is no size. */
  predicate SizeFails(s: bytes, start: nat) {
    var e := FindCrlf(s, start);
    e.Some? && e.value > start && LineSize(s[start..e.value]) == None
  }

  class BodyParser {
    const cb: Callback
    const chunked: bool
    const bodySize: int
    var data: bytes
    /** The reads still to come. */
    var incoming: seq<bytes>
    var pos: int
    var bodyStart: int
    var bodyEnd: int
    var chunkState: ChunkState
    var chunkSize: int
    var chunkStart: int
    var chunkEnd: int
    /** What the callback has been given so far. */
    var given: seq<bytes>

    ghost function Total(): bytes reads this { data + Concat(incoming) }

    /** The parser behind the headers: everything stands at the first byte of the body. */
    constructor (cb: Callback, chunked: bool, bodySize: int, data: bytes, start: nat, incoming: seq<bytes>)
      requires start <= |data|
      ensures AtBody() && Total() == data + Concat(incoming) && pos == start && this.incoming == incoming
      ensures this.cb == cb && this.chunked == chunked && this.bodySize == bodySize
    {
      this.cb, this.chunked, this.bodySize, this.data, this.incoming := cb, chunked, bodySize, data, incoming;
      pos, bodyStart, bodyEnd, chunkStart, chunkEnd, chunkSize := start, start, start, start, start, 0;
      chunkState, given := AtSize, [];
    }

    ghost predicate AtBody() reads this {
      && 0 <= pos <= |data| && bodyStart == bodyEnd == chunkStart == chunkEnd == pos
      && chunkState == AtSize && given == []
    }

    /** findcrlf over what has arrived. */
    method FindCrlfFrom(start: nat) returns (e: Option<nat>)
      ensures e == FindCrlf(data, start)
    {
      var i := start;
      while i < |data|
        invariant FindCrlf(data, i) == FindCrlf(data, start)
      {
        if data[i] == CR {
          if i + 1 < |data| && data[i + 1] == LF { return Some(i); }
        }
        i := i + 1;
      }
      e := None;
    }

    /** The offsets make sense. */
    ghost predicate Sane() reads this {
      if !chunked then
        && given == [] && 0 <= bodyStart && bodyEnd == pos <= |data|
        && (bodyEnd == bodyStart || bodyStart < bodyEnd < bodyStart + bodySize)
      else if chunkState == AtSize then 0 <= chunkStart <= |data| + 1
      else 0 <= chunkStart <= chunkEnd && chunkEnd == pos <= |data| && chunkEnd <= chunkStart + chunkSize
    }

    /** process_body may be called: it looks behind a whole chunk only when there is something. */
    ghost predicate Ready() reads this { Sane() && (chunked && chunkState == AtData ==> pos < |data|) }

    /** After process_body has asked for more. */
    ghost predicate Between() reads this {
      && Sane() && (!chunked ==> pos == |data| < bodyStart + bodySize)
      && (chunked && chunkState == AtSize && pos >= |data| ==> FindCrlf(data, chunkStart) == None)
    }

    /** What the stream means from here on. */
    ghost function Rest(): Outcome
      reads this
      requires Sane()
    {
      if !chunked then Fixed(Total(), bodyStart, bodySize, cb)
      else if chunkState == AtSize then Chunks(Total(), chunkStart, cb, given)
      else ChunkData(Total(), chunkStart, chunkSize, cb, given)
    }

    /** What a call has come to when it returns res. */
    ghost predicate Came(o: Outcome, res: int) reads this {
      match o
      case Complete(slices, p) => res == 0 && given == slices && pos == p
      case CutOff(slices) => res == 0 && given == slices
      case Failed(slices, code) => res == code && given == slices
      case BlankSize => true
    }

    /** How the loop ends: as the call does, with a code of its own for a failure. */
    ghost predicate Ended(o: Outcome, atOnce: bool, res: int) reads this {
      match o
      case Failed(slices, _) => res == HTTP_PARSE_RESPONSE + (if atOnce then 12 else 13) && given == slices
      case _ => Came(o, res)
    }

    /** A call of process_body is on the way to what the stream means. */
    ghost predicate OnTheWay(whole: Outcome, res: int) reads this {
      if res == PARSE_NEED_MORE then Between() && (Rest() == whole || whole == BlankSize) else Came(whole, res)
    }

    /** A failure that shows in what has arrived with the headers. */
    ghost predicate AtOnce() reads this {
      if chunked then 0 <= chunkStart && SizeFails(data, chunkStart) else bodyStart + bodySize <= |data|
    }

    /** The size line of a chunk. */
    method ProcessSize(ghost whole: Outcome) returns (res: int)
      requires Ready() && chunked && chunkState == AtSize && (Rest() == whole || whole == BlankSize)
      modifies `pos, `chunkState, `chunkSize, `chunkStart, `chunkEnd
      ensures OnTheWay(whole, res)
      ensures res == PARSE_NEED_MORE ==>
                if chunkState == AtSize then pos == |data| && chunkStart == old(chunkStart)
                else chunkStart > old(chunkStart)
      ensures whole != BlankSize ==> (res == PARSE_NEED_MORE <==> !old(AtOnce()))
    {
      hide Strtol, FindCrlf, Chunks, ChunkData;
      var found := FindCrlfFrom(chunkStart);
      if found == None {
        pos := |data|;
        return PARSE_NEED_MORE;
      }
      SizeStep(data, Concat(incoming), chunkStart, cb, given);
      var end := found.value;
      var (size, used) := Strtol(data[chunkStart..]);
      chunkSize := Int32(size);
      if chunkStart + used != end || chunkSize < 0 { return PROCESS_BODY + 1; }
      pos := end + 2;
      chunkStart, chunkEnd, chunkState := pos, pos, AtData;
      res := PARSE_NEED_MORE;
    }

    /** The data of a chunk; the two bytes behind it are skipped unseen. */
    method ProcessData(ghost whole: Outcome) returns (res: int)
      requires Ready() && chunked && chunkState == AtData && (Rest() == whole || whole == BlankSize)
      modifies `pos, `chunkState, `chunkStart, `chunkEnd, `given
      ensures OnTheWay(whole, res)
      ensures res == PARSE_NEED_MORE ==>
                if chunkState == AtData then chunkStart == old(chunkStart) && pos > old(pos)
                else chunkStart > old(chunkStart)
    {
      hide Chunks;
      var needed, navail := chunkSize - (chunkEnd - chunkStart), |data| - pos;
      if needed > 0 {
        var incr := Min(needed, navail);
        chunkEnd, pos := chunkEnd + incr, pos + incr;
        return PARSE_NEED_MORE;
      }
      assert Total()[chunkStart..chunkEnd] == data[chunkStart..chunkEnd];
      given := given + [data[chunkStart..chunkEnd]];
      if cb(given) != 0 { return PROCESS_BODY + 2; }
      pos := pos + 2;
      chunkState, chunkStart, chunkEnd := AtSize, pos, pos;
      CrlfIn(data, chunkStart);
      res := if chunkSize > 0 then PARSE_NEED_MORE else 0;
    }

    /** A body of a given length. */
    method ProcessFixed(ghost whole: Outcome) returns (res: int)
      requires Ready() && !chunked && (Rest() == whole || whole == BlankSize)
      modifies `pos, `bodyEnd, `chunkEnd, `given
      ensures OnTheWay(whole, res) && (res == PARSE_NEED_MORE <==> !old(AtOnce()))
    {
      var incr := Min(|data| - pos, bodySize - (bodyEnd - bodyStart));
      bodyEnd := bodyEnd + incr;
      chunkEnd := bodyEnd;
      pos := pos + incr;
      if bodyEnd - bodyStart < bodySize { return PARSE_NEED_MORE; }
      assert Slice(Total(), bodyStart, bodyEnd) == Slice(data, bodyStart, bodyEnd);
      given := [Slice(data, bodyStart, bodyEnd)];
      res := if cb(given) != 0 then PROCESS_BODY + 3 else 0;
    }

    method ProcessBody(ghost whole: Outcome) returns (res: int)
      requires Ready() && (Rest() == whole || whole == BlankSize)
      modifies `pos, `bodyEnd, `chunkState, `chunkSize, `chunkStart, `chunkEnd, `given
      ensures OnTheWay(whole, res)
      ensures res == PARSE_NEED_MORE && chunkStart == old(chunkStart) && old(pos) < |data| ==> pos > old(pos)
      ensures res == PARSE_NEED_MORE ==> chunkStart >= old(chunkStart)
      ensures whole != BlankSize && old(chunkState) == AtSize ==> (res == PARSE_NEED_MORE <==> !old(AtOnce()))
    {
      if !chunked {
        res := ProcessFixed(whole);
      } else if chunkState == AtSize {
        res := ProcessSize(whole);
      } else {
        res := ProcessData(whole);
      }
    }

    /** Append one read. */
    method ConsumeData() returns (ok: bool)
      modifies `data, `incoming
      ensures Total() == old(Total()) && ok == (old(incoming) != [])
      ensures ok ==> data == old(data) + old(incoming)[0] && incoming == old(incoming)[1..]
      ensures !ok ==> data == old(data) && incoming == []
      ensures forall r | r in incoming :: r in old(incoming)
    {
      if incoming == [] { return false; }
      assert Total() == (data + incoming[0]) + Concat(incoming[1..]);
      data, incoming := data + incoming[0], incoming[1..];
      ok := true;
    }

    /** The end of the stream, where more is needed. */
    lemma NoMore(whole: Outcome)
      requires Between() && (Rest() == whole || whole == BlankSize) && pos >= |data| && incoming == []
      ensures Came(whole, 0)
    {
      assert Total() == data;
    }

    /** The next read, if nothing is left of the ones before. */
    method MoreIfNeeded(ghost whole: Outcome) returns (ok: bool)
      requires Between() && (Rest() == whole || whole == BlankSize) && forall r | r in incoming :: r != []
      modifies `data, `incoming
      ensures Total() == old(Total()) && forall r | r in incoming :: r != []
      ensures if ok then Ready() && Rest() == old(Rest()) else Came(whole, 0)
      ensures ok ==> |incoming| < |old(incoming)| || (data == old(data) && incoming == old(incoming) && pos < |data|)
    {
      hide Chunks, ChunkData, Fixed, FindCrlf;
      ok := true;
      if pos >= |data| {
        if incoming == [] { NoMore(whole); }
        assert incoming != [] ==> incoming[0] in incoming;
        ok := ConsumeData();
      }
    }

    /** The body states of http_parse_response. What they come to is a function of the bytes of the
        stream; how these were split into reads makes no difference. */
    method ParseBody() returns (res: int)
      requires AtBody() && forall r | r in incoming :: r != []
      modifies `data, `incoming, `pos, `bodyEnd, `chunkState, `chunkSize, `chunkStart, `chunkEnd, `given
      ensures var whole := if chunked then Chunks(old(Total()), old(pos), cb, [])
                           else Fixed(old(Total()), old(pos), bodySize, cb);
              Ended(whole, old(AtOnce()), res)
    {
      hide Chunks, ChunkData, Fixed, FindCrlf, SizeFails;
      ghost var whole := Rest();
      CrlfIn(data, chunkStart);
      res := ProcessBody(whole);
      if res != 0 && res != PARSE_NEED_MORE { return HTTP_PARSE_RESPONSE + 12; }
      while res == PARSE_NEED_MORE
        invariant forall r | r in incoming :: r != []
        invariant OnTheWay(whole, res) && (res == 0 || res == PARSE_NEED_MORE)
        invariant res == PARSE_NEED_MORE && whole != BlankSize ==> !old(AtOnce())
        decreases res == PARSE_NEED_MORE, |incoming|, |data| - chunkStart, |data| - pos
      {
        var ok := MoreIfNeeded(whole);
        if !ok { return 0; }
        res := ProcessBody(whole);
        if res != 0 && res != PARSE_NEED_MORE { return HTTP_PARSE_RESPONSE + 13; }
      }
    }
  }

  // ---- chunked bodies as RFC 7230 section 4.1 spells them ----

  const CRLF: bytes := [13, 10]

  /** The line prints n: its last digit is n mod 16, and the digits before it print n / 16. */
  predicate Numeral(line: bytes, n: nat)
    decreases |line|
  {
    line != [] && Prints(line[|line| - 1], n % 16)
    && if |line| == 1 then n < 16 else Numeral(line[..|line| - 1], n / 16)
  }

  /** The digits of n, as many as it needs, each letter small or capital as asked. */
  function Hexadecimal(n: nat, capital: nat -> bool): (r: bytes)
    ensures Numeral(r, n)
  {
    DigitsAreBytes();
    var digit: byte := (if capital(n) then UPPER else LOWER)[n % 16] as int;
    if n < 16 then [digit]
    else
      var r := Hexadecimal(n / 16, capital) + [digit];
      assert r[..|r| - 1] == Hexadecimal(n / 16, capital);
      r
  }

  lemma PrintsExactly(c: byte, v: nat)
    requires v < 16
    ensures Prints(c, v) <==> IsHex(c) && HexOf(c) == v
  {
    DigitsAreBytes();
  }

  lemma LastDigit(high: nat, low: nat, n: nat)
    requires low < 16
    ensures high * 16 + low == n <==> high == n / 16 && low == n % 16
  {
  }

  lemma HexValueSnoc(first: bytes, last: byte)
    requires (forall c | c in first :: IsHex(c)) && IsHex(last)
    ensures forall c | c in first + [last] :: IsHex(c)
    ensures HexValue(first + [last]) == HexValue(first) * 16 + HexOf(last)
  {
    assert (first + [last])[..|first|] == first;
  }

  lemma NumeralSnoc(first: bytes, last: byte, n: nat)
    ensures Numeral(first + [last], n)
       <==> Prints(last, n % 16) && if first == [] then n < 16 else Numeral(first, n / 16)
  {
    hide Prints;
    assert (first + [last])[..|first|] == first;
  }

  /** What the parser's digits come to is the number that was printed, with any leading zeros. */
  lemma {:induction false} NumeralExactly(line: bytes, n: nat)
    ensures Numeral(line, n) <==> line != [] && (forall c | c in line :: IsHex(c)) && HexValue(line) == n
    decreases |line|
  {
    hide Prints, Numeral, IsHex, HexOf, HexValue;
    if line == [] {
      assert !Numeral(line, n) by { EmptyIsNone(n); }
    } else {
      var first, last := line[..|line| - 1], line[|line| - 1];
      assert line == first + [last];
      NumeralSnoc(first, last, n);
      PrintsExactly(last, n % 16);
      NumeralExactly(first, n / 16);
      if IsHex(last) && forall c | c in first :: IsHex(c) {
        HexValueSnoc(first, last);
        DigitBelow(last);
        LastDigit(HexValue(first), HexOf(last), n);
        if first == [] { NothingIsZero(); }
      }
      assert last in line && forall c | c in first :: c in line;
    }
  }

  lemma EmptyIsNone(n: nat)
    ensures !Numeral([], n)
  {
  }

  lemma NothingIsZero()
    ensures HexValue([]) == 0
  {
  }

  lemma DigitBelow(c: byte)
    requires IsHex(c)
    ensures HexOf(c) < 16
  {
  }

  /** A chunk with its size line: hexadecimal digits, without extensions. */
  datatype Chunk = Chunk(line: bytes, data: bytes)

  /** The line spells n, and n fits the parser's int. */
  predicate Spells(line: bytes, n: nat) { Numeral(line, n) && n < 0x8000_0000 }

  predicate GoodChunk(c: Chunk) { Spells(c.line, |c.data|) && c.data != [] }

  /** The chunks, the last chunk of size zero, and no trailers. */
  function EncodeBody(cs: seq<Chunk>, last: bytes): (r: bytes)
    ensures |r| >= |CRLF + CRLF|
  {
    if cs == [] then last + CRLF + CRLF
    else cs[0].line + CRLF + (cs[0].data + CRLF + EncodeBody(cs[1..], last))
  }

  function Datas(cs: seq<Chunk>): seq<bytes> { if cs == [] then [] else [cs[0].data] + Datas(cs[1..]) }

  lemma {:induction false} HexRunAll(line: bytes)
    requires forall c | c in line :: IsHex(c)
    ensures HexRun(line) == |line|
  {
    if line != [] { HexRunAll(line[1..]); }
  }

  lemma SpelledSize(line: bytes, n: nat)
    requires Spells(line, n)
    ensures LineSize(line) == Some(n)
  {
    hide HexRun, HexValue, Numeral;
    NumeralExactly(line, n);
    HexRunAll(line);
    assert line[0] in line && (|line| > 1 ==> line[1] in line);
    assert Blanks(line) == 0 && line[0..] == line && line[0..|line|] == line;
  }

  // ---- which lines are sizes ----

  const MINUS_SIGN: bytes := [45]

  predicate IsSign(s: bytes) { s == [] || s == [43] || s == MINUS_SIGN }

  predicate IsPrefix(s: bytes) { s == [] || s == [48, 120] || s == [48, 88] }

  /** A size line as strtol takes it: white space, a sign, 0x or 0X, and a numeral. */
  ghost predicate SizeParts(line: bytes, blanks: bytes, sign: bytes, prefix: bytes, digits: bytes, v: nat) {
    && line == blanks + (sign + (prefix + digits)) && Numeral(digits, v)
    && (forall c | c in blanks :: c in {9, 10, 11, 12, 13, 32})
    && IsSign(sign) && IsPrefix(prefix)
  }

  /** The number of a long that stands for what was read. */
  function Clamped(negative: bool, v: nat): int {
    if negative then -Min(v, 0x8000_0000_0000_0000) else Min(v, 0x7fff_ffff_ffff_ffff)
  }

  /** The line says that the chunk has n bytes: a C int holds n after the number was stored in it. */
  ghost predicate SaysSize(line: bytes, n: nat) {
    n < 0x8000_0000 && exists blanks, sign, prefix, digits, v :: SizeParts(line, blanks, sign, prefix, digits, v)
                                   && (Clamped(sign == MINUS_SIGN, v) - n) % 0x1_0000_0000 == 0
  }

  lemma {:induction false} BlanksAll(blanks: bytes, rest: bytes)
    requires (forall c | c in blanks :: IsBlank(c)) && (rest != [] ==> !IsBlank(rest[0]))
    ensures Blanks(blanks + rest) == |blanks|
  {
    if blanks == [] {
      assert blanks + rest == rest;
    } else {
      assert (blanks + rest)[1..] == blanks[1..] + rest && blanks[0] in blanks;
      BlanksAll(blanks[1..], rest);
    }
  }

  /** The number that ends the line, behind b blanks, a sign up to g and a prefix up to p. */
  lemma StrtolTo(line: bytes, b: nat, g: nat, p: nat)
    requires b <= g <= p < |line| && Blanks(line) == b && Sign(line[b..]) == g - b && Prefix(line[g..]) == p - g
    requires HexRun(line[p..]) == |line| - p
    ensures forall c | c in line[p..] :: IsHex(c)
    ensures var v := HexValue(line[p..]);
            Strtol(line) == (if line[b] == 45 then -Min(v, LONG_MAX + 1) else Min(v, LONG_MAX), |line|)
  {
    hide Blanks, HexRun, HexValue, Sign, Prefix;
    assert line[p..p + HexRun(line[p..])] == line[p..];
  }

  lemma SignThere(sign: bytes, rest: bytes)
    requires IsSign(sign) && rest != [] && rest[0] != 43 && rest[0] != 45
    ensures Sign(sign + rest) == |sign| && ((sign + rest)[0] == 45 <==> sign == MINUS_SIGN)
    ensures !IsBlank(rest[0]) ==> !IsBlank((sign + rest)[0])
  {
  }

  lemma PrefixThere(prefix: bytes, digits: bytes)
    requires IsPrefix(prefix) && digits != [] && forall c | c in digits :: IsHex(c)
    ensures Prefix(prefix + digits) == |prefix| && IsHex((prefix + digits)[0])
  {
    assert digits[0] in digits && (|digits| > 1 ==> digits[1] in digits);
    if prefix == [] { assert prefix + digits == digits; }
  }

  lemma SizePartsRead(line: bytes, blanks: bytes, sign: bytes, prefix: bytes, digits: bytes, v: nat)
    requires SizeParts(line, blanks, sign, prefix, digits, v)
    ensures Strtol(line) == (Clamped(sign == MINUS_SIGN, v), |line|)
  {
    hide Strtol, Blanks, HexRun, HexValue, Numeral, Sign, Prefix;
    var b, g, p := |blanks|, |blanks| + |sign|, |blanks| + |sign| + |prefix|;
    NumeralExactly(digits, v);
    HexRunAll(digits);
    PrefixThere(prefix, digits);
    SignThere(sign, prefix + digits);
    BlanksAll(blanks, sign + (prefix + digits));
    LineParts(line, blanks, sign, prefix, digits);
    StrtolTo(line, b, g, p);
  }

  lemma LineParts(line: bytes, blanks: bytes, sign: bytes, prefix: bytes, digits: bytes)
    requires line == blanks + (sign + (prefix + digits)) && digits != []
    ensures var b, g := |blanks|, |blanks| + |sign|;
            && line[b..] == sign + (prefix + digits) && line[g..] == prefix + digits
            && line[g + |prefix|..] == digits && line[b] == (sign + (prefix + digits))[0]
  {
  }

  lemma {:induction false} BlanksAre(s: bytes)
    ensures forall c | c in s[..Blanks(s)] :: IsBlank(c)
    ensures Blanks(s) < |s| ==> !IsBlank(s[Blanks(s)])
  {
    if s != [] && IsBlank(s[0]) {
      BlanksAre(s[1..]);
      assert s[..Blanks(s)] == [s[0]] + s[1..][..Blanks(s[1..])];
    }
  }

  lemma SignIs(s: bytes)
    ensures Sign(s) <= |s| && IsSign(s[..Sign(s)]) && (s != [] ==> (s[0] == 45 <==> s[..Sign(s)] == MINUS_SIGN))
  {
    if Sign(s) == 1 { assert s[..1] == [s[0]]; }
  }

  lemma PrefixIs(s: bytes)
    ensures Prefix(s) <= |s| && IsPrefix(s[..Prefix(s)])
  {
    if Prefix(s) == 2 { assert s[..2] == [s[0], s[1]]; }
  }

  /** Where the parts of a number that ends the line are. */
  lemma NumberEnds(line: bytes) returns (b: nat, g: nat, p: nat)
    requires line != [] && Strtol(line).1 == |line|
    ensures b <= g <= p < |line| && Blanks(line) == b && Sign(line[b..]) == g - b && Prefix(line[g..]) == p - g
    ensures HexRun(line[p..]) == |line| - p
  {
    hide Blanks, HexRun, HexValue, Sign, Prefix;
    b := Blanks(line);
    SignFits(line[b..]);
    g := b + Sign(line[b..]);
    SignFits(line[g..]);
    p := g + Prefix(line[g..]);
    SignFits(line[p..]);
  }

  lemma ReadHasParts(line: bytes) returns (blanks: bytes, sign: bytes, prefix: bytes, digits: bytes, v: nat)
    requires line != [] && Strtol(line).1 == |line|
    ensures SizeParts(line, blanks, sign, prefix, digits, v)
  {
    hide Strtol, Blanks, HexRun, HexValue, Numeral, Sign, Prefix, IsSign, IsPrefix;
    var b, g, p := NumberEnds(line);
    BlanksAre(line);
    StrtolTo(line, b, g, p);
    SignIs(line[b..]);
    PrefixIs(line[g..]);
    blanks, sign, prefix, digits := line[..b], line[b..g], line[g..p], line[p..];
    v := HexValue(digits);
    NumeralExactly(digits, v);
    assert line[b..][..g - b] == sign && line[g..][..p - g] == prefix;
    WholeLine(line, b, g, p);
  }

  lemma WholeLine(line: bytes, b: nat, g: nat, p: nat)
    requires b <= g <= p <= |line|
    ensures line == line[..b] + (line[b..g] + (line[g..p] + line[p..]))
  {
  }

  lemma Int32Exactly(x: int, n: nat)
    ensures Int32(x) == n <==> n < 0x8000_0000 && (x - n) % 0x1_0000_0000 == 0
  {
  }

  /** The lines that are taken for sizes, and the sizes they give. */
  lemma LineSizeExactly(line: bytes, n: nat)
    requires line != []
    ensures LineSize(line) == Some(n) <==> SaysSize(line, n)
  {
    hide Strtol, SizeParts, Int32;
    var (x, used) := Strtol(line);
    Int32Exactly(x, n);
    forall blanks, sign, prefix, digits, v | SizeParts(line, blanks, sign, prefix, digits, v)
      ensures (x, used) == (Clamped(sign == MINUS_SIGN, v), |line|)
    {
      SizePartsRead(line, blanks, sign, prefix, digits, v);
    }
    if used == |line| {
      var blanks, sign, prefix, digits, v := ReadHasParts(line);
      assert SizeParts(line, blanks, sign, prefix, digits, v);
    }
  }

  // ---- bodies in the stream ----

  lemma {:induction false} NoCrlf(s: bytes, i: nat, e: nat)
    requires i <= e && e + 1 >= |s| && forall k | i <= k < e && k < |s| :: s[k] != CR
    ensures FindCrlf(s, i) == None
    decreases e - i
  {
    if i < e { NoCrlf(s, i + 1, e); }
  }

  lemma {:induction false} FirstCrlf(s: bytes, i: nat, e: nat)
    requires i <= e && e + 2 <= |s| && s[e] == CR && s[e + 1] == LF && forall k | i <= k < e :: s[k] != CR
    ensures FindCrlf(s, i) == Some(e)
    decreases e - i
  {
    if i < e { FirstCrlf(s, i + 1, e); }
  }

  /** A size line, of which the first n bytes are there. */
  lemma LineCut(s: bytes, start: nat, line: bytes, size: nat, rest: bytes, n: nat)
    requires Spells(line, size) && n <= |line + CRLF + rest|
    requires start <= |s| && s[start..] == (line + CRLF + rest)[..n]
    ensures if n < |line| + 2 then FindCrlf(s, start) == None
            else
              && FindCrlf(s, start) == Some(start + |line|) && LineSize(s[start..start + |line|]) == Some(size)
              && s[start + |line| + 2..] == rest[..n - |line| - 2]
  {
    hide FindCrlf, LineSize, HexValue, Numeral;
    NumeralExactly(line, size);
    var e := start + |line|;
    forall k | start <= k < e && k < |s| ensures s[k] != CR {
      assert s[start..][k - start] == line[k - start];
      assert line[k - start] in line;
    }
    if n < |line| + 2 {
      assert |s| <= e + 1;
      NoCrlf(s, start, e);
    } else {
      var t := (line + CRLF + rest)[..n];
      assert t[..|line|] == line && t[|line|] == CR && t[|line| + 1] == LF && t[|line| + 2..] == rest[..n - |line| - 2];
      assert s[e] == s[start..][|line|] && s[e + 1] == s[start..][|line| + 1];
      FirstCrlf(s, start, e);
      assert s[start..e] == s[start..][..|line|];
      SpelledSize(line, size);
      assert s[e + 2..] == s[start..][|line| + 2..];
    }
  }

  /** The parts of a stream that goes on with some data, CRLF and a rest, cut after n bytes. */
  lemma CutParts(s: bytes, start: nat, data: bytes, rest: bytes, n: nat)
    requires n <= |data + CRLF + rest| && start <= |s| && s[start..] == (data + CRLF + rest)[..n]
    ensures |s| == start + n
    ensures n >= |data| ==> s[start..start + |data|] == data
    ensures n >= |data| + 2 ==> s[start + |data| + 2..] == rest[..n - |data| - 2]
  {
    var whole, e := data + CRLF + rest, |data|;
    assert |s[start..]| == n;
    if n >= e {
      assert s[start..start + e] == s[start..][..e] == whole[..e] == data;
    }
    if n >= e + 2 {
      assert s[start + e + 2..] == s[start..][e + 2..];
      assert whole[..n][e + 2..] == rest[..n - e - 2];
    }
  }

  /** The data of a chunk, of which the first n bytes are there. It is passed on once a byte more
      than the data has arrived. */
  lemma DataCut(s: bytes, start: nat, data: bytes, rest: bytes, n: nat, cb: Callback, got: seq<bytes>)
    requires n <= |data + CRLF + rest| && start <= |s| && s[start..] == (data + CRLF + rest)[..n]
    requires forall g :: cb(g) == 0
    ensures var o := ChunkData(s, start, |data|, cb, got); var next := start + |data| + 2;
            && (n <= |data| ==> o == CutOff(got))
            && (n > |data| && data != [] ==> o == Chunks(s, next, cb, got + [data]))
            && (n > |data| && data == [] ==> o == Complete(got + [data], next))
            && (n == |data| + 1 ==> Chunks(s, next, cb, got + [data]) == CutOff(got + [data]))
    ensures n >= |data| + 2 ==> start + |data| + 2 <= |s| && s[start + |data| + 2..] == rest[..n - |data| - 2]
  {
    CutParts(s, start, data, rest, n);
    PastEnd(s, start + |data| + 2, cb, got + [data]);
    hide Chunks, FindCrlf, LineSize;
  }

  /** A size line that would begin behind the end of the stream never comes. */
  lemma PastEnd(s: bytes, start: nat, cb: Callback, got: seq<bytes>)
    ensures start > |s| ==> Chunks(s, start, cb, got) == CutOff(got)
  {
  }

  lemma EncodeStep(cs: seq<Chunk>, last: bytes, tail: bytes)
    ensures cs == [] ==>
              && EncodeBody(cs, last) + tail == last + CRLF + ([] + CRLF + tail)
              && |EncodeBody(cs, last)| == |last| + 4
    ensures cs != [] ==>
              && EncodeBody(cs, last) + tail
                 == cs[0].line + CRLF + (cs[0].data + CRLF + (EncodeBody(cs[1..], last) + tail))
              && |EncodeBody(cs, last)| == |cs[0].line| + |cs[0].data| + 4 + |EncodeBody(cs[1..], last)|
  {
  }

  lemma Longer(a: seq<bytes>, b: seq<bytes>)
    ensures a <= a + b
  {
  }

  lemma DatasStep(got: seq<bytes>, cs: seq<Chunk>)
    ensures cs == [] ==> got + Datas(cs) + [[]] == got + [[]]
    ensures cs != [] ==> got + [cs[0].data] + Datas(cs[1..]) == got + Datas(cs)
  {
    if cs == [] {
      assert got + Datas(cs) == got;
    } else {
      var first, more := [cs[0].data], Datas(cs[1..]);
      assert Datas(cs) == first + more;
      assert got + first + more == got + (first + more);
    }
  }

  /** What the callback is given, and where the stream stands, when the first n bytes of a chunked
      body (or all of them, and something behind) are all that ever arrives. It is complete exactly
      when no more than the very last byte is missing; otherwise what was passed on before the
      stream ended is a proper part of the body, and the parser does not tell. */
  lemma {:induction false} ChunkedBodyExactly(s: bytes, start: nat, cs: seq<Chunk>, last: bytes, tail: bytes, n: nat,
                                              cb: Callback, got: seq<bytes>)
    requires (forall c | c in cs :: GoodChunk(c)) && Spells(last, 0) && forall g :: cb(g) == 0
    requires n <= |EncodeBody(cs, last) + tail| && start <= |s| && s[start..] == (EncodeBody(cs, last) + tail)[..n]
    ensures var o, body := Chunks(s, start, cb, got), EncodeBody(cs, last);
            if n + 1 >= |body| then o == Complete(got + Datas(cs) + [[]], start + |body|)
            else o.CutOff? && o.slices <= got + Datas(cs)
    decreases |cs|
  {
    hide Chunks, ChunkData, FindCrlf, LineSize, Spells, Datas, EncodeBody;
    EncodeStep(cs, last, tail);
    DatasStep(got, cs);
    Longer(got, Datas(cs));
    if cs == [] {
      LineStep(s, start, last, [], tail, n, cb, got);
    } else {
      var c, more := cs[0], EncodeBody(cs[1..], last) + tail;
      assert GoodChunk(c);
      LineStep(s, start, c.line, c.data, more, n, cb, got);
      var size := |c.line| + |c.data| + 4;
      Longer(got + [c.data], Datas(cs[1..]));
      if n >= size {
        ChunkedBodyExactly(s, start + size, cs[1..], last, tail, n - size, cb, got + [c.data]);
      }
    }
  }

  /** One chunk, of which, and of what follows, the first n bytes are there. */
  lemma LineStep(s: bytes, start: nat, line: bytes, data: bytes, rest: bytes, n: nat, cb: Callback, got: seq<bytes>)
    requires Spells(line, |data|) && forall g :: cb(g) == 0
    requires n <= |line + CRLF + (data + CRLF + rest)|
    requires start <= |s| && s[start..] == (line + CRLF + (data + CRLF + rest))[..n]
    ensures var o, size := Chunks(s, start, cb, got), |line| + |data| + 4;
            && (n + 1 < size ==> o == CutOff(got))
            && (n + 1 >= size && data == [] ==> o == Complete(got + [data], start + size))
            && (n + 1 == size && data != [] ==> o == CutOff(got + [data]))
            && (n >= size && data != [] ==> start + size <= |s| && s[start + size..] == rest[..n - size]
                                            && o == Chunks(s, start + size, cb, got + [data]))
  {
    hide FindCrlf, LineSize, ChunkData, Spells;
    LineCut(s, start, line, |data|, data + CRLF + rest, n);
    LineNotEmpty(line, |data|);
    if n >= |line| + 2 {
      DataCut(s, start + |line| + 2, data, rest, n - |line| - 2, cb, got);
    }
  }

  lemma LineNotEmpty(line: bytes, n: nat)
    requires Spells(line, n)
    ensures line != []
  {
  }

  /** Chunks without the last one. */
  function EncodeChunks(cs: seq<Chunk>): bytes {
    if cs == [] then [] else cs[0].line + CRLF + (cs[0].data + CRLF + EncodeChunks(cs[1..]))
  }

  /** The callback accepts what it is given, chunk after chunk. */
  predicate Accepted(cb: Callback, got: seq<bytes>, cs: seq<Chunk>)
    decreases |cs|
  {
    cs == [] || (cb(got + [cs[0].data]) == 0 && Accepted(cb, got + [cs[0].data], cs[1..]))
  }

  lemma LineThere(s: bytes, start: nat, line: bytes, rest: bytes)
    requires start <= |s| && s[start..] == line + CRLF + rest && CR !in line
    ensures var e := start + |line|;
            FindCrlf(s, start) == Some(e) && s[start..e] == line && e + 2 <= |s| && s[e + 2..] == rest
  {
    hide FindCrlf;
    var e, t := start + |line|, line + CRLF + rest;
    assert t[..|line|] == line && t[|line|] == CR && t[|line| + 1] == LF && t[|line| + 2..] == rest;
    assert s[start..e] == s[start..][..|line|] && s[e] == s[start..][|line|] && s[e + 1] == s[start..][|line| + 1];
    assert s[e + 2..] == s[start..][|line| + 2..];
    forall k | start <= k < e ensures s[k] != CR { assert s[k] == s[start..e][k - start]; }
    FirstCrlf(s, start, e);
  }

  lemma NumeralNoCr(line: bytes, n: nat)
    requires Numeral(line, n)
    ensures CR !in line && line != []
  {
    NumeralExactly(line, n);
  }

  /** A chunk that is there, and at least a byte behind it: it is passed on. */
  lemma ChunkThere(s: bytes, start: nat, c: Chunk, rest: bytes, cb: Callback, got: seq<bytes>)
    requires Spells(c.line, |c.data|) && start <= |s| && s[start..] == c.line + CRLF + (c.data + rest) && rest != []
    ensures var next := start + |c.line| + |c.data| + 4;
            Chunks(s, start, cb, got) == if cb(got + [c.data]) != 0 then Failed(got + [c.data], PROCESS_BODY + 2)
                                         else if c.data != [] then Chunks(s, next, cb, got + [c.data])
                                         else Complete(got + [c.data], next)
  {
    hide FindCrlf, LineSize, Numeral, Chunks;
    NumeralNoCr(c.line, |c.data|);
    LineThere(s, start, c.line, c.data + rest);
    SpelledSize(c.line, |c.data|);
    var d := start + |c.line| + 2;
    assert s[d..d + |c.data|] == s[d..][..|c.data|] == c.data && |s[d..]| > |c.data|;
    SizedChunk(s, start, d - 2, |c.data|, cb, got);
  }

  lemma SizedChunk(s: bytes, start: nat, e: nat, size: nat, cb: Callback, got: seq<bytes>)
    requires FindCrlf(s, start) == Some(e) && e > start && LineSize(s[start..e]) == Some(size)
    ensures Chunks(s, start, cb, got) == ChunkData(s, e + 2, size, cb, got)
  {
    hide FindCrlf, LineSize, ChunkData;
  }

  /** Whole chunks are passed on one by one while the callback accepts them. */
  lemma {:induction false} ChunksPassed(s: bytes, start: nat, cs: seq<Chunk>, rest: bytes, cb: Callback,
                                        got: seq<bytes>)
    requires (forall c | c in cs :: GoodChunk(c)) && start <= |s| && s[start..] == EncodeChunks(cs) + rest
    requires Accepted(cb, got, cs)
    ensures var next := start + |EncodeChunks(cs)|;
            next <= |s| && s[next..] == rest && Chunks(s, start, cb, got) == Chunks(s, next, cb, got + Datas(cs))
    decreases |cs|
  {
    hide Chunks, Numeral, EncodeChunks, Datas;
    if cs == [] {
      NoChunks(rest, got);
    } else {
      var c, more := cs[0], EncodeChunks(cs[1..]) + rest;
      assert GoodChunk(c);
      EncodeChunksStep(cs, rest);
      ChunkThere(s, start, c, CRLF + more, cb, got);
      var size := |c.line| + |c.data| + 4;
      assert s[start + size..] == s[start..][size..];
      ChunksPassed(s, start + size, cs[1..], rest, cb, got + [c.data]);
      DatasStep(got, cs);
    }
  }

  lemma NoChunks(rest: bytes, got: seq<bytes>)
    ensures EncodeChunks([]) + rest == rest && got + Datas([]) == got && |EncodeChunks([])| == 0
  {
  }

  lemma EncodeChunksStep(cs: seq<Chunk>, rest: bytes)
    requires cs != []
    ensures var c, more, size := cs[0], EncodeChunks(cs[1..]) + rest, |cs[0].line| + |cs[0].data| + 4;
            && EncodeChunks(cs) + rest == c.line + CRLF + (c.data + (CRLF + more))
            && |EncodeChunks(cs)| == size + |EncodeChunks(cs[1..])| && (EncodeChunks(cs) + rest)[size..] == more
  {
    var c, tail := cs[0], EncodeChunks(cs[1..]);
    assert EncodeChunks(cs) == c.line + CRLF + (c.data + CRLF + tail);
    hide EncodeChunks;
    Reassociate(c.line, CRLF, c.data, CRLF, tail, rest);
  }

  lemma Reassociate(a: bytes, b: bytes, c: bytes, d: bytes, e: bytes, f: bytes)
    ensures var all := a + b + (c + d + e) + f;
            all == a + b + (c + (d + (e + f))) && all[|a| + |b| + |c| + |d|..] == e + f
  {
    var head := a + b + (c + d);
    assert a + b + (c + d + e) + f == head + (e + f);
  }

  /** Behind whole chunks, a line that is no size: the parser fails at once, whatever follows. */
  lemma BadSizeFails(s: bytes, start: nat, cs: seq<Chunk>, line: bytes, rest: bytes, cb: Callback, got: seq<bytes>)
    requires (forall c | c in cs :: GoodChunk(c)) && Accepted(cb, got, cs)
    requires start <= |s| && s[start..] == EncodeChunks(cs) + (line + CRLF + rest)
    requires line != [] && CR !in line && forall n: nat :: !SaysSize(line, n)
    ensures Chunks(s, start, cb, got) == Failed(got + Datas(cs), PROCESS_BODY + 1)
  {
    hide FindCrlf, LineSize, SaysSize, ChunkData, EncodeChunks;
    ChunksPassed(s, start, cs, line + CRLF + rest, cb, got);
    var next := start + |EncodeChunks(cs)|;
    LineThere(s, next, line, rest);
    if LineSize(line).Some? { LineSizeExactly(line, LineSize(line).value); }
  }

  /** A chunk that the callback refuses, the last one included: the parser fails behind it. */
  lemma RefusedChunkFails(s: bytes, start: nat, cs: seq<Chunk>, c: Chunk, rest: bytes, cb: Callback, got: seq<bytes>)
    requires (forall c | c in cs :: GoodChunk(c)) && Accepted(cb, got, cs)
    requires Spells(c.line, |c.data|) && cb(got + Datas(cs) + [c.data]) != 0 && rest != []
    requires start <= |s| && s[start..] == EncodeChunks(cs) + (c.line + CRLF + (c.data + rest))
    ensures Chunks(s, start, cb, got) == Failed(got + Datas(cs) + [c.data], PROCESS_BODY + 2)
  {
    hide Chunks, EncodeChunks, Numeral;
    ChunksPassed(s, start, cs, c.line + CRLF + (c.data + rest), cb, got);
    ChunkThere(s, start + |EncodeChunks(cs)|, c, rest, cb, got + Datas(cs));
  }

  /** A body of a given length is passed on whole when it is all there, and not at all before. Without a
      length (-1) nothing is read, an empty body is passed on, and the stream is moved back in front of
      the body. Success is reported unless the callback refuses, also when the stream ends too soon. */
  lemma FixedBodyExactly(s: bytes, start: nat, size: int, cb: Callback)
    requires start <= |s|
    ensures var o, end := Fixed(s, start, size, cb), start + size;
            var slices := [if size < 0 then [] else if end <= |s| then s[start..end] else []];
            o == if end > |s| then CutOff([]) else if cb(slices) == 0 then Complete(slices, end)
                 else Failed(slices, PROCESS_BODY + 3)
  {
    assert size == 0 ==> s[start..start] == [];
  }
}
