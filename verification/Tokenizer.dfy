/** The ra_svn tokenizer: a state machine over a buffer that grows by arbitrary reads, and that
    writes a NUL over the separator behind each token. */
module Tokenizer {
  import opened Bytes

  datatype Kind = START | TOK_IN | TOK_OUT | LIST_START | LIST_END
                | STRING_IN | STRING_CHECK | STRING_OUT | NUM_IN | NUM_OUT

  predicate IsOut(k: Kind) { k == START || k == TOK_OUT || k == NUM_OUT || k == STRING_OUT }

  predicate IsList(k: Kind) { k == LIST_START || k == LIST_END }

  predicate IsSpace(c: int) { c == 32 || c == 9 || c == 10 || c == 13 || c == 0 }

  predicate IsDigit(c: int) { 48 <= c <= 57 }

  predicate IsAlpha(c: int) { 97 <= c <= 122 || 65 <= c <= 90 }

  predicate IsWordChar(c: int) { IsAlpha(c) || IsDigit(c) || c == 45 }

  /** The number a string of digits spells. */
  function DecValue(s: bytes): int {
    if s == [] then 0 else DecValue(s[..|s| - 1]) * 10 + (s[|s| - 1] as int - 48)
  }

  function Strtol(s: bytes): int { Min(DecValue(s), LONG_MAX) }

  /** The state that survives between reads: what is being read, where it starts and ends in the
      buffer, and its value or its length. */
  datatype Lexer = Lexer(kind: Kind, start: nat, end: nat, i: int)

  const PARSE_ONE_VALUE := 0x3000
  const PARSE_EOD := -3
  const PARSE_NEED_MORE := -2

  datatype Scanned =
    | Token(buf: bytes, pos: nat, lx: Lexer)
    | More(buf: bytes, pos: nat, lx: Lexer)
    | Bad(buf: bytes, pos: nat, lx: Lexer, code: int)

  function Digits(buf: bytes, start: nat, pos: nat): bytes
    requires pos <= |buf|
  {
    if start <= pos then buf[start..pos] else []
  }

  /** One turn of the character loop. Stay turns go on, at the same or the next position. */
  datatype Turn = Stay(buf: bytes, pos: nat, lx: Lexer) | Stop(r: Scanned)

  function OneTurn(buf: bytes, pos: nat, lx: Lexer): (t: Turn)
    requires pos < |buf|
    ensures t.Stay? ==>
              && |t.buf| == |buf|
              && (t.pos == pos + 1 || (t.pos == pos && lx.kind == STRING_IN && t.lx.kind != STRING_IN))
    ensures t.Stop? ==>
              && !t.r.More? && |t.r.buf| == |buf|
              && (t.r.Token? ==> t.r.pos == pos + 1) && (t.r.Bad? ==> t.r.code > 0)
  {
    var c := buf[pos];
    if lx.kind == STRING_IN then
      if pos < lx.start + lx.i then Stay(buf, pos + 1, lx) else Stay(buf, pos, lx.(kind := STRING_CHECK, end := pos))
    else if IsSpace(c) then
      if lx.kind == TOK_IN then Stop(Token(buf[pos := 0], pos + 1, lx.(kind := TOK_OUT, end := pos)))
      else if IsList(lx.kind) then Stay(buf, pos + 1, lx.(kind := START))
      else if lx.kind == NUM_IN then
        Stop(Token(buf[pos := 0], pos + 1, lx.(kind := NUM_OUT, end := pos, i := Strtol(Digits(buf, lx.start, pos)))))
      else if lx.kind == STRING_CHECK then Stop(Token(buf[pos := 0], pos + 1, lx.(kind := STRING_OUT)))
      else Stay(buf, pos + 1, lx)
    else if c == LPAREN then
      if IsOut(lx.kind) then Stop(Token(buf, pos + 1, lx.(kind := LIST_START, start := pos)))
      else Stop(Bad(buf, pos, lx, PARSE_ONE_VALUE + 2))
    else if c == RPAREN then
      if IsOut(lx.kind) then Stop(Token(buf, pos + 1, lx.(kind := LIST_END, start := pos)))
      else Stop(Bad(buf, pos, lx, PARSE_ONE_VALUE + 3))
    else if IsDigit(c) then
      if IsOut(lx.kind) then Stay(buf, pos + 1, lx.(kind := NUM_IN, start := pos))
      else if lx.kind == NUM_IN || lx.kind == TOK_IN then Stay(buf, pos + 1, lx)
      else Stop(Bad(buf, pos, lx, PARSE_ONE_VALUE + 4))
    else if c == COLON then
      if lx.kind == NUM_IN then
        Stay(buf[pos := 0], pos + 1, Lexer(STRING_IN, pos + 1, pos, Strtol(Digits(buf, lx.start, pos))))
      else Stop(Bad(buf, pos, lx, PARSE_ONE_VALUE + 5))
    else if IsWordChar(c) then
      if IsOut(lx.kind) then Stay(buf, pos + 1, lx.(kind := TOK_IN, start := pos))
      else if lx.kind == TOK_IN then Stay(buf, pos + 1, lx)
      else Stop(Bad(buf, pos, lx, PARSE_ONE_VALUE + 6))
    else Stop(Bad(buf, pos, lx, PARSE_ONE_VALUE + 7))
  }

  /** The loop over the characters that are there. */
  function Scan(buf: bytes, pos: nat, lx: Lexer): (r: Scanned)
    ensures |r.buf| == |buf|
    ensures r.Token? ==> pos < r.pos <= |buf|
    ensures r.Bad? ==> r.code > 0
    ensures r.More? ==> r.pos >= |buf|
    decreases |buf| - pos, if lx.kind == STRING_IN then 1 else 0
  {
    if pos >= |buf| then More(buf, pos, lx)
    else match OneTurn(buf, pos, lx)
      case Stop(r) => r
      case Stay(b, p, l) => Scan(b, p, l)
  }

  // ---- reading one value ----

  /** A reader as seen from outside: all the bytes that will ever arrive, the position, the lexer,
      and whether the last token is to be read again. */
  datatype Reading = Reading(buf: bytes, pos: nat, lx: Lexer, back: bool)

  const FRESH_LEXER := Lexer(START, 0, 0, 0)

  datatype Read = Got(rd: Reading) | Eod | Malformed(code: int)

  function Rewind(r: Reading): Reading {
    if r.back then Reading(r.buf, r.lx.start, r.lx.(kind := START), false) else r
  }

  function ReadOne(r: Reading): (x: Read)
    ensures x.Got? ==> !x.rd.back && |x.rd.buf| == |r.buf| && Rewind(r).pos < x.rd.pos <= |r.buf|
    ensures x.Malformed? ==> x.code > 0
  {
    var r0 := Rewind(r);
    match Scan(r0.buf, r0.pos, r0.lx)
    case Token(b, p, l) => Got(Reading(b, p, l, false))
    case More(_, _, _) => Eod
    case Bad(_, _, _, code) => Malformed(code)
  }

  // ---- arriving bytes do not matter until they are needed ----

  lemma TurnLocal(buf: bytes, pos: nat, lx: Lexer, more: bytes)
    requires pos < |buf|
    ensures OneTurn(buf + more, pos, lx) == Later(OneTurn(buf, pos, lx), more)
  {
    assert (buf + more)[pos := 0] == buf[pos := 0] + more;
    if lx.start <= pos { assert (buf + more)[lx.start..pos] == buf[lx.start..pos]; }
  }

  /** The same turn with more bytes behind the buffer. */
  function Later(t: Turn, more: bytes): Turn {
    if t.Stay? then t.(buf := t.buf + more) else Stop(t.r.(buf := t.r.buf + more))
  }

  /** Fragmentation independence, one step: scanning what has arrived and going on when more arrives
      is scanning it all at once, token for token, NUL for NUL. */
  lemma {:induction false} ScanMore(buf: bytes, pos: nat, lx: Lexer, more: bytes)
    ensures var r := Scan(buf, pos, lx);
            Scan(buf + more, pos, lx) == if r.More? then Scan(r.buf + more, r.pos, r.lx) else r.(buf := r.buf + more)
    decreases |buf| - pos, if lx.kind == STRING_IN then 1 else 0
  {
    if pos < |buf| {
      TurnLocal(buf, pos, lx, more);
      var t := OneTurn(buf, pos, lx);
      if t.Stay? { ScanMore(t.buf, t.pos, t.lx, more); }
    }
  }

  /** The end of a string is recorded before its separator is read. */
  predicate EndsBefore(lx: Lexer, pos: nat) { lx.kind == STRING_CHECK ==> lx.end <= pos }

  lemma {:induction false} ScanEnds(buf: bytes, pos: nat, lx: Lexer)
    requires EndsBefore(lx, pos)
    ensures var r := Scan(buf, pos, lx);
            EndsBefore(r.lx, r.pos) && (r.Token? ==> IsList(r.lx.kind) || (IsOut(r.lx.kind) && r.lx.end < r.pos))
    decreases |buf| - pos, if lx.kind == STRING_IN then 1 else 0
  {
    if pos < |buf| {
      var t := OneTurn(buf, pos, lx);
      if t.Stay? { ScanEnds(t.buf, t.pos, t.lx); }
    }
  }

  // ---- the tokenizer as the program runs it ----

  class Reader {
    var data: bytes
    var pos: nat
    var kind: Kind
    var start: nat
    var end: nat
    var i: int
    var backtrack: bool
    /** The reads still to come from the connection. */
    var incoming: seq<bytes>

    ghost predicate Valid() reads this { EndsBefore(Lex(), pos) }

    ghost function Total(): bytes reads this { data + Concat(incoming) }

    function Lex(): Lexer reads this { Lexer(kind, start, end, i) }

    ghost function Now(): Reading reads this { Reading(Total(), pos, Lex(), backtrack) }

    constructor (incoming: seq<bytes>)
      ensures Valid() && Now() == Reading(Concat(incoming), 0, FRESH_LEXER, false)
    {
      data, pos, kind, start, end, i, backtrack := [], 0, START, 0, 0, 0, false;
      this.incoming := incoming;
      new;
      assert [] + Concat(incoming) == Concat(incoming);
    }

    /** One turn of the loop in parse_one_value; done when it returns. */
    method OneCharacter() returns (done: bool, res: int)
      requires pos < |data|
      modifies `data, `pos, `kind, `start, `end, `i
      ensures var t := OneTurn(old(data), old(pos), old(Lex()));
              done == t.Stop?
              && (t.Stay? ==> data == t.buf && pos == t.pos && Lex() == t.lx)
              && (t.Stop? ==> data == t.r.buf && pos == t.r.pos && Lex() == t.r.lx
                              && res == if t.r.Bad? then t.r.code else 0)
    {
      var c := data[pos];
      done, res := false, 0;
      if kind == STRING_IN {
        if pos < start + i {
          pos := pos + 1;
        } else {
          kind, end := STRING_CHECK, pos;
        }
        return;
      }
      if IsSpace(c) {
        if kind == TOK_IN {
          kind, end, data, done := TOK_OUT, pos, data[pos := 0], true;
        } else if IsList(kind) {
          kind := START;
        } else if kind == NUM_IN {
          i := Strtol(Digits(data, start, pos));
          kind, end, data, done := NUM_OUT, pos, data[pos := 0], true;
        } else if kind == STRING_CHECK {
          kind, data, done := STRING_OUT, data[pos := 0], true;
        }
      } else if c == LPAREN {
        if !IsOut(kind) { return true, PARSE_ONE_VALUE + 2; }
        kind, start, done := LIST_START, pos, true;
      } else if c == RPAREN {
        if !IsOut(kind) { return true, PARSE_ONE_VALUE + 3; }
        kind, start, done := LIST_END, pos, true;
      } else if IsDigit(c) {
        if IsOut(kind) {
          kind, start := NUM_IN, pos;
        } else if kind != NUM_IN && kind != TOK_IN {
          return true, PARSE_ONE_VALUE + 4;
        }
      } else if c == COLON {
        if kind != NUM_IN { return true, PARSE_ONE_VALUE + 5; }
        i := Strtol(Digits(data, start, pos));
        kind, end, data, start := STRING_IN, pos, data[pos := 0], pos + 1;
      } else if IsWordChar(c) {
        if IsOut(kind) {
          kind, start := TOK_IN, pos;
        } else if kind != TOK_IN {
          return true, PARSE_ONE_VALUE + 6;
        }
      } else {
        return true, PARSE_ONE_VALUE + 7;
      }
      pos := pos + 1;
    }

    /** parse_one_value: the characters that have arrived, up to the end of a token. */
    method ParseOneValue() returns (res: int)
      modifies `data, `pos, `kind, `start, `end, `i
      ensures var r := Scan(old(data), old(pos), old(Lex()));
              data == r.buf && pos == r.pos && Lex() == r.lx
              && res == if r.Token? then 0 else if r.More? then PARSE_NEED_MORE else r.code
    {
      while pos < |data|
        invariant Scan(data, pos, Lex()) == Scan(old(data), old(pos), old(Lex()))
        decreases |data| - pos, if kind == STRING_IN then 1 else 0
      {
        var done;
        done, res := OneCharacter();
        if done { return; }
      }
      res := PARSE_NEED_MORE;
    }

    /** Append one more read to the buffer; false at the end of the stream. */
    method ConsumeData() returns (ok: bool)
      modifies `data, `incoming
      ensures Total() == old(Total()) && |incoming| <= |old(incoming)|
      ensures ok <==> old(incoming) != []
      ensures ok ==> data == old(data) + old(incoming)[0] && incoming == old(incoming)[1..]
      ensures !ok ==> data == old(data) && incoming == []
    {
      if incoming == [] { return false; }
      assert Total() == (data + incoming[0]) + Concat(incoming[1..]);
      data, incoming := data + incoming[0], incoming[1..];
      ok := true;
    }

    /** What reading one value has come to when it returns res. */
    ghost predicate Delivered(r: Scanned, res: int)
      reads this
    {
      match r
      case Token(b, p, l) => res == 0 && Now() == Reading(b, p, l, false)
      case More(_, _, _) => res == PARSE_EOD
      case Bad(_, _, _, code) => res == code
    }

    /** A token has been read, and all of it has arrived. */
    ghost predicate Complete() reads this {
      pos <= |data| && (IsList(kind) || (IsOut(kind) && end < pos))
    }

    /** Parsing what has arrived, with the rest of the stream in view. */
    method ParseArrived(ghost whole: Scanned) returns (res: int)
      requires Valid() && !backtrack && Scan(Total(), pos, Lex()) == whole
      modifies `data, `pos, `kind, `start, `end, `i
      ensures if res == PARSE_NEED_MORE then Scan(Total(), pos, Lex()) == whole && pos >= |data|
              else Delivered(whole, res)
      ensures Valid() && (res == 0 ==> Complete())
    {
      ScanEnds(data, pos, Lex());
      ScanMore(data, pos, Lex(), Concat(incoming));
      res := ParseOneValue();
    }

    /** The bytes of the current token. */
    method Slice() returns (s: bytes)
      requires Complete() && IsOut(kind)
      ensures s == if start <= end then Total()[start..end] else []
    {
      s := if start <= end then data[start..end] else [];
    }

    /** read_one_value: its outcome is a function of the bytes of the whole stream, so that it
        makes no difference how they were split into reads. */
    method ReadOneValue() returns (res: int)
      requires Valid()
      modifies this
      ensures Valid() && (res == 0 ==> Complete())
      ensures match ReadOne(old(Now()))
              case Got(r) => res == 0 && Now() == r
              case Eod => res == PARSE_EOD
              case Malformed(code) => res == code
    {
      if backtrack { pos, kind, backtrack := start, START, false; }
      assert Now() == Rewind(old(Now()));
      ghost var whole := Scan(Total(), pos, Lex());
      res := PARSE_NEED_MORE;
      while res == PARSE_NEED_MORE
        invariant !backtrack && Valid() && (res == 0 ==> Complete())
        invariant if res == PARSE_NEED_MORE then Scan(Total(), pos, Lex()) == whole else Delivered(whole, res)
        decreases res == PARSE_NEED_MORE, |incoming|, if pos < |data| then 1 else 0
      {
        if pos >= |data| {
          var ok := ConsumeData();
          if !ok {
            assert Total() == data;
            return PARSE_EOD;
          }
        }
        res := ParseArrived(whole);
      }
    }
  }
}
