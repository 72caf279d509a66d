/** ra_svn items on the wire: packing them, and reading them back token by token. */
module Wire {
  import opened Bytes
  import opened Tokenizer

  datatype Item = Word(w: bytes) | Number(n: nat) | Text(s: bytes) | List(items: seq<Item>)

  /** A token as a caller sees it. */
  datatype Tok = TWord(w: bytes) | TNumber(n: int) | TText(s: bytes) | TOpen | TClose

  /** printf's %d for a number that is not negative. */
  function Dec(n: nat): (r: bytes)
    ensures r != []
  {
    if n < 10 then [48 + n] else Dec(n / 10) + [48 + n % 10]
  }

  /** And for any number. */
  function Decimal(n: int): bytes { if n >= 0 then Dec(n) else [MINUS] + Dec(-n) }

  // ---- packing ----

  function SpellTok(t: Tok, sep: byte): bytes {
    match t
    case TWord(w) => w + [sep]
    case TNumber(n) => Decimal(n) + [sep]
    case TText(s) => Dec(|s|) + [COLON] + s + [sep]
    case TOpen => [LPAREN, sep]
    case TClose => [RPAREN, sep]
  }

  predicate GoodTok(t: Tok) {
    match t
    case TWord(w) => w != [] && (IsAlpha(w[0]) || w[0] == 45) && forall c | c in w :: IsWordChar(c)
    case TNumber(n) => 0 <= n <= LONG_MAX
    case TText(s) => |s| <= LONG_MAX
    case _ => true
  }

  predicate GoodToks(ts: seq<Tok>) { forall t | t in ts :: GoodTok(t) }

  function Spell(ts: seq<Tok>): bytes
    requires GoodToks(ts)
  {
    if ts == [] then [] else SpellTok(ts[0], SPACE) + Spell(ts[1..])
  }

  /** An item as a sequence of tokens. */
  function Flat(it: Item): seq<Tok>
    decreases it, 1
  {
    match it
    case Word(w) => [TWord(w)]
    case Number(n) => [TNumber(n)]
    case Text(s) => [TText(s)]
    case List(items) => [TOpen] + FlatAll(items) + [TClose]
  }

  function FlatAll(items: seq<Item>): seq<Tok>
    decreases items, 0
  {
    if items == [] then [] else Flat(items[0]) + FlatAll(items[1..])
  }

  /** The tokens of members come in the order of the members. */
  lemma {:induction false} FlatAppend(a: seq<Item>, b: seq<Item>)
    ensures FlatAll(a + b) == FlatAll(a) + FlatAll(b)
    decreases |a|
  {
    hide Flat;
    if a == [] {
      assert a + b == b;
    } else {
      assert (a + b)[0] == a[0] && (a + b)[1..] == a[1..] + b;
      FlatAppend(a[1..], b);
    }
  }

  /** A list is a parenthesis, its members, and a parenthesis; anything else is one token. */
  lemma FlatExactly(w: bytes, n: nat, s: bytes, items: seq<Item>)
    ensures Flat(Word(w)) == [TWord(w)] && Flat(Number(n)) == [TNumber(n)] && Flat(Text(s)) == [TText(s)]
    ensures Flat(List(items)) == [TOpen] + FlatAll(items) + [TClose]
    ensures forall it :: FlatAll([it]) == Flat(it)
  {
    forall it ensures FlatAll([it]) == Flat(it) { assert [it][1..] == []; }
  }

  lemma {:induction false} SpellAppend(a: seq<Tok>, b: seq<Tok>)
    requires GoodToks(a) && GoodToks(b)
    ensures GoodToks(a + b) && Spell(a + b) == Spell(a) + Spell(b)
  {
    if a == [] {
      assert a + b == b;
    } else {
      assert (a + b)[1..] == a[1..] + b;
      SpellAppend(a[1..], b);
    }
  }

  lemma SpellOne(t: Tok)
    requires GoodTok(t)
    ensures GoodToks([t]) && Spell([t]) == SpellTok(t, SPACE)
  {
    assert Spell([t]) == SpellTok(t, SPACE) + Spell([t][1..]);
  }

  /** The outgoing buffer; every call appends. */
  class Packer {
    var out: bytes

    constructor ()
      ensures out == []
    {
      out := [];
    }

    method PackWord(w: bytes)
      modifies this
      ensures out == old(out) + SpellTok(TWord(w), SPACE)
    {
      out := out + w + [SPACE];
    }

    method PackNumber(n: int)
      modifies this
      ensures out == old(out) + SpellTok(TNumber(n), SPACE)
    {
      out := out + Decimal(n) + [SPACE];
    }

    method PackString(s: bytes)
      modifies this
      ensures out == old(out) + SpellTok(TText(s), SPACE)
    {
      out := out + Dec(|s|) + [COLON];
      out := out + s;
      out := out + [SPACE];
    }

    /** One item; a list packs its members between the parentheses. */
    method Pack(it: Item)
      requires GoodToks(Flat(it))
      modifies this
      ensures out == old(out) + Spell(Flat(it))
      decreases it, 1
    {
      match it {
        case Word(w) =>
          SpellOne(TWord(w));
          PackWord(w);
        case Number(n) =>
          SpellOne(TNumber(n));
          PackNumber(n);
        case Text(s) =>
          SpellOne(TText(s));
          PackString(s);
        case List(items) =>
          assert GoodToks(FlatAll(items)) by {
            forall t | t in FlatAll(items) ensures GoodTok(t) { assert t in Flat(it); }
          }
          SpellOne(TOpen);
          SpellOne(TClose);
          SpellAppend([TOpen], FlatAll(items));
          SpellAppend([TOpen] + FlatAll(items), [TClose]);
          out := out + [LPAREN, SPACE];
          PackMembers(items);
          out := out + [RPAREN, SPACE];
      }
    }

    method PackMembers(items: seq<Item>)
      requires GoodToks(FlatAll(items))
      modifies this
      ensures out == old(out) + Spell(FlatAll(items))
      decreases items, 0
    {
      if items == [] { return; }
      forall t | t in Flat(items[0]) ensures GoodTok(t) { assert t in FlatAll(items); }
      forall t | t in FlatAll(items[1..]) ensures GoodTok(t) { assert t in FlatAll(items); }
      SpellAppend(Flat(items[0]), FlatAll(items[1..]));
      Pack(items[0]);
      PackMembers(items[1..]);
    }
  }

  // ---- decimal numbers ----

  lemma {:induction false} DecRoundTrip(n: nat)
    ensures DecValue(Dec(n)) == n && forall c | c in Dec(n) :: IsDigit(c)
  {
    if n < 10 {
      assert DecValue([48 + n]) == DecValue([48 + n][..0]) * 10 + n;
    } else {
      DecRoundTrip(n / 10);
      assert Dec(n)[..|Dec(n)| - 1] == Dec(n / 10);
    }
  }

  // ---- scanning one token ----

  /** What is left to read at r, past the space a parenthesis leaves behind. */
  ghost predicate At(r: Reading, s: bytes) {
    if r.back then r.lx.start <= |r.buf| && r.buf[r.lx.start..] == s
    else if IsOut(r.lx.kind) then r.pos <= |r.buf| && r.buf[r.pos..] == s
    else IsList(r.lx.kind) && r.pos < |r.buf| && IsSpace(r.buf[r.pos]) && r.buf[r.pos + 1..] == s
  }

  /** A byte inside a word, a number or a string changes nothing but the position. */
  ghost predicate Inside(buf: bytes, pos: nat, lx: Lexer) {
    pos < |buf| && ((lx.kind == TOK_IN && IsWordChar(buf[pos])) || (lx.kind == NUM_IN && IsDigit(buf[pos]))
                    || (lx.kind == STRING_IN && pos < lx.start + lx.i))
  }

  lemma ScanInside(buf: bytes, pos: nat, lx: Lexer)
    requires Inside(buf, pos, lx)
    ensures Scan(buf, pos, lx) == Scan(buf, pos + 1, lx)
  {
    assert OneTurn(buf, pos, lx) == Stay(buf, pos + 1, lx);
  }

  lemma {:induction false} ScanRun(buf: bytes, pos: nat, lx: Lexer, k: nat)
    requires forall j | pos <= j < pos + k :: Inside(buf, j, lx)
    ensures Scan(buf, pos, lx) == Scan(buf, pos + k, lx)
    decreases k
  {
    hide Scan;
    if k > 0 {
      assert Inside(buf, pos, lx);
      ScanInside(buf, pos, lx);
      ScanRun(buf, pos + 1, lx, k - 1);
    }
  }

  /** The first byte of a token, past the space after a parenthesis, and the state it is met in. */
  lemma ScanFrom(r: Reading, s: bytes) returns (lx: Lexer)
    requires At(r, s)
    ensures |s| <= |r.buf| && r.buf[|r.buf| - |s|..] == s && IsOut(lx.kind)
    ensures var r0 := Rewind(r); Scan(r0.buf, r0.pos, r0.lx) == Scan(r.buf, |r.buf| - |s|, lx)
  {
    hide Scan;
    lx := Rewind(r).lx;
    if IsList(lx.kind) {
      SkipSpace(r.buf, r.pos, lx);
      lx := lx.(kind := START);
    }
  }

  lemma SkipSpace(buf: bytes, pos: nat, lx: Lexer)
    requires pos < |buf| && IsSpace(buf[pos]) && IsList(lx.kind)
    ensures Scan(buf, pos, lx) == Scan(buf, pos + 1, lx.(kind := START))
  {
  }

  lemma FirstLetter(buf: bytes, pos: nat, lx: Lexer)
    requires pos < |buf| && IsOut(lx.kind) && (IsAlpha(buf[pos]) || buf[pos] == 45)
    ensures Scan(buf, pos, lx) == Scan(buf, pos + 1, lx.(kind := TOK_IN, start := pos))
  {
  }

  lemma EndOfWord(buf: bytes, pos: nat, lx: Lexer)
    requires pos < |buf| && lx.kind == TOK_IN && IsSpace(buf[pos])
    ensures Scan(buf, pos, lx) == Token(buf[pos := 0], pos + 1, lx.(kind := TOK_OUT, end := pos))
  {
  }

  lemma ScanWord(buf: bytes, pos: nat, lx: Lexer, w: bytes, sep: byte)
    requires IsOut(lx.kind) && GoodTok(TWord(w)) && IsSpace(sep)
    requires pos + |w| < |buf| && buf[pos..pos + |w|] == w && buf[pos + |w|] == sep
    ensures var e := pos + |w|;
            Scan(buf, pos, lx) == Token(buf[e := 0], e + 1, Lexer(TOK_OUT, pos, e, lx.i))
  {
    hide Scan;
    forall j | pos <= j < pos + |w| ensures buf[j] == w[j - pos] && IsWordChar(buf[j]) {
      assert buf[pos..pos + |w|][j - pos] == buf[j];
      assert w[j - pos] in w;
    }
    var l := lx.(kind := TOK_IN, start := pos);
    FirstLetter(buf, pos, lx);
    ScanRun(buf, pos + 1, l, |w| - 1);
    EndOfWord(buf, pos + |w|, l);
  }

  lemma FirstDigit(buf: bytes, pos: nat, lx: Lexer)
    requires pos < |buf| && IsOut(lx.kind) && IsDigit(buf[pos])
    ensures Scan(buf, pos, lx) == Scan(buf, pos + 1, lx.(kind := NUM_IN, start := pos))
  {
  }

  /** d is a run of digits with value n at position pos. */
  ghost predicate DigitsAt(buf: bytes, pos: nat, d: bytes, n: nat) {
    && d != [] && (forall c | c in d :: IsDigit(c)) && DecValue(d) == n <= LONG_MAX
    && pos + |d| < |buf| && buf[pos..pos + |d|] == d
  }

  lemma ScanDigits(buf: bytes, pos: nat, lx: Lexer, d: bytes, n: nat)
    requires IsOut(lx.kind) && DigitsAt(buf, pos, d, n)
    ensures Scan(buf, pos, lx) == Scan(buf, pos + |d|, lx.(kind := NUM_IN, start := pos))
    ensures Strtol(Digits(buf, pos, pos + |d|)) == n
  {
    hide Scan;
    forall j | pos <= j < pos + |d| ensures IsDigit(buf[j]) {
      assert buf[pos..pos + |d|][j - pos] == buf[j];
      assert d[j - pos] in d;
    }
    FirstDigit(buf, pos, lx);
    ScanRun(buf, pos + 1, lx.(kind := NUM_IN, start := pos), |d| - 1);
  }

  lemma EndOfNumber(buf: bytes, pos: nat, lx: Lexer)
    requires pos < |buf| && lx.kind == NUM_IN && IsSpace(buf[pos])
    ensures Scan(buf, pos, lx)
         == Token(buf[pos := 0], pos + 1, lx.(kind := NUM_OUT, end := pos, i := Strtol(Digits(buf, lx.start, pos))))
  {
  }

  lemma ScanNumber(buf: bytes, pos: nat, lx: Lexer, d: bytes, n: nat)
    requires IsOut(lx.kind) && DigitsAt(buf, pos, d, n) && IsSpace(buf[pos + |d|])
    ensures var e := pos + |d|;
            Scan(buf, pos, lx) == Token(buf[e := 0], e + 1, Lexer(NUM_OUT, pos, e, n))
  {
    hide Scan;
    ScanDigits(buf, pos, lx, d, n);
    EndOfNumber(buf, pos + |d|, lx.(kind := NUM_IN, start := pos));
  }

  /** The colon after a length starts the string. */
  lemma StartOfText(buf: bytes, pos: nat, lx: Lexer)
    requires pos < |buf| && lx.kind == NUM_IN && buf[pos] == COLON
    ensures Scan(buf, pos, lx)
         == Scan(buf[pos := 0], pos + 1, Lexer(STRING_IN, pos + 1, pos, Strtol(Digits(buf, lx.start, pos))))
  {
  }

  lemma EndOfText(buf: bytes, pos: nat, lx: Lexer)
    requires pos < |buf| && lx.kind == STRING_IN && pos == lx.start + lx.i && IsSpace(buf[pos])
    ensures Scan(buf, pos, lx) == Token(buf[pos := 0], pos + 1, lx.(kind := STRING_OUT, end := pos))
  {
    assert Scan(buf, pos, lx) == Scan(buf, pos, lx.(kind := STRING_CHECK, end := pos));
  }

  lemma ScanText(buf: bytes, pos: nat, lx: Lexer, d: bytes, n: nat)
    requires IsOut(lx.kind) && DigitsAt(buf, pos, d, n) && buf[pos + |d|] == COLON
    requires var e := pos + |d| + 1 + n; e < |buf| && IsSpace(buf[e])
    ensures var c := pos + |d|; var e := c + 1 + n;
            Scan(buf, pos, lx) == Token(buf[c := 0][e := 0], e + 1, Lexer(STRING_OUT, c + 1, e, n))
  {
    hide Scan;
    var c := pos + |d|;
    ScanDigits(buf, pos, lx, d, n);
    StartOfText(buf, c, lx.(kind := NUM_IN, start := pos));
    TextBody(buf[c := 0], c, n);
  }

  lemma TextBody(buf: bytes, c: nat, n: nat)
    requires c + 1 + n < |buf| && IsSpace(buf[c + 1 + n])
    ensures var e := c + 1 + n;
            Scan(buf, c + 1, Lexer(STRING_IN, c + 1, c, n)) == Token(buf[e := 0], e + 1, Lexer(STRING_OUT, c + 1, e, n))
  {
    hide Scan;
    var l := Lexer(STRING_IN, c + 1, c, n);
    ScanRun(buf, c + 1, l, n);
    EndOfText(buf, c + 1 + n, l);
  }

  // ---- reading one token ----

  /** The token a reader has just delivered. */
  function TokOf(r: Reading): Tok {
    var slice := if r.lx.start <= r.lx.end <= |r.buf| then r.buf[r.lx.start..r.lx.end] else [];
    match r.lx.kind
    case TOK_OUT => TWord(slice)
    case NUM_OUT => TNumber(r.lx.i)
    case STRING_OUT => TText(slice)
    case LIST_START => TOpen
    case _ => TClose
  }

  /** After a token: it was t, s is next, and unless t is a string a step back finds t again. */
  ghost predicate Delivers(x: Read, t: Tok, s: bytes)
    requires GoodTok(t)
  {
    && x.Got? && TokOf(x.rd) == t && At(x.rd, s)
    && x.rd.lx.kind in {TOK_OUT, NUM_OUT, STRING_OUT, LIST_START, LIST_END}
    && (!t.TText? ==> exists sep: byte :: IsSpace(sep) && At(x.rd.(back := true), SpellTok(t, sep) + s))
  }

  lemma Window(buf: bytes, pos: nat, a: bytes, s: bytes)
    requires pos <= |buf| && buf[pos..] == a + s
    ensures pos + |a| <= |buf| && buf[pos..pos + |a|] == a && buf[pos + |a|..] == s
  {
    assert buf[pos..][..|a|] == a && buf[pos..][|a|..] == s;
  }

  lemma WordScanned(buf: bytes, pos: nat, lx: Lexer, w: bytes, sep: byte, s: bytes) returns (b: bytes, e: nat)
    requires IsOut(lx.kind) && GoodTok(TWord(w)) && IsSpace(sep)
    requires pos <= |buf| && buf[pos..] == w + [sep] + s
    ensures e == pos + |w| < |b| && b[pos..] == w + [0] + s && b[e + 1..] == s && b[pos..e] == w
    ensures Scan(buf, pos, lx) == Token(b, e + 1, Lexer(TOK_OUT, pos, e, lx.i))
  {
    hide Scan;
    Window(buf, pos, w + [sep], s);
    e := pos + |w|;
    assert buf[pos..e] == buf[pos..e + 1][..|w|] == w && buf[e] == buf[pos..e + 1][|w|];
    ScanWord(buf, pos, lx, w, sep);
    Reread(buf, pos, w, s);
    b := buf[e := 0];
  }

  lemma WordDelivered(b: bytes, pos: nat, w: bytes, i: int, s: bytes)
    requires GoodTok(TWord(w))
    requires pos + |w| < |b| && b[pos..] == w + [0] + s && b[pos + |w| + 1..] == s && b[pos..pos + |w|] == w
    ensures Delivers(Got(Reading(b, pos + |w| + 1, Lexer(TOK_OUT, pos, pos + |w|, i), false)), TWord(w), s)
  {
    assert SpellTok(TWord(w), 0) == w + [0] && IsSpace(0);
  }

  lemma WordRead(buf: bytes, pos: nat, lx: Lexer, w: bytes, sep: byte, s: bytes)
    requires IsOut(lx.kind) && GoodTok(TWord(w)) && IsSpace(sep)
    requires pos <= |buf| && buf[pos..] == SpellTok(TWord(w), sep) + s
    ensures var x := Scan(buf, pos, lx);
            x.Token? && Delivers(Got(Reading(x.buf, x.pos, x.lx, false)), TWord(w), s)
  {
    hide Scan, Delivers;
    var b, e := WordScanned(buf, pos, lx, w, sep, s);
    WordDelivered(b, pos, w, lx.i, s);
  }

  lemma NumberScanned(buf: bytes, pos: nat, lx: Lexer, n: nat, sep: byte, s: bytes) returns (b: bytes, e: nat)
    requires IsOut(lx.kind) && n <= LONG_MAX && IsSpace(sep)
    requires pos <= |buf| && buf[pos..] == SpellTok(TNumber(n), sep) + s
    ensures e == pos + |Dec(n)| < |b| && b[pos..] == Dec(n) + [0] + s && b[e + 1..] == s
    ensures Scan(buf, pos, lx) == Token(b, e + 1, Lexer(NUM_OUT, pos, e, n))
  {
    hide Scan, Dec, DecValue;
    var d := Dec(n);
    DecRoundTrip(n);
    NumberParts(buf, pos, d, n, sep, s);
    ScanNumber(buf, pos, lx, d, n);
    Reread(buf, pos, d, s);
    e := pos + |d|;
    b := buf[e := 0];
  }

  lemma NumberRead(buf: bytes, pos: nat, lx: Lexer, n: nat, sep: byte, s: bytes)
    requires IsOut(lx.kind) && n <= LONG_MAX && IsSpace(sep)
    requires pos <= |buf| && buf[pos..] == SpellTok(TNumber(n), sep) + s
    ensures var x := Scan(buf, pos, lx);
            x.Token? && Delivers(Got(Reading(x.buf, x.pos, x.lx, false)), TNumber(n), s)
  {
    hide Scan, Delivers, SpellTok, Dec;
    var b, e := NumberScanned(buf, pos, lx, n, sep, s);
    NumberDelivered(b, pos, Dec(n), n, s);
  }

  lemma NumberFields(buf: bytes, pos: nat, d: bytes, sep: byte, s: bytes)
    requires pos <= |buf| && buf[pos..] == d + [sep] + s
    ensures var e := pos + |d|; e < |buf| && buf[pos..e] == d && buf[e] == sep && buf[e + 1..] == s
  {
    assert d + [sep] + s == d + ([sep] + s);
    Window(buf, pos, d, [sep] + s);
    Window(buf, pos + |d|, [sep], s);
    assert buf[pos + |d|] == buf[pos + |d|..][0];
  }

  lemma NumberParts(buf: bytes, pos: nat, d: bytes, n: nat, sep: byte, s: bytes)
    requires d != [] && (forall c | c in d :: IsDigit(c)) && DecValue(d) == n <= LONG_MAX && IsSpace(sep)
    requires pos <= |buf| && buf[pos..] == d + [sep] + s
    ensures DigitsAt(buf, pos, d, n) && buf[pos + |d|] == sep && buf[pos + |d| + 1..] == s
  {
    hide DecValue;
    NumberFields(buf, pos, d, sep, s);
  }

  lemma NumberDelivered(b: bytes, pos: nat, d: bytes, n: nat, s: bytes)
    requires n <= LONG_MAX && d == Dec(n)
    requires pos <= |b| && b[pos..] == d + [0] + s && pos + |d| + 1 <= |b| && b[pos + |d| + 1..] == s
    ensures Delivers(Got(Reading(b, pos + |d| + 1, Lexer(NUM_OUT, pos, pos + |d|, n), false)), TNumber(n), s)
  {
    assert SpellTok(TNumber(n), 0) == d + [0] && IsSpace(0);
  }

  /** A token whose separator became NUL is still spelled the same way. */
  lemma Reread(buf: bytes, pos: nat, a: bytes, s: bytes)
    requires pos + |a| < |buf| && buf[pos..pos + |a|] == a && buf[pos + |a| + 1..] == s
    ensures buf[pos + |a| := 0][pos..] == a + [0] + s
    ensures buf[pos + |a| := 0][pos + |a| + 1..] == s
    ensures buf[pos + |a| := 0][pos..pos + |a|] == a
  {
  }

  lemma TextScanned(buf: bytes, pos: nat, lx: Lexer, t: bytes, sep: byte, s: bytes) returns (b: bytes, c: nat)
    requires IsOut(lx.kind) && |t| <= LONG_MAX && IsSpace(sep)
    requires pos <= |buf| && buf[pos..] == SpellTok(TText(t), sep) + s
    ensures c + 1 + |t| < |b| && b[c + 1..c + 1 + |t|] == t && b[c + 1 + |t|] == 0 && b[c + 2 + |t|..] == s
    ensures Scan(buf, pos, lx) == Token(b, c + 2 + |t|, Lexer(STRING_OUT, c + 1, c + 1 + |t|, |t|))
  {
    hide Scan, Dec, DecValue;
    var d := Dec(|t|);
    DecRoundTrip(|t|);
    b, c := TextParts(buf, pos, d, t, sep, s);
    ScanText(buf, pos, lx, d, |t|);
  }

  lemma TextRead(buf: bytes, pos: nat, lx: Lexer, t: bytes, sep: byte, s: bytes)
    requires IsOut(lx.kind) && |t| <= LONG_MAX && IsSpace(sep)
    requires pos <= |buf| && buf[pos..] == SpellTok(TText(t), sep) + s
    ensures var x := Scan(buf, pos, lx);
            x.Token? && Delivers(Got(Reading(x.buf, x.pos, x.lx, false)), TText(t), s)
  {
    hide Scan, Delivers, SpellTok;
    var b, c := TextScanned(buf, pos, lx, t, sep, s);
    TextDelivered(b, c, t, s);
  }

  lemma TextDelivered(b: bytes, c: nat, t: bytes, s: bytes)
    requires |t| <= LONG_MAX && c + 1 + |t| < |b| && b[c + 1..c + 1 + |t|] == t && b[c + 2 + |t|..] == s
    ensures Delivers(Got(Reading(b, c + 2 + |t|, Lexer(STRING_OUT, c + 1, c + 1 + |t|, |t|), false)), TText(t), s)
  {
  }

  /** The length, the colon, the bytes, the separator and the rest, each in its place. */
  lemma TextFields(buf: bytes, pos: nat, d: bytes, t: bytes, sep: byte, s: bytes)
    requires pos <= |buf| && buf[pos..] == d + [COLON] + t + [sep] + s
    ensures var c := pos + |d|; var e := c + 1 + |t|;
            e < |buf| && buf[pos..c] == d && buf[c] == COLON && buf[c + 1..e] == t && buf[e] == sep && buf[e + 1..] == s
  {
    assert d + [COLON] + t + [sep] + s == d + ([COLON] + t + [sep] + s);
    Window(buf, pos, d, [COLON] + t + [sep] + s);
    assert [COLON] + t + [sep] + s == [COLON] + (t + [sep] + s);
    Window(buf, pos + |d|, [COLON], t + [sep] + s);
    assert buf[pos + |d|] == buf[pos + |d|..pos + |d| + 1][0];
    assert t + [sep] + s == t + ([sep] + s);
    Window(buf, pos + |d| + 1, t, [sep] + s);
    Window(buf, pos + |d| + 1 + |t|, [sep], s);
    assert buf[pos + |d| + 1 + |t|] == buf[pos + |d| + 1 + |t|..][0];
  }

  lemma TextParts(buf: bytes, pos: nat, d: bytes, t: bytes, sep: byte, s: bytes) returns (b: bytes, c: nat)
    requires d != [] && (forall x | x in d :: IsDigit(x)) && DecValue(d) == |t| <= LONG_MAX
    requires pos <= |buf| && buf[pos..] == d + [COLON] + t + [sep] + s
    ensures c == pos + |d| && c + 1 + |t| < |buf| && b == buf[c := 0][c + 1 + |t| := 0]
    ensures DigitsAt(buf, pos, d, |t|) && buf[c] == COLON && buf[c + 1 + |t|] == sep
    ensures b[c + 1..c + 1 + |t|] == t && b[c + 1 + |t|] == 0 && b[c + 2 + |t|..] == s
  {
    hide DecValue;
    TextFields(buf, pos, d, t, sep, s);
    c := pos + |d|;
    var e := c + 1 + |t|;
    b := buf[c := 0][e := 0];
    assert b[c + 1..e] == buf[c + 1..e] && b[e + 1..] == buf[e + 1..];
  }

  lemma ParenRead(buf: bytes, pos: nat, lx: Lexer, t: Tok, sep: byte, s: bytes)
    requires IsOut(lx.kind) && (t == TOpen || t == TClose) && IsSpace(sep)
    requires pos <= |buf| && buf[pos..] == SpellTok(t, sep) + s
    ensures var x := Scan(buf, pos, lx);
            x.Token? && Delivers(Got(Reading(x.buf, x.pos, x.lx, false)), t, s)
  {
    Window(buf, pos, SpellTok(t, sep), s);
    assert buf[pos] == buf[pos..pos + 2][0] && buf[pos + 1] == buf[pos..pos + 2][1];
  }

  /** Wherever a well-spelled token is next, it is what the reader delivers. */
  lemma TokenRead(r: Reading, t: Tok, sep: byte, s: bytes)
    requires GoodTok(t) && IsSpace(sep) && At(r, SpellTok(t, sep) + s)
    ensures Delivers(ReadOne(r), t, s)
  {
    hide Scan, Delivers, Dec, DecValue;
    var rest := SpellTok(t, sep) + s;
    var lx := ScanFrom(r, rest);
    var pos := |r.buf| - |rest|;
    match t {
      case TWord(w) => WordRead(r.buf, pos, lx, w, sep, s);
      case TNumber(n) => NumberRead(r.buf, pos, lx, n, sep, s);
      case TText(u) => TextRead(r.buf, pos, lx, u, sep, s);
      case _ => ParenRead(r.buf, pos, lx, t, sep, s);
    }
  }

  /** A number that is packed is delivered as that number exactly if it is not negative; a negative
      one is delivered as a word. */
  lemma PackedNumberExactly(r: Reading, n: int, sep: byte, s: bytes)
    requires -LONG_MAX <= n <= LONG_MAX && IsSpace(sep) && At(r, SpellTok(TNumber(n), sep) + s)
    ensures ReadOne(r).Got? && (TokOf(ReadOne(r).rd) == TNumber(n) <==> n >= 0)
    ensures n < 0 ==> TokOf(ReadOne(r).rd) == TWord([MINUS] + Dec(-n))
  {
    hide At, Dec, DecValue;
    if n >= 0 {
      TokenRead(r, TNumber(n), sep, s);
    } else {
      DecRoundTrip(-n);
      var w := [MINUS] + Dec(-n);
      assert SpellTok(TNumber(n), sep) == SpellTok(TWord(w), sep);
      TokenRead(r, TWord(w), sep, s);
    }
  }

  /** A string is not found again: stepping back goes to the start of its bytes, not of its length,
      so that one that looks like a word comes back as that word. */
  lemma TextRereadsAsWord(r: Reading, w: bytes, sep: byte, s: bytes)
    requires GoodTok(TWord(w)) && GoodTok(TText(w)) && IsSpace(sep) && At(r, SpellTok(TText(w), sep) + s)
    ensures var x := ReadOne(r);
            Delivers(x, TText(w), s) && Delivers(ReadOne(x.rd.(back := true)), TWord(w), s)
  {
    hide Scan, Delivers, SpellTok, IsWordChar, IsAlpha;
    var rest := SpellTok(TText(w), sep) + s;
    TokenRead(r, TText(w), sep, s);
    var lx := ScanFrom(r, rest);
    var b, c := TextScanned(r.buf, |r.buf| - |rest|, lx, w, sep, s);
    var x := ReadOne(r);
    WordBehindText(b, c, w, s);
    TokenRead(x.rd.(back := true), TWord(w), 0, s);
  }

  lemma WordBehindText(b: bytes, c: nat, w: bytes, s: bytes)
    requires c + 1 + |w| < |b| && b[c + 1..c + 1 + |w|] == w && b[c + 1 + |w|] == 0 && b[c + 2 + |w|..] == s
    ensures b[c + 1..] == SpellTok(TWord(w), 0) + s
  {
  }

  /** A string token that is begun in a scan starts at least two bytes on, behind a digit and a colon. */
  predicate TextFrom(lx: Lexer, pos: nat, from: nat) {
    && from <= pos && (lx.kind == NUM_IN ==> from <= lx.start < pos)
    && (lx.kind in {STRING_IN, STRING_CHECK} ==> from + 2 <= lx.start <= pos)
    && (lx.kind == STRING_CHECK ==> lx.start <= lx.end <= pos) && lx.kind != STRING_OUT
  }

  lemma {:induction false} TextStartsLater(buf: bytes, pos: nat, lx: Lexer, from: nat)
    requires TextFrom(lx, pos, from)
    ensures var x := Scan(buf, pos, lx);
            x.Token? && x.lx.kind == STRING_OUT ==> from + 2 <= x.lx.start <= x.lx.end < x.pos
    decreases |buf| - pos, if lx.kind == STRING_IN then 1 else 0
  {
    if pos < |buf| {
      var t := OneTurn(buf, pos, lx);
      if t.Stay? { TextStartsLater(t.buf, t.pos, t.lx, from); }
    }
  }

  /** What is left at a reader that is not rewound. */
  lemma AtLength(r: Reading, s: bytes)
    requires At(r, s) && !r.back
    ensures r.pos + |s| <= |r.buf| && (IsOut(r.lx.kind) ==> r.pos + |s| == |r.buf|)
  {
  }

  lemma TextNotFound(b: bytes, start: nat, w: bytes, i: int, s: bytes)
    requires start + |w| + 1 + |s| == |b| && start <= |b|
    ensures var back := Reading(b, start + |w| + 1, Lexer(STRING_OUT, start, start + |w|, i), true);
            GoodTok(TText(w)) ==> !Delivers(ReadOne(back), TText(w), s)
  {
    hide Scan;
    var back := Reading(b, start + |w| + 1, Lexer(STRING_OUT, start, start + |w|, i), true);
    TextStartsLater(b, start, Lexer(START, start, start + |w|, i), start);
    var x := ReadOne(back);
    if x.Got? && At(x.rd, s) { AtLength(x.rd, s); }
  }

  /** A token that has been read is found again after a step back exactly if it is not a string. */
  lemma FoundAgainExactly(r: Reading, t: Tok, sep: byte, s: bytes)
    requires GoodTok(t) && IsSpace(sep) && At(r, SpellTok(t, sep) + s)
    ensures var x := ReadOne(r);
            Delivers(x, t, s) && (Delivers(ReadOne(x.rd.(back := true)), t, s) <==> !t.TText?)
  {
    hide Scan, ReadOne, SpellTok;
    TokenRead(r, t, sep, s);
    var x := ReadOne(r);
    if t.TText? {
      TextDeliveredAt(r, t.s, sep, s);
      TextNotFound(x.rd.buf, x.rd.lx.start, t.s, x.rd.lx.i, s);
      assert x.rd.(back := true) == Reading(x.rd.buf, x.rd.lx.start + |t.s| + 1,
                                            Lexer(STRING_OUT, x.rd.lx.start, x.rd.lx.start + |t.s|, x.rd.lx.i), true);
    } else {
      var again: byte :| IsSpace(again) && At(x.rd.(back := true), SpellTok(t, again) + s);
      TokenRead(x.rd.(back := true), t, again, s);
    }
  }

  /** Where the reader stands behind a string. */
  lemma TextDeliveredAt(r: Reading, w: bytes, sep: byte, s: bytes)
    requires GoodTok(TText(w)) && IsSpace(sep) && At(r, SpellTok(TText(w), sep) + s)
    ensures var x := ReadOne(r);
            && x.Got? && !x.rd.back && x.rd.lx.kind == STRING_OUT && x.rd.lx.end == x.rd.lx.start + |w|
            && x.rd.pos == x.rd.lx.end + 1 && x.rd.pos + |s| == |x.rd.buf|
  {
    hide Scan, SpellTok;
    var rest := SpellTok(TText(w), sep) + s;
    var lx := ScanFrom(r, rest);
    var b, c := TextScanned(r.buf, |r.buf| - |rest|, lx, w, sep, s);
  }

  // ---- reading them all ----

  /** The next n tokens, fewer if reading stops. */
  function ReadToks(r: Reading, n: nat): seq<Tok>
    decreases n
  {
    if n == 0 then []
    else match ReadOne(r)
      case Got(r') => [TokOf(r')] + ReadToks(r', n - 1)
      case Eod => []
      case Malformed(_) => []
  }

  lemma {:induction false} ToksRoundTrip(r: Reading, ts: seq<Tok>, tail: bytes)
    requires GoodToks(ts) && At(r, Spell(ts) + tail)
    ensures ReadToks(r, |ts|) == ts
    decreases |ts|
  {
    hide ReadOne, At;
    if ts != [] {
      var rest := Spell(ts[1..]) + tail;
      assert Spell(ts) + tail == SpellTok(ts[0], SPACE) + rest;
      TokenRead(r, ts[0], SPACE, rest);
      ToksRoundTrip(ReadOne(r).rd, ts[1..], tail);
    }
  }

  /** Tokenizing the packed form of any item gives exactly the tokens of the item: strings may
      hold spaces, colons, digits, parentheses and NULs. */
  lemma ItemRoundTrip(it: Item, tail: bytes)
    requires GoodToks(Flat(it))
    ensures ReadToks(Reading(Spell(Flat(it)) + tail, 0, FRESH_LEXER, false), |Flat(it)|) == Flat(it)
  {
    var s := Spell(Flat(it)) + tail;
    assert s[0..] == s;
    ToksRoundTrip(Reading(s, 0, FRESH_LEXER, false), Flat(it), tail);
  }
}
