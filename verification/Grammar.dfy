/** Which byte strings the tokenizer takes for which tokens, and at which byte it gives up. */
module Grammar {
  import opened Bytes
  import opened Tokenizer
  import opened Wire

  // ---- tokens as a grammar ----

  predicate Blank(c: byte) { c == ' ' as int || c == '\t' as int || c == '\n' as int || c == '\r' as int || c == 0 }

  predicate Figure(c: byte) { '0' as int <= c <= '9' as int }

  /** What a word begins with, and with figures what it goes on with. */
  predicate Initial(c: byte) {
    ('a' as int <= c <= 'z' as int) || ('A' as int <= c <= 'Z' as int) || c == '-' as int
  }

  predicate InWord(c: byte) { Initial(c) || Figure(c) }

  /** How many bytes at the beginning are of one class. */
  function Run(s: bytes, belongs: byte -> bool): (n: nat)
    ensures n <= |s| && (forall i | 0 <= i < n :: belongs(s[i])) && (n < |s| ==> !belongs(s[n]))
  {
    if s != [] && belongs(s[0]) then 1 + Run(s[1..], belongs) else 0
  }

  /** What is at the beginning of a byte string: a token that takes up so many bytes; a token that is cut
      short by the end; or something else, that goes wrong at one byte. */
  datatype Lexeme = Found(t: Tok, used: nat) | Cut | Wrong(at: nat)

  function Behind(k: nat, x: Lexeme): Lexeme {
    match x
    case Found(t, used) => Found(t, k + used)
    case Cut => Cut
    case Wrong(at) => Wrong(k + at)
  }

  function WordAt(s: bytes): Lexeme {
    var n := Run(s, InWord);
    if n == |s| then Cut else if Blank(s[n]) then Found(TWord(s[..n]), n + 1) else Wrong(n)
  }

  /** The length that is announced, as a long takes it. */
  function Announced(figures: bytes): int { Min(DecValue(figures), 0x7fff_ffff_ffff_ffff) }

  function TextBehind(s: bytes, colon: nat, length: int): Lexeme
    requires colon < |s|
  {
    var end := colon + 1 + Max(length, 0);
    if end >= |s| then Cut
    else if Blank(s[end]) then Found(TText(s[colon + 1..end]), end + 1)
    else Wrong(end)
  }

  function FiguresAt(s: bytes): Lexeme {
    var n := Run(s, Figure);
    if n == |s| then Cut
    else if Blank(s[n]) then Found(TNumber(Announced(s[..n])), n + 1)
    else if s[n] == ':' as int then TextBehind(s, n, Announced(s[..n]))
    else Wrong(n)
  }

  function TokenAt(s: bytes): Lexeme {
    if s == [] then Cut
    else if s[0] == '(' as int then Found(TOpen, 1)
    else if s[0] == ')' as int then Found(TClose, 1)
    else if Figure(s[0]) then FiguresAt(s)
    else if Initial(s[0]) then WordAt(s)
    else Wrong(0)
  }

  /** The first token, behind any blanks. */
  function First(s: bytes): Lexeme {
    var k := Run(s, Blank);
    Behind(k, TokenAt(s[k..]))
  }

  /** Behind a parenthesis a blank has to come first. */
  function FirstBehindParen(s: bytes): Lexeme {
    if s == [] then Cut else if Blank(s[0]) then Behind(1, First(s[1..])) else Wrong(0)
  }

  /** The code says of what kind the byte is that has no place there. */
  function Complaint(c: byte): int {
    if c == '(' as int then 2
    else if c == ')' as int then 3
    else if Figure(c) then 4
    else if c == ':' as int then 5
    else if Initial(c) then 6
    else 7
  }

  // ---- the tokenizer follows the grammar ----

  /** A scan that starts at pos comes to x. */
  ghost predicate Follows(buf: bytes, pos: nat, lx: Lexer, x: Lexeme)
    requires pos <= |buf|
  {
    var r := Scan(buf, pos, lx);
    match x
    case Found(t, used) => r.Token? && r.pos == pos + used && TokOf(Reading(r.buf, r.pos, r.lx, false)) == t
    case Cut => r.More?
    case Wrong(at) => pos + at < |buf| && r.Bad? && r.code == PARSE_ONE_VALUE + Complaint(buf[pos + at])
  }

  lemma FollowsOn(buf: bytes, pos: nat, lx: Lexer, k: nat, lx': Lexer, x: Lexeme)
    requires pos + k <= |buf| && Scan(buf, pos, lx) == Scan(buf, pos + k, lx') && Follows(buf, pos + k, lx', x)
    ensures Follows(buf, pos, lx, Behind(k, x))
  {
    hide Scan;
  }

  lemma ScanAtEnd(buf: bytes, lx: Lexer)
    ensures Scan(buf, |buf|, lx).More?
  {
  }

  /** A byte that has no place in this state. */
  lemma ScanWrong(buf: bytes, pos: nat, lx: Lexer)
    requires pos < |buf| && lx.kind != STRING_IN
    requires !Blank(buf[pos]) && (lx.kind == TOK_IN ==> !IsWordChar(buf[pos]))
    requires lx.kind == NUM_IN ==> !Figure(buf[pos]) && buf[pos] != ':' as int
    requires IsOut(lx.kind) ==> buf[pos] != '(' as int && buf[pos] != ')' as int && !IsWordChar(buf[pos])
    ensures Scan(buf, pos, lx).Bad? && Scan(buf, pos, lx).code == PARSE_ONE_VALUE + Complaint(buf[pos])
  {
  }

  /** n bytes of a word, and then something else or the end. */
  lemma WordScan(buf: bytes, pos: nat, lx: Lexer, n: nat)
    requires 0 < n && pos + n <= |buf| && IsOut(lx.kind) && Initial(buf[pos])
    requires (forall j | pos <= j < pos + n :: InWord(buf[j])) && (pos + n < |buf| ==> !InWord(buf[pos + n]))
    ensures var r, end := Scan(buf, pos, lx), pos + n;
            if end == |buf| then r.More?
            else if Blank(buf[end]) then
              r == Token(buf[end := 0], end + 1, lx.(kind := TOK_OUT, start := pos, end := end))
            else r.Bad? && r.code == PARSE_ONE_VALUE + Complaint(buf[end])
  {
    hide Scan;
    var l := lx.(kind := TOK_IN, start := pos);
    FirstLetter(buf, pos, lx);
    ScanRun(buf, pos + 1, l, n - 1);
    if pos + n == |buf| {
      ScanAtEnd(buf, l);
    } else if Blank(buf[pos + n]) {
      EndOfWord(buf, pos + n, l);
    } else {
      ScanWrong(buf, pos + n, l);
    }
  }

  lemma WordFollows(buf: bytes, pos: nat, lx: Lexer)
    requires pos < |buf| && IsOut(lx.kind) && Initial(buf[pos])
    ensures Follows(buf, pos, lx, WordAt(buf[pos..]))
  {
    hide Scan, Complaint;
    var s := buf[pos..];
    var n := Run(s, InWord);
    forall j | pos <= j < pos + n ensures InWord(buf[j]) { assert buf[j] == s[j - pos]; }
    if n < |s| { assert buf[pos + n] == s[n]; }
    assert n > 0;
    WordScan(buf, pos, lx, n);
    if n < |s| { assert buf[pos + n := 0][pos..pos + n] == s[..n]; }
  }

  lemma {:induction false} DecValueBound(s: bytes)
    requires forall c | c in s :: Figure(c)
    ensures DecValue(s) >= 0
  {
    if s != [] {
      assert s[|s| - 1] in s;
      DecValueBound(s[..|s| - 1]);
    }
  }

  /** The bytes of a string, from behind the colon on. */
  lemma BodyFollows(buf: bytes, colon: nat, length: nat)
    requires colon < |buf|
    ensures var b, l, end := buf[colon := 0], Lexer(STRING_IN, colon + 1, colon, length), colon + 1 + length;
            var r := Scan(b, colon + 1, l);
            if end >= |buf| then r.More?
            else if Blank(buf[end]) then r == Token(b[end := 0], end + 1, Lexer(STRING_OUT, colon + 1, end, length))
            else r.Bad? && r.code == PARSE_ONE_VALUE + Complaint(buf[end])
  {
    hide Scan;
    var b, l, end := buf[colon := 0], Lexer(STRING_IN, colon + 1, colon, length), colon + 1 + length;
    if end >= |buf| {
      ScanRun(b, colon + 1, l, |buf| - colon - 1);
      ScanAtEnd(b, l);
    } else if Blank(buf[end]) {
      TextBody(b, colon, length);
    } else {
      ScanRun(b, colon + 1, l, length);
      EndIsChecked(b, end, l);
      ScanWrong(b, end, l.(kind := STRING_CHECK, end := end));
    }
  }

  /** The colon, the bytes of a string, and its separator. */
  lemma TextFollows(buf: bytes, pos: nat, lx: Lexer, n: nat)
    requires pos + n < |buf| && lx.kind == NUM_IN && lx.start == pos && buf[pos + n] == ':' as int
    requires forall c | c in buf[pos..pos + n] :: Figure(c)
    ensures Follows(buf, pos + n, lx, Offset(pos, n, buf))
  {
    hide Scan, DecValue, Complaint;
    var colon, figures := pos + n, buf[pos..pos + n];
    DecValueBound(figures);
    var length: nat := Announced(figures);
    StartOfText(buf, colon, lx);
    BodyFollows(buf, colon, length);
    var end := colon + 1 + length;
    if end < |buf| {
      TextSlice(buf, colon, end);
      assert buf[colon..][end - colon] == buf[end];
    }
  }

  lemma TextSlice(buf: bytes, colon: nat, end: nat)
    requires colon < end < |buf|
    ensures buf[colon := 0][end := 0][colon + 1..end] == buf[colon..][1..end - colon]
  {
  }

  /** The text behind its length, as seen from the colon. */
  function Offset(pos: nat, n: nat, buf: bytes): Lexeme
    requires pos + n < |buf|
  {
    TextBehind(buf[pos + n..], 0, Announced(buf[pos..pos + n]))
  }

  lemma EndIsChecked(buf: bytes, pos: nat, lx: Lexer)
    requires pos < |buf| && lx.kind == STRING_IN && pos == lx.start + lx.i
    ensures Scan(buf, pos, lx) == Scan(buf, pos, lx.(kind := STRING_CHECK, end := pos))
  {
  }

  /** n figures, and then something else or the end. */
  lemma FiguresScan(buf: bytes, pos: nat, lx: Lexer, n: nat)
    requires 0 < n && pos + n <= |buf| && IsOut(lx.kind) && forall j | pos <= j < pos + n :: Figure(buf[j])
    requires pos + n < |buf| ==> !Figure(buf[pos + n])
    ensures var l, end := lx.(kind := NUM_IN, start := pos), pos + n;
            var r := Scan(buf, pos, lx);
            && r == Scan(buf, end, l)
            && if end == |buf| then r.More?
               else if Blank(buf[end]) then
                 r == Token(buf[end := 0], end + 1, l.(kind := NUM_OUT, end := end, i := Announced(buf[pos..end])))
               else buf[end] != ':' as int ==> r.Bad? && r.code == PARSE_ONE_VALUE + Complaint(buf[end])
  {
    hide Scan, DecValue;
    var l := lx.(kind := NUM_IN, start := pos);
    FirstDigit(buf, pos, lx);
    ScanRun(buf, pos + 1, l, n - 1);
    if pos + n == |buf| {
      ScanAtEnd(buf, l);
    } else if Blank(buf[pos + n]) {
      EndOfNumber(buf, pos + n, l);
    } else if buf[pos + n] != ':' as int {
      ScanWrong(buf, pos + n, l);
    }
  }

  lemma FiguresFollow(buf: bytes, pos: nat, lx: Lexer)
    requires pos < |buf| && IsOut(lx.kind) && Figure(buf[pos])
    ensures Follows(buf, pos, lx, FiguresAt(buf[pos..]))
  {
    hide Scan, DecValue, Complaint, TextBehind;
    var s := buf[pos..];
    var n := Run(s, Figure);
    forall j | pos <= j < pos + n ensures Figure(buf[j]) { assert buf[j] == s[j - pos]; }
    if n < |s| { assert buf[pos + n] == s[n]; }
    assert n > 0 && buf[pos..pos + n] == s[..n];
    FiguresScan(buf, pos, lx, n);
    if n < |s| && !Blank(s[n]) && s[n] == ':' as int {
      var l := lx.(kind := NUM_IN, start := pos);
      hide Follows;
      TextFollows(buf, pos, l, n);
      SeenFromColon(buf, pos, n);
      FollowsOn(buf, pos, lx, n, l, Offset(pos, n, buf));
    }
  }

  lemma SeenFromColon(buf: bytes, pos: nat, n: nat)
    requires pos + n < |buf|
    ensures Behind(n, Offset(pos, n, buf)) == TextBehind(buf[pos..], n, Announced(buf[pos..pos + n]))
  {
    var s, t := buf[pos..], buf[pos + n..];
    assert s[n..] == t;
    var length := Announced(buf[pos..pos + n]);
    var end := 1 + Max(length, 0);
    if end < |t| { assert t[1..end] == s[n + 1..n + end]; }
  }

  lemma TokenFollows(buf: bytes, pos: nat, lx: Lexer)
    requires pos <= |buf| && IsOut(lx.kind) && (pos < |buf| ==> !Blank(buf[pos]))
    ensures Follows(buf, pos, lx, TokenAt(buf[pos..]))
  {
    hide FiguresAt, WordAt;
    if pos < |buf| {
      var c := buf[pos];
      assert buf[pos..][0] == c;
      if Figure(c) {
        FiguresFollow(buf, pos, lx);
      } else if Initial(c) {
        WordFollows(buf, pos, lx);
      } else if c != '(' as int && c != ')' as int {
        ScanWrong(buf, pos, lx);
      }
    }
  }

  lemma {:induction false} SkipBlanks(buf: bytes, pos: nat, lx: Lexer, k: nat)
    requires pos + k <= |buf| && IsOut(lx.kind) && forall j | pos <= j < pos + k :: Blank(buf[j])
    ensures Scan(buf, pos, lx) == Scan(buf, pos + k, lx)
    decreases k
  {
    hide Scan;
    if k > 0 {
      SkipBlank(buf, pos, lx);
      SkipBlanks(buf, pos + 1, lx, k - 1);
    }
  }

  lemma SkipBlank(buf: bytes, pos: nat, lx: Lexer)
    requires pos < |buf| && IsOut(lx.kind) && Blank(buf[pos])
    ensures Scan(buf, pos, lx) == Scan(buf, pos + 1, lx)
  {
    assert OneTurn(buf, pos, lx) == Stay(buf, pos + 1, lx);
  }

  lemma FirstFollows(buf: bytes, pos: nat, lx: Lexer)
    requires pos <= |buf| && IsOut(lx.kind)
    ensures Follows(buf, pos, lx, First(buf[pos..]))
  {
    hide Scan, TokenAt, Follows;
    var s := buf[pos..];
    var k := Run(s, Blank);
    forall j | pos <= j < pos + k ensures Blank(buf[j]) { assert buf[j] == s[j - pos]; }
    if k < |s| { assert buf[pos + k] == s[k]; }
    SkipBlanks(buf, pos, lx, k);
    TokenFollows(buf, pos + k, lx);
    assert s[k..] == buf[pos + k..];
    FollowsOn(buf, pos, lx, k, lx, TokenAt(s[k..]));
  }

  lemma BehindParenFollows(buf: bytes, pos: nat, lx: Lexer)
    requires pos <= |buf| && IsList(lx.kind)
    ensures Follows(buf, pos, lx, FirstBehindParen(buf[pos..]))
  {
    hide First;
    if pos < |buf| {
      assert buf[pos..][0] == buf[pos] && buf[pos..][1..] == buf[pos + 1..];
      if Blank(buf[pos]) {
        hide Scan, Follows;
        SkipSpace(buf, pos, lx);
        FirstFollows(buf, pos + 1, lx.(kind := START));
        FollowsOn(buf, pos, lx, 1, lx.(kind := START), First(buf[pos + 1..]));
      } else {
        ScanWrong(buf, pos, lx);
      }
    }
  }

  /** What is next for a reader between two tokens. */
  function Next(r: Reading): Lexeme
    requires Rewind(r).pos <= |r.buf|
  {
    var r0 := Rewind(r);
    if IsList(r0.lx.kind) then FirstBehindParen(r.buf[r0.pos..]) else First(r.buf[r0.pos..])
  }

  /** The tokenizer accepts exactly the grammar, on any stream and in any state between two tokens: it
      delivers the token that is there and stops behind it; it asks for more exactly where the stream
      ends too soon; and it gives up at the first byte that has no place, with the code of its kind. */
  lemma ReadExactly(r: Reading)
    requires (IsOut(Rewind(r).lx.kind) || IsList(Rewind(r).lx.kind)) && Rewind(r).pos <= |r.buf|
    ensures var x, from := ReadOne(r), Rewind(r).pos;
            match Next(r)
            case Found(t, used) => x.Got? && TokOf(x.rd) == t && x.rd.pos == from + used && !x.rd.back
            case Cut => x == Eod
            case Wrong(at) => from + at < |r.buf| && x == Malformed(PARSE_ONE_VALUE + Complaint(r.buf[from + at]))
  {
    hide Scan, First, FirstBehindParen;
    var r0 := Rewind(r);
    if IsList(r0.lx.kind) {
      BehindParenFollows(r0.buf, r0.pos, r0.lx);
    } else {
      FirstFollows(r0.buf, r0.pos, r0.lx);
    }
  }
}
