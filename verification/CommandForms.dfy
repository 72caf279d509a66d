/** How a server spells each command of the editor on the wire. */
module CommandForms {
  import opened Bytes
  import opened Tokenizer
  import opened Wire
  import opened Unpack
  import opened SvnEdit
  import opened ProtoEditor

  /** What a command carries and the editor does not use. */
  datatype Extra = Extra(parent: bytes, token: bytes, rev: Option<nat>, copyPath: Option<bytes>, copyRev: Option<nat>)

  function Text(s: bytes): Arg { Plain(TText(s)) }

  function Number(n: int): Arg { Plain(TNumber(n)) }

  function MaybeText(s: Option<bytes>): Arg {
    Optional(S, if s.Some? then Some(TText(s.value)) else None)
  }

  function MaybeNumber(n: Option<nat>): Arg {
    Optional(N, if n.Some? then Some(TNumber(n.value)) else None)
  }

  predicate Fits(s: Option<bytes>) { s.Some? ==> |s.value| <= LONG_MAX }

  predicate FitsNumber(n: Option<nat>) { n.Some? ==> n.value <= LONG_MAX }

  predicate Sendable(a: Action, x: Extra) {
    && |x.parent| <= LONG_MAX && |x.token| <= LONG_MAX && FitsNumber(x.rev) && Fits(x.copyPath) && FitsNumber(x.copyRev)
    && match a
       case TargetRev(rev) => 0 <= rev <= LONG_MAX
       case OpenRoot => true
       case Delete(p) => |p| <= LONG_MAX
       case AddDir(p) => |p| <= LONG_MAX
       case OpenDir(p) => |p| <= LONG_MAX && x.rev.Some?
       case Add(p, token) => |p| <= LONG_MAX && token == Some(x.token)
       case Open(p, token, rev) => |p| <= LONG_MAX && token == Some(x.token) && 0 <= rev <= LONG_MAX
       case ApplyTextdelta(base) => Fits(base)
       case Chunk(data) => |data| <= LONG_MAX
       case Close(token, text) => token == Some(x.token) && Fits(text)
       case Ignored => false
  }

  /** The arguments between the outer parentheses, then the closing one. */
  function Inner(a: Action, x: Extra): seq<Arg>
    requires Sendable(a, x)
  {
    var end := [Arg.Close];
    var copied := [Arg.Open] + ([MaybeText(x.copyPath)] + ([MaybeNumber(x.copyRev)] + ([Arg.Close] + end)));
    match a
    case TargetRev(rev) => [Number(rev)] + end
    case OpenRoot => [Arg.Open] + ([MaybeNumber(x.rev)] + ([Arg.Close] + ([Text(x.token)] + end)))
    case Delete(p) => [Text(p)] + ([Arg.Open] + ([MaybeNumber(x.rev)] + ([Arg.Close] + ([Text(x.parent)] + end))))
    case AddDir(p) => [Text(p)] + ([Text(x.parent)] + ([Text(x.token)] + copied))
    case OpenDir(p) =>
      [Text(p)] + ([Text(x.parent)] + ([Text(x.token)] + ([Arg.Open] + ([Number(x.rev.value)] + ([Arg.Close] + end)))))
    case Add(p, _) => [Text(p)] + ([Text(x.parent)] + ([Text(x.token)] + copied))
    case Open(p, _, rev) =>
      [Text(p)] + ([Text(x.parent)] + ([Text(x.token)] + ([Arg.Open] + ([Number(rev)] + ([Arg.Close] + end)))))
    case ApplyTextdelta(base) => [Text(x.token)] + ([Arg.Open] + ([MaybeText(base)] + ([Arg.Close] + end)))
    case Chunk(data) => [Text(x.token)] + ([Text(data)] + end)
    case Close(_, text) => [Text(x.token)] + ([Arg.Open] + ([MaybeText(text)] + ([Arg.Close] + end)))
  }

  function Name(a: Action): bytes
    requires !a.Ignored?
  {
    match a
    case TargetRev(_) => Ascii("target-rev")
    case OpenRoot => Ascii("open-root")
    case Delete(_) => Ascii("delete-entry")
    case AddDir(_) => Ascii("add-dir")
    case OpenDir(_) => Ascii("open-dir")
    case Add(_, _) => Ascii("add-file")
    case Open(_, _, _) => Ascii("open-file")
    case ApplyTextdelta(_) => Ascii("apply-textdelta")
    case Chunk(_) => Ascii("textdelta-chunk")
    case Close(_, _) => Ascii("close-file")
  }

  /** The command as a server spells it. */
  function Spoken(a: Action, x: Extra): Sent
    requires Sendable(a, x)
  {
    Sent(Name(a), [Arg.Open] + Inner(a, x))
  }

  lemma Cons(a: Arg, rest: seq<Arg>)
    ensures AllToks([a] + rest) == Toks(a) + AllToks(rest) && Spec([a] + rest) == [WantOf(a)] + Spec(rest)
    ensures AllReceived([a] + rest) == Received(a) + AllReceived(rest)
    ensures WellSent([a] + rest, [TClose])
       <==> GoodArg(a) && Shown(a, AllToks(rest) + [TClose]) && WellSent(rest, [TClose])
  {
    assert ([a] + rest)[1..] == rest;
  }

  /** What a list of arguments asks for and delivers; nothing in it can be mistaken. */
  ghost predicate Reads(args: seq<Arg>, want: seq<Want>, got: seq<Val>) {
    Spec(args) == want && AllReceived(args) == got && WellSent(args, [TClose])
  }

  /** A list that does not begin with a string or a number, behind which an absent item shows. */
  ghost predicate Paren(args: seq<Arg>) { AllToks(args) != [] && AllToks(args)[0] == TClose }

  lemma ReadsEnd()
    ensures Reads([Arg.Close], [WClose], []) && Paren([Arg.Close])
  {
    Cons(Arg.Close, []);
    assert [Arg.Close] + [] == [Arg.Close];
  }

  lemma ReadsParen(open: bool, rest: seq<Arg>, want: seq<Want>, got: seq<Val>)
    requires Reads(rest, want, got)
    ensures Reads([if open then Arg.Open else Arg.Close] + rest, [if open then WOpen else WClose] + want, got)
    ensures !open ==> Paren([Arg.Close] + rest)
  {
    Cons(if open then Arg.Open else Arg.Close, rest);
  }

  lemma ReadsText(s: bytes, rest: seq<Arg>, want: seq<Want>, got: seq<Val>)
    requires Reads(rest, want, got) && |s| <= LONG_MAX
    ensures Reads([Text(s)] + rest, [STR] + want, [VBytes(s)] + got)
  {
    Cons(Text(s), rest);
  }

  lemma ReadsNumber(n: int, rest: seq<Arg>, want: seq<Want>, got: seq<Val>)
    requires Reads(rest, want, got) && 0 <= n <= LONG_MAX
    ensures Reads([Number(n)] + rest, [NUM] + want, [VNum(n)] + got)
  {
    Cons(Number(n), rest);
  }

  function NumberOr0(n: Option<nat>): Val { VNum(if n.Some? then n.value else 0) }

  function TextOrNull(s: Option<bytes>): Val { if s.Some? then VBytes(s.value) else VNull }

  lemma ReadsMaybeNumber(n: Option<nat>, rest: seq<Arg>, want: seq<Want>, got: seq<Val>)
    requires Reads(rest, want, got) && FitsNumber(n) && Paren(rest)
    ensures Reads([MaybeNumber(n)] + rest, [MAYBE_NUM] + want, [NumberOr0(n)] + got)
    ensures AllToks([MaybeNumber(n)] + rest) != [] && !AllToks([MaybeNumber(n)] + rest)[0].TText?
  {
    Cons(MaybeNumber(n), rest);
  }

  lemma ReadsMaybeText(s: Option<bytes>, rest: seq<Arg>, want: seq<Want>, got: seq<Val>)
    requires Reads(rest, want, got) && Fits(s) && AllToks(rest) != [] && !AllToks(rest)[0].TText?
    ensures Reads([MaybeText(s)] + rest, [MAYBE_STR] + want, [TextOrNull(s)] + got)
  {
    Cons(MaybeText(s), rest);
  }

  // ---- the argument lists ----

  const TWO_CLOSE: seq<Want> := [WClose] + [WClose]

  lemma ReadsTwoClose()
    ensures Reads([Arg.Close] + [Arg.Close], TWO_CLOSE, []) && Paren([Arg.Close] + [Arg.Close])
  {
    ReadsEnd();
    ReadsParen(false, [Arg.Close], [WClose], []);
  }

  /** ( [rev] ) at the end. */
  lemma ReadsRev(rev: int)
    requires 0 <= rev <= LONG_MAX
    ensures Reads([Arg.Open] + ([Number(rev)] + ([Arg.Close] + [Arg.Close])),
                  [WOpen] + ([NUM] + TWO_CLOSE), [VNum(rev)] + [])
  {
    hide Reads;
    ReadsTwoClose();
    ReadsNumber(rev, [Arg.Close] + [Arg.Close], TWO_CLOSE, []);
    ReadsParen(true, [Number(rev)] + ([Arg.Close] + [Arg.Close]), [NUM] + TWO_CLOSE, [VNum(rev)] + []);
  }

  lemma ReadsMaybe(s: Option<bytes>)
    requires Fits(s)
    ensures Reads([Arg.Open] + ([MaybeText(s)] + ([Arg.Close] + [Arg.Close])),
                  [WOpen] + ([MAYBE_STR] + TWO_CLOSE), [TextOrNull(s)] + [])
  {
    hide Reads;
    ReadsTwoClose();
    ReadsMaybeText(s, [Arg.Close] + [Arg.Close], TWO_CLOSE, []);
    ReadsParen(true, [MaybeText(s)] + ([Arg.Close] + [Arg.Close]), [MAYBE_STR] + TWO_CLOSE, [TextOrNull(s)] + []);
  }

  lemma ReadsCopied(path: Option<bytes>, rev: Option<nat>)
    requires Fits(path) && FitsNumber(rev)
    ensures Reads([Arg.Open] + ([MaybeText(path)] + ([MaybeNumber(rev)] + ([Arg.Close] + [Arg.Close]))),
                  [WOpen] + ([MAYBE_STR] + ([MAYBE_NUM] + TWO_CLOSE)), [TextOrNull(path)] + ([NumberOr0(rev)] + []))
  {
    hide Reads;
    ReadsTwoClose();
    var a0, w0 := [Arg.Close] + [Arg.Close], TWO_CLOSE;
    ReadsMaybeNumber(rev, a0, w0, []);
    var a1, w1, g1 := [MaybeNumber(rev)] + a0, [MAYBE_NUM] + w0, [NumberOr0(rev)] + [];
    ReadsMaybeText(path, a1, w1, g1);
    ReadsParen(true, [MaybeText(path)] + a1, [MAYBE_STR] + w1, [TextOrNull(path)] + g1);
  }

  lemma ReadsThreeTexts(a: bytes, b: bytes, c: bytes, rest: seq<Arg>, want: seq<Want>, got: seq<Val>)
    requires Reads(rest, want, got) && |a| <= LONG_MAX && |b| <= LONG_MAX && |c| <= LONG_MAX
    ensures Reads([Text(a)] + ([Text(b)] + ([Text(c)] + rest)), [STR] + ([STR] + ([STR] + want)),
                  [VBytes(a)] + ([VBytes(b)] + ([VBytes(c)] + got)))
  {
    hide Reads;
    ReadsText(c, rest, want, got);
    ReadsText(b, [Text(c)] + rest, [STR] + want, [VBytes(c)] + got);
    ReadsText(a, [Text(b)] + ([Text(c)] + rest), [STR] + ([STR] + want), [VBytes(b)] + ([VBytes(c)] + got));
  }

  // ---- the table of commands ----

  /** A name in the table, with the arguments behind the opening parenthesis that it asks for, the
      action that these values give it, and the number of its failure. */
  ghost predicate Row(w: bytes, want: seq<Want>, got: seq<Val>, a: Action, code: int) {
    && GoodTok(TWord(w)) && w != Ascii("close-edit") && ActionOf(w, got) == a
    && Command(w).Some? && Command(w).value.0 == [WOpen] + want && Command(w).value.1 == code
  }

  const REST_REV: seq<Want> := [WOpen] + ([NUM] + TWO_CLOSE)
  const REST_MAYBE: seq<Want> := [WOpen] + ([MAYBE_STR] + TWO_CLOSE)
  const REST_COPIED: seq<Want> := [WOpen] + ([MAYBE_STR] + ([MAYBE_NUM] + TWO_CLOSE))

  lemma TargetRevRow(rev: int)
    ensures Row(Ascii("target-rev"), [NUM] + [WClose], [VNum(rev)] + [], TargetRev(rev), 2)
  {
    AsciiWord("target-rev");
    assert TARGET_REV[0] == 116 && CLOSE_EDIT[0] == 99;
  }

  lemma OpenRootRow(got: seq<Val>)
    ensures Row(Ascii("open-root"), [WOpen] + ([MAYBE_NUM] + ([WClose] + ([STR] + [WClose]))), got, OpenRoot, 4)
  {
    AsciiWord("open-root");
    assert |OPEN_ROOT| == 9;
  }

  lemma DeleteRow(p: Path, more: seq<Val>)
    ensures Row(Ascii("delete-entry"), [STR] + ([WOpen] + ([MAYBE_NUM] + ([WClose] + ([STR] + [WClose])))),
                [VBytes(p)] + more, Delete(p), 5)
  {
    AsciiWord("delete-entry");
    assert |DELETE_ENTRY| == 12;
  }

  lemma AddDirRow(p: Path, more: seq<Val>)
    ensures Row(Ascii("add-dir"), [STR] + ([STR] + ([STR] + REST_COPIED)), [VBytes(p)] + more, AddDir(p), 6)
  {
    AsciiWord("add-dir");
    assert |ADD_DIR| == 7;
  }

  lemma OpenDirRow(p: Path, more: seq<Val>)
    ensures Row(Ascii("open-dir"), [STR] + ([STR] + ([STR] + REST_REV)), [VBytes(p)] + more, OpenDir(p), 7)
  {
    AsciiWord("open-dir");
    assert |OPEN_DIR| == 8;
  }

  lemma AddRow(p: Path, parent: bytes, token: bytes, more: seq<Val>)
    ensures Row(Ascii("add-file"), [STR] + ([STR] + ([STR] + REST_COPIED)),
                [VBytes(p)] + ([VBytes(parent)] + ([VBytes(token)] + more)), Add(p, Some(token)), 11)
  {
    AsciiWord("add-file");
    assert |ADD_FILE| == 8 && ADD_FILE[0] == 97 && OPEN_DIR[0] == 111;
  }

  lemma OpenRow(p: Path, parent: bytes, token: bytes, rev: int)
    ensures Row(Ascii("open-file"), [STR] + ([STR] + ([STR] + REST_REV)),
                [VBytes(p)] + ([VBytes(parent)] + ([VBytes(token)] + ([VNum(rev)] + []))),
                Action.Open(p, Some(token), rev), 12)
  {
    AsciiWord("open-file");
    assert |OPEN_FILE| == 9 && OPEN_FILE[0] == 111 && OPEN_FILE[5] == 102 && OPEN_ROOT[5] == 114 && CLOSE_DIR[0] == 99;
  }

  lemma ApplyTextdeltaRow(token: bytes, base: Option<bytes>)
    ensures Row(Ascii("apply-textdelta"), [STR] + REST_MAYBE, [VBytes(token)] + ([TextOrNull(base)] + []),
                ApplyTextdelta(base), 13)
  {
    AsciiWord("apply-textdelta");
    assert |APPLY_TEXTDELTA| == 15 && APPLY_TEXTDELTA[0] == 97 && CHANGE_DIR_PROP[0] == 99;
  }

  lemma ChunkRow(token: bytes, data: bytes)
    ensures Row(Ascii("textdelta-chunk"), [STR] + ([STR] + [WClose]), [VBytes(token)] + ([VBytes(data)] + []),
                Chunk(data), 14)
  {
    AsciiWord("textdelta-chunk");
    assert |TEXTDELTA_CHUNK| == 15 && TEXTDELTA_CHUNK[0] == 116 && CHANGE_DIR_PROP[0] == 99 && APPLY_TEXTDELTA[0] == 97;
  }

  lemma CloseRow(token: bytes, text: Option<bytes>)
    ensures Row(Ascii("close-file"), [STR] + REST_MAYBE, [VBytes(token)] + ([TextOrNull(text)] + []),
                Action.Close(Some(token), text), 17)
  {
    AsciiWord("close-file");
    assert |CLOSE_FILE| == 10 && CLOSE_FILE[0] == 99 && TARGET_REV[0] == 116;
    assert CLOSE_FILE[6] == 102 && CLOSE_EDIT[6] == 101;
  }

  // ---- every action can be sent, and means itself ----

  /** The command is well formed, its action is a, and its failure has this number. */
  ghost predicate Means(c: Sent, a: Action, code: int) {
    IsCommand(c) && SentAction(c) == a && c.name != Ascii("close-edit") && Command(c.name).value.1 == code
  }

  lemma RowMeans(name: bytes, args: seq<Arg>, want: seq<Want>, got: seq<Val>, a: Action, code: int)
    requires Reads(args, want, got) && Row(name, want, got, a, code)
    ensures Means(Sent(name, [Arg.Open] + args), a, code)
  {
    hide Command, ActionOf, GoodTok;
    ReadsParen(true, args, want, got);
  }

  /** The number that a command's failure adds to the code of the editor. */
  function CodeOf(a: Action): int
    requires !a.Ignored?
  {
    match a
    case TargetRev(_) => 2
    case OpenRoot => 4
    case Delete(_) => 5
    case AddDir(_) => 6
    case OpenDir(_) => 7
    case Add(_, _) => 11
    case Open(_, _, _) => 12
    case ApplyTextdelta(_) => 13
    case Chunk(_) => 14
    case Close(_, _) => 17
  }

  lemma Finish(a: Action, x: Extra, want: seq<Want>, got: seq<Val>)
    requires Sendable(a, x) && Reads(Inner(a, x), want, got) && Row(Name(a), want, got, a, CodeOf(a))
    ensures Means(Spoken(a, x), a, CodeOf(a))
  {
    hide Name, Inner, Means, Row, Reads, CodeOf;
    RowMeans(Name(a), Inner(a, x), want, got, a, CodeOf(a));
  }

  lemma RootReads(rev: Option<nat>, token: bytes) returns (got: seq<Val>)
    requires FitsNumber(rev) && |token| <= LONG_MAX
    ensures Reads([Arg.Open] + ([MaybeNumber(rev)] + ([Arg.Close] + ([Text(token)] + [Arg.Close]))),
                  [WOpen] + ([MAYBE_NUM] + ([WClose] + ([STR] + [WClose]))), got)
  {
    hide Reads;
    ReadsEnd();
    ReadsText(token, [Arg.Close], [WClose], []);
    var a1, w1, g1 := [Text(token)] + [Arg.Close], [STR] + [WClose], [VBytes(token)] + [];
    ReadsParen(false, a1, w1, g1);
    ReadsMaybeNumber(rev, [Arg.Close] + a1, [WClose] + w1, g1);
    got := [NumberOr0(rev)] + g1;
    ReadsParen(true, [MaybeNumber(rev)] + ([Arg.Close] + a1), [MAYBE_NUM] + ([WClose] + w1), got);
  }

  lemma DirectoryMeans(a: Action, x: Extra)
    requires Sendable(a, x) && (a.TargetRev? || a.OpenRoot? || a.Delete? || a.AddDir? || a.OpenDir?)
    ensures Means(Spoken(a, x), a, CodeOf(a))
  {
    hide Reads, Row, Means;
    match a {
      case TargetRev(rev) =>
        ReadsEnd();
        ReadsNumber(rev, [Arg.Close], [WClose], []);
        TargetRevRow(rev);
        Finish(a, x, [NUM] + [WClose], [VNum(rev)] + []);
      case OpenRoot =>
        var got := RootReads(x.rev, x.token);
        OpenRootRow(got);
        Finish(a, x, [WOpen] + ([MAYBE_NUM] + ([WClose] + ([STR] + [WClose]))), got);
      case Delete(p) =>
        var got := RootReads(x.rev, x.parent);
        var want := [WOpen] + ([MAYBE_NUM] + ([WClose] + ([STR] + [WClose])));
        ReadsText(p, [Arg.Open] + ([MaybeNumber(x.rev)] + ([Arg.Close] + ([Text(x.parent)] + [Arg.Close]))), want, got);
        DeleteRow(p, got);
        Finish(a, x, [STR] + want, [VBytes(p)] + got);
      case AddDir(p) =>
        ReadsCopied(x.copyPath, x.copyRev);
        var got := [TextOrNull(x.copyPath)] + ([NumberOr0(x.copyRev)] + []);
        var rest := [Arg.Open] + ([MaybeText(x.copyPath)] + ([MaybeNumber(x.copyRev)] + ([Arg.Close] + [Arg.Close])));
        ReadsThreeTexts(p, x.parent, x.token, rest, REST_COPIED, got);
        AddDirRow(p, [VBytes(x.parent)] + ([VBytes(x.token)] + got));
        Finish(a, x, [STR] + ([STR] + ([STR] + REST_COPIED)),
               [VBytes(p)] + ([VBytes(x.parent)] + ([VBytes(x.token)] + got)));
      case OpenDir(p) =>
        ReadsRev(x.rev.value);
        var got := [VNum(x.rev.value)] + [];
        var rest := [Arg.Open] + ([Number(x.rev.value)] + ([Arg.Close] + [Arg.Close]));
        ReadsThreeTexts(p, x.parent, x.token, rest, REST_REV, got);
        OpenDirRow(p, [VBytes(x.parent)] + ([VBytes(x.token)] + got));
        Finish(a, x, [STR] + ([STR] + ([STR] + REST_REV)),
               [VBytes(p)] + ([VBytes(x.parent)] + ([VBytes(x.token)] + got)));
    }
  }

  lemma FileMeans(a: Action, x: Extra)
    requires Sendable(a, x) && (a.Add? || a.Open? || a.ApplyTextdelta? || a.Chunk? || a.Close?)
    ensures Means(Spoken(a, x), a, CodeOf(a))
  {
    hide Reads, Row, Means;
    match a {
      case Add(p, _) =>
        ReadsCopied(x.copyPath, x.copyRev);
        var got := [TextOrNull(x.copyPath)] + ([NumberOr0(x.copyRev)] + []);
        var rest := [Arg.Open] + ([MaybeText(x.copyPath)] + ([MaybeNumber(x.copyRev)] + ([Arg.Close] + [Arg.Close])));
        ReadsThreeTexts(p, x.parent, x.token, rest, REST_COPIED, got);
        AddRow(p, x.parent, x.token, got);
        Finish(a, x, [STR] + ([STR] + ([STR] + REST_COPIED)),
               [VBytes(p)] + ([VBytes(x.parent)] + ([VBytes(x.token)] + got)));
      case Open(p, _, rev) =>
        ReadsRev(rev);
        var got := [VNum(rev)] + [];
        var rest := [Arg.Open] + ([Number(rev)] + ([Arg.Close] + [Arg.Close]));
        ReadsThreeTexts(p, x.parent, x.token, rest, REST_REV, got);
        OpenRow(p, x.parent, x.token, rev);
        Finish(a, x, [STR] + ([STR] + ([STR] + REST_REV)),
               [VBytes(p)] + ([VBytes(x.parent)] + ([VBytes(x.token)] + got)));
      case ApplyTextdelta(base) =>
        TokenAndMaybe(x.token, base);
        ApplyTextdeltaRow(x.token, base);
        Finish(a, x, [STR] + REST_MAYBE, [VBytes(x.token)] + ([TextOrNull(base)] + []));
      case Chunk(data) =>
        ReadsEnd();
        ReadsText(data, [Arg.Close], [WClose], []);
        ReadsText(x.token, [Text(data)] + [Arg.Close], [STR] + [WClose], [VBytes(data)] + []);
        ChunkRow(x.token, data);
        Finish(a, x, [STR] + ([STR] + [WClose]), [VBytes(x.token)] + ([VBytes(data)] + []));
      case Close(_, text) =>
        TokenAndMaybe(x.token, text);
        CloseRow(x.token, text);
        Finish(a, x, [STR] + REST_MAYBE, [VBytes(x.token)] + ([TextOrNull(text)] + []));
    }
  }

  lemma TokenAndMaybe(token: bytes, s: Option<bytes>)
    requires |token| <= LONG_MAX && Fits(s)
    ensures Reads([Text(token)] + ([Arg.Open] + ([MaybeText(s)] + ([Arg.Close] + [Arg.Close]))), [STR] + REST_MAYBE,
                  [VBytes(token)] + ([TextOrNull(s)] + []))
  {
    hide Reads;
    ReadsMaybe(s);
    ReadsText(token, [Arg.Open] + ([MaybeText(s)] + ([Arg.Close] + [Arg.Close])), REST_MAYBE, [TextOrNull(s)] + []);
  }

  /** Every action, spelled as the protocol spells it and with anything in the arguments the editor
      does not use, is a well-formed command, and the editor takes it for that action. */
  lemma SpokenMeans(a: Action, x: Extra)
    requires Sendable(a, x)
    ensures Means(Spoken(a, x), a, CodeOf(a))
  {
    hide Means;
    if a.TargetRev? || a.OpenRoot? || a.Delete? || a.AddDir? || a.OpenDir? {
      DirectoryMeans(a, x);
    } else {
      FileMeans(a, x);
    }
  }

  // ---- the commands that only trace ----

  /** A command for which the editor has no use, with its arguments. */
  datatype Trace =
    | ChangeDirProp(token: bytes, name: bytes, value: Option<bytes>)
    | CloseDir(token: bytes)
    | AbsentDir(path: Path, parent: bytes)
    | TextdeltaEnd(token: bytes)
    | ChangeFileProp(token: bytes, name: bytes, value: Option<bytes>)
    | AbsentFile(path: Path, parent: bytes)
    | AbortEdit
    | FinishReplay
    | Failure(code: nat, message: bytes, file: bytes, line: nat)

  predicate Traceable(t: Trace) {
    match t
    case ChangeDirProp(token, name, value) => |token| <= LONG_MAX && |name| <= LONG_MAX && Fits(value)
    case CloseDir(token) => |token| <= LONG_MAX
    case AbsentDir(path, parent) => |path| <= LONG_MAX && |parent| <= LONG_MAX
    case TextdeltaEnd(token) => |token| <= LONG_MAX
    case ChangeFileProp(token, name, value) => |token| <= LONG_MAX && |name| <= LONG_MAX && Fits(value)
    case AbsentFile(path, parent) => |path| <= LONG_MAX && |parent| <= LONG_MAX
    case AbortEdit => true
    case FinishReplay => true
    case Failure(code, message, file, line) =>
      code <= LONG_MAX && |message| <= LONG_MAX && |file| <= LONG_MAX && line <= LONG_MAX
  }

  function TraceName(t: Trace): bytes {
    match t
    case ChangeDirProp(_, _, _) => Ascii("change-dir-prop")
    case CloseDir(_) => Ascii("close-dir")
    case AbsentDir(_, _) => Ascii("absent-dir")
    case TextdeltaEnd(_) => Ascii("textdelta-end")
    case ChangeFileProp(_, _, _) => Ascii("change-file-prop")
    case AbsentFile(_, _) => Ascii("absent-file")
    case AbortEdit => Ascii("abort-edit")
    case FinishReplay => Ascii("finish-replay")
    case Failure(_, _, _, _) => Ascii("failure")
  }

  function TraceCode(t: Trace): int {
    match t
    case ChangeDirProp(_, _, _) => 8
    case CloseDir(_) => 9
    case AbsentDir(_, _) => 10
    case TextdeltaEnd(_) => 15
    case ChangeFileProp(_, _, _) => 16
    case AbsentFile(_, _) => 18
    case AbortEdit => 20
    case FinishReplay => 21
    case Failure(_, _, _, _) => 22
  }

  function PropertyArgs(token: bytes, name: bytes, value: Option<bytes>): seq<Arg> {
    [Text(token)] + ([Text(name)] + ([Arg.Open] + ([MaybeText(value)] + ([Arg.Close] + [Arg.Close]))))
  }

  function FailureArgs(code: nat, message: bytes, file: bytes, line: nat): seq<Arg> {
    [Arg.Open] + ([Number(code)] + ([Text(message)] + ([Text(file)] + ([Number(line)] + ([Arg.Close] + [Arg.Close])))))
  }

  /** The arguments between the outer parentheses, then the closing one. */
  function TraceArgs(t: Trace): seq<Arg> {
    match t
    case ChangeDirProp(token, name, value) => PropertyArgs(token, name, value)
    case CloseDir(token) => [Text(token)] + [Arg.Close]
    case AbsentDir(path, parent) => [Text(path)] + ([Text(parent)] + [Arg.Close])
    case TextdeltaEnd(token) => [Text(token)] + [Arg.Close]
    case ChangeFileProp(token, name, value) => PropertyArgs(token, name, value)
    case AbsentFile(path, parent) => [Text(path)] + ([Text(parent)] + [Arg.Close])
    case AbortEdit => [Arg.Close]
    case FinishReplay => [Arg.Close]
    case Failure(code, message, file, line) => FailureArgs(code, message, file, line)
  }

  function SpokenTrace(t: Trace): Sent { Sent(TraceName(t), [Arg.Open] + TraceArgs(t)) }

  const PROPERTY_WANT: seq<Want> := [STR] + ([STR] + REST_MAYBE)
  const FAILURE_WANT: seq<Want> := [WOpen] + ([NUM] + ([STR] + ([STR] + ([NUM] + TWO_CLOSE))))

  function TraceWant(t: Trace): seq<Want> {
    match t
    case ChangeDirProp(_, _, _) => PROPERTY_WANT
    case CloseDir(_) => [STR] + [WClose]
    case AbsentDir(_, _) => [STR] + ([STR] + [WClose])
    case TextdeltaEnd(_) => [STR] + [WClose]
    case ChangeFileProp(_, _, _) => PROPERTY_WANT
    case AbsentFile(_, _) => [STR] + ([STR] + [WClose])
    case AbortEdit => [WClose]
    case FinishReplay => [WClose]
    case Failure(_, _, _, _) => FAILURE_WANT
  }

  lemma PropertyReads(token: bytes, name: bytes, value: Option<bytes>) returns (got: seq<Val>)
    requires |token| <= LONG_MAX && |name| <= LONG_MAX && Fits(value)
    ensures Reads(PropertyArgs(token, name, value), PROPERTY_WANT, got)
  {
    hide Reads;
    TokenAndMaybe(name, value);
    got := [VBytes(name)] + ([TextOrNull(value)] + []);
    ReadsText(token, [Text(name)] + ([Arg.Open] + ([MaybeText(value)] + ([Arg.Close] + [Arg.Close]))),
              [STR] + REST_MAYBE, got);
    got := [VBytes(token)] + got;
  }

  lemma TwoTextsRead(a: bytes, b: bytes) returns (got: seq<Val>)
    requires |a| <= LONG_MAX && |b| <= LONG_MAX
    ensures Reads([Text(a)] + ([Text(b)] + [Arg.Close]), [STR] + ([STR] + [WClose]), got)
  {
    hide Reads;
    ReadsEnd();
    ReadsText(b, [Arg.Close], [WClose], []);
    ReadsText(a, [Text(b)] + [Arg.Close], [STR] + [WClose], [VBytes(b)] + []);
    got := [VBytes(a)] + ([VBytes(b)] + []);
  }

  lemma FailureReads(code: nat, message: bytes, file: bytes, line: nat) returns (got: seq<Val>)
    requires code <= LONG_MAX && |message| <= LONG_MAX && |file| <= LONG_MAX && line <= LONG_MAX
    ensures Reads(FailureArgs(code, message, file, line), FAILURE_WANT, got)
  {
    hide Reads;
    ReadsTwoClose();
    var a0 := [Arg.Close] + [Arg.Close];
    ReadsNumber(line, a0, TWO_CLOSE, []);
    var a1, w1, g1 := [Number(line)] + a0, [NUM] + TWO_CLOSE, [VNum(line)] + [];
    ReadsText(file, a1, w1, g1);
    var a2, w2, g2 := [Text(file)] + a1, [STR] + w1, [VBytes(file)] + g1;
    ReadsText(message, a2, w2, g2);
    var a3, w3, g3 := [Text(message)] + a2, [STR] + w2, [VBytes(message)] + g2;
    ReadsNumber(code, a3, w3, g3);
    got := [VNum(code)] + g3;
    ReadsParen(true, [Number(code)] + a3, [NUM] + w3, got);
  }

  lemma TraceReads(t: Trace) returns (got: seq<Val>)
    requires Traceable(t)
    ensures Reads(TraceArgs(t), TraceWant(t), got)
  {
    hide Reads;
    ReadsEnd();
    match t {
      case ChangeDirProp(token, name, value) => got := PropertyReads(token, name, value);
      case CloseDir(token) =>
        got := [VBytes(token)] + [];
        ReadsText(token, [Arg.Close], [WClose], []);
      case AbsentDir(path, parent) => got := TwoTextsRead(path, parent);
      case TextdeltaEnd(token) =>
        got := [VBytes(token)] + [];
        ReadsText(token, [Arg.Close], [WClose], []);
      case ChangeFileProp(token, name, value) => got := PropertyReads(token, name, value);
      case AbsentFile(path, parent) => got := TwoTextsRead(path, parent);
      case AbortEdit => got := [];
      case FinishReplay => got := [];
      case Failure(code, message, file, line) => got := FailureReads(code, message, file, line);
    }
  }

  lemma ChangeDirPropRow(got: seq<Val>)
    ensures Row(Ascii("change-dir-prop"), PROPERTY_WANT, got, Ignored, 8)
  {
    AsciiWord("change-dir-prop");
    assert |CHANGE_DIR_PROP| == 15 && CHANGE_DIR_PROP[0] == 99 && APPLY_TEXTDELTA[0] == 97 && TEXTDELTA_CHUNK[0] == 116;
  }

  lemma CloseDirRow(got: seq<Val>)
    ensures Row(Ascii("close-dir"), [STR] + [WClose], got, Ignored, 9)
  {
    AsciiWord("close-dir");
    assert |CLOSE_DIR| == 9 && CLOSE_DIR[0] == 99 && OPEN_ROOT[0] == 111 && OPEN_FILE[0] == 111;
  }

  lemma AbsentDirRow(got: seq<Val>)
    ensures Row(Ascii("absent-dir"), [STR] + ([STR] + [WClose]), got, Ignored, 10)
  {
    AsciiWord("absent-dir");
    assert |ABSENT_DIR| == 10 && ABSENT_DIR[0] == 97;
    assert TARGET_REV[0] == 116 && CLOSE_FILE[0] == 99 && CLOSE_EDIT[0] == 99;
  }

  lemma TextdeltaEndRow(got: seq<Val>)
    ensures Row(Ascii("textdelta-end"), [STR] + [WClose], got, Ignored, 15)
  {
    AsciiWord("textdelta-end");
    assert |TEXTDELTA_END| == 13;
  }

  lemma ChangeFilePropRow(got: seq<Val>)
    ensures Row(Ascii("change-file-prop"), PROPERTY_WANT, got, Ignored, 16)
  {
    AsciiWord("change-file-prop");
    assert |CHANGE_FILE_PROP| == 16;
  }

  lemma AbsentFileRow(got: seq<Val>)
    ensures Row(Ascii("absent-file"), [STR] + ([STR] + [WClose]), got, Ignored, 18)
  {
    AsciiWord("absent-file");
    assert |ABSENT_FILE| == 11;
  }

  lemma AbortEditRow(got: seq<Val>)
    ensures Row(Ascii("abort-edit"), [WClose], got, Ignored, 20)
  {
    AsciiWord("abort-edit");
    assert |ABORT_EDIT| == 10 && ABORT_EDIT[0] == 97 && ABORT_EDIT[2] == 111 && ABSENT_DIR[2] == 115;
    assert TARGET_REV[0] == 116 && CLOSE_FILE[0] == 99 && CLOSE_EDIT[0] == 99;
  }

  lemma FinishReplayRow(got: seq<Val>)
    ensures Row(Ascii("finish-replay"), [WClose], got, Ignored, 21)
  {
    AsciiWord("finish-replay");
    assert |FINISH_REPLAY| == 13 && FINISH_REPLAY[0] == 102 && TEXTDELTA_END[0] == 116;
  }

  lemma FailureRow(got: seq<Val>)
    ensures Row(Ascii("failure"), FAILURE_WANT, got, Ignored, 22)
  {
    AsciiWord("failure");
    assert |FAILURE| == 7 && FAILURE[0] == 102 && ADD_DIR[0] == 97;
  }

  lemma TraceRow(t: Trace, got: seq<Val>)
    ensures Row(TraceName(t), TraceWant(t), got, Ignored, TraceCode(t))
  {
    hide Row;
    match t {
      case ChangeDirProp(_, _, _) => ChangeDirPropRow(got);
      case CloseDir(_) => CloseDirRow(got);
      case AbsentDir(_, _) => AbsentDirRow(got);
      case TextdeltaEnd(_) => TextdeltaEndRow(got);
      case ChangeFileProp(_, _, _) => ChangeFilePropRow(got);
      case AbsentFile(_, _) => AbsentFileRow(got);
      case AbortEdit => AbortEditRow(got);
      case FinishReplay => FinishReplayRow(got);
      case Failure(_, _, _, _) => FailureRow(got);
    }
  }

  /** Every tracing command, with any arguments, is well formed, and the editor has nothing to do for it. */
  lemma TraceMeans(t: Trace)
    requires Traceable(t)
    ensures Means(SpokenTrace(t), Ignored, TraceCode(t))
  {
    hide Means, Reads, Row, TraceArgs, TraceWant, TraceName, TraceCode;
    var got := TraceReads(t);
    TraceRow(t, got);
    RowMeans(TraceName(t), TraceArgs(t), TraceWant(t), got, Ignored, TraceCode(t));
  }

  /** Wherever a tracing command is next, it is read to its end, nothing fails, and nothing changes. */
  lemma TraceDoesNothing(env: Env, r: Reading, ed: EditState, t: Trace, rest: seq<Tok>, tail: bytes)
    requires ed.Valid() && Traceable(t) && Before(r, CommandToks(SpokenTrace(t)) + rest, tail)
    ensures var l := OneCommand(env, r, ed);
            l.res == 0 && !l.closing && l.ed == ed && Before(l.rd, rest, tail)
  {
    hide Before, OneCommand, CommandToks, SpokenTrace, IsCommand, SentAction;
    TraceMeans(t);
    CommandHandled(env, r, ed, SpokenTrace(t), rest, tail);
    NothingToDo(env, ed);
  }

  lemma NothingToDo(env: Env, ed: EditState)
    requires ed.Valid()
    ensures Perform(env, ed, Ignored) == (ed, 0)
  {
  }

  // ---- commands that fail ----

  const NAMES: seq<bytes> := [
    Ascii("target-rev"), Ascii("open-root"), Ascii("delete-entry"), Ascii("add-dir"), Ascii("open-dir"),
    Ascii("change-dir-prop"), Ascii("close-dir"), Ascii("absent-dir"), Ascii("add-file"), Ascii("open-file"),
    Ascii("apply-textdelta"), Ascii("textdelta-chunk"), Ascii("textdelta-end"), Ascii("change-file-prop"),
    Ascii("close-file"), Ascii("absent-file"), Ascii("close-edit"), Ascii("abort-edit"), Ascii("finish-replay"),
    Ascii("failure")]

  lemma KnownExactly(w: bytes)
    ensures Command(w).Some? <==> w in NAMES
  {
    hide Ascii;
    assert w in NAMES <==> exists k | 0 <= k < |NAMES| :: w == NAMES[k];
  }

  /** Any other word where a command is named ends the loop with an error, and nothing has changed. */
  lemma UnknownFails(env: Env, r: Reading, ed: EditState, w: bytes, rest: seq<Tok>, tail: bytes)
    requires ed.Valid() && GoodTok(TWord(w)) && Before(r, [TOpen, TWord(w)] + rest, tail)
    requires Ready(r) && NextPos(r) <= |r.buf| && w !in NAMES
    ensures var l := EditorLoop(env, r, ed); l.res == EDITOR + 23 && l.ed == ed && !l.closing
  {
    hide Before, Command, Vunpack;
    KnownExactly(w);
    NameReceived(r, w, rest, tail);
    assert OneCommand(env, r, ed).res == EDITOR + 23;
  }

  lemma {:induction false} VunpackAppend(r: Reading, a: seq<Want>, b: seq<Want>)
    ensures var u := Vunpack(r, a);
            Vunpack(r, a + b) == if u.res != 0 then u
                                 else var v := Vunpack(u.rd, b); Unpacked(v.rd, v.res, u.vals + v.vals)
    decreases |a|
  {
    hide UnpackOne;
    if a == [] {
      assert a + b == b;
      assert Vunpack(r, b).vals == [] + Vunpack(r, b).vals;
    } else {
      assert (a + b)[0] == a[0] && (a + b)[1..] == a[1..] + b;
      var u := UnpackOne(r, a[0]);
      if u.res == 0 {
        VunpackAppend(u.rd, a[1..], b);
        var m := Vunpack(u.rd, a[1..]);
        if m.res == 0 {
          var v := Vunpack(m.rd, b);
          assert u.vals + (m.vals + v.vals) == u.vals + m.vals + v.vals;
        }
      }
    }
  }

  lemma NotClosed(r: Reading, more: seq<Tok>, tail: bytes)
    requires Before(r, more, tail) && more != [] && more[0] != TClose
    ensures Vunpack(r, [WClose]).res != 0
  {
    hide Before, ReadOne;
    NextToken(r, more, tail);
    assert [WClose][1..] == [];
  }

  /** The arguments without their last parenthesis. */
  function Unclosed(c: Sent): seq<Arg> { if c.args == [] then [] else c.args[..|c.args| - 1] }

  lemma UnclosedSpec(c: Sent)
    requires IsCommand(c)
    ensures Command(c.name).value.0 == Spec(Unclosed(c)) + [WClose]
    ensures c.name == TEXTDELTA_CHUNK ==> Unclosed(c) == Prompt(c) && Spec(Prompt(c)) == [WOpen, STR, STR]
  {
    hide Command, WellSent;
    SpecCloses(c.name);
    SpecAt(c.args, 0);
    SpecAt(c.args, |c.args| - 1);
    if c.name == TEXTDELTA_CHUNK { ChunkArgs(c); }
  }

  /** Something else where the arguments have to be closed: the command fails with its number, and nothing
      has been done for it; except that a chunk, which is parsed as soon as it is there, has been. */
  lemma UnclosedFails(env: Env, r: Reading, ed: EditState, c: Sent, a: Action, code: int, more: seq<Tok>, tail: bytes)
    requires ed.Valid() && Means(c, a, code) && WellSent(Unclosed(c), more)
    requires Before(r, AllToks(Unclosed(c)) + more, tail) && more != [] && more[0] != TClose
    ensures var h := Handle(env, r, ed, c.name);
            if c.name == Ascii("textdelta-chunk") then
              var (ed', res) := Perform(env, ed, Chunk(Str(AllReceived(Unclosed(c)), 1)));
              h.ed == ed' && h.res == if res == ABORTED then ABORTED else EDITOR + code
            else h.ed == ed && h.res == EDITOR + code
  {
    hide Before, Vunpack, Perform, Command, WellSent, AllToks, AllReceived, Unclosed, IsCommand, SentAction;
    assert IsCommand(c);
    UnclosedSpec(c);
    UnpackInvertsPack(r, Unclosed(c), more, tail);
    var u := Vunpack(r, Spec(Unclosed(c)));
    NotClosed(u.rd, more, tail);
    VunpackAppend(r, Spec(Unclosed(c)), [WClose]);
    CommandIsThere(c);
    if c.name == Ascii("textdelta-chunk") { ChunkIsEager(u.vals); }
  }

  lemma CommandIsThere(c: Sent)
    requires IsCommand(c)
    ensures Command(c.name).Some?
  {
  }

  lemma ChunkIsEager(vals: seq<Val>)
    ensures TEXTDELTA_CHUNK == Ascii("textdelta-chunk") && ActionOf(TEXTDELTA_CHUNK, vals) == Chunk(Str(vals, 1))
  {
    var w := TEXTDELTA_CHUNK;
    assert |w| == 15 && w[0] == 116 && APPLY_TEXTDELTA[0] == 97;
  }

  // ---- byte by byte ----

  lemma AsciiAppend(s: string, t: string)
    ensures Ascii(s + t) == Ascii(s) + Ascii(t)
  {
  }

  lemma SpelledTokens()
    ensures SpellTok(TOpen, SPACE) == Ascii("( ") && SpellTok(TClose, SPACE) == Ascii(") ")
    ensures SpellTok(TNumber(42), SPACE) == Ascii("42 ") && SpellTok(TText(Ascii("d0")), SPACE) == Ascii("2:d0 ")
    ensures SpellTok(TNumber(-7), SPACE) == Ascii("-7 ")
    ensures forall s: string :: SpellTok(TWord(Ascii(s)), SPACE) == Ascii(s + " ")
  {
    assert Dec(42) == Dec(4) + [50] && Dec(4) == [52];
    assert Ascii("42 ") == [52, 50, 32];
    assert Dec(2) == [50];
    assert Ascii("d0") == [100, 48];
    assert Ascii("2:d0 ") == [50, 58, 100, 48, 32];
  }

  lemma SpellCons(t: Tok, ts: seq<Tok>)
    requires GoodTok(t) && GoodToks(ts)
    ensures GoodToks([t] + ts) && Spell([t] + ts) == SpellTok(t, SPACE) + Spell(ts)
  {
    assert ([t] + ts)[1..] == ts;
  }

  /** ( name ( argument ) ) and nothing behind it. */
  lemma SpelledCommand(name: string, arg: Tok, written: string)
    requires GoodTok(TWord(Ascii(name))) && GoodTok(arg) && SpellTok(arg, SPACE) == Ascii(written)
    ensures var ts := [TOpen] + ([TWord(Ascii(name))] + ([TOpen] + ([arg] + ([TClose] + ([TClose] + [])))));
            GoodToks(ts) && Spell(ts) == Ascii("( " + (name + " " + ("( " + (written + (") " + ") ")))))
  {
    hide GoodTok, Spell, SpellTok, Ascii;
    assert GoodTok(TOpen) && GoodTok(TClose) by { Parens(); }
    SpelledTokens();
    SpellNothing();
    var t2 := [TClose] + ([TClose] + []);
    SpellCons(TClose, []);
    SpellCons(TClose, [TClose] + []);
    AsciiAppend(") ", ") ");
    SpellCons(arg, t2);
    AsciiAppend(written, ") " + ") ");
    SpellCons(TOpen, [arg] + t2);
    AsciiAppend("( ", written + (") " + ") "));
    SpellCons(TWord(Ascii(name)), [TOpen] + ([arg] + t2));
    AsciiAppend(name + " ", "( " + (written + (") " + ") ")));
    SpellCons(TOpen, [TWord(Ascii(name))] + ([TOpen] + ([arg] + t2)));
    AsciiAppend("( ", name + " " + ("( " + (written + (") " + ") "))));
  }

  lemma Parens()
    ensures GoodTok(TOpen) && GoodTok(TClose)
  {
  }

  lemma SpellNothing()
    ensures GoodToks([]) && Spell([]) == [] && forall b: bytes :: b + [] == b
  {
  }

  lemma TargetRevWritten()
    ensures "( " + ("target-rev" + " " + ("( " + ("42 " + (") " + ") ")))) == "( target-rev ( 42 ) ) "
  {
  }

  lemma CloseDirWritten()
    ensures "( " + ("close-dir" + " " + ("( " + ("2:d0 " + (") " + ") ")))) == "( close-dir ( 2:d0 ) ) "
  {
  }

  lemma ArgumentsAreGood()
    ensures GoodTok(TNumber(42)) && GoodTok(TText(Ascii("d0")))
  {
  }

  lemma SpokenArgs(x: Extra)
    requires Sendable(TargetRev(42), x)
    ensures Spoken(TargetRev(42), x) == Sent(Ascii("target-rev"), [Arg.Open] + ([Number(42)] + [Arg.Close]))
    ensures SpokenTrace(CloseDir(Ascii("d0")))
         == Sent(Ascii("close-dir"), [Arg.Open] + ([Text(Ascii("d0"))] + [Arg.Close]))
  {
  }

  /** Two commands as the bytes they are on the wire. */
  lemma SpelledLiterally(x: Extra)
    requires Sendable(TargetRev(42), x)
    ensures var ts := CommandToks(Spoken(TargetRev(42), x));
            GoodToks(ts) && Spell(ts) == Ascii("( target-rev ( 42 ) ) ")
    ensures var ts := CommandToks(SpokenTrace(CloseDir(Ascii("d0"))));
            GoodToks(ts) && Spell(ts) == Ascii("( close-dir ( 2:d0 ) ) ")
  {
    hide Spell, Ascii, SpellTok, GoodTok, GoodToks, CommandToks, Spoken, SpokenTrace, Sendable;
    AsciiWord("target-rev");
    AsciiWord("close-dir");
    ArgumentsAreGood();
    SpelledTokens();
    SpokenArgs(x);
    TargetRevWritten();
    SpelledCommand("target-rev", TNumber(42), "42 ");
    OneArgToks(Ascii("target-rev"), Number(42), TNumber(42));
    CloseDirWritten();
    SpelledCommand("close-dir", TText(Ascii("d0")), "2:d0 ");
    OneArgToks(Ascii("close-dir"), Text(Ascii("d0")), TText(Ascii("d0")));
  }

  lemma OneArgToks(name: bytes, arg: Arg, t: Tok)
    requires arg == Plain(t)
    ensures CommandToks(Sent(name, [Arg.Open] + ([arg] + [Arg.Close])))
         == [TOpen] + ([TWord(name)] + ([TOpen] + ([t] + ([TClose] + ([TClose] + [])))))
  {
    hide AllToks, Spec, AllReceived, WellSent, Toks;
    OneArg(Arg.Close);
    Cons(arg, [Arg.Close]);
    Cons(Arg.Open, [arg] + [Arg.Close]);
    assert Toks(Arg.Open) == [TOpen] && Toks(Arg.Close) == [TClose] && Toks(arg) == [t] by { PlainToks(t); }
    NestedToks(name, t);
  }

  lemma PlainToks(t: Tok)
    ensures Toks(Arg.Open) == [TOpen] && Toks(Arg.Close) == [TClose] && Toks(Plain(t)) == [t]
  {
  }

  lemma NestedToks(name: bytes, t: Tok)
    ensures [TOpen, TWord(name)] + ([TOpen] + ([t] + [TClose])) + [TClose]
         == [TOpen] + ([TWord(name)] + ([TOpen] + ([t] + ([TClose] + ([TClose] + [])))))
  {
  }

  // ---- whole scripts ----

  /** A command of either kind. */
  datatype Line = Does(a: Action, x: Extra) | Traces(t: Trace)

  predicate GoodLine(l: Line) { if l.Does? then Sendable(l.a, l.x) else Traceable(l.t) }

  predicate GoodLines(ls: seq<Line>) { forall l | l in ls :: GoodLine(l) }

  function SpokenLine(l: Line): Sent
    requires GoodLine(l)
  {
    if l.Does? then Spoken(l.a, l.x) else SpokenTrace(l.t)
  }

  function SpeakAll(ls: seq<Line>): seq<Sent>
    requires GoodLines(ls)
  {
    if ls == [] then [] else [SpokenLine(ls[0])] + SpeakAll(ls[1..])
  }

  function ActionFor(l: Line): Action { if l.Does? then l.a else Ignored }

  function ActionsFor(ls: seq<Line>): seq<Action> {
    if ls == [] then [] else [ActionFor(ls[0])] + ActionsFor(ls[1..])
  }

  lemma LineMeans(l: Line)
    requires GoodLine(l)
    ensures IsCommand(SpokenLine(l)) && SentAction(SpokenLine(l)) == ActionFor(l) && SpokenLine(l).name != CLOSE_EDIT
  {
    hide IsCommand, SentAction, Spoken, SpokenTrace, Sendable, Traceable;
    if l.Does? { SpokenMeans(l.a, l.x); } else { TraceMeans(l.t); }
  }

  lemma {:induction false} SpeakAllMeans(ls: seq<Line>)
    requires GoodLines(ls)
    ensures Actions(SpeakAll(ls)) == ActionsFor(ls)
    ensures forall c | c in SpeakAll(ls) :: IsCommand(c) && c.name != CLOSE_EDIT
  {
    hide IsCommand, SentAction, SpokenLine, GoodLine, ActionFor;
    if ls != [] {
      assert ls[0] in ls;
      LineMeans(ls[0]);
      SpeakAllMeans(ls[1..]);
    }
  }
}
