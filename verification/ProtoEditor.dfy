/** The ra_svn editor loop: commands read from the wire, unpacked by their spec, and carried out. */
module ProtoEditor {
  import opened Bytes
  import opened Tokenizer
  import opened Wire
  import opened Unpack
  import opened SvnEdit

  // ---- the commands and their specs ----

  const NUM := WItem(N, One)
  const STR := WItem(S, One)
  const MAYBE_NUM := WItem(N, Maybe)
  const MAYBE_STR := WItem(S, Maybe)

  const TARGET_REV := Ascii("target-rev")
  const OPEN_ROOT := Ascii("open-root")
  const DELETE_ENTRY := Ascii("delete-entry")
  const ADD_DIR := Ascii("add-dir")
  const OPEN_DIR := Ascii("open-dir")
  const CHANGE_DIR_PROP := Ascii("change-dir-prop")
  const CLOSE_DIR := Ascii("close-dir")
  const ABSENT_DIR := Ascii("absent-dir")
  const ADD_FILE := Ascii("add-file")
  const OPEN_FILE := Ascii("open-file")
  const APPLY_TEXTDELTA := Ascii("apply-textdelta")
  const TEXTDELTA_CHUNK := Ascii("textdelta-chunk")
  const TEXTDELTA_END := Ascii("textdelta-end")
  const CHANGE_FILE_PROP := Ascii("change-file-prop")
  const CLOSE_FILE := Ascii("close-file")
  const ABSENT_FILE := Ascii("absent-file")
  const CLOSE_EDIT := Ascii("close-edit")
  const ABORT_EDIT := Ascii("abort-edit")
  const FINISH_REPLAY := Ascii("finish-replay")
  const FAILURE := Ascii("failure")

  const EDITOR := 0x5000

  /** The spec of a command's arguments, and the code of its failure; None for an unknown word. */
  function Command(w: bytes): Option<(seq<Want>, int)> {
    if w == TARGET_REV then Some(([WOpen, NUM, WClose], 2))
    else if w == OPEN_ROOT then Some(([WOpen, WOpen, MAYBE_NUM, WClose, STR, WClose], 4))
    else if w == DELETE_ENTRY then Some(([WOpen, STR, WOpen, MAYBE_NUM, WClose, STR, WClose], 5))
    else if w == ADD_DIR then Some(([WOpen, STR, STR, STR, WOpen, MAYBE_STR, MAYBE_NUM, WClose, WClose], 6))
    else if w == OPEN_DIR then Some(([WOpen, STR, STR, STR, WOpen, NUM, WClose, WClose], 7))
    else if w == CHANGE_DIR_PROP then Some(([WOpen, STR, STR, WOpen, MAYBE_STR, WClose, WClose], 8))
    else if w == CLOSE_DIR then Some(([WOpen, STR, WClose], 9))
    else if w == ABSENT_DIR then Some(([WOpen, STR, STR, WClose], 10))
    else if w == ADD_FILE then Some(([WOpen, STR, STR, STR, WOpen, MAYBE_STR, MAYBE_NUM, WClose, WClose], 11))
    else if w == OPEN_FILE then Some(([WOpen, STR, STR, STR, WOpen, NUM, WClose, WClose], 12))
    else if w == APPLY_TEXTDELTA then Some(([WOpen, STR, WOpen, MAYBE_STR, WClose, WClose], 13))
    else if w == TEXTDELTA_CHUNK then Some(([WOpen, STR, STR, WClose], 14))
    else if w == TEXTDELTA_END then Some(([WOpen, STR, WClose], 15))
    else if w == CHANGE_FILE_PROP then Some(([WOpen, STR, STR, WOpen, MAYBE_STR, WClose, WClose], 16))
    else if w == CLOSE_FILE then Some(([WOpen, STR, WOpen, MAYBE_STR, WClose, WClose], 17))
    else if w == ABSENT_FILE then Some(([WOpen, STR, STR, WClose], 18))
    else if w == CLOSE_EDIT then Some(([WOpen, WClose], 19))
    else if w == ABORT_EDIT then Some(([WOpen, WClose], 20))
    else if w == FINISH_REPLAY then Some(([WOpen, WClose], 21))
    else if w == FAILURE then Some(([WOpen, WOpen, NUM, STR, STR, NUM, WClose, WClose], 22))
    else None
  }

  function ValAt(vals: seq<Val>, k: nat): Val { if k < |vals| then vals[k] else VNull }

  function Str(vals: seq<Val>, k: nat): bytes { if ValAt(vals, k).VBytes? then ValAt(vals, k).s else [] }

  function OptStr(vals: seq<Val>, k: nat): Option<bytes> {
    if ValAt(vals, k).VBytes? then Some(ValAt(vals, k).s) else None
  }

  function Num(vals: seq<Val>, k: nat): int { if ValAt(vals, k).VNum? then ValAt(vals, k).n else 0 }

  /** What a command asks of the file editor. Commands that only trace are Ignored. */
  function ActionOf(w: bytes, vals: seq<Val>): Action {
    if w == TARGET_REV then TargetRev(Num(vals, 0))
    else if w == OPEN_ROOT then OpenRoot
    else if w == DELETE_ENTRY then Delete(Str(vals, 0))
    else if w == ADD_DIR then AddDir(Str(vals, 0))
    else if w == OPEN_DIR then OpenDir(Str(vals, 0))
    else if w == ADD_FILE then Add(Str(vals, 0), Some(Str(vals, 2)))
    else if w == OPEN_FILE then SvnEdit.Open(Str(vals, 0), Some(Str(vals, 2)), Num(vals, 3))
    else if w == APPLY_TEXTDELTA then ApplyTextdelta(OptStr(vals, 1))
    else if w == TEXTDELTA_CHUNK then Chunk(Str(vals, 1))
    else if w == CLOSE_FILE then SvnEdit.Close(OptStr(vals, 0), OptStr(vals, 1))
    else Ignored
  }

  // ---- the loop as a function of the stream ----

  /** The reader, the editor, whether close-edit has been seen, and a return code. */
  datatype Loop = Loop(rd: Reading, ed: EditState, closing: bool, res: int)

  predicate IsVunpack(code: int) { VUNPACK <= code < VUNPACK + 0x1000 }

  /** A reader between two tokens. */
  predicate Ready(r: Reading) { r.back || IsOut(r.lx.kind) || IsList(r.lx.kind) }

  /** Where reading will go on. */
  function NextPos(r: Reading): nat { Rewind(r).pos }

  /** unpack2: the arguments, then the action. A chunk is parsed as soon as it is read, before the
      closing parenthesis. */
  function Handle(env: Env, r: Reading, ed: EditState, w: bytes): (l: Loop)
    requires ed.Valid()
    ensures l.ed.Valid() && (l.closing ==> l.res == 0)
  {
    match Command(w)
    case None => Loop(r, ed, false, EDITOR + 23)
    case Some((spec, code)) =>
      var early := w == TEXTDELTA_CHUNK;
      var u := Vunpack(r, if early then [WOpen, STR, STR] else spec);
      if u.res != 0 then Loop(u.rd, ed, false, EDITOR + code)
      else
        var (ed', res) := Perform(env, ed, ActionOf(w, u.vals));
        if res != 0 then Loop(u.rd, ed', false, if res == ABORTED then ABORTED else EDITOR + code)
        else if early then
          var v := Vunpack(u.rd, [WClose]);
          Loop(v.rd, ed', false, if v.res != 0 then EDITOR + code else 0)
        else Loop(u.rd, ed', w == CLOSE_EDIT, 0)
  }

  /** unpack1: one command from its opening to its closing parenthesis. */
  function OneCommand(env: Env, r: Reading, ed: EditState): (l: Loop)
    requires ed.Valid()
    ensures l.ed.Valid() && (l.closing ==> l.res == 0)
  {
    var u := Vunpack(r, [WOpen, WItem(W, One)]);
    if u.res != 0 then Loop(u.rd, ed, false, u.res)
    else
      var h := Handle(env, u.rd, ed, Str(u.vals, 0));
      if h.res != 0 then h
      else
        var c := Vunpack(h.rd, [WClose]);
        Loop(c.rd, h.ed, h.closing && c.res == 0, c.res)
  }

  /** svnproto_editor from a fresh start: commands until close-edit, an error, or a mismatch; the
      last is reported as success. */
  function EditorLoop(env: Env, r: Reading, ed: EditState): (l: Loop)
    requires ed.Valid() && Ready(r) && NextPos(r) <= |r.buf|
    ensures l.ed.Valid()
    decreases |r.buf| - NextPos(r)
  {
    CommandProgress(env, r, ed);
    var l := OneCommand(env, r, ed);
    if l.res != 0 then l.(res := if IsVunpack(l.res) then 0 else l.res)
    else if l.closing then l
    else EditorLoop(env, l.rd, l.ed)
  }

  // ---- every command moves the reader on ----

  /** A token begun in this scan starts no earlier than the scan. */
  predicate StartsFrom(lx: Lexer, pos: nat, from: nat) {
    from <= pos && (IsOut(lx.kind) || IsList(lx.kind) || from <= lx.start)
  }

  lemma {:induction false} ScanStart(buf: bytes, pos: nat, lx: Lexer, from: nat)
    requires StartsFrom(lx, pos, from) && EndsBefore(lx, pos)
    ensures var s := Scan(buf, pos, lx);
            s.Token? ==> from <= s.lx.start && (IsOut(s.lx.kind) || IsList(s.lx.kind))
    decreases |buf| - pos, if lx.kind == STRING_IN then 1 else 0
  {
    if pos < |buf| {
      var t := OneTurn(buf, pos, lx);
      if t.Stay? { ScanStart(t.buf, t.pos, t.lx, from); }
    }
  }

  /** r' is a reader further on than r in the same stream. */
  predicate Further(r: Reading, r': Reading) {
    Ready(r') && |r'.buf| == |r.buf| && NextPos(r) <= NextPos(r') <= |r.buf|
  }

  lemma ReadProgress(r: Reading)
    requires Ready(r)
    ensures var x := ReadOne(r);
            x.Got? ==> Further(r, x.rd) && Further(r, x.rd.(back := true)) && NextPos(r) < NextPos(x.rd)
  {
    var r0 := Rewind(r);
    ScanStart(r0.buf, r0.pos, r0.lx, r0.pos);
    ScanStartBound(r0.buf, r0.pos, r0.lx);
  }

  lemma {:induction false} ScanStartBound(buf: bytes, pos: nat, lx: Lexer)
    requires IsOut(lx.kind) || IsList(lx.kind) || lx.start <= pos
    ensures var s := Scan(buf, pos, lx); s.Token? ==> s.lx.start <= |buf|
    decreases |buf| - pos, if lx.kind == STRING_IN then 1 else 0
  {
    if pos < |buf| {
      var t := OneTurn(buf, pos, lx);
      if t.Stay? { ScanStartBound(t.buf, t.pos, t.lx); }
    }
  }

  lemma {:induction false} GatherProgress(r: Reading, what: What, vals: seq<Val>)
    requires r.pos <= |r.buf| && !r.back && Ready(r) && r.lx.start <= |r.buf|
    ensures var u := Gather(r, what, vals);
            u.res == 0 ==> Ready(u.rd) && |u.rd.buf| == |r.buf| && Min(r.lx.start, r.pos) <= NextPos(u.rd) <= |r.buf|
    decreases |r.buf| - r.pos
  {
    hide Scan;
    if r.lx.kind == KindOf(what) {
      ReadProgress(r);
      var x := ReadOne(r);
      if x.Got? { GatherProgress(x.rd, what, vals + [ValOf(TokOf(r))]); }
    }
  }

  lemma OneProgress(r: Reading, w: Want)
    requires Ready(r)
    ensures var u := UnpackOne(r, w); u.res == 0 ==> Further(r, u.rd) && (w == WOpen ==> NextPos(r) < NextPos(u.rd))
  {
    hide ReadOne;
    ReadProgress(r);
    var x := ReadOne(r);
    if x.Got? && w.WItem? && w.many == Star { GatherProgress(x.rd, w.what, []); }
  }

  lemma {:induction false} UnpackProgress(r: Reading, spec: seq<Want>)
    requires Ready(r) && NextPos(r) <= |r.buf|
    ensures var u := Vunpack(r, spec); u.res == 0 ==> Further(r, u.rd)
    decreases |spec|
  {
    hide UnpackOne;
    if spec != [] {
      OneProgress(r, spec[0]);
      var u := UnpackOne(r, spec[0]);
      if u.res == 0 { UnpackProgress(u.rd, spec[1..]); }
    }
  }

  lemma OpenProgress(r: Reading, spec: seq<Want>)
    requires Ready(r) && NextPos(r) <= |r.buf| && spec != [] && spec[0] == WOpen
    ensures var u := Vunpack(r, spec); u.res == 0 ==> Further(r, u.rd) && NextPos(r) < NextPos(u.rd)
  {
    hide UnpackOne;
    OneProgress(r, WOpen);
    var u := UnpackOne(r, WOpen);
    if u.res == 0 { UnpackProgress(u.rd, spec[1..]); }
  }

  lemma HandleProgress(env: Env, r: Reading, ed: EditState, w: bytes)
    requires ed.Valid() && Ready(r) && NextPos(r) <= |r.buf|
    ensures var h := Handle(env, r, ed, w); h.res == 0 ==> Further(r, h.rd)
  {
    hide Vunpack, Perform;
    if Command(w).Some? {
      var spec := if w == TEXTDELTA_CHUNK then [WOpen, STR, STR] else Command(w).value.0;
      UnpackProgress(r, spec);
      var u := Vunpack(r, spec);
      if u.res == 0 { UnpackProgress(u.rd, [WClose]); }
    }
  }

  lemma CommandProgress(env: Env, r: Reading, ed: EditState)
    requires ed.Valid() && Ready(r) && NextPos(r) <= |r.buf|
    ensures var l := OneCommand(env, r, ed); l.res == 0 ==> Further(r, l.rd) && NextPos(r) < NextPos(l.rd)
  {
    hide Vunpack, Handle;
    OpenProgress(r, [WOpen, WItem(W, One)]);
    var u := Vunpack(r, [WOpen, WItem(W, One)]);
    if u.res == 0 {
      var w := Str(u.vals, 0);
      HandleProgress(env, u.rd, ed, w);
      var h := Handle(env, u.rd, ed, w);
      if h.res == 0 { UnpackProgress(h.rd, [WClose]); }
    }
  }

  // ---- the loop as the program runs it ----

  /** Returned by unpack1 to end the `r*` loop after close-edit. */
  const GOAHEAD := VUNPACK + 101

  class Session {
    const editor: Editor
    const reader: Reader
    var cmd: bytes
    var closing: bool

    ghost predicate Valid() reads this, editor, editor.doc, reader { editor.Valid() && reader.Valid() }

    constructor (editor: Editor, reader: Reader)
      requires editor.Valid() && reader.Valid()
      ensures Valid() && !closing && this.editor == editor && this.reader == reader
    {
      this.editor, this.reader, cmd, closing := editor, reader, [], false;
    }

    /** What a step has come to: the return code, and unless the process is gone, both halves. */
    ghost predicate Reached(l: Loop, res: int) reads this, editor, editor.doc, reader {
      && res == l.res && (res != ABORTED ==> Valid() && editor.Now() == l.ed)
      && (res == 0 ==> reader.Now() == l.rd && closing == l.closing)
    }

    /** A chunk is parsed as soon as it is read, before the closing parenthesis. */
    method UnpackChunk(code: int) returns (res: int)
      requires Valid() && !closing && Command(TEXTDELTA_CHUNK).Some? && Command(TEXTDELTA_CHUNK).value.1 == code
      modifies editor, editor.doc, reader
      ensures Reached(Handle(editor.env, old(reader.Now()), old(editor.Now()), TEXTDELTA_CHUNK), res)
    {
      hide Vunpack, Perform, ActionOf, Command;
      CommandCode(TEXTDELTA_CHUNK);
      ChunkIsNotClose();
      var vals;
      res, vals := RunVunpack(reader, [WOpen, STR, STR]);
      if res != 0 { return EDITOR + code; }
      res := editor.Dispatch(ActionOf(TEXTDELTA_CHUNK, vals));
      if res != 0 { return if res == ABORTED then ABORTED else EDITOR + code; }
      res, vals := RunVunpack(reader, [WClose]);
      if res != 0 { return EDITOR + code; }
    }

    /** unpack2: the handler of the command just named. */
    method Unpack2() returns (res: int)
      requires Valid() && !closing
      modifies `cmd, `closing, editor, editor.doc, reader
      ensures Reached(Handle(editor.env, old(reader.Now()), old(editor.Now()), old(cmd)), res)
    {
      hide Vunpack, Perform, ActionOf, Command;
      var w := cmd;
      cmd := [];
      if Command(w) == None { return EDITOR + 23; }
      CommandCode(w);
      var (spec, code) := Command(w).value;
      if w == TEXTDELTA_CHUNK {
        res := UnpackChunk(code);
        return;
      }
      var vals;
      res, vals := RunVunpack(reader, spec);
      if res != 0 { return EDITOR + code; }
      res := editor.Dispatch(ActionOf(w, vals));
      if res != 0 { return if res == ABORTED then ABORTED else EDITOR + code; }
      closing := w == CLOSE_EDIT;
    }

    /** unpack1: one whole command. */
    method Unpack1() returns (res: int)
      requires Valid() && !closing
      modifies `cmd, `closing, editor, editor.doc, reader
      ensures var l := OneCommand(editor.env, old(reader.Now()), old(editor.Now()));
              if l.res == 0 && l.closing then Reached(l, 0) && res == GOAHEAD else Reached(l, res)
    {
      hide Vunpack, Handle;
      var vals;
      res, vals := RunVunpack(reader, [WOpen, WItem(W, One)]);
      if res != 0 { return; }
      cmd := Str(vals, 0);
      res := Unpack2();
      if res != 0 { return; }
      res, vals := RunVunpack(reader, [WClose]);
      if res == 0 && closing { res := GOAHEAD; }
    }

    /** The whole loop's outcome. After a mismatch the reader is not looked at again. */
    ghost predicate Ended(l: Loop, res: int) reads this, editor, editor.doc, reader {
      && res == l.res && (res != ABORTED ==> Valid() && editor.Now() == l.ed)
      && (l.closing ==> closing && reader.Now() == l.rd)
    }

    /** svnproto_editor: the `r*` loop over unpack1. */
    method Run() returns (res: int)
      requires Valid() && !closing && Ready(reader.Now()) && NextPos(reader.Now()) <= |reader.Total()|
      modifies `cmd, `closing, editor, editor.doc, reader
      ensures Ended(EditorLoop(editor.env, old(reader.Now()), old(editor.Now())), res)
    {
      hide OneCommand;
      ghost var whole := EditorLoop(editor.env, reader.Now(), editor.Now());
      res := 0;
      while res == 0
        invariant if res == 0 then
                    && Valid() && !closing && Ready(reader.Now()) && NextPos(reader.Now()) <= |reader.Total()|
                    && EditorLoop(editor.env, reader.Now(), editor.Now()) == whole
                  else Ended(whole, if IsVunpack(res) then 0 else res)
        decreases res == 0, |reader.Total()| - NextPos(reader.Now())
      {
        CommandProgress(editor.env, reader.Now(), editor.Now());
        res := Unpack1();
      }
      if IsVunpack(res) { res := 0; }
    }
  }

  // ---- every packed command is dispatched once and in order ----

  /** A command as a server sends it. */
  datatype Sent = Sent(name: bytes, args: seq<Arg>)

  predicate IsCommand(c: Sent) {
    && GoodTok(TWord(c.name)) && Command(c.name).Some?
    && Spec(c.args) == Command(c.name).value.0 && WellSent(c.args, [TClose])
  }

  function CommandToks(c: Sent): seq<Tok> { [TOpen, TWord(c.name)] + AllToks(c.args) + [TClose] }

  function StreamToks(cs: seq<Sent>): seq<Tok> { if cs == [] then [] else CommandToks(cs[0]) + StreamToks(cs[1..]) }

  function SentAction(c: Sent): Action { ActionOf(c.name, AllReceived(c.args)) }

  function Actions(cs: seq<Sent>): seq<Action> { if cs == [] then [] else [SentAction(cs[0])] + Actions(cs[1..]) }

  /** Arguments that end with a parenthesis do not depend on what follows them. */
  lemma {:induction false} WellSentAnyway(args: seq<Arg>, after: seq<Tok>, other: seq<Tok>)
    requires args != [] && args[|args| - 1] == Arg.Close && WellSent(args, after)
    ensures WellSent(args, other) && AllToks(args) != []
  {
    if |args| > 1 {
      WellSentAnyway(args[1..], after, other);
      var rest := AllToks(args[1..]);
      assert rest + after != [] && (rest + after)[0] == rest[0] == (rest + other)[0];
    }
  }

  lemma SpecCloses(w: bytes)
    requires Command(w).Some?
    ensures var spec := Command(w).value.0; spec != [] && spec[|spec| - 1] == WClose
  {
  }

  lemma CommandSentAnyway(c: Sent, after: seq<Tok>)
    requires IsCommand(c)
    ensures WellSent(c.args, after)
  {
    hide Command, WellSent;
    SpecCloses(c.name);
    SpecAt(c.args, 0);
    SpecAt(c.args, |c.args| - 1);
    WellSentAnyway(c.args, [TClose], after);
  }

  lemma BeforeReady(r: Reading, ts: seq<Tok>, tail: bytes)
    requires Before(r, ts, tail)
    ensures Ready(r) && NextPos(r) <= |r.buf|
  {
  }

  lemma OneArg(a: Arg)
    ensures AllToks([a]) == Toks(a) && Spec([a]) == [WantOf(a)] && AllReceived([a]) == Received(a)
    ensures forall after :: WellSent([a], after) == (GoodArg(a) && Shown(a, after))
  {
    assert [a][1..] == [];
    assert AllToks([]) == [] && forall after: seq<Tok> :: AllToks([]) + after == after;
  }

  /** The opening parenthesis and the name. */
  lemma NameReceived(r: Reading, w: bytes, rest: seq<Tok>, tail: bytes)
    requires GoodTok(TWord(w)) && Before(r, [TOpen, TWord(w)] + rest, tail)
    ensures var u := Vunpack(r, [WOpen, WItem(W, One)]);
            u.res == 0 && Str(u.vals, 0) == w && Before(u.rd, rest, tail)
  {
    hide Vunpack, Before, GoodTok;
    var name := Plain(TWord(w));
    var args := [Arg.Open, name];
    assert args[1..] == [name];
    OneArg(name);
    assert AllToks(args) == [TOpen, TWord(w)] && Spec(args) == [WOpen, WItem(W, One)];
    assert AllReceived(args) == [VBytes(w)];
    UnpackInvertsPack(r, args, rest, tail);
  }

  lemma CloseReceived(r: Reading, rest: seq<Tok>, tail: bytes)
    requires Before(r, [TClose] + rest, tail)
    ensures var u := Vunpack(r, [WClose]); u.res == 0 && Before(u.rd, rest, tail)
  {
    hide Vunpack, Before;
    OneArg(Arg.Close);
    UnpackInvertsPack(r, [Arg.Close], rest, tail);
  }

  /** The arguments of a command, as its spec takes them; a chunk's closing parenthesis is still to
      come. */
  function Prompt(c: Sent): seq<Arg> { if c.name == TEXTDELTA_CHUNK && |c.args| > 3 then c.args[..3] else c.args }

  lemma {:induction false} SpecAt(args: seq<Arg>, k: nat)
    requires k <= |args|
    ensures |Spec(args)| == |args| && Spec(args[..k]) == Spec(args)[..k]
    ensures k < |args| ==> Spec(args)[k] == WantOf(args[k])
  {
    if args != [] {
      SpecAt(args[1..], if k > 0 then k - 1 else 0);
      if k > 0 { assert args[..k][1..] == args[1..][..k - 1]; }
    }
  }

  lemma ChunkSpec()
    ensures Command(TEXTDELTA_CHUNK) == Some(([WOpen, STR, STR, WClose], 14))
  {
    var w := TEXTDELTA_CHUNK;
    assert w[0] == 116 && CHANGE_DIR_PROP[0] == 99 && APPLY_TEXTDELTA[0] == 97;
  }

  lemma ChunkArgs(c: Sent)
    requires IsCommand(c) && c.name == TEXTDELTA_CHUNK
    ensures |c.args| == 4 && c.args == Prompt(c) + [Arg.Close] && Spec(Prompt(c)) == [WOpen, STR, STR]
  {
    hide Command;
    ChunkSpec();
    SpecAt(c.args, 0);
    SpecAt(c.args, 3);
    assert [WOpen, STR, STR, WClose][..3] == [WOpen, STR, STR];
    assert c.args == c.args[..3] + [c.args[3]];
  }

  lemma {:induction false} ArgsAppend(a: seq<Arg>, b: seq<Arg>)
    ensures AllToks(a + b) == AllToks(a) + AllToks(b) && AllReceived(a + b) == AllReceived(a) + AllReceived(b)
  {
    hide Toks, Received;
    if a == [] {
      assert a + b == b;
    } else {
      assert (a + b)[0] == a[0] && (a + b)[1..] == a[1..] + b;
      ArgsAppend(a[1..], b);
    }
  }

  lemma {:induction false} SentPrefix(a: seq<Arg>, b: seq<Arg>, after: seq<Tok>)
    requires WellSent(a + b, after)
    ensures WellSent(a, AllToks(b) + after)
  {
    hide Toks, GoodArg, Shown, AllToks;
    if a != [] {
      assert (a + b)[0] == a[0] && (a + b)[1..] == a[1..] + b;
      SentPrefix(a[1..], b, after);
      ArgsAppend(a[1..], b);
      assert AllToks((a + b)[1..]) + after == AllToks(a[1..]) + (AllToks(b) + after);
    }
  }

  /** What is left to read when the handler acts. */
  function Left(c: Sent, after: seq<Tok>): seq<Tok> {
    if c.name == TEXTDELTA_CHUNK then [TClose] + after else after
  }

  /** The handler has all the arguments by then. */
  lemma PromptHasAll(c: Sent, after: seq<Tok>)
    requires IsCommand(c)
    ensures AllToks(c.args) + after == AllToks(Prompt(c)) + Left(c, after)
    ensures WellSent(Prompt(c), Left(c, after)) && AllReceived(Prompt(c)) == AllReceived(c.args)
  {
    hide Command, AllToks, AllReceived, WellSent;
    CommandSentAnyway(c, after);
    if c.name == TEXTDELTA_CHUNK {
      ChunkArgs(c);
      OneArg(Arg.Close);
      ArgsAppend(Prompt(c), [Arg.Close]);
      SentPrefix(Prompt(c), [Arg.Close], after);
      assert AllReceived(c.args) == AllReceived(Prompt(c)) + [];
    }
  }

  lemma PromptReceived(r: Reading, c: Sent, after: seq<Tok>, tail: bytes)
    requires IsCommand(c) && Before(r, AllToks(c.args) + after, tail)
    ensures var u := Vunpack(r, Spec(Prompt(c)));
            u.res == 0 && u.vals == AllReceived(c.args) && Before(u.rd, Left(c, after), tail)
  {
    hide Vunpack, Before, Command, Left, Prompt, AllToks, AllReceived, WellSent;
    PromptHasAll(c, after);
    UnpackInvertsPack(r, Prompt(c), Left(c, after), tail);
  }

  /** The handler performs its action, whatever stands behind the arguments. */
  lemma HandleReceives(env: Env, r: Reading, ed: EditState, c: Sent, after: seq<Tok>, tail: bytes)
    requires ed.Valid() && IsCommand(c) && Before(r, AllToks(c.args) + after, tail)
    ensures var h := Handle(env, r, ed, c.name); var (ed', res) := Perform(env, ed, SentAction(c));
            && h.ed == ed' && (res != 0 ==> h.res != 0 && !IsVunpack(h.res))
            && (res == 0 ==> h.res == 0 && h.closing == (c.name == CLOSE_EDIT) && Before(h.rd, after, tail))
  {
    hide Vunpack, Before, Perform, ActionOf, Command;
    PromptReceived(r, c, after, tail);
    CommandCode(c.name);
    if c.name == TEXTDELTA_CHUNK {
      ChunkArgs(c);
      CloseReceived(Vunpack(r, Spec(Prompt(c))).rd, after, tail);
      ChunkIsNotClose();
    }
  }

  lemma ChunkIsNotClose()
    ensures TEXTDELTA_CHUNK != CLOSE_EDIT
  {
    assert |TEXTDELTA_CHUNK| == 15 && |CLOSE_EDIT| == 10;
  }

  lemma CommandCode(w: bytes)
    ensures Command(w).Some? ==> 0 < Command(w).value.1 < 24
  {
  }

  /** One packed command: the editor performs its action, once; the reader ends behind it. */
  lemma CommandHandled(env: Env, r: Reading, ed: EditState, c: Sent, rest: seq<Tok>, tail: bytes)
    requires ed.Valid() && IsCommand(c) && Before(r, CommandToks(c) + rest, tail)
    ensures var l := OneCommand(env, r, ed); var (ed', res) := Perform(env, ed, SentAction(c));
            && l.ed == ed' && (res != 0 ==> l.res != 0 && !IsVunpack(l.res))
            && (res == 0 ==> l.res == 0 && l.closing == (c.name == CLOSE_EDIT) && Before(l.rd, rest, tail))
  {
    hide Vunpack, Before, Perform, ActionOf, Handle, Command;
    var body := AllToks(c.args) + ([TClose] + rest);
    assert CommandToks(c) + rest == [TOpen, TWord(c.name)] + body;
    NameReceived(r, c.name, body, tail);
    var r1 := Vunpack(r, [WOpen, WItem(W, One)]).rd;
    HandleReceives(env, r1, ed, c, [TClose] + rest, tail);
    var h := Handle(env, r1, ed, c.name);
    if h.res == 0 { CloseReceived(h.rd, rest, tail); }
  }

  /** Whole commands, none of them close-edit: either all succeed, and the loop goes on behind them
      with the editor as they left it, or it stops with the state in which the first one failed. */
  lemma {:induction false} CommandsRun(env: Env, r: Reading, ed: EditState, cs: seq<Sent>, rest: seq<Tok>, tail: bytes)
    returns (r': Reading)
    requires ed.Valid() && (forall c | c in cs :: IsCommand(c) && c.name != CLOSE_EDIT)
    requires Before(r, StreamToks(cs) + rest, tail) && Ready(r) && NextPos(r) <= |r.buf|
    ensures var (ed', res) := RunActions(env, ed, Actions(cs)); var l := EditorLoop(env, r, ed);
            if res != 0 then l.ed == ed' && l.res != 0
            else Before(r', rest, tail) && Ready(r') && NextPos(r') <= |r'.buf| && l == EditorLoop(env, r', ed')
    decreases |cs|
  {
    hide Before, Perform, ActionOf, OneCommand, IsCommand, CommandToks;
    r' := r;
    if cs == [] {
      assert StreamToks(cs) + rest == rest;
    } else {
      var c, more := cs[0], StreamToks(cs[1..]) + rest;
      assert StreamToks(cs) + rest == CommandToks(c) + more;
      CommandHandled(env, r, ed, c, more, tail);
      var l := OneCommand(env, r, ed);
      assert Actions(cs)[0] == SentAction(c) && Actions(cs)[1..] == Actions(cs[1..]);
      if l.res == 0 {
        BeforeReady(l.rd, more, tail);
        r' := CommandsRun(env, l.rd, l.ed, cs[1..], rest, tail);
      }
    }
  }

  lemma AsciiWord(s: string)
    requires s != "" && s[0] != '-' && forall i | 0 <= i < |s| :: 'a' <= s[i] <= 'z' || s[i] == '-'
    ensures GoodTok(TWord(Ascii(s)))
  {
  }

  /** The command that ends an edit; there is one way to send it. */
  const CLOSING := Sent(CLOSE_EDIT, [Arg.Open] + [Arg.Close])

  lemma ClosingIsCommand()
    ensures IsCommand(CLOSING)
  {
    AsciiWord("close-edit");
    OneArg(Arg.Close);
    assert CLOSING.args[1..] == [Arg.Close];
    assert |CLOSE_EDIT| == 10 && CLOSE_EDIT[0] == 99 && TARGET_REV[0] == 116;
    assert |CLOSE_FILE| == 10 && CLOSE_EDIT[6] == 101 && CLOSE_FILE[6] == 102;
  }

  /** Loop discipline: the commands are dispatched once each and in order; close-edit ends the loop
      with success and what follows it unread; the first command that fails ends it with failure. */
  lemma LoopDiscipline(env: Env, r: Reading, ed: EditState, cs: seq<Sent>, later: seq<Tok>, tail: bytes)
    requires ed.Valid() && (forall c | c in cs :: IsCommand(c) && c.name != CLOSE_EDIT)
    requires Before(r, StreamToks(cs) + (CommandToks(CLOSING) + later), tail)
    ensures Ready(r) && NextPos(r) <= |r.buf|
    ensures var (ed', res) := RunActions(env, ed, Actions(cs)); var l := EditorLoop(env, r, ed);
            if res != 0 then l.ed == ed' && l.res != 0
            else l.ed == ed' && l.res == 0 && l.closing && Before(l.rd, later, tail)
  {
    hide Before, OneCommand, IsCommand, CommandToks;
    BeforeReady(r, StreamToks(cs) + (CommandToks(CLOSING) + later), tail);
    var r' := CommandsRun(env, r, ed, cs, CommandToks(CLOSING) + later, tail);
    var (ed', res) := RunActions(env, ed, Actions(cs));
    if res == 0 {
      ClosingIsCommand();
      CommandHandled(env, r', ed', CLOSING, later, tail);
      CloseEditIsIgnored();
    }
  }

  lemma CloseEditIsIgnored()
    ensures forall vals :: ActionOf(CLOSE_EDIT, vals) == Ignored
  {
    assert |CLOSE_EDIT| == 10 && |TARGET_REV| == 10 && CLOSE_EDIT[0] == 99 && TARGET_REV[0] == 116;
    assert |CLOSE_FILE| == 10 && CLOSE_EDIT[6] == 101 && CLOSE_FILE[6] == 102;
  }

  // ---- success without close-edit ----

  lemma {:induction false} ScanResult(buf: bytes, pos: nat, lx: Lexer)
    ensures var x := Scan(buf, pos, lx);
            && (x.Token? ==> x.lx.kind in {TOK_OUT, NUM_OUT, STRING_OUT, LIST_START, LIST_END})
            && (x.Bad? ==> PARSE_ONE_VALUE < x.code < PARSE_ONE_VALUE + 0x1000)
    decreases |buf| - pos, if lx.kind == STRING_IN then 1 else 0
  {
    if pos < |buf| {
      var t := OneTurn(buf, pos, lx);
      if t.Stay? { ScanResult(t.buf, t.pos, t.lx); }
    }
  }

  lemma ReadResult(r: Reading)
    ensures var x := ReadOne(r);
            && (x.Got? ==> x.rd.lx.kind in {TOK_OUT, NUM_OUT, STRING_OUT, LIST_START, LIST_END})
            && (!x.Got? ==> CodeOf(x) != 0 && !IsVunpack(CodeOf(x)))
  {
    hide Scan;
    ScanResult(Rewind(r).buf, Rewind(r).pos, Rewind(r).lx);
  }

  /** The command with which the loop ends: where it begins, and the editor at that point. */
  function LastCommand(env: Env, r: Reading, ed: EditState): (l: (Reading, EditState))
    requires ed.Valid() && Ready(r) && NextPos(r) <= |r.buf|
    ensures l.1.Valid()
    decreases |r.buf| - NextPos(r)
  {
    CommandProgress(env, r, ed);
    var l := OneCommand(env, r, ed);
    if l.res != 0 || l.closing then (r, ed) else LastCommand(env, l.rd, l.ed)
  }

  /** Where a command is due, a token comes that is no opening parenthesis; or behind one a token that
      is no word; or behind a command that has been carried out a token that does not close it. */
  ghost predicate Mismatch(env: Env, r: Reading, ed: EditState)
    requires ed.Valid()
  {
    var x := ReadOne(r);
    x.Got? && (TokOf(x.rd) != TOpen || Misnamed(env, x.rd, ed))
  }

  ghost predicate Misnamed(env: Env, r: Reading, ed: EditState)
    requires ed.Valid()
  {
    var x := ReadOne(r);
    x.Got? && (!TokOf(x.rd).TWord? || Unclosed(Handle(env, x.rd, ed, TokOf(x.rd).w)))
  }

  ghost predicate Unclosed(h: Loop) {
    h.res == 0 && ReadOne(h.rd).Got? && TokOf(ReadOne(h.rd).rd) != TClose
  }

  lemma OneUnpacked(r: Reading, w: Want)
    ensures var u, v := UnpackOne(r, w), Vunpack(r, [w]);
            v.res == u.res && (u.res == 0 ==> v.rd == u.rd && v.vals == u.vals)
  {
    hide UnpackOne;
    assert [w][1..] == [];
  }

  lemma NameUnpacked(r: Reading)
    ensures var u, v := UnpackOne(r, WOpen), Vunpack(r, [WOpen, WItem(W, One)]);
            if u.res != 0 then v.res == u.res
            else var n := UnpackOne(u.rd, WItem(W, One));
                 v.res == n.res && (n.res == 0 ==> v.rd == n.rd && v.vals == n.vals)
  {
    hide UnpackOne;
    assert [WOpen, WItem(W, One)][1..] == [WItem(W, One)];
    OneUnpacked(UnpackOne(r, WOpen).rd, WItem(W, One));
    assert UnpackOne(r, WOpen).vals == [] by { OpenStoresNothing(r); }
  }

  lemma OpenStoresNothing(r: Reading)
    ensures UnpackOne(r, WOpen).vals == []
  {
  }

  lemma UnclosedExactly(h: Loop)
    ensures IsVunpack(Vunpack(h.rd, [WClose]).res) <==> ReadOne(h.rd).Got? && TokOf(ReadOne(h.rd).rd) != TClose
  {
    hide ReadOne;
    OneUnpacked(h.rd, WClose);
    ReadResult(h.rd);
  }

  lemma HandleCodes(env: Env, r: Reading, ed: EditState, w: bytes)
    requires ed.Valid()
    ensures !IsVunpack(Handle(env, r, ed, w).res)
  {
    hide Vunpack, Perform, ActionOf, Command;
    CommandCode(w);
  }

  lemma MismatchExactly(env: Env, r: Reading, ed: EditState)
    requires ed.Valid()
    ensures Mismatch(env, r, ed) <==> IsVunpack(OneCommand(env, r, ed).res)
  {
    hide ReadOne, Handle, Vunpack;
    NameUnpacked(r);
    ReadResult(r);
    var x := ReadOne(r);
    if x.Got? && TokOf(x.rd) == TOpen {
      ReadResult(x.rd);
      var y := ReadOne(x.rd);
      if y.Got? && TokOf(y.rd).TWord? {
        var h := Handle(env, y.rd, ed, TokOf(y.rd).w);
        HandleCodes(env, y.rd, ed, TokOf(y.rd).w);
        UnclosedExactly(h);
      }
    }
  }

  /** Not every success is a close-edit. For any stream: the loop returns 0 without one exactly when the
      command it ends with is a mismatch. */
  lemma {:induction false} QuietEndExactly(env: Env, r: Reading, ed: EditState)
    requires ed.Valid() && Ready(r) && NextPos(r) <= |r.buf|
    ensures var l, (r', ed') := EditorLoop(env, r, ed), LastCommand(env, r, ed);
            l.res == 0 && !l.closing <==> Mismatch(env, r', ed')
    decreases |r.buf| - NextPos(r)
  {
    hide OneCommand, Mismatch, NextPos;
    MismatchExactly(env, r, ed);
    CommandProgress(env, r, ed);
    var l := OneCommand(env, r, ed);
    if l.res == 0 && !l.closing { QuietEndExactly(env, l.rd, l.ed); }
  }

  /** In tokens: no parenthesis, no name behind it, or something stray behind the arguments of a command
      that is carried out, close-edit included. */
  ghost predicate Stray(env: Env, ed: EditState, ts: seq<Tok>)
    requires ed.Valid()
  {
    || (ts != [] && ts[0] != TOpen)
    || (|ts| >= 2 && ts[0] == TOpen && !ts[1].TWord?)
    || exists c, more :: StrayBehind(env, ed, ts, c, more)
  }

  ghost predicate StrayBehind(env: Env, ed: EditState, ts: seq<Tok>, c: Sent, more: seq<Tok>)
    requires ed.Valid()
  {
    && IsCommand(c) && ts == [TOpen, TWord(c.name)] + (AllToks(c.args) + more) && more != [] && more[0] != TClose
    && Perform(env, ed, SentAction(c)).1 == 0
  }

  lemma StrayIsThere(env: Env, ed: EditState, ts: seq<Tok>)
    requires ed.Valid() && Stray(env, ed, ts)
    ensures ts != []
  {
    hide Perform, IsCommand;
  }

  lemma StrayIsMismatch(env: Env, r: Reading, ed: EditState, ts: seq<Tok>, tail: bytes)
    requires ed.Valid() && Before(r, ts, tail) && Stray(env, ed, ts)
    ensures Mismatch(env, r, ed)
  {
    hide Before, ReadOne, Handle;
    NextToken(r, ts, tail);
    var x := ReadOne(r);
    if ts[0] == TOpen {
      NextToken(x.rd, ts[1..], tail);
      if c, more :| StrayBehind(env, ed, ts, c, more) {
        var y, body := ReadOne(x.rd), AllToks(c.args) + more;
        assert ts[1..][1..] == body && ts[1] == TWord(c.name);
        HandleReceives(env, y.rd, ed, c, more, tail);
        NextToken(Handle(env, y.rd, ed, c.name).rd, more, tail);
      }
    }
  }

  /** The editor is left as it was, unless the stray token stands behind a command. */
  lemma StrayLeaves(env: Env, r: Reading, ed: EditState, ts: seq<Tok>, tail: bytes)
    requires ed.Valid() && Before(r, ts, tail) && ts != [] && (ts[0] != TOpen || (|ts| >= 2 && !ts[1].TWord?))
    ensures OneCommand(env, r, ed).ed == ed
  {
    hide Before, ReadOne, Handle, Vunpack;
    NextToken(r, ts, tail);
    NameUnpacked(r);
    if ts[0] == TOpen { NextToken(ReadOne(r).rd, ts[1..], tail); }
  }

  lemma StrayPerforms(env: Env, r: Reading, ed: EditState, ts: seq<Tok>, c: Sent, more: seq<Tok>, tail: bytes)
    requires ed.Valid() && Before(r, ts, tail) && StrayBehind(env, ed, ts, c, more)
    ensures OneCommand(env, r, ed).ed == Perform(env, ed, SentAction(c)).0
  {
    hide Before, Handle, Vunpack, Perform, IsCommand;
    assert IsCommand(c);
    NamesAreWords(c);
    NameReceived(r, c.name, AllToks(c.args) + more, tail);
    HandleReceives(env, Vunpack(r, [WOpen, WItem(W, One)]).rd, ed, c, more, tail);
  }

  lemma NamesAreWords(c: Sent)
    requires IsCommand(c)
    ensures GoodTok(TWord(c.name))
  {
  }

  /** Behind commands that succeeded, any of these ends the loop, with success and without close-edit. */
  lemma EndsQuietly(env: Env, r: Reading, ed: EditState, cs: seq<Sent>, ts: seq<Tok>, tail: bytes)
    requires ed.Valid() && (forall c | c in cs :: IsCommand(c) && c.name != CLOSE_EDIT)
    requires Before(r, StreamToks(cs) + ts, tail)
    requires RunActions(env, ed, Actions(cs)).1 == 0 && Stray(env, RunActions(env, ed, Actions(cs)).0, ts)
    ensures Ready(r) && NextPos(r) <= |r.buf|
    ensures var l, ed' := EditorLoop(env, r, ed), RunActions(env, ed, Actions(cs)).0;
            && l.res == 0 && !l.closing
            && (ts[0] != TOpen || (|ts| >= 2 && !ts[1].TWord?) ==> l.ed == ed')
            && forall c, more | StrayBehind(env, ed', ts, c, more) :: l.ed == Perform(env, ed', SentAction(c)).0
  {
    hide Before, IsCommand, CommandToks, OneCommand, Mismatch, StrayBehind, Perform;
    BeforeReady(r, StreamToks(cs) + ts, tail);
    var r' := CommandsRun(env, r, ed, cs, ts, tail);
    var ed' := RunActions(env, ed, Actions(cs)).0;
    StrayIsMismatch(env, r', ed', ts, tail);
    MismatchExactly(env, r', ed');
    assert ts != [] by { StrayIsThere(env, ed', ts); }
    if ts[0] != TOpen || (|ts| >= 2 && !ts[1].TWord?) { StrayLeaves(env, r', ed', ts, tail); }
    forall c, more | StrayBehind(env, ed', ts, c, more)
      ensures OneCommand(env, r', ed').ed == Perform(env, ed', SentAction(c)).0
    {
      StrayPerforms(env, r', ed', ts, c, more, tail);
    }
  }
}
