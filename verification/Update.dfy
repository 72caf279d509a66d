/** A whole update over ra_svn: from the bytes a server sends to the working copy they leave. */
module Update {
  import opened Bytes
  import opened Tokenizer
  import opened Wire
  import opened Unpack
  import opened SvnEdit
  import opened SvnEditCodes
  import opened SvnEditRun
  import opened ProtoEditor
  import CommandForms

  // ---- commands that only trace ----

  /** The commands that do something to the working copy or to the file under edit. */
  function Working(acts: seq<Action>): seq<Action> {
    if acts == [] then [] else (if acts[0] == Ignored then [] else [acts[0]]) + Working(acts[1..])
  }

  /** Leaving out the commands that only trace leaves the run as it was. */
  lemma {:induction false} IgnoredDoNothing(env: Env, s: EditState, acts: seq<Action>)
    requires s.Valid()
    ensures RunActions(env, s, acts) == RunActions(env, s, Working(acts))
    decreases |acts|
  {
    hide Perform;
    if acts != [] {
      var (s1, res) := Perform(env, s, acts[0]);
      if acts[0] == Ignored {
        TracesOnly(env, s);
        assert Working(acts) == Working(acts[1..]);
      } else {
        assert Working(acts)[0] == acts[0] && Working(acts)[1..] == Working(acts[1..]);
      }
      if res == 0 { IgnoredDoNothing(env, s1, acts[1..]); }
    }
  }

  lemma TracesOnly(env: Env, s: EditState)
    requires s.Valid()
    ensures Perform(env, s, Ignored) == (s, 0)
  {
  }

  // ---- from bytes to files ----

  /** From any point of the loop: a server sends the commands of a coherent script, with any commands
      that only trace among them, then close-edit. If the loop returns 0, it has read exactly up to the
      end of close-edit, and the working copy is as the script says. */
  lemma UpdateConverges(env: Env, r: Reading, s: EditState, cs: seq<Sent>, later: seq<Tok>, tail: bytes,
                        script: seq<Edit>)
    requires s.Valid() && (forall c | c in cs :: IsCommand(c) && c.name != CLOSE_EDIT)
    requires Working(Actions(cs)) == ExpandAll(script)
    requires Before(r, StreamToks(cs) + (CommandToks(CLOSING) + later), tail)
    requires !env.tolerant && CreatesWork(env, s.tick, script)
    requires Sound(env, s.wc) && CoherentScript(env, s.targetRev, s.wc, [], script)
    ensures Ready(r) && NextPos(r) <= |r.buf|
    ensures var l := EditorLoop(env, r, s);
            l.res == 0 ==>
              && l.closing && Before(l.rd, later, tail) && Sound(env, l.ed.wc)
              && forall p :: Reached(env, RunFate(env, s, script, p, Untouched), p, s.wc, l.ed.wc)
  {
    hide Before, IsCommand, CommandToks, RunActions, EditorLoop, Sound, CoherentScript, Reached, StreamToks;
    LoopDiscipline(env, r, s, cs, later, tail);
    if EditorLoop(env, r, s).res == 0 {
      IgnoredDoNothing(env, s, Actions(cs));
      RunEditsIsRunActions(env, s, script);
      RunConverges(env, s, script);
    }
  }

  lemma {:induction false} StreamAppend(a: seq<Sent>, b: seq<Sent>)
    ensures StreamToks(a + b) == StreamToks(a) + StreamToks(b)
  {
    hide CommandToks;
    if a == [] {
      assert a + b == b;
    } else {
      assert (a + b)[0] == a[0] && (a + b)[1..] == a[1..] + b;
      StreamAppend(a[1..], b);
    }
  }

  /** The whole update: first the opening commands, which name the target revision and make the root,
      then as above. */
  lemma WholeUpdateConverges(env: Env, r: Reading, ed: EditState, opening: seq<Sent>, cs: seq<Sent>,
                             later: seq<Tok>, tail: bytes, script: seq<Edit>)
    requires ed.Valid() && (forall c | c in opening + cs :: IsCommand(c) && c.name != CLOSE_EDIT)
    requires Working(Actions(cs)) == ExpandAll(script)
    requires Before(r, StreamToks(opening + cs) + (CommandToks(CLOSING) + later), tail)
    requires var s := RunActions(env, ed, Actions(opening)).0;
             && !env.tolerant && CreatesWork(env, s.tick, script)
             && Sound(env, s.wc) && CoherentScript(env, NamedRev(Actions(opening), ed.targetRev), s.wc, [], script)
    ensures Ready(r) && NextPos(r) <= |r.buf|
    ensures var s, l := RunActions(env, ed, Actions(opening)).0, EditorLoop(env, r, ed);
            l.res == 0 ==>
              && l.closing && Before(l.rd, later, tail) && Sound(env, l.ed.wc)
              && forall p :: Reached(env, RunFate(env, s, script, p, Untouched), p, s.wc, l.ed.wc)
  {
    hide Before, IsCommand, CommandToks, RunActions, EditorLoop, Sound, CoherentScript, Reached, Working, ExpandAll,
         StreamToks, Actions, CreatesWork, Ready, NextPos, NamedRev;
    assert forall c | c in opening :: c in opening + cs;
    assert forall c | c in cs :: c in opening + cs;
    var rest := StreamToks(cs) + (CommandToks(CLOSING) + later);
    StreamAppend(opening, cs);
    assert StreamToks(opening + cs) + (CommandToks(CLOSING) + later) == StreamToks(opening) + rest;
    BeforeReady(r, StreamToks(opening) + rest, tail);
    var r' := CommandsRun(env, r, ed, opening, rest, tail);
    var (s, res) := RunActions(env, ed, Actions(opening));
    if res == 0 {
      RunNamesRevision(env, ed, Actions(opening));
      UpdateConverges(env, r', s, cs, later, tail, script);
    }
  }

  // ---- from the first byte ----

  /** What a server writes to send commands: each as the protocol spells it, then close-edit. */
  function ScriptToks(ls: seq<CommandForms.Line>): seq<Tok>
    requires CommandForms.GoodLines(ls)
  {
    StreamToks(CommandForms.SpeakAll(ls)) + (CommandToks(CLOSING) + [])
  }

  lemma {:induction false} WellSentIsGood(args: seq<Arg>, after: seq<Tok>)
    requires WellSent(args, after)
    ensures GoodToks(AllToks(args))
  {
    if args != [] { WellSentIsGood(args[1..], after); }
  }

  lemma {:induction false} CommandsAreGood(cs: seq<Sent>)
    requires forall c | c in cs :: IsCommand(c)
    ensures GoodToks(StreamToks(cs))
  {
    hide WellSent, Command;
    if cs != [] {
      assert IsCommand(cs[0]);
      WellSentIsGood(cs[0].args, [TClose]);
      CommandsAreGood(cs[1..]);
    }
  }

  lemma ScriptIsGood(ls: seq<CommandForms.Line>)
    requires CommandForms.GoodLines(ls)
    ensures GoodToks(ScriptToks(ls))
  {
    hide GoodTok, IsCommand, CommandToks;
    CommandForms.SpeakAllMeans(ls);
    ClosingIsCommand();
    CommandsAreGood(CommandForms.SpeakAll(ls));
    CommandsAreGood([CLOSING]);
    assert StreamToks([CLOSING]) == CommandToks(CLOSING) + StreamToks([CLOSING][1..]);
  }

  function ScriptBytes(ls: seq<CommandForms.Line>): bytes
    requires CommandForms.GoodLines(ls)
  {
    ScriptIsGood(ls);
    Spell(ScriptToks(ls))
  }

  /** What an editor of the working copy wc has after the opening: the revision and the root. */
  function Opened(ed: EditState, rev: int): EditState {
    ed.(targetRev := rev, tick := ed.tick + 2, wc := ed.wc.(tree := ed.wc.tree[[] := Dir]))
  }

  /** The server names the revision and opens the root, and then sends a script, with tracing commands
      anywhere in between. */
  predicate Tells(ls: seq<CommandForms.Line>, rev: int, script: seq<Edit>) {
    Working(CommandForms.ActionsFor(ls)) == [TargetRev(rev), OpenRoot] + ExpandAll(script)
  }

  /** The opening, as it goes when it goes well. */
  lemma OpeningRuns(env: Env, ed: EditState, rev: int, more: seq<Action>)
    requires ed.Valid()
    ensures var acts := [TargetRev(rev), OpenRoot] + more;
            RunActions(env, ed, acts).1 == 0 ==> RunActions(env, ed, acts) == RunActions(env, Opened(ed, rev), more)
  {
    hide Perform;
    var acts := [TargetRev(rev), OpenRoot] + more;
    assert acts[1..] == [OpenRoot] + more && acts[1..][1..] == more;
    NamesRevision(env, ed, TargetRev(rev));
    var s1 := Perform(env, ed, TargetRev(rev)).0;
    DirectoryExactly(env, s1, OpenRoot);
  }

  /** Encoded update in, edited files out. The reader stands anywhere in its stream, in front of the bytes
      of the update, which names a revision, opens the root, carries a script, and traces whatever it
      likes; when the loop returns 0, it stands in front of what follows them, and the files are as the
      script says, by the copies of that revision. */
  lemma SpokenUpdateConverges(env: Env, r: Reading, ed: EditState, ls: seq<CommandForms.Line>, rev: int,
                              script: seq<Edit>, tail: bytes)
    requires ed.Valid() && !env.tolerant && CreatesWork(env, ed.tick + 2, script)
    requires Sound(env, Opened(ed, rev).wc) && CoherentScript(env, rev, Opened(ed, rev).wc, [], script)
    requires CommandForms.GoodLines(ls) && Tells(ls, rev, script) && At(r, ScriptBytes(ls) + tail)
    ensures Ready(r) && NextPos(r) <= |r.buf|
    ensures var l, s := EditorLoop(env, r, ed), Opened(ed, rev);
            l.res == 0 ==>
              && l.closing && At(l.rd, tail) && Sound(env, l.ed.wc)
              && forall p :: Reached(env, RunFate(env, s, script, p, Untouched), p, s.wc, l.ed.wc)
  {
    hide At, Spell, IsCommand, CommandToks, EditorLoop, Sound, CoherentScript, Reached, StreamToks, GoodTok, RunActions,
         Working, ExpandAll, CreatesWork, Before, Ready, NextPos, RunFate, CommandForms.SpeakAll,
         CommandForms.ActionsFor;
    var cs := CommandForms.SpeakAll(ls);
    CommandForms.SpeakAllMeans(ls);
    ScriptIsGood(ls);
    AtIsBefore(r, ScriptToks(ls), tail);
    LoopDiscipline(env, r, ed, cs, [], tail);
    NothingLeft(EditorLoop(env, r, ed).rd, tail);
    var acts := CommandForms.ActionsFor(ls);
    if EditorLoop(env, r, ed).res == 0 {
      IgnoredDoNothing(env, ed, acts);
      OpeningRuns(env, ed, rev, ExpandAll(script));
      RunEditsIsRunActions(env, Opened(ed, rev), script);
      RunConverges(env, Opened(ed, rev), script);
    }
  }

  lemma NothingLeft(r: Reading, tail: bytes)
    ensures Before(r, [], tail) ==> At(r, tail)
  {
  }
}
