/** Whole edit scripts: what a run leaves behind, and what running it again leaves behind. */
module SvnEditRun {
  import opened Bytes
  import opened Svndiff
  import opened SvnEdit
  import opened SvnEditLaws

  /** One logical edit and the commands that carry it. delta is None for property-only edits. */
  datatype Edit =
    | FileEdit(open: bool, path: Path, token: Option<bytes>, rev: int, base: Option<Checksum>,
               delta: Option<seq<bytes>>, text: Checksum)
    | Remove(path: Path)
    | Directory(open: bool, path: Path)

  function Chunks(data: seq<bytes>): seq<Action> {
    if data == [] then [] else [Chunk(data[0])] + Chunks(data[1..])
  }

  function First(e: Edit): Action {
    match e
    case FileEdit(open, p, token, rev, _, _, _) => if open then Open(p, token, rev) else Add(p, token)
    case Remove(p) => Delete(p)
    case Directory(open, p) => if open then OpenDir(p) else AddDir(p)
  }

  function Expand(e: Edit): seq<Action> {
    if !e.FileEdit? then [First(e)]
    else
      [First(e)]
      + (if e.delta == None then [] else [ApplyTextdelta(e.base)] + Chunks(e.delta.value))
      + [Close(e.token, Some(e.text))]
  }

  function ExpandAll(edits: seq<Edit>): seq<Action> {
    if edits == [] then [] else Expand(edits[0]) + ExpandAll(edits[1..])
  }

  function RunEdits(env: Env, s: EditState, edits: seq<Edit>): (r: (EditState, int))
    requires s.Valid()
    ensures r.0.Valid()
    decreases |edits|
  {
    if edits == [] then (s, 0)
    else
      var (s', res) := RunActions(env, s, Expand(edits[0]));
      if res != 0 then (s', res) else RunEdits(env, s', edits[1..])
  }

  lemma {:induction false} RunAppend(env: Env, s: EditState, a: seq<Action>, b: seq<Action>)
    requires s.Valid()
    ensures var (s', res) := RunActions(env, s, a);
            RunActions(env, s, a + b) == if res != 0 then (s', res) else RunActions(env, s', b)
    decreases |a|
  {
    if a == [] {
      assert a + b == b;
    } else {
      assert (a + b)[0] == a[0] && (a + b)[1..] == a[1..] + b;
      RunAppend(env, Perform(env, s, a[0]).0, a[1..], b);
    }
  }

  /** Grouping the commands into edits does not change the run. */
  lemma {:induction false} RunEditsIsRunActions(env: Env, s: EditState, edits: seq<Edit>)
    requires s.Valid()
    ensures RunEdits(env, s, edits) == RunActions(env, s, ExpandAll(edits))
    decreases |edits|
  {
    if edits != [] {
      RunAppend(env, s, Expand(edits[0]), ExpandAll(edits[1..]));
      RunEditsIsRunActions(env, RunActions(env, s, Expand(edits[0])).0, edits[1..]);
    }
  }

  // ---- one file edit ----

  /** The delta the edit's chunks parse to. */
  function DeltaOf(env: Env, e: Edit): Parsed
    requires e.FileEdit?
  {
    if e.delta == None then Done(INITIAL_DOC) else ParseChunks(env.zlib, INITIAL_DOC, e.delta.value)
  }

  function DocOf(env: Env, e: Edit): FileDoc
    requires e.FileEdit? && DeltaOf(env, e).Done?
  {
    var base := if e.delta == None then None else e.base;
    FileDoc(e.path, if e.open then e.rev else -1, e.token, base, DeltaOf(env, e).doc)
  }

  function Begin(env: Env, f: Faults, wc: Copy, e: Edit): Outcome
    requires e.FileEdit?
  {
    if e.open then OpenFile(env, f, wc, e.path, e.rev) else AddFile(wc, e.path)
  }

  lemma {:induction false} ChunksRun(env: Env, s: EditState, data: seq<bytes>)
    requires s.Valid()
    ensures var (s', res) := RunActions(env, s, Chunks(data));
            var r := ParseChunks(env.zlib, s.file.delta, data);
            (res == 0 <==> r.Done?)
            && (res == 0 ==> s' == s.(file := s.file.(delta := r.doc), tick := s.tick + |data|))
    decreases |data|
  {
    hide Parse, Perform;
    if data != [] {
      assert Chunks(data)[0] == Chunk(data[0]) && Chunks(data)[1..] == Chunks(data[1..]);
      ChunkRuns(env, s, data[0]);
      var r := Parse(env.zlib, s.file.delta, data[0]);
      ParseCodeNonzero(env.zlib, s.file.delta, data[0]);
      if r.Done? {
        ChunksRun(env, s.(file := s.file.(delta := r.doc), tick := s.tick + 1), data[1..]);
      }
    }
  }

  lemma ChunkRuns(env: Env, s: EditState, data: bytes)
    requires s.Valid()
    ensures var (s', res) := Perform(env, s, Chunk(data));
            match Parse(env.zlib, s.file.delta, data)
            case Done(d) => res == 0 && s' == s.(file := s.file.(delta := d), tick := s.tick + 1)
            case Failed(_, code) => res == code
            case Unknown => res == ABORTED
  {
    hide Parse;
  }

  lemma {:induction false} ParseCodeNonzero(z: Zlib, d: Doc, s: bytes)
    requires d.Valid()
    ensures Parse(z, d, s).Failed? ==> Parse(z, d, s).code != 0
    decreases |s|, if d.state == NWND then 1 else 0
  {
    if s != [] {
      var r := OneStep(z, d, s);
      if r.Next? { ParseCodeNonzero(z, r.doc, s[r.used..]); }
    }
  }

  /** The number of commands that carry an edit. */
  function Ticks(e: Edit): (n: nat)
    ensures n == |Expand(e)| > 0
  {
    ChunksLength(if e.FileEdit? && e.delta.Some? then e.delta.value else []);
    if !e.FileEdit? then 1 else if e.delta == None then 2 else 3 + |e.delta.value|
  }

  lemma {:induction false} ChunksLength(data: seq<bytes>)
    ensures |Chunks(data)| == |data|
  {
    if data != [] { ChunksLength(data[1..]); }
  }

  /** A file edit is opening, parsing and closing, and closing comes last. */
  lemma FileEditIs(env: Env, s: EditState, e: Edit)
    requires s.Valid() && e.FileEdit?
    ensures var o, t := Begin(env, env.faults(s.tick), s.wc, e), s.tick + Ticks(e) - 1;
            (RunActions(env, s, Expand(e)).1 == 0 ==> o.res == 0 && DeltaOf(env, e).Done?)
            && (o.res == 0 && DeltaOf(env, e).Done? ==>
                  var (s', res), d := RunActions(env, s, Expand(e)), DocOf(env, e);
                  && CloseFile(env, env.faults(t), o.wc, s.targetRev, d, e.token, Some(e.text)) == Outcome(s'.wc, res)
                  && s'.targetRev == s.targetRev && s'.tick == t + 1)
  {
    hide CloseFile, OpenFile, ParseChunks, Chunks, Parse;
    var mid := if e.delta == None then [] else [ApplyTextdelta(e.base)] + Chunks(e.delta.value);
    RunAppend(env, s, [First(e)] + mid, [Close(e.token, Some(e.text))]);
    RunAppend(env, s, [First(e)], mid);
    One(env, s, First(e));
    var (s1, r1) := Perform(env, s, First(e));
    if r1 == 0 {
      DeltaRun(env, s1, e);
      if DeltaOf(env, e).Done? {
        One(env, RunActions(env, s1, mid).0, Close(e.token, Some(e.text)));
      }
    }
  }

  /** The delta commands change the document only. */
  lemma DeltaRun(env: Env, s: EditState, e: Edit)
    requires s.Valid() && e.FileEdit? && s.file.delta == INITIAL_DOC && s.file.base == None
    ensures var mid := if e.delta == None then [] else [ApplyTextdelta(e.base)] + Chunks(e.delta.value);
            var (s', res), base := RunActions(env, s, mid), if e.delta == None then None else e.base;
            (res == 0 <==> DeltaOf(env, e).Done?)
            && (res == 0 ==> && s'.wc == s.wc && s'.targetRev == s.targetRev && s'.tick + 2 == s.tick + Ticks(e)
                             && s'.file == s.file.(delta := DeltaOf(env, e).doc, base := base))
  {
    if e.delta.Some? {
      var a := ApplyTextdelta(e.base);
      RunAppend(env, s, [a], Chunks(e.delta.value));
      One(env, s, a);
      ChunksRun(env, Perform(env, s, a).0, e.delta.value);
    }
  }

  lemma One(env: Env, s: EditState, a: Action)
    requires s.Valid()
    ensures RunActions(env, s, [a]) == Perform(env, s, a)
  {
    assert [a][1..] == [];
  }

  // ---- convergence ----

  /** What has become of a path in the end: nothing, a text with this checksum, nothing there, a
      directory; or it was in a directory whose removal failed half-way, after an earlier fate. */
  datatype Fate = Untouched | Target(sum: Checksum) | Gone | Made | Left(before: Fate)

  /** What a script says about a path. */
  function Touch(e: Edit, p: Path, before: Fate): Fate {
    match e
    case FileEdit(_, q, _, _, _, _, text) => if q == p then Target(text) else before
    case Remove(d) => if Within(p, d) then Gone else before
    case Directory(_, q) => if q == p then Made else before
  }

  function FateOf(edits: seq<Edit>, p: Path, before: Fate): Fate
    decreases |edits|
  {
    if edits == [] then before else FateOf(edits[1..], p, Touch(edits[0], p, before))
  }

  /** What an edit does to a path when it is carried out in state s. */
  function TouchNow(env: Env, s: EditState, e: Edit, p: Path, before: Fate): Fate {
    if e.Remove? && Within(p, e.path) && IsDir(s.wc.tree, e.path) && env.faults(s.tick).traverse then Left(before)
    else Touch(e, p, before)
  }

  /** What a run of a script does to a path. */
  function RunFate(env: Env, s: EditState, edits: seq<Edit>, p: Path, before: Fate): Fate
    requires s.Valid()
    decreases |edits|
  {
    if edits == [] then before
    else RunFate(env, RunActions(env, s, Expand(edits[0])).0, edits[1..], p, TouchNow(env, s, edits[0], p, before))
  }

  /** The run does to each path what the script says, but for removals that fail half-way. */
  lemma {:induction false} RunFateIs(env: Env, s: EditState, edits: seq<Edit>, p: Path, before: Fate, planned: Fate)
    requires s.Valid() && (before == planned || (before.Left? && planned == Gone))
    ensures var fate, plan := RunFate(env, s, edits, p, before), FateOf(edits, p, planned);
            fate == plan || (fate.Left? && plan == Gone)
    ensures (forall t: nat :: !env.faults(t).traverse) && before == planned ==>
              RunFate(env, s, edits, p, before) == FateOf(edits, p, planned)
    decreases |edits|
  {
    hide RunActions;
    if edits != [] {
      RunFateIs(env, RunActions(env, s, Expand(edits[0])).0, edits[1..], p, TouchNow(env, s, edits[0], p, before),
                Touch(edits[0], p, planned));
    }
  }

  ghost predicate Reached(env: Env, fate: Fate, p: Path, wc0: Copy, wc: Copy) {
    match fate
    case Untouched => SameNode(wc, wc0, p) && SameKey(wc, wc0, p)
    case Target(sum) => Holds(env, wc, p, sum)
    case Gone => p !in wc.tree
    case Made => IsDir(wc.tree, p)
    case Left(before) => p !in wc.tree || StillThere(env, before, p, wc0, wc)
  }

  /** What is at p is what this fate put there; of a directory the key may be gone. */
  ghost predicate StillThere(env: Env, fate: Fate, p: Path, wc0: Copy, wc: Copy) {
    match fate
    case Untouched => SameNode(wc, wc0, p)
    case Target(sum) => Holds(env, wc, p, sum)
    case Gone => p !in wc.tree
    case Made => IsDir(wc.tree, p)
    case Left(before) => StillThere(env, before, p, wc0, wc)
  }

  /** A removal that fails half-way takes p away, or leaves it with its key, but for the directory's own. */
  ghost predicate Spared(a: Copy, b: Copy, p: Path) {
    p !in b.tree || (SameNode(b, a, p) && (SameKey(b, a, p) || IsDir(b.tree, p)))
  }

  lemma {:induction false} SparedIsThere(env: Env, fate: Fate, p: Path, wc0: Copy, a: Copy, b: Copy)
    requires StillThere(env, fate, p, wc0, a) && Spared(a, b, p) && p in b.tree
    ensures StillThere(env, fate, p, wc0, b)
    decreases fate
  {
    if fate.Left? { SparedIsThere(env, fate.before, p, wc0, a, b); }
  }

  lemma ReachedIsThere(env: Env, fate: Fate, p: Path, wc0: Copy, a: Copy, b: Copy)
    requires Reached(env, fate, p, wc0, a) && Spared(a, b, p) && p in b.tree
    ensures StillThere(env, fate, p, wc0, b)
  {
    assert StillThere(env, fate, p, wc0, a);
    SparedIsThere(env, fate, p, wc0, a, b);
  }

  /** By the script so far, every directory on the way to p exists. */
  ghost predicate RootedByScript(wc0: Copy, done: seq<Edit>, p: Path) {
    forall i | 0 <= i < |p| && p[i] == SLASH ::
      var fate := FateOf(done, p[..i], Untouched);
      fate == Made || (fate == Untouched && IsDir(wc0.tree, p[..i]))
  }

  /** The server means what it says about a file. Its own copy has the text checksum. The edit
      carries a delta, and if that is empty and has no file to work on the directory is there; or it
      carries none, and the text it announces is the one the file has already, or the one that is
      fetched because the file is missing. */
  ghost predicate Coherent(env: Env, rev: int, wc0: Copy, done: seq<Edit>, e: Edit) {
    e.FileEdit? ==>
      && Serves(env, e.path, rev, e.text)
      && (if e.delta.Some? then
            DeltaOf(env, e).Done? ==>
              && DeltaOf(env, e).doc.version != -1
              && (DeltaOf(env, e).doc.wnd == [] ==> HasSource(e) || RootedByScript(wc0, done, e.path))
          else
            var fate := FateOf(done, e.path, Untouched);
            fate == Target(e.text)
            || (fate == Untouched && IsFile(wc0.tree, e.path) && env.md5(wc0.tree[e.path].content) == e.text)
            || (fate == Untouched && e.path !in wc0.tree && e.open && Serves(env, e.path, e.rev, e.text)))
  }

  /** The edit opens a file and announces its base checksum. */
  predicate HasSource(e: Edit) { e.FileEdit? && e.open && e.base.Some? }

  ghost predicate CoherentScript(env: Env, rev: int, wc0: Copy, done: seq<Edit>, rest: seq<Edit>)
    decreases |rest|
  {
    rest == [] || (Coherent(env, rev, wc0, done, rest[0])
                   && CoherentScript(env, rev, wc0, done + [rest[0]], rest[1..]))
  }

  /** The edit has a delta without windows and, when it is closed at t, no file to work on, so that
      closing it can only make an empty file. */
  predicate MakesEmpty(env: Env, t: nat, e: Edit) {
    && e.FileEdit? && e.delta.Some? && DeltaOf(env, e).Done? && DeltaOf(env, e).doc.wnd == []
    && !(HasSource(e) && !env.faults(t).open)
  }

  predicate CreateWorks(env: Env, t: nat, e: Edit) { MakesEmpty(env, t, e) ==> !env.faults(t).create }

  /** No close of such an edit fails to create its file, which would be passed over. */
  predicate CreatesWork(env: Env, tick: nat, edits: seq<Edit>)
    decreases |edits|
  {
    edits == [] || (CreateWorks(env, tick + Ticks(edits[0]) - 1, edits[0])
                    && CreatesWork(env, tick + Ticks(edits[0]), edits[1..]))
  }

  ghost predicate Sound(env: Env, wc: Copy) { TreeOk(wc.tree) && DatabaseAgrees(env, wc) }

  type Fates = Path -> Fate

  /** Everything the script has done so far shows. */
  ghost predicate AllReached(env: Env, wc0: Copy, fates: Fates, wc: Copy) {
    forall p :: Reached(env, fates(p), p, wc0, wc)
  }

  ghost predicate AsPlanned(fates: Fates, done: seq<Edit>) {
    forall p :: fates(p) == FateOf(done, p, Untouched) || (fates(p).Left? && FateOf(done, p, Untouched) == Gone)
  }

  lemma RootedNow(env: Env, wc0: Copy, done: seq<Edit>, fates: Fates, wc: Copy, p: Path)
    requires AllReached(env, wc0, fates, wc) && AsPlanned(fates, done) && RootedByScript(wc0, done, p)
    ensures Rooted(wc.tree, p)
  {
    forall i | 0 <= i < |p| && p[i] == SLASH ensures IsDir(wc.tree, p[..i]) {
      assert Reached(env, fates(p[..i]), p[..i], wc0, wc);
    }
  }

  /** Opening a file that is missing fetches it. */
  ghost predicate Fetched(env: Env, e: Edit, wc: Copy)
    requires e.FileEdit?
  {
    && env.fetch(e.path, e.rev).Some? && IsFile(wc.tree, e.path)
    && wc.tree[e.path].content == Concat(env.fetch(e.path, e.rev).value)
  }

  lemma BeginTouchesOnlyItsFile(env: Env, f: Faults, wc: Copy, e: Edit)
    requires e.FileEdit? && TreeOk(wc.tree)
    ensures var o := Begin(env, f, wc, e);
            && SameElsewhere(o.wc, wc, e.path) && TreeOk(o.wc.tree)
            && (o.res == 0 ==> !IsDir(o.wc.tree, e.path)) && (IsFile(wc.tree, e.path) ==> o.wc == wc)
            && (o.res == 0 && e.open ==> IsFile(o.wc.tree, e.path) && (e.path !in wc.tree ==> Fetched(env, e, o.wc)))
  {
    CheckoutKeepsTree(env, f, wc.tree, e.path, e.rev);
  }

  lemma RootedElsewhere(a: Copy, b: Copy, p: Path)
    requires SameElsewhere(a, b, p) && Rooted(b.tree, p)
    ensures Rooted(a.tree, p)
  {
    forall i | 0 <= i < |p| && p[i] == SLASH ensures IsDir(a.tree, p[..i]) {
      assert p[..i] != p;
      assert SameNode(a, b, p[..i]);
    }
  }

  /** Closing the edited file, from whatever opening it left. */
  lemma CloseReaches(env: Env, t: nat, wc0: Copy, done: seq<Edit>, fates: Fates, wc: Copy, begun: Copy, rev: int,
                     e: Edit)
    requires e.FileEdit? && DeltaOf(env, e).Done? && !env.tolerant && CreateWorks(env, t, e)
    requires Coherent(env, rev, wc0, done, e) && AllReached(env, wc0, fates, wc) && AsPlanned(fates, done)
    requires TreeOk(begun.tree) && SameElsewhere(begun, wc, e.path) && !IsDir(begun.tree, e.path)
    requires IsFile(wc.tree, e.path) ==> begun == wc
    requires e.open ==> IsFile(begun.tree, e.path) && (e.path !in wc.tree ==> Fetched(env, e, begun))
    requires CloseFile(env, env.faults(t), begun, rev, DocOf(env, e), e.token, Some(e.text)).res == 0
    ensures var o := CloseFile(env, env.faults(t), begun, rev, DocOf(env, e), e.token, Some(e.text));
            Holds(env, o.wc, e.path, e.text)
  {
    hide CloseFile;
    var p, f := e.path, env.faults(t);
    assert Reached(env, fates(p), p, wc0, wc);
    if e.delta.Some? {
      if DeltaOf(env, e).doc.wnd == [] && !IsFile(begun.tree, p) {
        RootedNow(env, wc0, done, fates, wc, p);
        RootedElsewhere(begun, wc, p);
      }
      SuccessfulCloseHolds(env, f, begun, rev, DocOf(env, e), e.token, e.text);
    } else {
      assert IsFile(begun.tree, p) && env.md5(begun.tree[p].content) == e.text;
      PropertyOnlyHoldsExactly(env, f, begun, rev, DocOf(env, e), e.token, e.text);
    }
  }

  lemma FileEditReaches(env: Env, wc0: Copy, done: seq<Edit>, fates: Fates, s: EditState, e: Edit)
    requires s.Valid() && e.FileEdit? && !env.tolerant
    requires CreateWorks(env, s.tick + Ticks(e) - 1, e)
    requires Coherent(env, s.targetRev, wc0, done, e) && AllReached(env, wc0, fates, s.wc) && AsPlanned(fates, done)
    requires TreeOk(s.wc.tree) && RunActions(env, s, Expand(e)).1 == 0
    ensures var s' := RunActions(env, s, Expand(e)).0;
            && s'.targetRev == s.targetRev && s'.tick == s.tick + Ticks(e) && Holds(env, s'.wc, e.path, e.text)
            && SameElsewhere(s'.wc, s.wc, e.path) && TreeOk(s'.wc.tree)
  {
    hide CloseFile, Begin, Coherent, Holds, Ticks, Expand, RunActions, CreateWorks, Fetched;
    FileEditIs(env, s, e);
    var begun, f := Begin(env, env.faults(s.tick), s.wc, e).wc, env.faults(s.tick + Ticks(e) - 1);
    BeginTouchesOnlyItsFile(env, env.faults(s.tick), s.wc, e);
    CloseTouchesOnlyItsFile(env, f, begun, s.targetRev, DocOf(env, e), e.token, Some(e.text));
    CloseKeepsTree(env, f, begun, s.targetRev, DocOf(env, e), e.token, Some(e.text));
    CloseReaches(env, s.tick + Ticks(e) - 1, wc0, done, fates, s.wc, begun, s.targetRev, e);
    SameElsewhereTrans(RunActions(env, s, Expand(e)).0.wc, begun, s.wc, e.path);
  }

  lemma RemoveReaches(env: Env, s: EditState, d: Path)
    requires s.Valid() && TreeOk(s.wc.tree) && RunActions(env, s, Expand(Remove(d))).1 == 0
    ensures var s' := RunActions(env, s, Expand(Remove(d))).0;
            && s'.targetRev == s.targetRev && s'.tick == s.tick + 1 && TreeOk(s'.wc.tree)
            && (forall p :: SameKey(s'.wc, s.wc, p) || p == d)
            && (forall p | !Within(p, d) :: SameNode(s'.wc, s.wc, p))
            && (forall p | IsFile(s'.wc.tree, p) :: SameNode(s'.wc, s.wc, p) && SameKey(s'.wc, s.wc, p))
            && (forall p :: Spared(s.wc, s'.wc, p))
            && (!(IsDir(s.wc.tree, d) && env.faults(s.tick).traverse) ==> forall p | Within(p, d) :: p !in s'.wc.tree)
  {
    var f := env.faults(s.tick);
    One(env, s, Delete(d));
    DeleteKeepsTree(f, s.wc, d);
    DeleteRemovesExactly(f, s.wc, d);
  }

  lemma DirectoryReaches(env: Env, s: EditState, open: bool, d: Path)
    requires s.Valid() && TreeOk(s.wc.tree) && RunActions(env, s, Expand(Directory(open, d))).1 == 0
    ensures var s' := RunActions(env, s, Expand(Directory(open, d))).0;
            && s'.targetRev == s.targetRev && s'.tick == s.tick + 1 && TreeOk(s'.wc.tree) && IsDir(s'.wc.tree, d)
            && forall p :: SameKey(s'.wc, s.wc, p) && (p != d ==> SameNode(s'.wc, s.wc, p))
  {
    One(env, s, First(Directory(open, d)));
    var t, t' := s.wc.tree, RunActions(env, s, Expand(Directory(open, d))).0.wc.tree;
    forall p | p in t' ensures Rooted(t', p) {
      assert Rooted(t, p);
    }
  }

  /** Paths the edit says nothing of are as before, and the others are as it says. */
  ghost predicate Does(env: Env, s: EditState, e: Edit, wc: Copy) {
    && (forall p | Touch(e, p, Untouched) == Untouched :: SameNode(wc, s.wc, p) && SameKey(wc, s.wc, p))
    && (forall p | Touch(e, p, Untouched) != Untouched ::
          var fate := TouchNow(env, s, e, p, Untouched);
          if fate.Left? then Spared(s.wc, wc, p) else Reached(env, fate, p, s.wc, wc))
  }

  /** The files that are there agree with the database if they did before. */
  ghost predicate KeepsAgreement(env: Env, s: EditState, e: Edit, wc: Copy) {
    forall p | IsFile(wc.tree, p) && Touch(e, p, Untouched) != Untouched ::
      (SameNode(wc, s.wc, p) && SameKey(wc, s.wc, p)) || exists sum :: Holds(env, wc, p, sum)
  }

  lemma DoneFile(env: Env, s: EditState, e: Edit, wc: Copy)
    requires e.FileEdit? && SameElsewhere(wc, s.wc, e.path) && Holds(env, wc, e.path, e.text)
    ensures Does(env, s, e, wc) && KeepsAgreement(env, s, e, wc)
  {
    hide Holds;
    forall p | Touch(e, p, Untouched) == Untouched ensures SameNode(wc, s.wc, p) && SameKey(wc, s.wc, p) {
      assert p != e.path;
    }
  }

  lemma ReachedNow(env: Env, wc0: Copy, fates: Fates, s: EditState, e: Edit, wc: Copy)
    requires AllReached(env, wc0, fates, s.wc) && Does(env, s, e, wc)
    ensures forall p :: Reached(env, TouchNow(env, s, e, p, fates(p)), p, wc0, wc)
  {
    forall p ensures Reached(env, TouchNow(env, s, e, p, fates(p)), p, wc0, wc) {
      assert Reached(env, fates(p), p, wc0, s.wc);
      if Touch(e, p, Untouched) != Untouched {
        var fate := TouchNow(env, s, e, p, Untouched);
        if fate.Left? {
          assert TouchNow(env, s, e, p, fates(p)) == Left(fates(p)) && Spared(s.wc, wc, p);
          if p in wc.tree { ReachedIsThere(env, fates(p), p, wc0, s.wc, wc); }
        } else {
          assert TouchNow(env, s, e, p, fates(p)) == fate;
        }
      } else {
        assert TouchNow(env, s, e, p, fates(p)) == fates(p) && Spared(s.wc, wc, p);
        if p in wc.tree { ReachedIsThere(env, fates(p), p, wc0, s.wc, wc); }
      }
    }
  }

  lemma StillSound(env: Env, s: EditState, e: Edit, wc: Copy)
    requires Sound(env, s.wc) && TreeOk(wc.tree) && Does(env, s, e, wc) && KeepsAgreement(env, s, e, wc)
    ensures Sound(env, wc)
  {
    hide Touch, TouchNow, Reached;
    forall p | p in wc.db && IsFile(wc.tree, p) ensures env.md5(wc.tree[p].content) == wc.db[p] {
      if Touch(e, p, Untouched) == Untouched {
        assert SameNode(wc, s.wc, p) && SameKey(wc, s.wc, p);
      } else if exists sum :: Holds(env, wc, p, sum) {
        var sum :| Holds(env, wc, p, sum);
      }
    }
  }

  /** What one edit brings about, path by path, and what it keeps. */
  lemma EditReaches(env: Env, wc0: Copy, done: seq<Edit>, fates: Fates, s: EditState, e: Edit)
    requires s.Valid() && !env.tolerant && Sound(env, s.wc)
    requires CreateWorks(env, s.tick + Ticks(e) - 1, e)
    requires Coherent(env, s.targetRev, wc0, done, e) && AllReached(env, wc0, fates, s.wc) && AsPlanned(fates, done)
    requires RunActions(env, s, Expand(e)).1 == 0
    ensures var s' := RunActions(env, s, Expand(e)).0;
            && s'.targetRev == s.targetRev && s'.tick == s.tick + Ticks(e) && Sound(env, s'.wc)
            && forall p :: Reached(env, TouchNow(env, s, e, p, fates(p)), p, wc0, s'.wc)
  {
    hide RunActions, Coherent, CreateWorks, Expand;
    var wc := RunActions(env, s, Expand(e)).0.wc;
    match e {
      case FileEdit(_, _, _, _, _, _, _) =>
        FileEditReaches(env, wc0, done, fates, s, e);
        DoneFile(env, s, e, wc);
      case Remove(d) =>
        RemoveReaches(env, s, d);
        assert Does(env, s, e, wc) && KeepsAgreement(env, s, e, wc);
      case Directory(open, d) =>
        DirectoryReaches(env, s, open, d);
        assert Does(env, s, e, wc) && KeepsAgreement(env, s, e, wc);
    }
    ReachedNow(env, wc0, fates, s, e, wc);
    StillSound(env, s, e, wc);
  }

  lemma {:induction false} FateOfSnoc(done: seq<Edit>, e: Edit, p: Path, before: Fate)
    ensures FateOf(done + [e], p, before) == Touch(e, p, FateOf(done, p, before))
    decreases |done|
  {
    if done == [] {
      assert done + [e] == [e] && [e][1..] == [];
    } else {
      assert (done + [e])[0] == done[0] && (done + [e])[1..] == done[1..] + [e];
      FateOfSnoc(done[1..], e, p, Touch(done[0], p, before));
    }
  }

  lemma StillAsPlanned(env: Env, s: EditState, done: seq<Edit>, fates: Fates, e: Edit)
    requires AsPlanned(fates, done)
    ensures AsPlanned(p => TouchNow(env, s, e, p, fates(p)), done + [e])
  {
    var fates' := p => TouchNow(env, s, e, p, fates(p));
    forall p
      ensures fates'(p) == FateOf(done + [e], p, Untouched)
           || (fates'(p).Left? && FateOf(done + [e], p, Untouched) == Gone)
    {
      FateOfSnoc(done, e, p, Untouched);
      assert fates(p) == FateOf(done, p, Untouched) || (fates(p).Left? && FateOf(done, p, Untouched) == Gone);
    }
  }

  lemma {:induction false} RunReaches(env: Env, wc0: Copy, done: seq<Edit>, fates: Fates, s: EditState, rest: seq<Edit>)
    requires s.Valid() && !env.tolerant && Sound(env, s.wc) && CreatesWork(env, s.tick, rest)
    requires CoherentScript(env, s.targetRev, wc0, done, rest)
    requires AllReached(env, wc0, fates, s.wc) && AsPlanned(fates, done)
    requires RunEdits(env, s, rest).1 == 0
    ensures var wc := RunEdits(env, s, rest).0.wc;
            Sound(env, wc) && forall p :: Reached(env, RunFate(env, s, rest, p, fates(p)), p, wc0, wc)
    decreases |rest|
  {
    hide RunActions, Coherent, Sound, Reached, TouchNow, CreateWorks;
    if rest != [] {
      var e := rest[0];
      var fates' := p => TouchNow(env, s, e, p, fates(p));
      EditReaches(env, wc0, done, fates, s, e);
      StillAsPlanned(env, s, done, fates, e);
      var s' := RunActions(env, s, Expand(e)).0;
      RunReaches(env, wc0, done + [e], fates', s', rest[1..]);
      forall p ensures Reached(env, RunFate(env, s, rest, p, fates(p)), p, wc0, RunEdits(env, s, rest).0.wc) {
        assert RunFate(env, s, rest, p, fates(p)) == RunFate(env, s', rest[1..], p, fates'(p));
      }
    } else {
      forall p ensures Reached(env, RunFate(env, s, rest, p, fates(p)), p, wc0, s.wc) {
        assert RunFate(env, s, rest, p, fates(p)) == fates(p);
      }
    }
  }

  /** Run convergence: if every command succeeds, every path ends as the script says last, whatever
      was wrong with the local files that get a delta, and the database agrees with every file that
      exists. Only a path inside a directory whose removal failed half-way may be left as it was. */
  lemma RunConverges(env: Env, s: EditState, script: seq<Edit>)
    requires s.Valid() && !env.tolerant && Sound(env, s.wc) && CreatesWork(env, s.tick, script)
    requires CoherentScript(env, s.targetRev, s.wc, [], script)
    requires RunEdits(env, s, script).1 == 0
    ensures var wc := RunEdits(env, s, script).0.wc;
            Sound(env, wc) && forall p :: Reached(env, RunFate(env, s, script, p, Untouched), p, s.wc, wc)
  {
    var fates: Fates := p => Untouched;
    RunReaches(env, s.wc, [], fates, s, script);
    forall p ensures Reached(env, RunFate(env, s, script, p, Untouched), p, s.wc, RunEdits(env, s, script).0.wc) {
      assert Reached(env, RunFate(env, s, script, p, fates(p)), p, s.wc, RunEdits(env, s, script).0.wc);
    }
  }
}
