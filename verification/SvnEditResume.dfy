/** Running an edit script again after an interruption. */
module SvnEditResume {
  import opened Bytes
  import opened SvnEdit
  import opened SvnEditLaws
  import opened SvnEditRun

  ghost predicate NoFaults(env: Env) {
    forall t: nat :: env.faults(t) == NO_FAULTS
  }

  // ---- an edit sees nothing of the tree but its own path and the directories above ----

  /** Two working copies that look the same to an edit of p. */
  ghost predicate SameFor(a: Copy, b: Copy, p: Path) {
    SameNode(a, b, p) && (Rooted(a.tree, p) <==> Rooted(b.tree, p))
  }

  ghost predicate SameResult(a: Outcome, b: Outcome, p: Path) {
    a.res == b.res && SameNode(a.wc, b.wc, p) && (a.res == 0 ==> p in a.wc.db && SameKey(a.wc, b.wc, p))
  }

  lemma CheckoutIsLocal(env: Env, f: Faults, a: Copy, b: Copy, p: Path, rev: int, text: Option<Checksum>, code: int)
    requires SameFor(a, b, p) && code != 0
    ensures SameResult(CheckoutAndSave(env, f, a, p, rev, text, code),
                       CheckoutAndSave(env, f, b, p, rev, text, code), p)
  {
    hide Concat, Rooted;
  }

  lemma FinishIsLocal(env: Env, f: Faults, a: Copy, b: Copy, rev: int, d: FileDoc, src: Option<bytes>,
                      text: Option<Checksum>)
    requires SameFor(a, b, d.rp)
    ensures SameResult(Finish(env, f, a, rev, d, src, text), Finish(env, f, b, rev, d, src, text), d.rp)
  {
    hide BuildAll, Concat, Rooted, CheckoutAndSave;
    CheckoutIsLocal(env, f, a, b, d.rp, rev, text, 5);
  }

  lemma WithoutFile(wc: Copy, p: Path)
    ensures Rooted(wc.tree - {p}, p) <==> Rooted(wc.tree, p)
  {
    forall i | 0 <= i < |p| ensures p[..i] != p { }
  }

  lemma CloseIsLocal(env: Env, f: Faults, a: Copy, b: Copy, rev: int, d: FileDoc, token: Option<bytes>,
                     text: Option<Checksum>)
    requires SameFor(a, b, d.rp)
    ensures SameResult(CloseFile(env, f, a, rev, d, token, text), CloseFile(env, f, b, rev, d, token, text), d.rp)
  {
    hide Finish, Concat, Rooted, CheckoutAndSave;
    CheckoutIsLocal(env, f, a, b, d.rp, rev, text, 2);
    match ChooseRoute(env, f, a.tree, d, token, text) {
      case Apply(src) => FinishIsLocal(env, f, a, b, rev, d, src, text);
      case Replace =>
        WithoutFile(a, d.rp);
        WithoutFile(b, d.rp);
        FinishIsLocal(env, f, a.(tree := a.tree - {d.rp}), b.(tree := b.tree - {d.rp}), rev, d, None, text);
      case _ =>
    }
  }

  // ---- when two different local files lead to one result ----

  /** Editing p in a, and in b, without failures. */
  ghost function Edited(env: Env, rev: int, e: Edit, wc: Copy): Outcome
    requires e.FileEdit? && DeltaOf(env, e).Done?
  {
    var o := Begin(env, NO_FAULTS, wc, e);
    if o.res != 0 then o else CloseFile(env, NO_FAULTS, o.wc, rev, DocOf(env, e), e.token, Some(e.text))
  }

  /** An edit the server made for the source text src (None: the file is new) with target text t;
      the two do not have the same hash without being the same. */
  ghost predicate Makes(env: Env, rev: int, e: Edit, src: Option<bytes>, t: bytes) {
    && e.FileEdit? && DeltaOf(env, e).Done? && DeltaOf(env, e).doc.version != -1 && e.delta.Some?
    && AllWellFormed(src, DeltaOf(env, e).doc.wnd) && Patch(src, DeltaOf(env, e).doc.wnd) == t
    && env.md5(t) == e.text
    && (if src.Some? then
          && e.open && e.base == Some(env.md5(src.value)) && (env.md5(src.value) == env.md5(t) ==> src.value == t)
          && env.fetch(e.path, e.rev).Some? && Concat(env.fetch(e.path, e.rev).value) == src.value
        else !e.open && e.base == None)
  }

  ghost predicate ServerHas(env: Env, p: Path, rev: int, t: bytes) {
    env.fetch(p, rev).Some? && Concat(env.fetch(p, rev).value) == t
  }

  /** A local file from which the edit can be carried out: the source or the target; or any other text
      with another hash than these. For a new file that is thrown away; for an old one the server's
      copy is taken, so that it has to be the target, and the mode must not be tolerant. */
  ghost predicate Mendable(env: Env, rev: int, p: Path, c: bytes, src: Option<bytes>, t: bytes) {
    && (env.md5(c) == env.md5(t) ==> c == t)
    && (src.Some? && c != src.value && c != t ==>
          env.md5(c) != env.md5(src.value) && !env.tolerant && ServerHas(env, p, rev, t))
  }

  /** Where the run may have been interrupted: the file is missing, or has its source text, its target
      text, or any other, such as one that was being written. */
  ghost predicate Midway(env: Env, rev: int, wc: Copy, p: Path, src: Option<bytes>, t: bytes) {
    p in wc.tree ==> IsFile(wc.tree, p) && Mendable(env, rev, p, wc.tree[p].content, src, t)
  }

  /** From any of these states the edit ends with the target text and its checksum on record. */
  lemma MidwayIsFinished(env: Env, rev: int, e: Edit, wc: Copy, src: Option<bytes>, t: bytes)
    requires Makes(env, rev, e, src, t) && Midway(env, rev, wc, e.path, src, t) && Rooted(wc.tree, e.path)
    ensures var o := Edited(env, rev, e, wc);
            o.res == 0 && IsFile(o.wc.tree, e.path) && o.wc.tree[e.path].content == t
            && e.path in o.wc.db && o.wc.db[e.path] == e.text
  {
    var p := e.path;
    var wc1 := Begin(env, NO_FAULTS, wc, e).wc;
    var d := DocOf(env, e);
    if src.Some? {
      assert IsFile(wc1.tree, p);
      if wc1.tree[p].content == src.value {
        PatchInPlace(env, NO_FAULTS, wc1, rev, d, e.token, e.text);
      }
    } else if !IsFile(wc1.tree, p) || wc1.tree[p].content != t {
      PatchNewFile(env, NO_FAULTS, wc1, rev, d, e.token, e.text);
    }
  }

  // ---- two runs of one script ----

  /** The edit that first decides what becomes of p. */
  function FirstTouch(edits: seq<Edit>, p: Path): Option<Edit>
    decreases |edits|
  {
    if edits == [] then None
    else if Touch(edits[0], p, Untouched) != Untouched then Some(edits[0])
    else FirstTouch(edits[1..], p)
  }

  /** Something below p is edited before p itself is. */
  predicate ChildFirst(edits: seq<Edit>, p: Path)
    decreases |edits|
  {
    edits != [] && Touch(edits[0], p, Untouched) == Untouched
    && (Below(edits[0].path, p) || ChildFirst(edits[1..], p))
  }

  /** The nodes at p, if they differ, differ in a way that the first edit of p makes good. */
  ghost predicate Settled(env: Env, rev: int, a: Copy, b: Copy, edits: seq<Edit>, p: Path) {
    SameNode(a, b, p) || (!ChildFirst(edits, p) &&
      match FirstTouch(edits, p)
      case None => false
      case Some(Remove(_)) => true
      case Some(Directory(_, _)) => !IsFile(a.tree, p) && !IsFile(b.tree, p)
      case Some(e) =>
        exists src, t :: Makes(env, rev, e, src, t) && Midway(env, rev, a, p, src, t) && Midway(env, rev, b, p, src, t))
  }

  ghost predicate KeySettled(a: Copy, b: Copy, edits: seq<Edit>, p: Path) {
    SameKey(a, b, p) || exists e :: e in edits && !e.Directory? && e.path == p
  }

  /** Working copies from which the script gives one result. */
  ghost predicate Alike(env: Env, rev: int, a: Copy, b: Copy, edits: seq<Edit>) {
    forall p :: Settled(env, rev, a, b, edits, p) && KeySettled(a, b, edits, p)
  }

  /** Two runs at the same point of one script. */
  ghost predicate Parallel(env: Env, s: EditState, s': EditState, edits: seq<Edit>) {
    && s.Valid() && s'.Valid() && s.targetRev == s'.targetRev
    && TreeOk(s.wc.tree) && TreeOk(s'.wc.tree) && Alike(env, s.targetRev, s.wc, s'.wc, edits)
  }

  lemma BelowPrefix(p: Path, i: nat)
    requires i < |p| && p[i] == SLASH
    ensures Below(p, p[..i])
  {
    assert p[..i] + [SLASH] == p[..i + 1];
  }

  lemma SameAncestors(env: Env, rev: int, a: Copy, b: Copy, edits: seq<Edit>)
    requires edits != [] && !edits[0].Remove? && Alike(env, rev, a, b, edits)
    ensures Rooted(a.tree, edits[0].path) <==> Rooted(b.tree, edits[0].path)
  {
    var p := edits[0].path;
    forall i | 0 <= i < |p| && p[i] == SLASH ensures SameNode(a, b, p[..i]) {
      BelowPrefix(p, i);
      assert Settled(env, rev, a, b, edits, p[..i]);
    }
  }

  lemma FileEditWithoutFaults(env: Env, s: EditState, e: Edit)
    requires s.Valid() && e.FileEdit? && NoFaults(env) && TreeOk(s.wc.tree)
    ensures var (s', res) := RunActions(env, s, Expand(e));
            (res == 0 <==> DeltaOf(env, e).Done? && Edited(env, s.targetRev, e, s.wc).res == 0)
            && (res == 0 ==> s'.wc == Edited(env, s.targetRev, e, s.wc).wc && s'.targetRev == s.targetRev
                             && TreeOk(s'.wc.tree) && SameElsewhere(s'.wc, s.wc, e.path))
  {
    FileEditIs(env, s, e);
    assert env.faults(s.tick) == NO_FAULTS && env.faults(s.tick + Ticks(e) - 1) == NO_FAULTS;
    if DeltaOf(env, e).Done? {
      var begun := Begin(env, NO_FAULTS, s.wc, e).wc;
      BeginTouchesOnlyItsFile(env, NO_FAULTS, s.wc, e);
      CloseTouchesOnlyItsFile(env, NO_FAULTS, begun, s.targetRev, DocOf(env, e), e.token, Some(e.text));
      CloseKeepsTree(env, NO_FAULTS, begun, s.targetRev, DocOf(env, e), e.token, Some(e.text));
      SameElsewhereTrans(Edited(env, s.targetRev, e, s.wc).wc, begun, s.wc, e.path);
    }
  }

  lemma BeginIsLocal(env: Env, a: Copy, b: Copy, e: Edit)
    requires e.FileEdit? && SameFor(a, b, e.path)
    ensures var o, o' := Begin(env, NO_FAULTS, a, e), Begin(env, NO_FAULTS, b, e);
            o.res == o'.res && (o.res == 0 ==> SameFor(o.wc, o'.wc, e.path))
  {
    var p := e.path;
    forall i | 0 <= i < |p| ensures p[..i] != p { }
  }

  /** A file edit ends alike in both runs, and in either if it does in one. */
  lemma FileEditsAgree(env: Env, rev: int, a: Copy, b: Copy, edits: seq<Edit>)
    requires edits != [] && edits[0].FileEdit? && DeltaOf(env, edits[0]).Done?
    requires TreeOk(a.tree) && TreeOk(b.tree) && Alike(env, rev, a, b, edits)
    requires Edited(env, rev, edits[0], a).res == 0
    ensures SameResult(Edited(env, rev, edits[0], a), Edited(env, rev, edits[0], b), edits[0].path)
  {
    var e := edits[0];
    var p := e.path;
    SameAncestors(env, rev, a, b, edits);
    if SameNode(a, b, p) {
      BeginIsLocal(env, a, b, e);
      CloseIsLocal(env, NO_FAULTS, Begin(env, NO_FAULTS, a, e).wc, Begin(env, NO_FAULTS, b, e).wc, rev,
                   DocOf(env, e), e.token, Some(e.text));
    } else {
      assert Settled(env, rev, a, b, edits, p) && FirstTouch(edits, p) == Some(e);
      var src, t :| Makes(env, rev, e, src, t) && Midway(env, rev, a, p, src, t) && Midway(env, rev, b, p, src, t);
      assert p in a.tree ==> Rooted(a.tree, p);
      assert p in b.tree ==> Rooted(b.tree, p);
      MidwayIsFinished(env, rev, e, a, src, t);
      MidwayIsFinished(env, rev, e, b, src, t);
    }
  }

  /** After the first edit the two runs are still alike, where it left both paths alone or the same. */
  lemma StillAlike(env: Env, rev: int, a: Copy, b: Copy, a': Copy, b': Copy, edits: seq<Edit>)
    requires edits != [] && Alike(env, rev, a, b, edits)
    requires forall p :: if Touch(edits[0], p, Untouched) == Untouched then SameNode(a', a, p) && SameNode(b', b, p)
                         else SameNode(a', b', p)
    requires forall p :: SameKey(a', b', p) || (SameKey(a', a, p) && SameKey(b', b, p)
                                                && (edits[0].Directory? || edits[0].path != p))
    ensures Alike(env, rev, a', b', edits[1..])
  {
    forall p ensures Settled(env, rev, a', b', edits[1..], p) && KeySettled(a', b', edits[1..], p) {
      assert Settled(env, rev, a, b, edits, p) && KeySettled(a, b, edits, p);
      assert SameKey(a', b', p)
          || (SameKey(a', a, p) && SameKey(b', b, p) && (edits[0].Directory? || edits[0].path != p));
      if !SameKey(a', b', p) && !SameKey(a, b, p) {
        var e :| e in edits && !e.Directory? && e.path == p;
        assert e in edits[1..];
      }
      if Touch(edits[0], p, Untouched) == Untouched && !SameNode(a', b', p) {
        assert SameNode(a', a, p) && SameNode(b', b, p);
        assert FirstTouch(edits[1..], p) == FirstTouch(edits, p);
      }
    }
  }

  lemma EditKeepsParallel(env: Env, s: EditState, s': EditState, edits: seq<Edit>)
    requires edits != [] && NoFaults(env) && Parallel(env, s, s', edits)
    requires RunActions(env, s, Expand(edits[0])).1 == 0
    ensures var (r, r') := (RunActions(env, s, Expand(edits[0])), RunActions(env, s', Expand(edits[0])));
            r'.1 == 0 && Parallel(env, r.0, r'.0, edits[1..])
  {
    var e := edits[0];
    var (r, r') := (RunActions(env, s, Expand(e)), RunActions(env, s', Expand(e)));
    assert env.faults(s.tick) == NO_FAULTS && env.faults(s'.tick) == NO_FAULTS;
    match e {
      case FileEdit(_, _, _, _, _, _, _) =>
        FileEditWithoutFaults(env, s, e);
        FileEditWithoutFaults(env, s', e);
        FileEditsAgree(env, s.targetRev, s.wc, s'.wc, edits);
      case Remove(d) =>
        One(env, s, Delete(d));
        One(env, s', Delete(d));
        RemoveReaches(env, s, d);
        RemoveReaches(env, s', d);
      case Directory(open, d) =>
        One(env, s, First(e));
        One(env, s', First(e));
        SameAncestors(env, s.targetRev, s.wc, s'.wc, edits);
        assert Settled(env, s.targetRev, s.wc, s'.wc, edits, d);
        assert d in s.wc.tree ==> Rooted(s.wc.tree, d);
        assert r'.1 == 0;
        DirectoryReaches(env, s, open, d);
        DirectoryReaches(env, s', open, d);
    }
    StillAlike(env, s.targetRev, s.wc, s'.wc, r.0.wc, r'.0.wc, edits);
  }

  lemma SameMaps(a: Copy, b: Copy)
    requires forall p :: SameNode(a, b, p) && SameKey(a, b, p)
    ensures a.tree == b.tree && a.db == b.db
  {
    forall p ensures p in a.tree <==> p in b.tree { assert SameNode(a, b, p); }
    forall p | p in a.tree ensures a.tree[p] == b.tree[p] { assert SameNode(a, b, p); }
    forall p ensures p in a.db <==> p in b.db { assert SameKey(a, b, p); }
    forall p | p in a.db ensures a.db[p] == b.db[p] { assert SameKey(a, b, p); }
  }

  /** Resumption: over a working copy in which any files are old, new, missing or anything else,
      directories are made or not, and deletions are done or not, the script succeeds when it does
      on the original, and ends with the same files and the same database. */
  lemma {:induction false} ResumedRunAgrees(env: Env, s: EditState, s': EditState, script: seq<Edit>)
    requires NoFaults(env) && Parallel(env, s, s', script)
    requires RunEdits(env, s, script).1 == 0
    ensures var (r, r') := (RunEdits(env, s, script), RunEdits(env, s', script));
            r'.1 == 0 && r'.0.wc.tree == r.0.wc.tree && r'.0.wc.db == r.0.wc.db
    decreases |script|
  {
    if script == [] {
      forall p ensures SameNode(s.wc, s'.wc, p) && SameKey(s.wc, s'.wc, p) {
        assert Settled(env, s.targetRev, s.wc, s'.wc, script, p) && KeySettled(s.wc, s'.wc, script, p);
      }
      SameMaps(s.wc, s'.wc);
    } else {
      EditKeepsParallel(env, s, s', script);
      var acts := Expand(script[0]);
      ResumedRunAgrees(env, RunActions(env, s, acts).0, RunActions(env, s', acts).0, script[1..]);
    }
  }

  // ---- a run that was interrupted ----

  /** The order in which a server sends edits: nothing below a path before the path itself, and a path
      is not touched again unless it was removed. */
  ghost predicate Orderly(edits: seq<Edit>) {
    forall i, j | 0 <= i < j < |edits| ::
      && !Below(edits[i].path, edits[j].path)
      && (edits[i].Remove? || Touch(edits[j], edits[i].path, Untouched) == Untouched)
  }

  /** The server made the edit for the file that is there, or the edit has no delta and announces it. */
  ghost predicate MadeHere(env: Env, rev: int, wc: Copy, e: Edit)
    requires e.FileEdit?
  {
    if e.delta.Some? then exists src, t :: Makes(env, rev, e, src, t) && Midway(env, rev, wc, e.path, src, t)
    else IsFile(wc.tree, e.path) && env.md5(wc.tree[e.path].content) == e.text
  }

  /** So it is where a file edit is the first to touch its path. */
  ghost predicate MadeFor(env: Env, rev: int, wc: Copy, edits: seq<Edit>) {
    forall e | e in edits && e.FileEdit? && FirstTouch(edits, e.path) == Some(e) :: MadeHere(env, rev, wc, e)
  }

  /** None of the first k edits touches p. */
  ghost predicate Quiet(edits: seq<Edit>, k: nat, p: Path)
    requires k <= |edits|
  {
    forall i | 0 <= i < k :: Touch(edits[i], p, Untouched) == Untouched
  }

  /** The working copy a after the first k edits: b differs in nothing that the script does not mend. */
  ghost predicate Interim(env: Env, rev: int, a: Copy, b: Copy, edits: seq<Edit>, k: nat)
    requires k <= |edits|
  {
    Alike(env, rev, a, b, edits) && forall p | Quiet(edits, k, p) :: SameNode(a, b, p)
  }

  lemma {:induction false} FirstTouchAt(edits: seq<Edit>, p: Path) returns (j: nat)
    ensures j <= |edits| && Quiet(edits, j, p)
    ensures if j == |edits| then FirstTouch(edits, p) == None
            else FirstTouch(edits, p) == Some(edits[j]) && Touch(edits[j], p, Untouched) != Untouched
    decreases |edits|
  {
    hide Touch;
    j := 0;
    if edits != [] && Touch(edits[0], p, Untouched) == Untouched {
      j := FirstTouchAt(edits[1..], p);
      forall i | 0 <= i < j + 1 ensures Touch(edits[i], p, Untouched) == Untouched {
        if i > 0 { assert edits[i] == edits[1..][i - 1]; }
      }
      j := j + 1;
    }
  }

  lemma {:induction false} ChildFirstAt(edits: seq<Edit>, p: Path) returns (i: nat)
    requires ChildFirst(edits, p)
    ensures i < |edits| && Below(edits[i].path, p) && Quiet(edits, i + 1, p)
    decreases |edits|
  {
    hide Touch, Below;
    i := 0;
    if !Below(edits[0].path, p) {
      i := ChildFirstAt(edits[1..], p);
      forall m | 0 <= m < i + 2 ensures Touch(edits[m], p, Untouched) == Untouched {
        if m > 0 { assert edits[m] == edits[1..][m - 1]; }
      }
      i := i + 1;
    }
  }

  lemma NoChildFirst(edits: seq<Edit>, p: Path, j: nat)
    requires Orderly(edits) && j < |edits| && Touch(edits[j], p, Untouched) != Untouched
    ensures !ChildFirst(edits, p)
  {
    if ChildFirst(edits, p) {
      var i := ChildFirstAt(edits, p);
      assert Within(p, edits[j].path);
      BelowTrans(edits[i].path, p, edits[j].path);
      assert false;
    }
  }

  /** The edit that comes next, when it is the first to touch p. */
  lemma FirstTouchSettles(env: Env, a: Copy, s: EditState, edits: seq<Edit>, k: nat, p: Path)
    requires k < |edits| && Orderly(edits) && NoFaults(env) && s.Valid() && TreeOk(s.wc.tree)
    requires MadeFor(env, s.targetRev, a, edits) && SameNode(a, s.wc, p)
    requires FirstTouch(edits, p) == Some(edits[k]) && Touch(edits[k], p, Untouched) != Untouched
    requires RunActions(env, s, Expand(edits[k])).1 == 0
    ensures Settled(env, s.targetRev, a, RunActions(env, s, Expand(edits[k])).0.wc, edits, p)
  {
    hide RunActions, Touch, Makes, Expand;
    var e, b := edits[k], RunActions(env, s, Expand(edits[k])).0.wc;
    NoChildFirst(edits, p, k);
    match e {
      case FileEdit(_, _, _, _, _, _, _) =>
        assert p == e.path by { FileTouch(e, p); }
        assert e in edits;
        if e.delta.Some? { FileSettles(env, a, s, e); } else { PropertyKeeps(env, s, e); }
      case Remove(_) =>
      case Directory(open, d) =>
        assert p == d by { FileTouch(e, p); }
        DirectoryReaches(env, s, open, d);
        DirectoryWasNoFile(env, s, open, d);
    }
  }

  lemma FileTouch(e: Edit, p: Path)
    requires !e.Remove? && Touch(e, p, Untouched) != Untouched
    ensures p == e.path
  {
  }

  lemma DirectoryWasNoFile(env: Env, s: EditState, open: bool, d: Path)
    requires s.Valid() && RunActions(env, s, Expand(Directory(open, d))).1 == 0
    ensures !IsFile(s.wc.tree, d)
  {
    One(env, s, First(Directory(open, d)));
  }

  lemma NothingUnrooted(a: Copy, b: Copy, p: Path)
    requires SameElsewhere(b, a, p) && !Rooted(a.tree, p) && TreeOk(b.tree)
    ensures p !in b.tree
  {
    var i :| 0 <= i < |p| && p[i] == SLASH && !IsDir(a.tree, p[..i]);
    assert p[..i] != p && SameNode(b, a, p[..i]);
  }

  lemma FileSettles(env: Env, a: Copy, s: EditState, e: Edit)
    requires NoFaults(env) && s.Valid() && TreeOk(s.wc.tree) && e.FileEdit? && e.delta.Some?
    requires MadeHere(env, s.targetRev, a, e) && SameNode(a, s.wc, e.path)
    requires RunActions(env, s, Expand(e)).1 == 0
    ensures var b := RunActions(env, s, Expand(e)).0.wc;
            exists src, t :: && Makes(env, s.targetRev, e, src, t) && Midway(env, s.targetRev, a, e.path, src, t)
                             && Midway(env, s.targetRev, b, e.path, src, t)
  {
    hide RunActions, Makes, Expand;
    var p, rev, b := e.path, s.targetRev, RunActions(env, s, Expand(e)).0.wc;
    var src, t :| Makes(env, rev, e, src, t) && Midway(env, rev, a, p, src, t);
    FileEditWithoutFaults(env, s, e);
    if Rooted(s.wc.tree, p) {
      assert e.FileEdit? && DeltaOf(env, e).Done?;
      MidwayIsFinished(env, rev, e, s.wc, src, t);
      TargetIsMidway(env, rev, e, src, t);
    } else {
      NothingUnrooted(s.wc, b, p);
    }
    assert Makes(env, rev, e, src, t) && Midway(env, rev, a, p, src, t) && Midway(env, rev, b, p, src, t);
  }

  lemma TargetIsMidway(env: Env, rev: int, e: Edit, src: Option<bytes>, t: bytes)
    requires Makes(env, rev, e, src, t)
    ensures Mendable(env, rev, e.path, t, src, t)
  {
  }

  /** A property-only edit of the file it announces accepts it as it is. */
  lemma PropertyIsAccepted(env: Env, rev: int, e: Edit, wc: Copy)
    requires e.FileEdit? && e.delta == None && IsFile(wc.tree, e.path) && env.md5(wc.tree[e.path].content) == e.text
    ensures Edited(env, rev, e, wc) == Outcome(wc.(db := wc.db[e.path := e.text]), 0)
  {
  }

  lemma PropertyKeeps(env: Env, s: EditState, e: Edit)
    requires NoFaults(env) && s.Valid() && TreeOk(s.wc.tree) && e.FileEdit? && e.delta == None
    requires IsFile(s.wc.tree, e.path) && env.md5(s.wc.tree[e.path].content) == e.text
    requires RunActions(env, s, Expand(e)).1 == 0
    ensures SameNode(s.wc, RunActions(env, s, Expand(e)).0.wc, e.path)
  {
    hide RunActions, Expand;
    FileEditWithoutFaults(env, s, e);
    PropertyIsAccepted(env, s.targetRev, e, s.wc);
  }

  /** What one edit leaves alone. */
  lemma EditSpares(env: Env, s: EditState, e: Edit)
    requires NoFaults(env) && s.Valid() && TreeOk(s.wc.tree) && RunActions(env, s, Expand(e)).1 == 0
    ensures var s' := RunActions(env, s, Expand(e)).0;
            && s'.targetRev == s.targetRev && TreeOk(s'.wc.tree)
            && (forall p | Touch(e, p, Untouched) == Untouched :: SameNode(s'.wc, s.wc, p))
            && (forall p | p != e.path || e.Directory? :: SameKey(s'.wc, s.wc, p))
  {
    hide RunActions, Expand;
    match e {
      case FileEdit(_, _, _, _, _, _, _) => FileEditWithoutFaults(env, s, e);
      case Remove(d) => RemoveReaches(env, s, d);
      case Directory(open, d) => DirectoryReaches(env, s, open, d);
    }
  }

  lemma InterimStep(env: Env, a: Copy, s: EditState, edits: seq<Edit>, k: nat)
    requires k < |edits| && Orderly(edits) && NoFaults(env) && s.Valid() && TreeOk(s.wc.tree)
    requires MadeFor(env, s.targetRev, a, edits) && Interim(env, s.targetRev, a, s.wc, edits, k)
    requires RunActions(env, s, Expand(edits[k])).1 == 0
    ensures var s' := RunActions(env, s, Expand(edits[k])).0;
            && s'.targetRev == s.targetRev && TreeOk(s'.wc.tree)
            && Interim(env, s.targetRev, a, s'.wc, edits, k + 1)
  {
    hide RunActions, Touch, Makes, Expand, MadeFor;
    var e, rev, b := edits[k], s.targetRev, RunActions(env, s, Expand(edits[k])).0.wc;
    EditSpares(env, s, e);
    forall p ensures Settled(env, rev, a, b, edits, p) && KeySettled(a, b, edits, p) {
      assert Settled(env, rev, a, s.wc, edits, p) && KeySettled(a, s.wc, edits, p);
      if p == e.path && !e.Directory? {
        assert e in edits;
      } else {
        assert SameKey(b, s.wc, p);
      }
      if Touch(e, p, Untouched) == Untouched {
        assert SameNode(b, s.wc, p);
      } else {
        PathSettles(env, a, s, edits, k, p);
      }
    }
    forall p | Quiet(edits, k + 1, p) ensures SameNode(a, b, p) {
      assert Quiet(edits, k, p) && Touch(edits[k], p, Untouched) == Untouched;
    }
  }

  lemma PathSettles(env: Env, a: Copy, s: EditState, edits: seq<Edit>, k: nat, p: Path)
    requires k < |edits| && Orderly(edits) && NoFaults(env) && s.Valid() && TreeOk(s.wc.tree)
    requires MadeFor(env, s.targetRev, a, edits) && Interim(env, s.targetRev, a, s.wc, edits, k)
    requires Touch(edits[k], p, Untouched) != Untouched && RunActions(env, s, Expand(edits[k])).1 == 0
    ensures Settled(env, s.targetRev, a, RunActions(env, s, Expand(edits[k])).0.wc, edits, p)
  {
    hide RunActions, Touch, Makes, Expand, MadeFor, Alike;
    var j := FirstTouchAt(edits, p);
    if j < k {
      NoChildFirst(edits, p, j);
      if !edits[j].Remove? { FileTouch(edits[j], p); }
    } else if j == k {
      FirstTouchSettles(env, a, s, edits, k, p);
    }
  }

  /** From the k-th edit to the n-th. */
  lemma {:induction false} InterimRun(env: Env, a: Copy, s: EditState, edits: seq<Edit>, k: nat, n: nat)
    requires k <= n <= |edits| && Orderly(edits) && NoFaults(env) && s.Valid() && TreeOk(s.wc.tree)
    requires MadeFor(env, s.targetRev, a, edits) && Interim(env, s.targetRev, a, s.wc, edits, k)
    requires RunEdits(env, s, edits[k..]).1 == 0
    ensures var (s', res) := RunEdits(env, s, edits[k..n]);
            && res == 0 && s'.targetRev == s.targetRev && TreeOk(s'.wc.tree)
            && Interim(env, s.targetRev, a, s'.wc, edits, n)
    decreases n - k
  {
    hide RunActions, Interim, Orderly, MadeFor, Expand;
    if k < n {
      assert edits[k..][0] == edits[k] == edits[k..n][0];
      assert edits[k..][1..] == edits[k + 1..] && edits[k..n][1..] == edits[k + 1..n];
      InterimStep(env, a, s, edits, k);
      InterimRun(env, a, RunActions(env, s, Expand(edits[k])).0, edits, k + 1, n);
    } else {
      assert edits[k..n] == [];
    }
  }

  /** What an interruption in the middle of an edit may leave of the working copy a that the edit found:
      of a file edit its file may be missing, or hold any text that does not share its hash with the
      source or the target, with any checksum on record; of a removal any part may be done. */
  ghost predicate Partway(env: Env, rev: int, a: Copy, e: Edit, b: Copy) {
    match e
    case FileEdit(_, p, _, _, _, delta, _) =>
      SameElsewhere(b, a, p) && (SameNode(b, a, p) || (delta.Some? && CutShort(env, rev, e, b)))
    case Remove(d) =>
      && (forall p | p != d :: SameKey(b, a, p))
      && (forall p :: SameNode(b, a, p) || (p !in b.tree && Within(p, d)))
    case Directory(_, _) => b == a
  }

  ghost predicate CutShort(env: Env, rev: int, e: Edit, b: Copy)
    requires e.FileEdit?
  {
    e.path in b.tree ==> IsFile(b.tree, e.path) && forall src, t | Makes(env, rev, e, src, t) ::
      Mendable(env, rev, e.path, b.tree[e.path].content, src, t)
  }

  lemma PartwaySpares(env: Env, rev: int, a: Copy, e: Edit, b: Copy)
    requires Partway(env, rev, a, e, b)
    ensures forall p | Touch(e, p, Untouched) == Untouched :: SameNode(b, a, p)
    ensures forall p | p != e.path || e.Directory? :: SameKey(b, a, p)
  {
    forall p | Touch(e, p, Untouched) == Untouched ensures SameNode(b, a, p) {
      assert e.FileEdit? ==> p != e.path;
    }
  }

  /** The path that the interrupted edit is the first to touch. */
  lemma PartwaySettles(env: Env, rev: int, a: Copy, now: Copy, edits: seq<Edit>, k: nat, b: Copy, p: Path)
    requires k < |edits| && Orderly(edits) && MadeFor(env, rev, a, edits) && SameNode(a, now, p)
    requires FirstTouch(edits, p) == Some(edits[k]) && Touch(edits[k], p, Untouched) != Untouched
    requires Partway(env, rev, now, edits[k], b)
    ensures Settled(env, rev, a, b, edits, p)
  {
    hide Touch, Makes, Mendable, ChildFirst;
    var e := edits[k];
    NoChildFirst(edits, p, k);
    if !e.Remove? { FileTouch(e, p); }
    if e.FileEdit? && !SameNode(b, now, p) {
      assert e in edits && MadeHere(env, rev, a, e);
      var src, t :| Makes(env, rev, e, src, t) && Midway(env, rev, a, p, src, t);
      assert Midway(env, rev, b, p, src, t);
    }
  }

  lemma PartwayIsAlike(env: Env, rev: int, a: Copy, now: Copy, edits: seq<Edit>, k: nat, b: Copy)
    requires k < |edits| && Orderly(edits) && MadeFor(env, rev, a, edits)
    requires Interim(env, rev, a, now, edits, k) && Partway(env, rev, now, edits[k], b)
    ensures Alike(env, rev, a, b, edits)
  {
    hide Touch, Makes, MadeFor, Partway, Orderly;
    var e := edits[k];
    PartwaySpares(env, rev, now, e, b);
    forall p ensures Settled(env, rev, a, b, edits, p) && KeySettled(a, b, edits, p) {
      assert Settled(env, rev, a, now, edits, p) && KeySettled(a, now, edits, p);
      if p == e.path && !e.Directory? {
        assert e in edits;
      } else {
        assert SameKey(b, now, p);
      }
      if Touch(e, p, Untouched) == Untouched {
        assert SameNode(b, now, p);
      } else {
        PartwayPath(env, rev, a, now, edits, k, b, p);
      }
    }
  }

  lemma PartwayPath(env: Env, rev: int, a: Copy, now: Copy, edits: seq<Edit>, k: nat, b: Copy, p: Path)
    requires k < |edits| && Orderly(edits) && MadeFor(env, rev, a, edits)
    requires Interim(env, rev, a, now, edits, k) && Partway(env, rev, now, edits[k], b)
    requires Touch(edits[k], p, Untouched) != Untouched
    ensures Settled(env, rev, a, b, edits, p)
  {
    hide Touch, Makes, MadeFor, Alike, Partway;
    var j := FirstTouchAt(edits, p);
    if j < k {
      NoChildFirst(edits, p, j);
      if !edits[j].Remove? { FileTouch(edits[j], p); }
    } else if j == k {
      PartwaySettles(env, rev, a, now, edits, k, b, p);
    }
  }

  /** After an interruption at any point, between two edits or in the middle of one, running the whole
      script again ends as the run that was not interrupted. */
  lemma InterruptedRunAgrees(env: Env, s: EditState, s': EditState, script: seq<Edit>, n: nat)
    requires n <= |script| && Orderly(script) && NoFaults(env) && s.Valid() && s'.Valid() && TreeOk(s.wc.tree)
    requires MadeFor(env, s.targetRev, s.wc, script) && RunEdits(env, s, script).1 == 0
    requires s'.targetRev == s.targetRev && TreeOk(s'.wc.tree)
    requires var now := RunEdits(env, s, script[..n]).0.wc;
             s'.wc == now || (n < |script| && Partway(env, s.targetRev, now, script[n], s'.wc))
    ensures var (r, r') := (RunEdits(env, s, script), RunEdits(env, s', script));
            r'.1 == 0 && r'.0.wc.tree == r.0.wc.tree && r'.0.wc.db == r.0.wc.db
  {
    hide RunActions, RunEdits, Orderly, MadeFor, Partway;
    forall p ensures Settled(env, s.targetRev, s.wc, s.wc, script, p) && KeySettled(s.wc, s.wc, script, p) {
      assert SameNode(s.wc, s.wc, p) && SameKey(s.wc, s.wc, p);
    }
    assert script[0..] == script && script[0..n] == script[..n];
    InterimRun(env, s.wc, s, script, 0, n);
    var now := RunEdits(env, s, script[..n]).0.wc;
    if s'.wc != now { PartwayIsAlike(env, s.targetRev, s.wc, now, script, n, s'.wc); }
    ResumedRunAgrees(env, s, s', script);
  }

  // ---- files cut short ----

  /** The text c has another hash than the source and the target, or is one of them. */
  ghost predicate HashesApart(env: Env, c: bytes, src: Option<bytes>, t: bytes) {
    (env.md5(c) == env.md5(t) ==> c == t) && (src.Some? && env.md5(c) == env.md5(src.value) ==> c == src.value)
  }

  /** An old file cut between two writes of its target, or between any two bytes, before it was cut to
      its new length: the next run takes the server's copy. */
  lemma CutOldFileIsFinished(env: Env, rev: int, e: Edit, wc: Copy, src: bytes, t: bytes, k: nat)
    requires Makes(env, rev, e, Some(src), t) && Rooted(wc.tree, e.path) && k <= |t|
    requires e.path in wc.tree && wc.tree[e.path] == File(Overlaid(src, t[..k]))
    requires HashesApart(env, Overlaid(src, t[..k]), Some(src), t) && !env.tolerant && ServerHas(env, e.path, rev, t)
    ensures var o := Edited(env, rev, e, wc);
            o.res == 0 && IsFile(o.wc.tree, e.path) && o.wc.tree[e.path].content == t
            && e.path in o.wc.db && o.wc.db[e.path] == e.text
  {
    MidwayIsFinished(env, rev, e, wc, Some(src), t);
  }

  /** An old file of which the server's copy, of either revision, was being written: the same. */
  lemma CutCopyIsFinished(env: Env, rev: int, e: Edit, wc: Copy, src: bytes, t: bytes, full: bytes, k: nat)
    requires Makes(env, rev, e, Some(src), t) && Rooted(wc.tree, e.path) && full in {src, t} && k <= |full|
    requires e.path in wc.tree && wc.tree[e.path] == File(full[..k])
    requires HashesApart(env, full[..k], Some(src), t) && !env.tolerant && ServerHas(env, e.path, rev, t)
    ensures var o := Edited(env, rev, e, wc);
            o.res == 0 && IsFile(o.wc.tree, e.path) && o.wc.tree[e.path].content == t
            && e.path in o.wc.db && o.wc.db[e.path] == e.text
  {
    MidwayIsFinished(env, rev, e, wc, Some(src), t);
  }

  /** A new file of which a part was written: it is unlinked and built again. */
  lemma CutNewFileIsFinished(env: Env, rev: int, e: Edit, wc: Copy, t: bytes, k: nat)
    requires Makes(env, rev, e, None, t) && Rooted(wc.tree, e.path) && k <= |t|
    requires e.path in wc.tree && wc.tree[e.path] == File(t[..k]) && HashesApart(env, t[..k], None, t)
    ensures var o := Edited(env, rev, e, wc);
            o.res == 0 && IsFile(o.wc.tree, e.path) && o.wc.tree[e.path].content == t
            && e.path in o.wc.db && o.wc.db[e.path] == e.text
  {
    MidwayIsFinished(env, rev, e, wc, None, t);
  }

  // ---- and a run that is not interrupted succeeds ----

  /** By the script so far, what the edit needs is in its place: its directories, no file where it makes
      a directory, and for a file edit the file that it was made for. */
  ghost predicate Placed(env: Env, rev: int, wc0: Copy, done: seq<Edit>, e: Edit) {
    e.Remove? || (RootedByScript(wc0, done, e.path) &&
      var fate := FateOf(done, e.path, Untouched);
      match e
      case Directory(_, p) => fate in {Made, Gone} || (fate == Untouched && !IsFile(wc0.tree, p))
      case FileEdit(open, p, _, r, _, delta, text) =>
        if delta.Some? then
          || (fate == Untouched && MadeHere(env, rev, wc0, e))
          || (fate == Gone && exists src, t :: Makes(env, rev, e, src, t))
        else
          || fate == Target(text)
          || (fate == Untouched && MadeHere(env, rev, wc0, e))
          || (fate == Untouched && open && p !in wc0.tree && env.fetch(p, r).Some? && Serves(env, p, r, text)))
  }

  ghost predicate PlacedScript(env: Env, rev: int, wc0: Copy, done: seq<Edit>, rest: seq<Edit>)
    decreases |rest|
  {
    rest == [] || (Placed(env, rev, wc0, done, rest[0]) && PlacedScript(env, rev, wc0, done + [rest[0]], rest[1..]))
  }

  /** So far the run has done just what the script says. */
  ghost predicate AllDone(env: Env, wc0: Copy, done: seq<Edit>, wc: Copy) {
    forall p :: Reached(env, FateOf(done, p, Untouched), p, wc0, wc)
  }

  lemma RootedSoFar(env: Env, wc0: Copy, done: seq<Edit>, wc: Copy, p: Path)
    requires AllDone(env, wc0, done, wc) && RootedByScript(wc0, done, p)
    ensures Rooted(wc.tree, p)
  {
    forall i | 0 <= i < |p| && p[i] == SLASH ensures IsDir(wc.tree, p[..i]) {
      assert Reached(env, FateOf(done, p[..i], Untouched), p[..i], wc0, wc);
    }
  }

  lemma FetchedIsAccepted(env: Env, rev: int, e: Edit, wc: Copy)
    requires e.FileEdit? && e.delta == None && e.open && e.path !in wc.tree && Rooted(wc.tree, e.path)
    requires env.fetch(e.path, e.rev).Some? && Serves(env, e.path, e.rev, e.text)
    ensures Edited(env, rev, e, wc).res == 0
  {
  }

  lemma FileEditSucceeds(env: Env, wc0: Copy, done: seq<Edit>, s: EditState, e: Edit)
    requires NoFaults(env) && s.Valid() && TreeOk(s.wc.tree) && e.FileEdit?
    requires AllDone(env, wc0, done, s.wc) && Placed(env, s.targetRev, wc0, done, e)
    ensures RunActions(env, s, Expand(e)).1 == 0
  {
    hide RunActions, Expand, Makes;
    var p, rev := e.path, s.targetRev;
    RootedSoFar(env, wc0, done, s.wc, p);
    assert Reached(env, FateOf(done, p, Untouched), p, wc0, s.wc);
    FileEditWithoutFaults(env, s, e);
    if e.delta.Some? {
      if FateOf(done, p, Untouched) == Gone {
        var src, t :| Makes(env, rev, e, src, t);
        MakesIsParsed(env, rev, e, src, t);
        MidwayIsFinished(env, rev, e, s.wc, src, t);
      } else {
        var src, t :| Makes(env, rev, e, src, t) && Midway(env, rev, wc0, p, src, t);
        MakesIsParsed(env, rev, e, src, t);
        MidwayIsFinished(env, rev, e, s.wc, src, t);
      }
    } else if IsFile(s.wc.tree, p) {
      PropertyIsAccepted(env, rev, e, s.wc);
    } else {
      FetchedIsAccepted(env, rev, e, s.wc);
    }
  }

  lemma MakesIsParsed(env: Env, rev: int, e: Edit, src: Option<bytes>, t: bytes)
    requires Makes(env, rev, e, src, t)
    ensures DeltaOf(env, e).Done?
  {
  }

  lemma EditSucceeds(env: Env, wc0: Copy, done: seq<Edit>, s: EditState, e: Edit)
    requires NoFaults(env) && s.Valid() && TreeOk(s.wc.tree)
    requires AllDone(env, wc0, done, s.wc) && Placed(env, s.targetRev, wc0, done, e)
    ensures RunActions(env, s, Expand(e)).1 == 0
  {
    hide FateOf;
    assert env.faults(s.tick) == NO_FAULTS;
    match e {
      case FileEdit(_, _, _, _, _, _, _) => FileEditSucceeds(env, wc0, done, s, e);
      case Remove(d) => One(env, s, Delete(d));
      case Directory(open, d) =>
        One(env, s, First(e));
        RootedSoFar(env, wc0, done, s.wc, d);
        assert Reached(env, FateOf(done, d, Untouched), d, wc0, s.wc);
    }
  }

  lemma {:induction false} RestSucceeds(env: Env, wc0: Copy, done: seq<Edit>, s: EditState, rest: seq<Edit>)
    requires NoFaults(env) && !env.tolerant && s.Valid() && Sound(env, s.wc) && AllDone(env, wc0, done, s.wc)
    requires CoherentScript(env, s.targetRev, wc0, done, rest) && PlacedScript(env, s.targetRev, wc0, done, rest)
    ensures var (s', res) := RunEdits(env, s, rest);
            res == 0 && Sound(env, s'.wc) && AllDone(env, wc0, done + rest, s'.wc)
    decreases |rest|
  {
    hide RunActions, Coherent, Placed, Reached, CreateWorks, Expand;
    if rest == [] {
      assert done + rest == done;
    } else {
      var e := rest[0];
      EditSucceeds(env, wc0, done, s, e);
      StepDone(env, wc0, done, s, e);
      RestSucceeds(env, wc0, done + [e], RunActions(env, s, Expand(e)).0, rest[1..]);
      assert done + [e] + rest[1..] == done + rest;
    }
  }

  lemma StepDone(env: Env, wc0: Copy, done: seq<Edit>, s: EditState, e: Edit)
    requires NoFaults(env) && !env.tolerant && s.Valid() && Sound(env, s.wc) && AllDone(env, wc0, done, s.wc)
    requires Coherent(env, s.targetRev, wc0, done, e) && RunActions(env, s, Expand(e)).1 == 0
    ensures var s' := RunActions(env, s, Expand(e)).0;
            s'.targetRev == s.targetRev && Sound(env, s'.wc) && AllDone(env, wc0, done + [e], s'.wc)
  {
    hide RunActions, Coherent, Reached, Expand, Touch;
    var fates: Fates := p => FateOf(done, p, Untouched);
    assert env.faults(s.tick) == NO_FAULTS && env.faults(s.tick + Ticks(e) - 1) == NO_FAULTS;
    assert AllReached(env, wc0, fates, s.wc);
    EditReaches(env, wc0, done, fates, s, e);
    var wc := RunActions(env, s, Expand(e)).0.wc;
    forall p ensures Reached(env, FateOf(done + [e], p, Untouched), p, wc0, wc) {
      FateOfSnoc(done, e, p, Untouched);
      assert Reached(env, TouchNow(env, s, e, p, fates(p)), p, wc0, wc);
    }
  }

  /** When no system call fails, a coherent script whose edits find what they were made for succeeds,
      and every path ends as the script says last. */
  lemma RunSucceeds(env: Env, s: EditState, script: seq<Edit>)
    requires NoFaults(env) && !env.tolerant && s.Valid() && Sound(env, s.wc)
    requires CoherentScript(env, s.targetRev, s.wc, [], script) && PlacedScript(env, s.targetRev, s.wc, [], script)
    ensures var (s', res) := RunEdits(env, s, script);
            && res == 0 && Sound(env, s'.wc)
            && forall p :: Reached(env, FateOf(script, p, Untouched), p, s.wc, s'.wc)
  {
    hide CoherentScript, PlacedScript, Sound;
    RestSucceeds(env, s.wc, [], s, script);
    assert [] + script == script;
  }
}
