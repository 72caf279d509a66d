/** Exactly when each command of the file editor succeeds, with which code it fails otherwise, and
    what a failure leaves behind. */
module SvnEditCodes {
  import opened Bytes
  import opened Svndiff
  import opened TargetView
  import opened SvnEdit
  import opened SvnEditLaws

  // ---- commands for directories ----

  /** A path is rooted when everything above it is a directory. */
  lemma RootedExactly(t: Tree, p: Path)
    ensures Rooted(t, p) <==> forall d: Path | Below(p, d) :: IsDir(t, d)
  {
    if Rooted(t, p) {
      forall d: Path | Below(p, d) ensures IsDir(t, d) {
        var i := |d|;
        assert p[i] == (d + [SLASH])[i] && p[..i] == d;
      }
    }
    forall i | 0 <= i < |p| && p[i] == SLASH ensures Below(p, p[..i]) {
      assert p[..i] + [SLASH] == p[..i + 1];
    }
  }

  /** A delete fails only at a file that cannot be unlinked, and then changes nothing; otherwise the
      path has no key any more, no other key changes, and nothing changes outside the path. */
  lemma DeleteExactly(env: Env, s: EditState, p: Path)
    requires s.Valid()
    ensures var (s', res), stuck := Perform(env, s, Delete(p)), IsFile(s.wc.tree, p) && env.faults(s.tick).unlink;
            && res == (if stuck then 2 else 0) && s' == s.(tick := s.tick + 1, wc := s'.wc)
            && (stuck ==> s'.wc == s.wc)
            && (!stuck ==> p !in s'.wc.db && forall q | q != p :: SameKey(s'.wc, s.wc, q))
            && (forall q | !Within(q, p) :: SameNode(s'.wc, s.wc, q))
  {
  }

  /** Of a directory whose traversal fails, what has survivors in it is left, and the directory itself. */
  lemma FailedTraversalLeaves(f: Faults, wc: Copy, p: Path, q: Path)
    requires IsDir(wc.tree, p) && f.traverse && Within(q, p)
    ensures q in DeleteEntry(f, wc, p).wc.tree
       <==> q in wc.tree && (q == p || exists s | s in f.survivors :: Within(s, q))
    ensures q in DeleteEntry(f, wc, p).wc.tree ==> DeleteEntry(f, wc, p).wc.tree[q] == wc.tree[q]
  {
  }

  /** The codes of a directory command: where a directory cannot be made, and where a file is in its place. */
  function DirectoryCodes(a: Action): (int, int)
    requires a.OpenRoot? || a.AddDir? || a.OpenDir?
  {
    if a.OpenRoot? then (1, 2) else if a.AddDir? then (2, 3) else (2, 5)
  }

  function DirectoryPath(a: Action): Path
    requires a.OpenRoot? || a.AddDir? || a.OpenDir?
  {
    if a.OpenRoot? then [] else a.path
  }

  /** A directory command succeeds exactly where the directory is or can be made, and then it is there
      and nothing else has changed; otherwise nothing has. */
  lemma DirectoryExactly(env: Env, s: EditState, a: Action)
    requires s.Valid() && (a.OpenRoot? || a.AddDir? || a.OpenDir?)
    ensures var (s', res), (unmade, occupied) := Perform(env, s, a), DirectoryCodes(a);
            var p, t := DirectoryPath(a), s.wc.tree;
            && res == (if IsDir(t, p) then 0 else if IsFile(t, p) then occupied
                       else if Rooted(t, p) && !env.faults(s.tick).mkdir then 0 else unmade)
            && s' == s.(tick := s.tick + 1, wc := if res == 0 then s.wc.(tree := t[p := Dir]) else s.wc)
  {
    var p := DirectoryPath(a);
    if IsDir(s.wc.tree, p) { assert s.wc.tree[p := Dir] == s.wc.tree; }
  }

  // ---- opening and adding a file ----

  /** The server's copy can be had, and a file made or opened for it. */
  predicate CopyWorks(env: Env, f: Faults, t: Tree, p: Path, rev: int) {
    !f.fetch && env.fetch(p, rev).Some? && !f.create && !IsDir(t, p) && Rooted(t, p)
  }

  function ServerText(env: Env, p: Path, rev: int): bytes
    requires env.fetch(p, rev).Some?
  {
    Concat(env.fetch(p, rev).value)
  }

  /** Opening succeeds exactly at a file, or where the server's copy of the revision can be put; a file
      that is there is left as it is. Whatever was edited before is forgotten. */
  lemma OpenExactly(env: Env, s: EditState, p: Path, token: Option<bytes>, rev: int)
    requires s.Valid()
    ensures var (s', res), t := Perform(env, s, Open(p, token, rev)), s.wc.tree;
            && res == (if IsDir(t, p) then 2
                       else if IsFile(t, p) || CopyWorks(env, env.faults(s.tick), t, p, rev) then 0 else 3)
            && s'.wc == (if res == 0 && p !in t then s.wc.(tree := t[p := File(ServerText(env, p, rev))]) else s.wc)
            && s'.file == FileDoc(p, rev, token, None, INITIAL_DOC) && s'.targetRev == s.targetRev
  {
  }

  lemma AddExactly(env: Env, s: EditState, p: Path, token: Option<bytes>)
    requires s.Valid()
    ensures var (s', res) := Perform(env, s, Add(p, token));
            && res == (if IsDir(s.wc.tree, p) then 2 else 0)
            && s'.wc == s.wc && s'.file == FileDoc(p, -1, token, None, INITIAL_DOC) && s'.targetRev == s.targetRev
  {
  }

  /** After a close there is no file under edit. */
  lemma CloseForgets(env: Env, s: EditState, token: Option<bytes>, text: Option<Checksum>)
    requires s.Valid()
    ensures var s' := Perform(env, s, Close(token, text)).0;
            s'.file == FileDoc([], -1, None, None, INITIAL_DOC) && s'.targetRev == s.targetRev
  {
    hide CloseFile;
  }

  /** The base checksum is the one announced last, or none. */
  lemma TextdeltaExactly(env: Env, s: EditState, base: Option<Checksum>)
    requires s.Valid()
    ensures Perform(env, s, ApplyTextdelta(base)) == (s.(tick := s.tick + 1, file := s.file.(base := base)), 0)
  {
  }

  /** A chunk changes nothing but the parsed delta, which is what the parser leaves, also where it fails. */
  lemma ChunkExactly(env: Env, s: EditState, data: bytes)
    requires s.Valid() && !Parse(env.zlib, s.file.delta, data).Unknown?
    ensures var (s', res), r := Perform(env, s, Chunk(data)), Parse(env.zlib, s.file.delta, data);
            && res == (if r.Failed? then r.code else 0)
            && s' == s.(tick := s.tick + 1, file := s.file.(delta := r.doc))
  {
    hide Parse;
  }

  // ---- the revision full copies are taken at ----

  /** The revision that a run of commands names last. */
  function NamedRev(acts: seq<Action>, before: int): int
    decreases |acts|
  {
    if acts == [] then before
    else
      var a := acts[|acts| - 1];
      if a.TargetRev? then a.rev else NamedRev(acts[..|acts| - 1], before)
  }

  lemma {:induction false} NamedRevCons(a: Action, acts: seq<Action>, before: int)
    ensures NamedRev([a] + acts, before) == NamedRev(acts, if a.TargetRev? then a.rev else before)
    decreases |acts|
  {
    var all := [a] + acts;
    if acts == [] {
      assert all[..0] == [];
    } else {
      assert all[..|all| - 1] == [a] + acts[..|acts| - 1];
      NamedRevCons(a, acts[..|acts| - 1], before);
    }
  }

  lemma NamesRevision(env: Env, s: EditState, a: Action)
    requires s.Valid()
    ensures Perform(env, s, a).0.targetRev == if a.TargetRev? then a.rev else s.targetRev
    ensures a.TargetRev? ==> Perform(env, s, a) == (s.(targetRev := a.rev, tick := s.tick + 1), 0)
  {
    hide CloseFile, Parse, MakeDir, DeleteEntry, OpenFile;
  }

  /** Full copies are taken at the revision named last: every run that succeeds ends with it as target. */
  lemma {:induction false} RunNamesRevision(env: Env, s: EditState, acts: seq<Action>)
    requires s.Valid() && RunActions(env, s, acts).1 == 0
    ensures RunActions(env, s, acts).0.targetRev == NamedRev(acts, s.targetRev)
    decreases |acts|
  {
    hide Perform;
    if acts != [] {
      NamesRevision(env, s, acts[0]);
      RunNamesRevision(env, Perform(env, s, acts[0]).0, acts[1..]);
      NamedRevCons(acts[0], acts[1..], s.targetRev);
      assert acts == [acts[0]] + acts[1..];
    }
  }

  // ---- closing a file ----

  predicate TokensDiffer(d: FileDoc, token: Option<bytes>) {
    token.Some? && d.ft.Some? && token.value != d.ft.value
  }

  /** The local file is there and can be opened. */
  predicate Present(f: Faults, wc: Copy, d: FileDoc) { d.rp in wc.tree && wc.tree[d.rp].File? && !f.open }

  function Text(wc: Copy, d: FileDoc): bytes
    requires d.rp in wc.tree && wc.tree[d.rp].File?
  {
    wc.tree[d.rp].content
  }

  /** The file is not the announced source. */
  predicate Changed(env: Env, f: Faults, wc: Copy, d: FileDoc) {
    Present(f, wc, d) && d.base.Some? && env.md5(Text(wc, d)) != d.base.value
  }

  /** The file already is the announced target. */
  predicate Arrived(env: Env, f: Faults, wc: Copy, d: FileDoc, text: Option<Checksum>) {
    Present(f, wc, d) && text.Some? && env.md5(Text(wc, d)) == text.value
  }

  /** It is left as it is: as the target, where it is not the source too; or in tolerant mode, changed or not. */
  predicate IsKept(env: Env, f: Faults, wc: Copy, d: FileDoc, text: Option<Checksum>) {
    if d.base.Some? then Changed(env, f, wc, d) && (Arrived(env, f, wc, d, text) || env.tolerant)
    else Arrived(env, f, wc, d, text)
  }

  /** It is neither source nor target, and a full copy takes its place. */
  predicate IsReplaced(env: Env, f: Faults, wc: Copy, d: FileDoc, text: Option<Checksum>) {
    Changed(env, f, wc, d) && !Arrived(env, f, wc, d, text) && !env.tolerant
  }

  /** A local file where one is to be added, and not the target. */
  predicate IsStray(env: Env, f: Faults, wc: Copy, d: FileDoc, text: Option<Checksum>) {
    Present(f, wc, d) && d.base == None && text.Some? && !Arrived(env, f, wc, d, text)
  }

  /** The text that the delta is applied to. */
  function SourceText(env: Env, f: Faults, wc: Copy, d: FileDoc, text: Option<Checksum>): Option<bytes> {
    if Present(f, wc, d) && !IsStray(env, f, wc, d, text) then Some(Text(wc, d)) else None
  }

  function Target(env: Env, f: Faults, wc: Copy, d: FileDoc, text: Option<Checksum>): Views {
    BuildAll(env, SourceText(env, f, wc, d, text), d.delta.wnd)
  }

  /** The delta has been built, and does not give the announced target. */
  predicate Misses(env: Env, f: Faults, wc: Copy, d: FileDoc, text: Option<Checksum>) {
    var r := Target(env, f, wc, d, text);
    r.Views? && text.Some? && d.delta.version != -1 && env.md5(Concat(r.views)) != text.value
  }

  predicate Writable(env: Env, f: Faults, wc: Copy, d: FileDoc, text: Option<Checksum>) {
    SourceText(env, f, wc, d, text).Some? || (!f.create && !IsDir(wc.tree, d.rp) && Rooted(wc.tree, d.rp))
  }

  /** Everything goes well up to the saving of the checksum. */
  predicate GetsToSave(env: Env, f: Faults, wc: Copy, rev: int, d: FileDoc, token: Option<bytes>,
                       text: Option<Checksum>) {
    && !TokensDiffer(d, token)
    && (IsKept(env, f, wc, d, text)
        || if IsReplaced(env, f, wc, d, text) then CopyWorks(env, f, wc.tree, d.rp, rev)
           else
             && !(IsStray(env, f, wc, d, text) && f.unlink)
             && Target(env, f, wc, d, text).Views?
             && if Misses(env, f, wc, d, text) then CopyWorks(env, f, wc.tree, d.rp, rev)
                else Writable(env, f, wc, d, text) || d.delta.wnd == [])
  }

  /** The delta is what the new text is taken from. */
  predicate IsBuilt(env: Env, f: Faults, wc: Copy, d: FileDoc, token: Option<bytes>, text: Option<Checksum>) {
    && !TokensDiffer(d, token) && !IsKept(env, f, wc, d, text) && !IsReplaced(env, f, wc, d, text)
    && !(IsStray(env, f, wc, d, text) && f.unlink)
  }

  lemma RouteExactly(env: Env, f: Faults, wc: Copy, d: FileDoc, token: Option<bytes>, text: Option<Checksum>)
    ensures ChooseRoute(env, f, wc.tree, d, token, text)
         == if TokensDiffer(d, token) then WrongToken
            else if IsKept(env, f, wc, d, text) then Keep
            else if IsReplaced(env, f, wc, d, text) then FullCopy
            else if IsStray(env, f, wc, d, text) then Replace
            else Apply(SourceText(env, f, wc, d, text))
  {
  }

  /** What saving comes to. */
  function Saved(f: Faults, text: Option<Checksum>): int {
    if text == None then ABORTED else if f.save then 10 else 0
  }

  /** The code of building, checking and writing. */
  lemma FinishCode(env: Env, f: Faults, wc: Copy, rev: int, d: FileDoc, src: Option<bytes>, text: Option<Checksum>)
    ensures var res, r := Finish(env, f, wc, rev, d, src, text).res, BuildAll(env, src, d.delta.wnd);
            res == if r.NoViews? then 3
                   else if r.ViewsCrash? then ABORTED
                   else if text.Some? && d.delta.version != -1 && env.md5(Concat(r.views)) != text.value then
                     if CopyWorks(env, f, wc.tree, d.rp, rev) then Saved(f, text) else 5
                   else if src.Some? || CanCreate(f, wc.tree, d.rp) || d.delta.wnd == [] then Saved(f, text)
                   else ABORTED
  {
    hide BuildAll, Concat, Rooted;
  }

  /** And what it leaves. */
  lemma FinishWrites(env: Env, f: Faults, wc: Copy, rev: int, d: FileDoc, src: Option<bytes>, sum: Checksum)
    ensures var now, r := Finish(env, f, wc, rev, d, src, Some(sum)).wc, BuildAll(env, src, d.delta.wnd);
            if !r.Views? then now == wc
            else if d.delta.version != -1 && env.md5(Concat(r.views)) != sum then
              now == if CopyWorks(env, f, wc.tree, d.rp, rev) then
                       Copy(wc.tree[d.rp := File(ServerText(env, d.rp, rev))],
                            if f.save then wc.db else wc.db[d.rp := sum])
                     else wc
            else if src.Some? || CanCreate(f, wc.tree, d.rp) then
              now == Copy(wc.tree[d.rp := File(if d.delta.version != -1 then Concat(r.views)
                                               else if IsFile(wc.tree, d.rp) then wc.tree[d.rp].content else [])],
                          if f.save then wc.db else wc.db[d.rp := sum])
            else now == if d.delta.wnd == [] && !f.save then wc.(db := wc.db[d.rp := sum]) else wc
  {
    hide BuildAll, Concat, Rooted;
  }

  /** The return code of every close, by the file that is found, the checksums and tokens announced, and
      the calls that fail; 0 exactly when all that is needed works. */
  lemma CloseCodeExactly(env: Env, f: Faults, wc: Copy, rev: int, d: FileDoc, token: Option<bytes>,
                         text: Option<Checksum>)
    ensures var res := CloseFile(env, f, wc, rev, d, token, text).res;
            var saving := GetsToSave(env, f, wc, rev, d, token, text);
            && (res == 0 <==> saving && text.Some? && !f.save)
            && (res == 10 <==> saving && text.Some? && f.save)
            && (res == 1 <==> TokensDiffer(d, token))
            && (res == 2 <==> !TokensDiffer(d, token) && IsReplaced(env, f, wc, d, text)
                              && !CopyWorks(env, f, wc.tree, d.rp, rev))
            && (res == 3 <==> IsBuilt(env, f, wc, d, token, text) && Target(env, f, wc, d, text).NoViews?)
            && (res == 5 <==> IsBuilt(env, f, wc, d, token, text) && Misses(env, f, wc, d, text)
                              && !CopyWorks(env, f, wc.tree, d.rp, rev))
            && res in {0, 1, 2, 3, 5, 10, ABORTED}
  {
    hide ChooseRoute, Finish, BuildAll, Concat, Rooted;
    RouteExactly(env, f, wc, d, token, text);
    RootedWithout(wc.tree, d.rp);
    match ChooseRoute(env, f, wc.tree, d, token, text) {
      case Apply(src) => FinishCode(env, f, wc, rev, d, src, text);
      case Replace => FinishCode(env, f, wc.(tree := wc.tree - {d.rp}), rev, d, None, text);
      case _ =>
    }
  }

  /** The working copy without a stray file. */
  function Cleared(env: Env, f: Faults, wc: Copy, d: FileDoc, text: Option<Checksum>): Tree {
    if IsStray(env, f, wc, d, text) then wc.tree - {d.rp} else wc.tree
  }

  /** The text a close writes when its delta does not miss: without a parsed delta, what was there. */
  function NewText(env: Env, f: Faults, wc: Copy, d: FileDoc, text: Option<Checksum>): bytes
    requires Target(env, f, wc, d, text).Views?
  {
    if d.delta.version != -1 then Concat(Target(env, f, wc, d, text).views)
    else if d.rp in wc.tree && wc.tree[d.rp].File? && !IsStray(env, f, wc, d, text) then Text(wc, d)
    else []
  }

  /** What a close that gets to its end leaves in the file: what was there, the server's copy of the
      target revision, or the new text. */
  lemma CloseWrites(env: Env, f: Faults, wc: Copy, rev: int, d: FileDoc, token: Option<bytes>, sum: Checksum)
    requires GetsToSave(env, f, wc, rev, d, token, Some(sum))
    ensures var now, text := CloseFile(env, f, wc, rev, d, token, Some(sum)).wc, Some(sum);
            && now.db == (if f.save then wc.db else wc.db[d.rp := sum])
            && now.tree == if IsKept(env, f, wc, d, text) then wc.tree
                           else if IsReplaced(env, f, wc, d, text) || Misses(env, f, wc, d, text) then
                             wc.tree[d.rp := File(ServerText(env, d.rp, rev))]
                           else if Writable(env, f, wc, d, text) then
                             wc.tree[d.rp := File(NewText(env, f, wc, d, text))]
                           else Cleared(env, f, wc, d, text)
  {
    hide ChooseRoute, Finish, BuildAll, Concat, Rooted;
    var text := Some(sum);
    RouteExactly(env, f, wc, d, token, text);
    RootedWithout(wc.tree, d.rp);
    match ChooseRoute(env, f, wc.tree, d, token, text) {
      case Apply(src) => FinishWrites(env, f, wc, rev, d, src, sum);
      case Replace =>
        PutInPlace(wc.tree, d.rp);
        FinishWrites(env, f, wc.(tree := wc.tree - {d.rp}), rev, d, None, sum);
      case _ =>
    }
  }

  lemma PutInPlace(t: Tree, p: Path)
    ensures forall content: bytes :: (t - {p})[p := File(content)] == t[p := File(content)]
  {
  }

  /** A close that does not get there has written nothing; only a stray file may be gone. */
  lemma FailedCloseLeaves(env: Env, f: Faults, wc: Copy, rev: int, d: FileDoc, token: Option<bytes>, sum: Checksum)
    requires !GetsToSave(env, f, wc, rev, d, token, Some(sum))
    ensures var now := CloseFile(env, f, wc, rev, d, token, Some(sum)).wc;
            && now.db == wc.db
            && now.tree == if TokensDiffer(d, token) || f.unlink then wc.tree else Cleared(env, f, wc, d, Some(sum))
  {
    hide ChooseRoute, Finish, BuildAll, Concat, Rooted;
    var text := Some(sum);
    RouteExactly(env, f, wc, d, token, text);
    RootedWithout(wc.tree, d.rp);
    match ChooseRoute(env, f, wc.tree, d, token, text) {
      case Apply(src) => FinishWrites(env, f, wc, rev, d, src, sum);
      case Replace => FinishWrites(env, f, wc.(tree := wc.tree - {d.rp}), rev, d, None, sum);
      case _ =>
    }
  }

  /** Tolerant mode: a changed file is kept, the target's checksum is recorded for it, and the close succeeds. */
  lemma TolerantKeepsChanged(env: Env, f: Faults, wc: Copy, rev: int, d: FileDoc, token: Option<bytes>, sum: Checksum)
    requires env.tolerant && IsFile(wc.tree, d.rp) && !f.open && !f.save
    requires d.base.Some? && env.md5(wc.tree[d.rp].content) != d.base.value && (d.ft.Some? ==> token == d.ft)
    ensures CloseFile(env, f, wc, rev, d, token, Some(sum)) == Outcome(wc.(db := wc.db[d.rp := sum]), 0)
  {
    CloseCodeExactly(env, f, wc, rev, d, token, Some(sum));
    CloseWrites(env, f, wc, rev, d, token, sum);
  }

  // ---- all the views or none ----

  ghost predicate HasView(env: Env, src: Option<bytes>, w: Window) {
    w.tviewLen >= 0 && Build(src, w, Junk(env, w.tviewLen + 1)).Built?
  }

  ghost predicate Refuses(env: Env, src: Option<bytes>, w: Window) {
    w.tviewLen >= 0 && Build(src, w, Junk(env, w.tviewLen + 1)).NotBuilt?
  }

  /** The windows before the k-th can be built, and the k-th is refused. */
  ghost predicate FirstRefused(env: Env, src: Option<bytes>, ws: seq<Window>, k: int) {
    0 <= k < |ws| && Refuses(env, src, ws[k]) && forall j | 0 <= j < k :: HasView(env, src, ws[j])
  }

  ghost function View(env: Env, src: Option<bytes>, w: Window): bytes
    requires HasView(env, src, w)
  {
    Build(src, w, Junk(env, w.tviewLen + 1)).buf[..w.tviewLen]
  }

  lemma FirstRefusedStep(env: Env, src: Option<bytes>, ws: seq<Window>, k: int)
    requires ws != []
    ensures FirstRefused(env, src, ws, k)
       <==> if k == 0 then Refuses(env, src, ws[0])
            else HasView(env, src, ws[0]) && FirstRefused(env, src, ws[1..], k - 1)
  {
    hide HasView, Refuses;
    var more := ws[1..];
    if FirstRefused(env, src, ws, k) && k > 0 {
      forall j | 0 <= j < k - 1 ensures HasView(env, src, more[j]) { assert HasView(env, src, ws[j + 1]); }
    }
    if HasView(env, src, ws[0]) && FirstRefused(env, src, more, k - 1) {
      forall j | 0 <= j < k ensures HasView(env, src, ws[j]) {
        if j > 0 { assert HasView(env, src, more[j - 1]); }
      }
    }
  }

  lemma {:induction false} ViewsExactly(env: Env, src: Option<bytes>, ws: seq<Window>)
    ensures var r := BuildAll(env, src, ws);
            && (r.Views? <==> forall k | 0 <= k < |ws| :: HasView(env, src, ws[k]))
            && (r.Views? ==> |r.views| == |ws| && forall k | 0 <= k < |ws| :: r.views[k] == View(env, src, ws[k]))
    decreases |ws|
  {
    if ws != [] {
      BuildAllStepExactly(env, src, ws);
      hide BuildAll, HasView, Refuses, View;
      var more, r := ws[1..], BuildAll(env, src, ws);
      ViewsExactly(env, src, more);
      if r.Views? {
        forall k | 0 <= k < |ws| ensures HasView(env, src, ws[k]) && r.views[k] == View(env, src, ws[k]) {
          if k > 0 { assert ws[k] == more[k - 1]; }
        }
      } else if HasView(env, src, ws[0]) {
        var k :| 0 <= k < |more| && !HasView(env, src, more[k]);
        assert ws[k + 1] == more[k];
      }
    }
  }

  lemma {:induction false} NoViewsExactly(env: Env, src: Option<bytes>, ws: seq<Window>)
    ensures BuildAll(env, src, ws).NoViews? <==> exists k :: FirstRefused(env, src, ws, k)
    decreases |ws|
  {
    if ws != [] {
      BuildAllStepExactly(env, src, ws);
      hide BuildAll, HasView, Refuses, View, FirstRefused;
      var more, r := ws[1..], BuildAll(env, src, ws);
      NoViewsExactly(env, src, more);
      FirstRefusedStep(env, src, ws, 0);
      if r.NoViews? && !Refuses(env, src, ws[0]) {
        var k :| FirstRefused(env, src, more, k);
        FirstRefusedStep(env, src, ws, k + 1);
        assert k != -1 && FirstRefused(env, src, ws, k + 1);
      }
      forall k | FirstRefused(env, src, ws, k) ensures r.NoViews? {
        FirstRefusedStep(env, src, ws, k);
        assert k == 0 || FirstRefused(env, src, more, k - 1);
      }
    }
  }

  /** The views are there exactly when every window can be built, and there is none exactly when the
      first window that cannot be built is refused. */
  lemma BuildAllExactly(env: Env, src: Option<bytes>, ws: seq<Window>)
    ensures var r := BuildAll(env, src, ws);
            && (r.Views? <==> forall k | 0 <= k < |ws| :: HasView(env, src, ws[k]))
            && (r.Views? ==> |r.views| == |ws| && forall k | 0 <= k < |ws| :: r.views[k] == View(env, src, ws[k]))
            && (r.NoViews? <==> exists k :: FirstRefused(env, src, ws, k))
  {
    hide BuildAll, HasView, View, FirstRefused;
    ViewsExactly(env, src, ws);
    NoViewsExactly(env, src, ws);
  }

  lemma BuildAllStepExactly(env: Env, src: Option<bytes>, ws: seq<Window>)
    requires ws != []
    ensures var r, more := BuildAll(env, src, ws), BuildAll(env, src, ws[1..]);
            && (Refuses(env, src, ws[0]) ==> r == NoViews && !HasView(env, src, ws[0]))
            && (!HasView(env, src, ws[0]) && !Refuses(env, src, ws[0]) ==> r == ViewsCrash)
            && (HasView(env, src, ws[0]) ==>
                  if more.Views? then r == Views([View(env, src, ws[0])] + more.views) else r == more)
  {
    hide Build, Junk;
  }
}
