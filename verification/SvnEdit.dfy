/** The file editor: applying deltas to a working copy, checking checksums, and keeping the
    checksum database. Regular files and directories only. */
module SvnEdit {
  import opened Bytes
  import opened Svndiff
  import opened TargetView

  /** Paths relative to the root of the working copy; a path in d starts with d and a slash. */
  type Path = bytes

  type Checksum = bytes

  datatype Node = File(content: bytes) | Dir

  type Tree = map<Path, Node>

  predicate Below(p: Path, d: Path) { d + [SLASH] <= p }

  predicate Within(p: Path, d: Path) { p == d || Below(p, d) }

  predicate IsFile(t: Tree, p: Path) { p in t && t[p].File? }

  predicate IsDir(t: Tree, p: Path) { p in t && t[p].Dir? }

  /** Every directory on the way to p exists. */
  predicate Rooted(t: Tree, p: Path) {
    forall i | 0 <= i < |p| && p[i] == SLASH :: IsDir(t, p[..i])
  }

  /** What every file system keeps: nothing exists outside an existing directory. */
  ghost predicate TreeOk(t: Tree) { forall p | p in t :: Rooted(t, p) }

  /** The system calls that fail while one command runs. A failing traversal leaves the directory
      itself, the paths in `survivors`, and the directories on the way to them. */
  datatype Faults = Faults(open: bool, create: bool, mkdir: bool, fetch: bool, unlink: bool, save: bool,
                           traverse: bool, survivors: set<Path>)

  const NO_FAULTS := Faults(false, false, false, false, false, false, false, {})

  /** Everything outside the working copy: the hash, zlib, the server's files by revision, what
      fresh memory holds, the failures of the n-th command that does something, and the tolerant option. */
  datatype Env = Env(md5: bytes -> Checksum, zlib: Zlib, fetch: (Path, int) -> Option<seq<bytes>>,
                     junk: nat -> byte, faults: nat -> Faults, tolerant: bool)

  datatype Copy = Copy(tree: Tree, db: map<Path, Checksum>)

  /** The file under edit: its path, source revision, token, base checksum and parsed delta. */
  datatype FileDoc = FileDoc(rp: Path, rev: int, ft: Option<bytes>, base: Option<Checksum>, delta: Doc)

  const NO_FILE := FileDoc([], -1, None, None, INITIAL_DOC)

  /** A handler's effect on the working copy and its return code. */
  datatype Outcome = Outcome(wc: Copy, res: int)

  /** The process aborts, or dereferences a null pointer. */
  const ABORTED := -1

  // ---- handlers as functions ----

  /** What the recursive removal of directory p takes away. */
  function Removed(f: Faults, t: Tree, p: Path): set<Path> {
    if !f.traverse then set q | q in t && Within(q, p)
    else set q | q in t && Below(q, p) && !exists s | s in f.survivors :: Within(s, q)
  }

  function DeleteEntry(f: Faults, wc: Copy, p: Path): Outcome {
    if IsDir(wc.tree, p) then
      Outcome(Copy(wc.tree - Removed(f, wc.tree, p), wc.db - {p}), 0)
    else if IsFile(wc.tree, p) && f.unlink then Outcome(wc, 2)
    else Outcome(Copy(wc.tree - {p}, wc.db - {p}), 0)
  }

  function MakeDir(f: Faults, wc: Copy, p: Path, failed: int, notDir: int): Outcome {
    if p in wc.tree then Outcome(wc, if wc.tree[p].Dir? then 0 else notDir)
    else if f.mkdir || !Rooted(wc.tree, p) then Outcome(wc, failed)
    else Outcome(wc.(tree := wc.tree[p := Dir]), 0)
  }

  /** Whether open(2) with O_CREAT finds or makes a file. */
  predicate CanCreate(f: Faults, t: Tree, p: Path) { !f.create && !IsDir(t, p) && Rooted(t, p) }

  function CreateFile(f: Faults, t: Tree, p: Path, content: bytes): Option<Tree> {
    if CanCreate(f, t, p) then Some(t[p := File(content)]) else None
  }

  /** A full copy from the server, written over whatever is there; None if any step fails. */
  function Checkout(env: Env, f: Faults, t: Tree, p: Path, rev: int): Option<Tree> {
    if f.fetch then None
    else match env.fetch(p, rev)
      case None => None
      case Some(chunks) => CreateFile(f, t, p, Concat(chunks))
  }

  function OpenFile(env: Env, f: Faults, wc: Copy, p: Path, rev: int): Outcome {
    if IsDir(wc.tree, p) then Outcome(wc, 2)
    else if p in wc.tree then Outcome(wc, 0)
    else match Checkout(env, f, wc.tree, p, rev)
      case None => Outcome(wc, 3)
      case Some(t) => Outcome(wc.(tree := t), 0)
  }

  function AddFile(wc: Copy, p: Path): Outcome {
    Outcome(wc, if IsDir(wc.tree, p) then 2 else 0)
  }

  /** The target views of all windows, or the failure of the first that has none. */
  datatype Views = Views(views: seq<bytes>) | NoViews | ViewsCrash

  function Junk(env: Env, n: nat): (r: bytes)
    ensures |r| == n
  {
    seq<byte>(n, i requires 0 <= i => env.junk(i))
  }

  function BuildAll(env: Env, src: Option<bytes>, ws: seq<Window>): Views {
    if ws == [] then Views([])
    else if ws[0].tviewLen < 0 then ViewsCrash
    else match Build(src, ws[0], Junk(env, ws[0].tviewLen + 1))
      case NotBuilt(_) => NoViews
      case Crashed => ViewsCrash
      case Built(buf, _, _, _) =>
        (match BuildAll(env, src, ws[1..])
         case Views(vs) => Views([buf[..ws[0].tviewLen]] + vs)
         case NoViews => NoViews
         case ViewsCrash => ViewsCrash)
  }

  function Prepend(views: seq<bytes>, r: Views): Views {
    if r.Views? then Views(views + r.views) else r
  }

  lemma BuildAllStep(env: Env, src: Option<bytes>, ws: seq<Window>, views: seq<bytes>, buf: bytes)
    requires ws != [] && ws[0].tviewLen >= 0
    requires var b := Build(src, ws[0], Junk(env, ws[0].tviewLen + 1)); b.Built? && b.buf == buf
    ensures Prepend(views, BuildAll(env, src, ws))
         == Prepend(views + [buf[..ws[0].tviewLen]], BuildAll(env, src, ws[1..]))
  {
    var more := BuildAll(env, src, ws[1..]);
    var view := buf[..ws[0].tviewLen];
    if more.Views? { assert views + ([view] + more.views) == views + [view] + more.views; }
  }

  /** The last step of every successful close: there is no guard against a missing checksum. */
  function Save(f: Faults, wc: Copy, p: Path, text: Option<Checksum>): Outcome {
    if text == None then Outcome(wc, ABORTED)
    else if f.save then Outcome(wc, 10)
    else Outcome(wc.(db := wc.db[p := text.value]), 0)
  }

  function CheckoutAndSave(env: Env, f: Faults, wc: Copy, p: Path, rev: int, text: Option<Checksum>, code: int): Outcome
  {
    match Checkout(env, f, wc.tree, p, rev)
    case None => Outcome(wc, code)
    case Some(t) => Save(f, wc.(tree := t), p, text)
  }

  /** What open(2) for reading and writing finds. */
  function Opened(f: Faults, t: Tree, p: Path): Option<bytes> {
    if !f.open && IsFile(t, p) then Some(t[p].content) else None
  }

  /** Building, checking and writing the target, with `src` the contents of the open file. */
  function Finish(env: Env, f: Faults, wc: Copy, rev: int, d: FileDoc, src: Option<bytes>, text: Option<Checksum>)
    : Outcome
  {
    var parsed := d.delta.version != -1;
    match BuildAll(env, src, d.delta.wnd)
    case NoViews => Outcome(wc, 3)
    case ViewsCrash => Outcome(wc, ABORTED)
    case Views(vs) =>
      if text.Some? && parsed && env.md5(Concat(vs)) != text.value then
        CheckoutAndSave(env, f, wc, d.rp, rev, text, 5)
      else if src == None && !CanCreate(f, wc.tree, d.rp) then
        if d.delta.wnd == [] then Save(f, wc, d.rp, text) else Outcome(wc, ABORTED)
      else
        var now := if IsFile(wc.tree, d.rp) then wc.tree[d.rp].content else [];
        Save(f, wc.(tree := wc.tree[d.rp := File(if parsed then Concat(vs) else now)]), d.rp, text)
  }

  /** What close_file decides to do about the file it finds: nothing (Keep), take a full copy, apply
      the delta to `src`, or unlink a stray file and build the added one from its delta. */
  datatype Route = WrongToken | Keep | FullCopy | Apply(src: Option<bytes>) | Replace

  function ChooseRoute(env: Env, f: Faults, t: Tree, d: FileDoc, token: Option<bytes>, text: Option<Checksum>): Route {
    var found := Opened(f, t, d.rp);
    if token.Some? && d.ft.Some? && token != d.ft then WrongToken
    else if found == None then Apply(None)
    else
      var sum := env.md5(found.value);
      if d.base.Some? then
        if sum == d.base.value then Apply(found)
        else if text == Some(sum) || env.tolerant then Keep
        else FullCopy
      else if text == Some(sum) then Keep
      else if text == None then Apply(found)
      else Replace
  }

  function CloseFile(env: Env, f: Faults, wc: Copy, rev: int, d: FileDoc, token: Option<bytes>, text: Option<Checksum>)
    : Outcome
  {
    match ChooseRoute(env, f, wc.tree, d, token, text)
    case WrongToken => Outcome(wc, 1)
    case Keep => Save(f, wc, d.rp, text)
    case FullCopy => CheckoutAndSave(env, f, wc, d.rp, rev, text, 2)
    case Apply(src) => Finish(env, f, wc, rev, d, src, text)
    case Replace =>
      if f.unlink then Outcome(wc, ABORTED)
      else Finish(env, f, wc.(tree := wc.tree - {d.rp}), rev, d, None, text)
  }

  // ---- commands ----

  datatype Action =
    | TargetRev(rev: int)
    | OpenRoot
    | Delete(path: Path)
    | AddDir(path: Path)
    | OpenDir(path: Path)
    | Add(path: Path, token: Option<bytes>)
    | Open(path: Path, token: Option<bytes>, rev: int)
    | ApplyTextdelta(base: Option<Checksum>)
    | Chunk(data: bytes)
    | Close(token: Option<bytes>, text: Option<Checksum>)
    | Ignored

  datatype EditState = EditState(wc: Copy, targetRev: int, file: FileDoc, tick: nat) {
    ghost predicate Valid() { file.delta.Valid() }
  }

  /** A command, and its return code. Commands that only trace are not counted. */
  function Perform(env: Env, s: EditState, a: Action): (r: (EditState, int))
    requires s.Valid()
    ensures r.0.Valid() && r.0.tick == s.tick + if a == Ignored then 0 else 1
  {
    var f := env.faults(s.tick);
    var s1 := s.(tick := s.tick + 1);
    match a
    case TargetRev(rev) => (s1.(targetRev := rev), 0)
    case OpenRoot => var o := MakeDir(f, s.wc, [], 1, 2); (s1.(wc := o.wc), o.res)
    case Delete(p) => var o := DeleteEntry(f, s.wc, p); (s1.(wc := o.wc), o.res)
    case AddDir(p) => var o := MakeDir(f, s.wc, p, 2, 3); (s1.(wc := o.wc), o.res)
    case OpenDir(p) => var o := MakeDir(f, s.wc, p, 2, 5); (s1.(wc := o.wc), o.res)
    case Add(p, token) =>
      var o := AddFile(s.wc, p);
      (s1.(wc := o.wc, file := NO_FILE.(rp := p, ft := token)), o.res)
    case Open(p, token, rev) =>
      var o := OpenFile(env, f, s.wc, p, rev);
      (s1.(wc := o.wc, file := NO_FILE.(rp := p, ft := token, rev := rev)), o.res)
    case ApplyTextdelta(base) => (s1.(file := s.file.(base := base)), 0)
    case Chunk(data) =>
      (match Parse(env.zlib, s.file.delta, data)
       case Done(d) => (s1.(file := s.file.(delta := d)), 0)
       case Failed(d, code) => (s1.(file := s.file.(delta := d)), code)
       case Unknown => (s1, ABORTED))
    case Close(token, text) =>
      var o := CloseFile(env, f, s.wc, s.targetRev, s.file, token, text);
      (s1.(wc := o.wc, file := NO_FILE), o.res)
    case Ignored => (s, 0)
  }

  /** Commands in order, up to the first that does not return 0. */
  function RunActions(env: Env, s: EditState, acts: seq<Action>): (r: (EditState, int))
    requires s.Valid()
    ensures r.0.Valid()
    decreases |acts|
  {
    if acts == [] then (s, 0)
    else
      var (s', res) := Perform(env, s, acts[0]);
      if res != 0 then (s', res) else RunActions(env, s', acts[1..])
  }

  // ---- the editor as the program runs it ----

  const VCBUFSZ := 4096 * 512

  /** write(2) at an offset within the file. */
  function WriteAt(content: bytes, off: nat, data: bytes): bytes
    requires off <= |content|
  {
    content[..off] + data + content[Min(|content|, off + |data|)..]
  }

  /** A file that is overwritten from its start, when the bytes of `more` have been written. */
  function Overlaid(content: bytes, more: bytes): bytes { more + content[Min(|content|, |more|)..] }

  lemma OverlaidMore(content: bytes, done: bytes, more: bytes)
    ensures WriteAt(Overlaid(content, done), |done|, more) == Overlaid(content, done + more)
  {
  }

  lemma ConcatNothing()
    ensures Concat([]) == []
  {
  }

  class Editor {
    const env: Env
    const doc: SvndiffDoc
    var tree: Tree
    var db: map<Path, Checksum>
    var targetRev: int
    var rp: Path
    var rev: int
    var ft: Option<bytes>
    var base: Option<Checksum>
    var tick: nat

    ghost predicate Valid() reads this, doc { doc.Valid() }

    ghost function Wc(): Copy reads this { Copy(tree, db) }

    ghost function Document(): FileDoc reads this, doc { FileDoc(rp, rev, ft, base, doc.Value()) }

    ghost function Now(): EditState reads this, doc { EditState(Wc(), targetRev, Document(), tick) }

    constructor (env: Env, tree: Tree, db: map<Path, Checksum>)
      ensures Valid() && fresh(doc) && this.env == env
      ensures Now() == EditState(Copy(tree, db), 0, NO_FILE, 0)
    {
      this.env, this.tree, this.db, targetRev, tick := env, tree, db, 0, 0;
      rp, rev, ft, base := [], -1, None, None;
      doc := new SvndiffDoc();
    }

    method ClearDoc()
      modifies this`rp, this`rev, this`ft, this`base, doc
      ensures Valid() && Document() == NO_FILE
    {
      rp, rev, ft, base := [], -1, None, None;
      doc.Clear();
    }

    /** Hash a file block by block. */
    method VerifyChecksum(content: bytes, cs: Checksum) returns (ok: bool)
      ensures ok <==> env.md5(content) == cs
    {
      var hashed, off := [], 0;
      while off < |content|
        invariant 0 <= off <= |content| && hashed == content[..off]
      {
        var nread := Min(VCBUFSZ, |content| - off);
        hashed := hashed + content[off..off + nread];
        off := off + nread;
      }
      assert content[..off] == content;
      ok := env.md5(hashed) == cs;
    }

    method DeletePath(f: Faults, p: Path) returns (res: int)
      modifies `tree, `db
      ensures Outcome(Wc(), res) == DeleteEntry(f, old(Wc()), p)
    {
      if IsDir(tree, p) {
        tree := tree - Removed(f, tree, p);
      } else if IsFile(tree, p) {
        if f.unlink { return 2; }
        tree := tree - {p};
      } else {
        assert tree - {p} == tree;
      }
      db := db - {p};
      res := 0;
    }

    method EnsureDir(f: Faults, p: Path, failed: int, notDir: int) returns (res: int)
      modifies `tree
      ensures Outcome(Wc(), res) == MakeDir(f, old(Wc()), p, failed, notDir)
    {
      if p in tree { return if tree[p].Dir? then 0 else notDir; }
      if f.mkdir || !Rooted(tree, p) { return failed; }
      tree := tree[p := Dir];
      res := 0;
    }

    /** create_file: truncate, then write the server's pieces one after another. cuts holds what the
        file contains from one write to the next. */
    method WriteFile(f: Faults, p: Path, chunks: seq<bytes>) returns (res: int, ghost cuts: seq<bytes>)
      modifies `tree
      ensures res == 0 ==> |cuts| == |chunks| + 1 && forall k | 0 <= k < |cuts| :: cuts[k] == Concat(chunks[..k])
      ensures match CreateFile(f, old(tree), p, Concat(chunks))
              case None => res == 1 && tree == old(tree)
              case Some(t) => res == 0 && tree == t
    {
      cuts := [[]];
      if !CanCreate(f, tree, p) { return 1, cuts; }
      tree := tree[p := File([])];
      var total, k := 0, 0;
      while k < |chunks|
        invariant 0 <= k <= |chunks| && tree == old(tree)[p := File(Concat(chunks[..k]))]
        invariant total == |Concat(chunks[..k])|
        invariant |cuts| == k + 1 && forall j | 0 <= j <= k :: cuts[j] == Concat(chunks[..j])
      {
        var content := tree[p].content;
        assert chunks[..k + 1] == chunks[..k] + [chunks[k]];
        ConcatLast(chunks[..k], chunks[k]);
        assert WriteAt(content, total, chunks[k]) == content + chunks[k];
        tree := tree[p := File(WriteAt(content, total, chunks[k]))];
        cuts := cuts + [tree[p].content];
        total, k := total + |chunks[k]|, k + 1;
      }
      assert chunks[..k] == chunks;
      res := 0;
    }

    method CheckoutFile(f: Faults, p: Path, r: int) returns (res: int)
      modifies `tree
      ensures match Checkout(env, f, old(tree), p, r)
              case None => res != 0 && tree == old(tree)
              case Some(t) => res == 0 && tree == t
    {
      if f.fetch { return 1; }
      var fe := env.fetch(p, r);
      if fe == None { return 1; }
      var wrote, _ := WriteFile(f, p, fe.value);
      res := if wrote != 0 then 3 else 0;
    }

    method SaveChecksum(f: Faults, p: Path, text: Option<Checksum>) returns (res: int)
      modifies `db
      ensures Outcome(Wc(), res) == Save(f, old(Wc()), p, text)
    {
      if text == None { return ABORTED; }
      if f.save { return 10; }
      db := db[p := text.value];
      res := 0;
    }

    /** Build every target view before anything is written. */
    method BuildViews(src: Option<bytes>) returns (r: Views)
      ensures r == BuildAll(env, src, doc.wnd)
    {
      var ws := doc.wnd;
      var views, k := [], 0;
      while k < |ws|
        invariant 0 <= k <= |ws|
        invariant Prepend(views, BuildAll(env, src, ws[k..])) == BuildAll(env, src, ws)
      {
        var w := ws[k];
        assert ws[k..][0] == w && ws[k..][1..] == ws[k + 1..];
        if w.tviewLen < 0 { return ViewsCrash; }
        var tview := new byte[w.tviewLen + 1](i requires 0 <= i => env.junk(i));
        assert tview[..] == Junk(env, w.tviewLen + 1);
        var res := BuildTview(w, src, tview);
        if res == CRASHED { return ViewsCrash; }
        if res != 0 { return NoViews; }
        BuildAllStep(env, src, ws[k..], views, tview[..]);
        views, k := views + [tview[..w.tviewLen]], k + 1;
      }
      r := Views(views);
    }

    /** Overwrite the open file from its start, view by view, then cut it to the total length. cuts
        holds what the file contains from one write to the next. */
    method WriteViews(views: seq<bytes>) returns (ghost cuts: seq<bytes>)
      requires IsFile(tree, rp)
      modifies `tree
      ensures tree == old(tree)[rp := File(Concat(views))]
      ensures |cuts| == |views| + 1
      ensures forall k | 0 <= k < |cuts| :: cuts[k] == Overlaid(old(tree)[rp].content, Concat(views[..k]))
    {
      hide Concat;
      ghost var before := tree[rp].content;
      ConcatNothing();
      assert views[..0] == [] && Overlaid(before, []) == before;
      cuts := [before];
      var total, k := 0, 0;
      while k < |views|
        invariant 0 <= k <= |views| && total == |Concat(views[..k])|
        invariant IsFile(tree, rp) && tree == old(tree)[rp := tree[rp]]
        invariant tree[rp].content == Overlaid(before, Concat(views[..k]))
        invariant |cuts| == k + 1 && forall j | 0 <= j <= k :: cuts[j] == Overlaid(before, Concat(views[..j]))
      {
        var content := tree[rp].content;
        assert views[..k + 1] == views[..k] + [views[k]];
        ConcatLast(views[..k], views[k]);
        OverlaidMore(before, Concat(views[..k]), views[k]);
        tree := tree[rp := File(WriteAt(content, total, views[k]))];
        cuts := cuts + [tree[rp].content];
        total, k := total + |views[k]|, k + 1;
      }
      assert views[..k] == views;
      assert tree[rp].content[..total] == Concat(views);
      tree := tree[rp := File(tree[rp].content[..total])];
    }

    /** The hash of the whole target, fed view by view. */
    method HashViews(views: seq<bytes>) returns (sum: Checksum)
      ensures sum == env.md5(Concat(views))
    {
      var hashed, k := [], 0;
      while k < |views|
        invariant 0 <= k <= |views| && hashed == Concat(views[..k])
      {
        assert views[..k + 1] == views[..k] + [views[k]];
        ConcatLast(views[..k], views[k]);
        hashed, k := hashed + views[k], k + 1;
      }
      assert views[..k] == views;
      sum := env.md5(hashed);
    }

    method FinishFile(f: Faults, src: Option<bytes>, text: Option<Checksum>) returns (res: int)
      requires src.Some? ==> IsFile(tree, rp)
      modifies `tree, `db
      ensures Outcome(Wc(), res) == Finish(env, f, old(Wc()), targetRev, Document(), src, text)
    {
      hide BuildAll, Checkout, Concat, Rooted;
      var built := BuildViews(src);
      if built.NoViews? { return 3; }
      if built.ViewsCrash? { return ABORTED; }
      if text.Some? && doc.version != -1 {
        var sum := HashViews(built.views);
        if sum != text.value {
          var got := CheckoutFile(f, rp, targetRev);
          if got != 0 { return 5; }
          res := SaveChecksum(f, rp, text);
          return;
        }
      }
      if src == None {
        if !CanCreate(f, tree, rp) {
          if doc.wnd != [] { return ABORTED; }
          res := SaveChecksum(f, rp, text);
          return;
        }
        if rp !in tree { tree := tree[rp := File([])]; }
      }
      if doc.version != -1 { var _ := WriteViews(built.views); }
      res := SaveChecksum(f, rp, text);
    }

    method CloseCurrent(f: Faults, token: Option<bytes>, text: Option<Checksum>) returns (res: int)
      modifies `tree, `db
      ensures Outcome(Wc(), res) == CloseFile(env, f, old(Wc()), targetRev, Document(), token, text)
    {
      hide Finish, Checkout, Rooted;
      if token.Some? && ft.Some? && token != ft { return 1; }
      if f.open || !IsFile(tree, rp) {
        res := FinishFile(f, None, text);
        return;
      }
      var content := tree[rp].content;
      if base.Some? {
        var same := VerifyChecksum(content, base.value);
        if same {
          res := FinishFile(f, Some(content), text);
          return;
        }
        var done := false;
        if text.Some? { done := VerifyChecksum(content, text.value); }
        if !done && !env.tolerant {
          var got := CheckoutFile(f, rp, targetRev);
          if got != 0 { return 2; }
        }
        res := SaveChecksum(f, rp, text);
      } else if text.Some? {
        var done := VerifyChecksum(content, text.value);
        if done {
          res := SaveChecksum(f, rp, text);
        } else {
          if f.unlink { return ABORTED; }
          tree := tree - {rp};
          res := FinishFile(f, None, text);
        }
      } else {
        res := FinishFile(f, Some(content), text);
      }
    }

    /** One command. */
    method Dispatch(a: Action) returns (res: int)
      requires Valid()
      modifies this, doc
      ensures res == Perform(env, old(Now()), a).1
      ensures res != ABORTED ==> Valid() && Now() == Perform(env, old(Now()), a).0
    {
      hide CloseFile, Parse, DeleteEntry, MakeDir, Checkout, Concat, Rooted;
      if a == Ignored { return 0; }
      var f := env.faults(tick);
      tick := tick + 1;
      res := 0;
      match a {
        case TargetRev(r) => targetRev := r;
        case OpenRoot => res := EnsureDir(f, [], 1, 2);
        case Delete(p) => res := DeletePath(f, p);
        case AddDir(p) => res := EnsureDir(f, p, 2, 3);
        case OpenDir(p) => res := EnsureDir(f, p, 2, 5);
        case Add(p, token) =>
          ClearDoc();
          rp, ft := p, token;
          res := if IsDir(tree, p) then 2 else 0;
        case Open(p, token, r) =>
          ClearDoc();
          rp, ft, rev := p, token, r;
          if IsDir(tree, p) {
            res := 2;
          } else if p !in tree {
            var got := CheckoutFile(f, p, r);
            res := if got != 0 then 3 else 0;
          }
        case ApplyTextdelta(b) => base := b;
        case Chunk(data) =>
          ghost var before := doc.Value();
          assert data[0..|data|] == data;
          res := doc.ParseDoc(env.zlib, data, 0, |data|);
        case Close(token, text) =>
          res := CloseCurrent(f, token, text);
          ClearDoc();
        case Ignored =>
      }
    }
  }
}
