/** What closing a file guarantees, and exactly when. */
module SvnEditLaws {
  import opened Bytes
  import opened Svndiff
  import opened TargetView
  import opened SvnEdit

  /** The file at p has the checksum, and the database says so. */
  ghost predicate Holds(env: Env, wc: Copy, p: Path, sum: Checksum) {
    IsFile(wc.tree, p) && env.md5(wc.tree[p].content) == sum && p in wc.db && wc.db[p] == sum
  }

  ghost predicate SameNode(a: Copy, b: Copy, q: Path) {
    (q in a.tree <==> q in b.tree) && (q in a.tree ==> a.tree[q] == b.tree[q])
  }

  ghost predicate SameKey(a: Copy, b: Copy, q: Path) {
    (q in a.db <==> q in b.db) && (q in a.db ==> a.db[q] == b.db[q])
  }

  /** Nothing but p differs. */
  ghost predicate SameElsewhere(a: Copy, b: Copy, p: Path) {
    forall q | q != p :: SameNode(a, b, q) && SameKey(a, b, q)
  }

  /** The server's copy of p at rev, if it has one, has the checksum. */
  ghost predicate Serves(env: Env, p: Path, rev: int, sum: Checksum) {
    env.fetch(p, rev).Some? ==> env.md5(Concat(env.fetch(p, rev).value)) == sum
  }

  /** Every key whose file exists records the checksum of that file. */
  ghost predicate DatabaseAgrees(env: Env, wc: Copy) {
    forall p | p in wc.db && IsFile(wc.tree, p) :: env.md5(wc.tree[p].content) == wc.db[p]
  }

  lemma FinishTouchesOnlyItsFile(env: Env, f: Faults, wc: Copy, rev: int, d: FileDoc,
                                 src: Option<bytes>, text: Option<Checksum>)
    ensures SameElsewhere(Finish(env, f, wc, rev, d, src, text).wc, wc, d.rp)
  {
    hide BuildAll, Concat, Rooted;
  }

  lemma SameElsewhereTrans(a: Copy, b: Copy, c: Copy, p: Path)
    requires SameElsewhere(a, b, p) && SameElsewhere(b, c, p)
    ensures SameElsewhere(a, c, p)
  {
    forall q | q != p ensures SameNode(a, c, q) && SameKey(a, c, q) {
      assert SameNode(a, b, q) && SameNode(b, c, q) && SameKey(a, b, q) && SameKey(b, c, q);
    }
  }

  lemma CloseTouchesOnlyItsFile(env: Env, f: Faults, wc: Copy, rev: int, d: FileDoc,
                                token: Option<bytes>, text: Option<Checksum>)
    ensures SameElsewhere(CloseFile(env, f, wc, rev, d, token, text).wc, wc, d.rp)
  {
    hide Finish, Concat, Rooted;
    match ChooseRoute(env, f, wc.tree, d, token, text) {
      case Apply(src) => FinishTouchesOnlyItsFile(env, f, wc, rev, d, src, text);
      case Replace =>
        var without := wc.(tree := wc.tree - {d.rp});
        FinishTouchesOnlyItsFile(env, f, without, rev, d, None, text);
        SameElsewhereTrans(CloseFile(env, f, wc, rev, d, token, text).wc, without, wc, d.rp);
      case _ =>
    }
  }

  // ---- the tree stays a tree ----

  /** Writing a file where one can be created, or removing one, keeps every path rooted. */
  lemma FileKeepsTree(t: Tree, p: Path, content: bytes)
    requires TreeOk(t) && !IsDir(t, p)
    ensures Rooted(t, p) ==> TreeOk(t[p := File(content)])
    ensures TreeOk(t - {p})
  {
    forall q, i | q in t && 0 <= i < |q| && q[i] == SLASH ensures q[..i] != p && IsDir(t, q[..i]) {
      assert Rooted(t, q);
    }
    forall i | 0 <= i < |p| ensures p[..i] != p { }
  }

  lemma CheckoutKeepsTree(env: Env, f: Faults, t: Tree, p: Path, rev: int)
    requires TreeOk(t)
    ensures Checkout(env, f, t, p, rev).Some? ==> TreeOk(Checkout(env, f, t, p, rev).value)
  {
    if Checkout(env, f, t, p, rev).Some? { FileKeepsTree(t, p, Concat(env.fetch(p, rev).value)); }
  }

  lemma FinishKeepsTree(env: Env, f: Faults, wc: Copy, rev: int, d: FileDoc, src: Option<bytes>, text: Option<Checksum>)
    requires TreeOk(wc.tree) && (src.Some? ==> IsFile(wc.tree, d.rp))
    ensures TreeOk(Finish(env, f, wc, rev, d, src, text).wc.tree)
  {
    var t := Finish(env, f, wc, rev, d, src, text).wc.tree;
    CheckoutKeepsTree(env, f, wc.tree, d.rp, rev);
    if t != wc.tree && IsFile(t, d.rp) && !IsDir(wc.tree, d.rp) {
      FileKeepsTree(wc.tree, d.rp, t[d.rp].content);
      if src.Some? { assert Rooted(wc.tree, d.rp); }
    }
  }

  lemma CloseKeepsTree(env: Env, f: Faults, wc: Copy, rev: int, d: FileDoc, token: Option<bytes>,
                       text: Option<Checksum>)
    requires TreeOk(wc.tree)
    ensures TreeOk(CloseFile(env, f, wc, rev, d, token, text).wc.tree)
  {
    match ChooseRoute(env, f, wc.tree, d, token, text) {
      case Apply(src) => FinishKeepsTree(env, f, wc, rev, d, src, text);
      case Replace =>
        FileKeepsTree(wc.tree, d.rp, []);
        FinishKeepsTree(env, f, wc.(tree := wc.tree - {d.rp}), rev, d, None, text);
      case _ => CheckoutKeepsTree(env, f, wc.tree, d.rp, rev);
    }
  }

  lemma RemovedIsBelow(f: Faults, t: Tree, p: Path)
    requires TreeOk(t) && IsDir(t, p)
    ensures TreeOk(t - Removed(f, t, p))
  {
    var gone := Removed(f, t, p);
    forall q, i | q in t && q !in gone && 0 <= i < |q| && q[i] == SLASH ensures IsDir(t - gone, q[..i]) {
      assert Rooted(t, q);
      var d := q[..i];
      assert d + [SLASH] == q[..i + 1];
      assert Below(q, d);
      if d in gone {
        BelowTrans(q, d, p);
        if f.traverse {
          var s :| s in f.survivors && Within(s, q);
          BelowTrans(s, q, d);
        }
      }
    }
  }

  lemma BelowTrans(a: Path, b: Path, c: Path)
    requires Within(a, b) && Within(b, c)
    ensures Within(a, c)
    ensures a != b || b != c ==> Below(a, c)
  {
    if Below(a, b) && Below(b, c) {
      assert c + [SLASH] == b[..|c| + 1] == a[..|b| + 1][..|c| + 1] == a[..|c| + 1];
    }
  }

  lemma DeleteKeepsTree(f: Faults, wc: Copy, p: Path)
    requires TreeOk(wc.tree)
    ensures TreeOk(DeleteEntry(f, wc, p).wc.tree)
  {
    if IsDir(wc.tree, p) {
      RemovedIsBelow(f, wc.tree, p);
    } else {
      FileKeepsTree(wc.tree, p, []);
    }
  }

  /** A delete that returns 0 has taken away everything within its path, unless that is a directory
      and its traversal failed: this is passed over, and the directory itself stays. */
  lemma DeleteRemovesExactly(f: Faults, wc: Copy, p: Path)
    requires TreeOk(wc.tree) && DeleteEntry(f, wc, p).res == 0
    ensures (forall q | Within(q, p) :: q !in DeleteEntry(f, wc, p).wc.tree) <==> !(IsDir(wc.tree, p) && f.traverse)
  {
    forall q | q in wc.tree && Below(q, p) ensures IsDir(wc.tree, p) {
      assert Rooted(wc.tree, q);
      assert q[..|p|] == p && q[|p|] == (p + [SLASH])[|p|];
    }
    if IsDir(wc.tree, p) && f.traverse {
      assert Within(p, p) && p in DeleteEntry(f, wc, p).wc.tree;
    }
  }

  /** A traversal that fails at once: the directory is left with all its files, and 0 is returned. */
  lemma FailedTraversalIsSuccess(f: Faults, wc: Copy, p: Path)
    requires IsDir(wc.tree, p) && f.traverse && f.survivors == wc.tree.Keys
    ensures DeleteEntry(f, wc, p) == Outcome(wc.(db := wc.db - {p}), 0)
  {
    forall q | q in wc.tree && Below(q, p) ensures exists s | s in f.survivors :: Within(s, q) {
      assert Within(q, q);
    }
    assert wc.tree - Removed(f, wc.tree, p) == wc.tree;
  }

  /** A close without a text checksum never returns 0: it fails earlier or dereferences NULL. */
  lemma NoChecksumNoSuccess(env: Env, f: Faults, wc: Copy, rev: int, d: FileDoc, token: Option<bytes>)
    ensures CloseFile(env, f, wc, rev, d, token, None).res != 0
  {
  }

  // ---- the end-to-end checksum guarantee ----

  /** The file was opened, but is neither the announced source nor already the target. */
  ghost predicate Stale(env: Env, f: Faults, wc: Copy, d: FileDoc, sum: Checksum) {
    var found := Opened(f, wc.tree, d.rp);
    found.Some? && d.base.Some? && env.md5(found.value) !in {d.base.value, sum}
  }

  /** The file was opened and already is the target, so that no delta is applied. */
  ghost predicate Accepted(env: Env, f: Faults, wc: Copy, d: FileDoc, sum: Checksum) {
    var found := Opened(f, wc.tree, d.rp);
    found.Some? && env.md5(found.value) == sum && (d.base.Some? ==> d.base.value != sum)
  }

  /** The source the delta is applied to: an added file never has one. */
  ghost function DeltaSource(f: Faults, wc: Copy, d: FileDoc): Option<bytes> {
    if d.base.Some? then Opened(f, wc.tree, d.rp) else None
  }

  /** Applying the delta to src gives a text with the checksum. */
  ghost predicate DeltaFitsOver(env: Env, src: Option<bytes>, d: FileDoc, sum: Checksum) {
    var r := BuildAll(env, src, d.delta.wnd);
    r.Views? && env.md5(Concat(r.views)) == sum
  }

  /** The file has to be created for an empty delta, cannot be, and is not already there
      under an earlier failure to open it. */
  ghost predicate NotCreated(env: Env, f: Faults, wc: Copy, d: FileDoc, sum: Checksum) {
    && DeltaSource(f, wc, d) == None && d.delta.wnd == [] && !CanCreate(f, wc.tree, d.rp)
    && !(f.open && IsFile(wc.tree, d.rp) && env.md5(wc.tree[d.rp].content) == sum)
  }

  lemma FinishHoldsExactly(env: Env, f: Faults, wc: Copy, rev: int, d: FileDoc, src: Option<bytes>, sum: Checksum)
    requires d.delta.version != -1
    requires Finish(env, f, wc, rev, d, src, Some(sum)).res == 0
    ensures var r := BuildAll(env, src, d.delta.wnd);
            r.Views? &&
            (Holds(env, Finish(env, f, wc, rev, d, src, Some(sum)).wc, d.rp, sum)
             <==> if env.md5(Concat(r.views)) != sum then Serves(env, d.rp, rev, sum)
                  else src.Some? || CanCreate(f, wc.tree, d.rp)
                       || (IsFile(wc.tree, d.rp) && env.md5(wc.tree[d.rp].content) == sum))
    ensures src == None && !CanCreate(f, wc.tree, d.rp) && DeltaFitsOver(env, src, d, sum) ==> d.delta.wnd == []
  {
  }

  /** A successful close of a file with a parsed delta leaves file and database at the text
      checksum, with exactly three exceptions: tolerant mode kept a stale file; the full copy
      from the server was used and does not have the checksum; an empty file could not be created. */
  lemma CloseHoldsExactly(env: Env, f: Faults, wc: Copy, rev: int, d: FileDoc, token: Option<bytes>, sum: Checksum)
    requires d.delta.version != -1
    requires CloseFile(env, f, wc, rev, d, token, Some(sum)).res == 0
    ensures Holds(env, CloseFile(env, f, wc, rev, d, token, Some(sum)).wc, d.rp, sum)
       <==> Accepted(env, f, wc, d, sum)
            || (if Stale(env, f, wc, d, sum) then !env.tolerant && Serves(env, d.rp, rev, sum)
                else if DeltaFitsOver(env, DeltaSource(f, wc, d), d, sum) then !NotCreated(env, f, wc, d, sum)
                else Serves(env, d.rp, rev, sum))
  {
    match ChooseRoute(env, f, wc.tree, d, token, Some(sum)) {
      case Apply(src) => FinishHoldsExactly(env, f, wc, rev, d, src, sum);
      case Replace => FinishHoldsExactly(env, f, wc.(tree := wc.tree - {d.rp}), rev, d, None, sum);
      case _ =>
    }
  }

  /** The guarantee as a caller uses it, by every way out of close_file. */
  lemma SuccessfulCloseHolds(env: Env, f: Faults, wc: Copy, rev: int, d: FileDoc, token: Option<bytes>, sum: Checksum)
    requires d.delta.version != -1 && !env.tolerant && Serves(env, d.rp, rev, sum)
    requires d.delta.wnd == [] && DeltaSource(f, wc, d) == None ==> CanCreate(f, wc.tree, d.rp)
    requires CloseFile(env, f, wc, rev, d, token, Some(sum)).res == 0
    ensures Holds(env, CloseFile(env, f, wc, rev, d, token, Some(sum)).wc, d.rp, sum)
  {
    CloseHoldsExactly(env, f, wc, rev, d, token, sum);
  }

  /** Without a parsed delta nothing checks the result, whatever was announced. After a success the
      file has the checksum exactly when: it could not be opened, and has it already, or is not there
      and is created and the empty file has it; or it was opened with a base checksum, and has it
      already, or was replaced by a server copy that has it; or it was opened without one, and has it
      already, or was emptied and the empty file has it. */
  lemma PropertyOnlyHoldsExactly(env: Env, f: Faults, wc: Copy, rev: int, d: FileDoc, token: Option<bytes>,
                                 sum: Checksum)
    requires d.delta.version == -1
    requires CloseFile(env, f, wc, rev, d, token, Some(sum)).res == 0
    ensures Holds(env, CloseFile(env, f, wc, rev, d, token, Some(sum)).wc, d.rp, sum)
       <==> if IsFile(wc.tree, d.rp) then
              var now := env.md5(wc.tree[d.rp].content);
              if f.open then now == sum
              else if d.base == None then now == sum || (CanCreate(f, wc.tree, d.rp) && env.md5([]) == sum)
              else if Stale(env, f, wc, d, sum) && !env.tolerant then Serves(env, d.rp, rev, sum)
              else now == sum
            else CanCreate(f, wc.tree, d.rp) && env.md5([]) == sum
  {
    hide BuildAll;
    RootedWithout(wc.tree, d.rp);
  }

  lemma RootedWithout(t: Tree, p: Path)
    ensures Rooted(t - {p}, p) <==> Rooted(t, p)
  {
    forall i | 0 <= i < |p| ensures p[..i] != p { }
  }

  /** In particular a locally modified file is emptied, and the call reports success. */
  lemma PropertyOnlyEmptiesModifiedFile(env: Env, wc: Copy, rev: int, d: FileDoc, sum: Checksum)
    requires d.delta == INITIAL_DOC && d.base == None && IsFile(wc.tree, d.rp) && Rooted(wc.tree, d.rp)
    requires env.md5(wc.tree[d.rp].content) != sum
    ensures var o := CloseFile(env, NO_FAULTS, wc, rev, d, d.ft, Some(sum));
            o.res == 0 && o.wc.tree[d.rp] == File([])
  {
    assert (wc.tree - {d.rp})[d.rp := File([])] == wc.tree[d.rp := File([])];
  }

  // ---- two-phase patching in place ----

  ghost predicate AllWellFormed(src: Option<bytes>, ws: seq<Window>) {
    forall w :: w in ws ==> WellFormed(src, w)
  }

  /** The text a delta denotes: every window applied to the original source. */
  ghost function Patch(src: Option<bytes>, ws: seq<Window>): bytes
    requires AllWellFormed(src, ws)
  {
    if ws == [] then [] else Meaning(src, ws[0]) + Patch(src, ws[1..])
  }

  lemma {:induction false} BuildAllMeans(env: Env, src: Option<bytes>, ws: seq<Window>)
    requires AllWellFormed(src, ws)
    ensures BuildAll(env, src, ws).Views? && Concat(BuildAll(env, src, ws).views) == Patch(src, ws)
    decreases |ws|
  {
    if ws != [] {
      var w := ws[0];
      assert w in ws && WellFormed(src, w);
      BuildMeans(src, w, Junk(env, w.tviewLen + 1));
      BuildAllMeans(env, src, ws[1..]);
      var more := BuildAll(env, src, ws[1..]).views;
      assert ([Meaning(src, w)] + more)[1..] == more;
    }
  }

  /** When the file is the announced source, it ends as the patched source, whether it grows or
      shrinks: no window sees what another one wrote. */
  lemma PatchInPlace(env: Env, f: Faults, wc: Copy, rev: int, d: FileDoc, token: Option<bytes>, sum: Checksum)
    requires Opened(f, wc.tree, d.rp).Some? && d.base == Some(env.md5(wc.tree[d.rp].content))
    requires var src := Some(wc.tree[d.rp].content);
             AllWellFormed(src, d.delta.wnd) && env.md5(Patch(src, d.delta.wnd)) == sum
    requires d.delta.version != -1 && !f.save && (token.Some? && d.ft.Some? ==> token == d.ft)
    ensures CloseFile(env, f, wc, rev, d, token, Some(sum))
         == Outcome(Copy(wc.tree[d.rp := File(Patch(Some(wc.tree[d.rp].content), d.delta.wnd))],
                         wc.db[d.rp := sum]), 0)
  {
    BuildAllMeans(env, Some(wc.tree[d.rp].content), d.delta.wnd);
  }

  /** An added file is built from its delta alone, over nothing or over a stray local file. */
  lemma PatchNewFile(env: Env, f: Faults, wc: Copy, rev: int, d: FileDoc, token: Option<bytes>, sum: Checksum)
    requires d.base == None && AllWellFormed(None, d.delta.wnd) && env.md5(Patch(None, d.delta.wnd)) == sum
    requires d.rp in wc.tree ==> IsFile(wc.tree, d.rp) && (f.open || env.md5(wc.tree[d.rp].content) != sum)
    requires d.delta.version != -1 && CanCreate(f, wc.tree, d.rp) && !f.unlink && !f.save
    requires token.Some? && d.ft.Some? ==> token == d.ft
    ensures CloseFile(env, f, wc, rev, d, token, Some(sum))
         == Outcome(Copy(wc.tree[d.rp := File(Patch(None, d.delta.wnd))], wc.db[d.rp := sum]), 0)
  {
    hide BuildAll, Rooted, Patch, Concat;
    RootedWithout(wc.tree, d.rp);
    BuildAllMeans(env, None, d.delta.wnd);
    assert (wc.tree - {d.rp})[d.rp := File(Patch(None, d.delta.wnd))]
        == wc.tree[d.rp := File(Patch(None, d.delta.wnd))];
  }

  /** A failed edit of an intact file does no damage: unless the failure is in saving the
      checksum, which comes last, the working copy is exactly as before. */
  lemma FailedEditDoesNoDamage(env: Env, f: Faults, wc: Copy, rev: int, d: FileDoc, token: Option<bytes>, sum: Checksum)
    requires Opened(f, wc.tree, d.rp).Some? && d.base == Some(env.md5(wc.tree[d.rp].content))
    requires d.delta.version != -1
    requires CloseFile(env, f, wc, rev, d, token, Some(sum)).res !in {0, 10}
    ensures CloseFile(env, f, wc, rev, d, token, Some(sum)).wc == wc
  {
  }
}
