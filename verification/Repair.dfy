/** The repair pass: every file named in the checksum database is verified, and fetched anew where
    it does not verify. */
module Repair {
  import opened Bytes
  import opened SvnEdit
  import opened SvnEditLaws

  function Ancestors(p: Path): (r: set<Path>)
    ensures forall d :: d in r ==> Below(p, d) && d != p
  {
    var r := set i | 0 <= i < |p| && p[i] == SLASH :: p[..i];
    assert forall i | 0 <= i < |p| && p[i] == SLASH :: p[..i] + [SLASH] == p[..i + 1];
    r
  }

  /** Every missing directory on the way to p; None if a file is in the way, or one cannot be made. */
  function MakeDirs(f: Faults, t: Tree, p: Path): Option<Tree> {
    if exists d | d in Ancestors(p) :: IsFile(t, d) || (f.mkdir && d !in t) then None
    else Some(t + map d | d in Ancestors(p) && d !in t :: Dir)
  }

  function Served(env: Env, f: Faults, rev: int, p: Path): Option<bytes> {
    if f.fetch || env.fetch(p, rev) == None then None else Some(Concat(env.fetch(p, rev).value))
  }

  predicate Verified(env: Env, wc: Copy, p: Path)
    requires p in wc.db
  {
    IsDir(wc.tree, p) || (IsFile(wc.tree, p) && env.md5(wc.tree[p].content) == wc.db[p])
  }

  /** What becomes of one key; None where the program exits. A path that is no regular file is left alone. */
  function RepairKey(env: Env, f: Faults, rev: int, wc: Copy, p: Path): Option<Copy>
    requires p in wc.db
  {
    if f.open && IsFile(wc.tree, p) then None
    else if Verified(env, wc, p) then Some(wc)
    else match Served(env, f, rev, p)
      case None => Some(Copy(if f.unlink then wc.tree else wc.tree - {p}, wc.db - {p}))
      case Some(content) =>
        if IsFile(wc.tree, p) then Some(wc.(tree := wc.tree[p := File(content)]))
        else if f.create || MakeDirs(f, wc.tree, p) == None then None
        else Some(wc.(tree := MakeDirs(f, wc.tree, p).value[p := File(content)]))
  }

  // ---- the order of the scan ----

  /** The order of a Berkeley DB tree: byte by byte, and a prefix first. */
  predicate Leq(a: bytes, b: bytes) {
    a == [] || (b != [] && (a[0] < b[0] || (a[0] == b[0] && Leq(a[1..], b[1..]))))
  }

  /** The first k bytes agree, and the next is smaller in a. */
  predicate SmallerAt(a: bytes, b: bytes, k: int) { 0 <= k < |a| && k < |b| && a[..k] == b[..k] && a[k] < b[k] }

  lemma SmallerLater(a: bytes, b: bytes, k: int)
    requires a != [] && b != [] && k > 0
    ensures SmallerAt(a, b, k) <==> a[0] == b[0] && SmallerAt(a[1..], b[1..], k - 1)
  {
    if k < |a| && k < |b| {
      var x, y := a[1..][..k - 1], b[1..][..k - 1];
      assert a[..k] == [a[0]] + x && b[..k] == [b[0]] + y;
      if a[..k] == b[..k] { assert x == a[..k][1..] == b[..k][1..] == y && a[..k][0] == b[..k][0]; }
    }
  }

  lemma {:induction false} LeqExactly(a: bytes, b: bytes)
    ensures Leq(a, b) <==> a <= b || exists k :: SmallerAt(a, b, k)
  {
    if a != [] && b != [] {
      LeqExactly(a[1..], b[1..]);
      assert a <= b <==> a[0] == b[0] && a[1..] <= b[1..] by {
        assert a == [a[0]] + a[1..] && b == [b[0]] + b[1..];
      }
      if a[0] < b[0] { assert SmallerAt(a, b, 0); }
      forall k | SmallerAt(a, b, k) ensures k == 0 || (a[0] == b[0] && SmallerAt(a[1..], b[1..], k - 1)) {
        if k > 0 { SmallerLater(a, b, k); }
      }
      forall k | a[0] == b[0] && SmallerAt(a[1..], b[1..], k) ensures SmallerAt(a, b, k + 1) {
        SmallerLater(a, b, k + 1);
      }
    }
  }

  lemma {:induction false} LeqTotal(a: bytes, b: bytes)
    ensures Leq(a, b) || Leq(b, a)
    ensures Leq(a, b) && Leq(b, a) ==> a == b
  {
    if a != [] && b != [] {
      LeqTotal(a[1..], b[1..]);
      assert a == [a[0]] + a[1..] && b == [b[0]] + b[1..];
    }
  }

  lemma {:induction false} LeqTrans(a: bytes, b: bytes, c: bytes)
    requires Leq(a, b) && Leq(b, c)
    ensures Leq(a, c)
  {
    if a != [] && a[0] == b[0] == c[0] { LeqTrans(a[1..], b[1..], c[1..]); }
  }

  lemma {:induction false} PrefixLeq(a: bytes, b: bytes)
    requires a <= b
    ensures Leq(a, b)
  {
    if a != [] {
      assert a[1..] <= b[1..];
      PrefixLeq(a[1..], b[1..]);
    }
  }

  ghost predicate Least(p: Path, keys: set<Path>) { p in keys && forall q | q in keys :: Leq(p, q) }

  lemma {:induction false} LeastKey(keys: set<Path>) returns (p: Path)
    requires keys != {}
    ensures Least(p, keys)
    decreases |keys|
  {
    p :| p in keys;
    LeqTotal(p, p);
    if keys != {p} {
      var q := LeastKey(keys - {p});
      LeqTotal(p, q);
      if !Leq(p, q) {
        p := q;
      } else {
        forall k | k in keys ensures Leq(p, k) {
          if k != p { LeqTrans(p, q, k); }
        }
      }
    }
  }

  /** Nothing below a path comes before it. */
  lemma BelowIsLater(p: Path, q: Path)
    requires Below(p, q) && Leq(p, q)
    ensures p == q
  {
    assert q <= q + [SLASH] <= p;
    PrefixLeq(q, p);
    LeqTotal(p, q);
  }

  // ---- the guarantee ----

  /** A directory made on the way to a restored file. */
  ghost predicate MadeOnTheWay(env: Env, rev: int, wc0: Copy, wc: Copy, q: Path) {
    && IsDir(wc.tree, q)
    && exists p :: p in wc0.db && p !in wc0.tree && env.fetch(p, rev).Some? && Below(p, q)
  }

  ghost predicate Undisturbed(env: Env, rev: int, wc0: Copy, wc: Copy, q: Path) {
    SameNode(wc, wc0, q) || (q !in wc0.tree && MadeOnTheWay(env, rev, wc0, wc, q))
  }

  /** A key visited while f was failing: verified and untouched, equal to the server's copy, or
      forgotten, and its file removed if it could be. */
  ghost predicate Settled(env: Env, f: Faults, rev: int, wc0: Copy, wc: Copy, p: Path)
    requires p in wc0.db
  {
    if Verified(env, wc0, p) then SameKey(wc, wc0, p) && SameNode(wc, wc0, p)
    else match Served(env, f, rev, p)
      case Some(content) => SameKey(wc, wc0, p) && p in wc.tree && wc.tree[p] == File(content)
      case None =>
        p !in wc.db
        && (MadeOnTheWay(env, rev, wc0, wc, p) || if f.unlink then SameNode(wc, wc0, p) else p !in wc.tree)
  }

  /** The pass half done: `turn` says when the keys behind were visited, `todo` holds those ahead,
      which are as they were. */
  ghost predicate Progress(env: Env, rev: int, wc0: Copy, wc: Copy, turn: map<Path, nat>, todo: set<Path>) {
    && todo <= wc0.db.Keys && wc.db.Keys <= wc0.db.Keys && turn.Keys == wc0.db.Keys - todo
    && (forall p | p in turn :: Settled(env, env.faults(turn[p]), rev, wc0, wc, p))
    && (forall p | p in todo :: SameKey(wc, wc0, p) && SameNode(wc, wc0, p))
    && (forall q | q !in wc0.db :: Undisturbed(env, rev, wc0, wc, q))
  }

  /** Making directories changes nothing that was there, and adds directories only. */
  lemma MakeDirsAdds(f: Faults, t: Tree, p: Path)
    requires MakeDirs(f, t, p).Some?
    ensures var t' := MakeDirs(f, t, p).value;
            && (forall q | q in t :: q in t' && t'[q] == t[q])
            && (forall q | q in t' && q !in t :: t'[q] == Dir && Below(p, q) && q != p)
            && Rooted(t', p)
  {
    var t' := MakeDirs(f, t, p).value;
    forall i | 0 <= i < |p| && p[i] == SLASH ensures IsDir(t', p[..i]) {
      assert p[..i] in Ancestors(p);
    }
  }

  /** What one visit may do to another path: at most turn nothing into a directory on the way. */
  ghost predicate Bystander(env: Env, rev: int, wc0: Copy, wc: Copy, wc': Copy, p: Path, q: Path) {
    SameKey(wc', wc, q)
    && (SameNode(wc', wc, q) || (q !in wc.tree && IsDir(wc'.tree, q) && p in wc0.db && p !in wc0.tree
                                 && env.fetch(p, rev).Some? && Below(p, q)))
  }

  lemma VisitedKey(env: Env, f: Faults, rev: int, wc0: Copy, wc: Copy, p: Path)
    requires p in wc.db && SameKey(wc, wc0, p) && SameNode(wc, wc0, p)
    requires RepairKey(env, f, rev, wc, p).Some?
    ensures var wc' := RepairKey(env, f, rev, wc, p).value;
            Settled(env, f, rev, wc0, wc', p) && forall q | q != p :: Bystander(env, rev, wc0, wc, wc', p, q)
  {
    if !IsFile(wc.tree, p) && !Verified(env, wc, p) && Served(env, f, rev, p).Some? {
      MakeDirsAdds(f, wc.tree, p);
    }
  }

  lemma StillSettled(env: Env, f: Faults, rev: int, wc0: Copy, wc: Copy, wc': Copy, p: Path, q: Path)
    requires q in wc0.db && Settled(env, f, rev, wc0, wc, q) && Bystander(env, rev, wc0, wc, wc', p, q)
    ensures Settled(env, f, rev, wc0, wc', q)
  {
  }

  /** A visit of the first key that is left settles it, and leaves the later ones as they were. */
  lemma RepairKeyProgress(env: Env, tick: nat, rev: int, wc0: Copy, wc: Copy, turn: map<Path, nat>, todo: set<Path>,
                          p: Path)
    requires Progress(env, rev, wc0, wc, turn, todo) && Least(p, todo) && p in wc.db
    requires RepairKey(env, env.faults(tick), rev, wc, p).Some?
    ensures Progress(env, rev, wc0, RepairKey(env, env.faults(tick), rev, wc, p).value, turn[p := tick], todo - {p})
  {
    hide RepairKey, Settled;
    var wc' := RepairKey(env, env.faults(tick), rev, wc, p).value;
    VisitedKey(env, env.faults(tick), rev, wc0, wc, p);
    forall q | q in turn ensures Settled(env, env.faults(turn[q]), rev, wc0, wc', q) {
      assert Bystander(env, rev, wc0, wc, wc', p, q);
      StillSettled(env, env.faults(turn[q]), rev, wc0, wc, wc', p, q);
    }
    forall q | q in todo - {p} ensures SameKey(wc', wc0, q) && SameNode(wc', wc0, q) {
      assert SameKey(wc, wc0, q) && SameNode(wc, wc0, q) && Bystander(env, rev, wc0, wc, wc', p, q);
      if Below(p, q) { BelowIsLater(p, q); }
    }
    forall q | q !in wc0.db ensures Undisturbed(env, rev, wc0, wc', q) {
      assert Undisturbed(env, rev, wc0, wc, q) && Bystander(env, rev, wc0, wc, wc', p, q);
    }
    forall q ensures q in wc'.db.Keys ==> q in wc0.db.Keys {
      if q != p { assert Bystander(env, rev, wc0, wc, wc', p, q); }
    }
  }

  /** The keys that remain are exactly those whose path verified or is a directory, and those for
      which the server gave a copy when their turn came. */
  ghost predicate RemainsExactly(env: Env, rev: int, wc0: Copy, wc: Copy, turn: map<Path, nat>) {
    turn.Keys == wc0.db.Keys && forall p | p in wc0.db ::
      p in wc.db <==> Verified(env, wc0, p) || Served(env, env.faults(turn[p]), rev, p).Some?
  }

  lemma RemainingKeysExactly(env: Env, rev: int, wc0: Copy, wc: Copy, turn: map<Path, nat>)
    requires Progress(env, rev, wc0, wc, turn, {})
    ensures RemainsExactly(env, rev, wc0, wc, turn)
  {
    forall p | p in wc0.db
      ensures p in wc.db <==> Verified(env, wc0, p) || Served(env, env.faults(turn[p]), rev, p).Some?
    {
      assert p in turn && Settled(env, env.faults(turn[p]), rev, wc0, wc, p);
    }
  }

  /** The server's copies have the recorded checksums. */
  ghost predicate ServerAgrees(env: Env, rev: int, wc: Copy) {
    forall p | p in wc.db :: Serves(env, p, rev, wc.db[p])
  }

  lemma RepairedDatabaseAgrees(env: Env, rev: int, wc0: Copy, wc: Copy, turn: map<Path, nat>)
    requires Progress(env, rev, wc0, wc, turn, {}) && ServerAgrees(env, rev, wc0)
    ensures DatabaseAgrees(env, wc)
  {
    forall p | p in wc.db && IsFile(wc.tree, p) ensures env.md5(wc.tree[p].content) == wc.db[p] {
      assert p in turn && Settled(env, env.faults(turn[p]), rev, wc0, wc, p) && Serves(env, p, rev, wc0.db[p]);
    }
  }

  // ---- where the program exits ----

  /** A file stands where a directory on the way to p has to be. */
  ghost predicate Blocked(t: Tree, p: Path) { exists d: Path :: Below(p, d) && IsFile(t, d) }

  /** A directory on the way to p is missing. */
  ghost predicate Pathless(t: Tree, p: Path) { exists d: Path :: Below(p, d) && d !in t }

  lemma AncestorsExactly(p: Path, d: Path)
    ensures d in Ancestors(p) <==> Below(p, d)
  {
    if Below(p, d) {
      var i := |d|;
      assert p[i] == (d + [SLASH])[i] && p[..i] == d;
    }
  }

  /** A visit ends the program exactly at a file that cannot be opened, and where a file that is missing
      is served, but one of its directories or the file itself cannot be made. */
  lemma VisitExitsExactly(env: Env, f: Faults, rev: int, wc: Copy, p: Path)
    requires p in wc.db
    ensures RepairKey(env, f, rev, wc, p) == None
       <==> (IsFile(wc.tree, p) && f.open)
            || (p !in wc.tree && !f.fetch && env.fetch(p, rev).Some?
                && (f.create || Blocked(wc.tree, p) || (f.mkdir && Pathless(wc.tree, p))))
  {
    forall d: Path ensures d in Ancestors(p) <==> Below(p, d) { AncestorsExactly(p, d); }
  }

  /** What a visit that does not end the program does: nothing, where the path is a directory, or its
      file has the checksum; otherwise the server's copy is put there, and what is missing above it; or if
      there is none the key is forgotten, and the file removed. */
  lemma VisitExactly(env: Env, f: Faults, rev: int, wc: Copy, p: Path)
    requires p in wc.db && RepairKey(env, f, rev, wc, p).Some?
    ensures var now := RepairKey(env, f, rev, wc, p).value;
            if p in wc.tree && (wc.tree[p] == Dir || env.md5(wc.tree[p].content) == wc.db[p]) then now == wc
            else if f.fetch || env.fetch(p, rev) == None then
              now == Copy(if f.unlink then wc.tree else wc.tree - {p}, wc.db - {p})
            else
              && now.db == wc.db && p in now.tree && now.tree[p] == File(Concat(env.fetch(p, rev).value))
              && (forall q | q in wc.tree && q != p :: q in now.tree && now.tree[q] == wc.tree[q])
              && (forall q | q in now.tree && q !in wc.tree && q != p :: now.tree[q] == Dir && Below(p, q))
              && (p !in wc.tree ==> Rooted(now.tree, p))
  {
    if !IsFile(wc.tree, p) && !Verified(env, wc, p) && Served(env, f, rev, p).Some? {
      MakeDirsAdds(f, wc.tree, p);
      var t := MakeDirs(f, wc.tree, p).value;
      forall i | 0 <= i < |p| && p[i] == SLASH ensures IsDir(t[p := File([])], p[..i]) { assert p[..i] != p; }
    }
  }

  /** At the end of a pass in which no call fails, a file stands at d. */
  ghost predicate EndsAsFile(env: Env, rev: int, wc0: Copy, d: Path) {
    if d in wc0.db && !Verified(env, wc0, d) then env.fetch(d, rev).Some? else IsFile(wc0.tree, d)
  }

  /** The missing file of this key, if it is served, has a way to it. */
  ghost predicate Reachable(env: Env, rev: int, wc0: Copy, p: Path) {
    p !in wc0.tree && env.fetch(p, rev).Some? ==> forall d: Path | Below(p, d) :: !EndsAsFile(env, rev, wc0, d)
  }

  /** No call fails while the keys are visited. */
  ghost predicate AllWorks(env: Env, turn: map<Path, nat>) { forall p | p in turn :: env.faults(turn[p]) == NO_FAULTS }

  /** When p's turn comes, what is above it is as it will be at the end. */
  lemma AboveIsFinal(env: Env, rev: int, wc0: Copy, wc: Copy, turn: map<Path, nat>, todo: set<Path>, p: Path, d: Path)
    requires Progress(env, rev, wc0, wc, turn, todo) && Least(p, todo) && AllWorks(env, turn) && Below(p, d)
    ensures IsFile(wc.tree, d) <==> EndsAsFile(env, rev, wc0, d)
  {
    assert SameKey(wc, wc0, p);
    if d in wc0.db {
      if d in todo { BelowIsLater(p, d); }
      assert d in turn && Settled(env, env.faults(turn[d]), rev, wc0, wc, d);
    } else {
      assert Undisturbed(env, rev, wc0, wc, d);
    }
  }

  lemma VisitWorksExactly(env: Env, rev: int, wc0: Copy, wc: Copy, turn: map<Path, nat>, todo: set<Path>, p: Path)
    requires Progress(env, rev, wc0, wc, turn, todo) && Least(p, todo) && p in wc.db && AllWorks(env, turn)
    ensures RepairKey(env, NO_FAULTS, rev, wc, p).Some? <==> Reachable(env, rev, wc0, p)
  {
    hide RepairKey, EndsAsFile, Progress;
    assert SameNode(wc, wc0, p) by { NotYet(env, rev, wc0, wc, turn, todo, p); }
    VisitExitsExactly(env, NO_FAULTS, rev, wc, p);
    forall d: Path | Below(p, d) ensures IsFile(wc.tree, d) <==> EndsAsFile(env, rev, wc0, d) {
      AboveIsFinal(env, rev, wc0, wc, turn, todo, p, d);
    }
  }

  lemma NotYet(env: Env, rev: int, wc0: Copy, wc: Copy, turn: map<Path, nat>, todo: set<Path>, p: Path)
    requires Progress(env, rev, wc0, wc, turn, todo) && p in todo
    ensures SameKey(wc, wc0, p) && SameNode(wc, wc0, p)
  {
  }

  ghost predicate NothingFails(env: Env) { forall t: nat :: env.faults(t) == NO_FAULTS }

  /** Every key whose turn has come was visited in its order, at a time of its own. */
  ghost predicate InOrder(turn: map<Path, nat>, todo: set<Path>, from: nat, tick: nat) {
    && tick == from + |turn|
    && (forall p | p in turn :: from <= turn[p] < tick)
    && (forall p, q | p in turn && q in turn && turn[p] < turn[q] :: Leq(p, q) && p != q)
    && (forall p, q | p in turn && q in todo :: Leq(p, q) && p != q)
  }

  lemma NextInOrder(turn: map<Path, nat>, todo: set<Path>, from: nat, tick: nat, p: Path)
    requires InOrder(turn, todo, from, tick) && Least(p, todo)
    ensures InOrder(turn[p := tick], todo - {p}, from, tick + 1)
  {
    assert p !in turn;
    assert turn[p := tick].Keys == turn.Keys + {p};
    assert |turn[p := tick].Keys| == |turn.Keys| + 1;
    assert |turn[p := tick]| == |turn| + 1;
  }

  /** The pass half done, at this time, by visits that all worked. */
  ghost predicate Underway(env: Env, rev: int, wc0: Copy, wc: Copy, turn: map<Path, nat>, todo: set<Path>, from: nat,
                           tick: nat)
  {
    && Progress(env, rev, wc0, wc, turn, todo) && InOrder(turn, todo, from, tick)
    && (NothingFails(env) ==> forall p | p in turn :: Reachable(env, rev, wc0, p))
  }

  lemma Beginning(env: Env, rev: int, wc0: Copy, tick: nat)
    ensures Underway(env, rev, wc0, wc0, map[], wc0.db.Keys, tick, tick)
  {
  }

  lemma TodoIsThere(env: Env, rev: int, wc0: Copy, wc: Copy, turn: map<Path, nat>, todo: set<Path>, from: nat,
                    tick: nat)
    requires Underway(env, rev, wc0, wc, turn, todo, from, tick)
    ensures forall p | p in todo :: p in wc.db && p in wc0.db
  {
    forall p | p in todo ensures p in wc.db { assert SameKey(wc, wc0, p); }
  }

  /** One more visit. */
  lemma Visited(env: Env, rev: int, wc0: Copy, wc: Copy, turn: map<Path, nat>, todo: set<Path>, from: nat, tick: nat,
                p: Path)
    requires Underway(env, rev, wc0, wc, turn, todo, from, tick) && Least(p, todo) && p in wc.db
    ensures var r := RepairKey(env, env.faults(tick), rev, wc, p);
            && (r.Some? ==> Underway(env, rev, wc0, r.value, turn[p := tick], todo - {p}, from, tick + 1))
            && (r == None && NothingFails(env) ==> !Reachable(env, rev, wc0, p))
            && InOrder(turn, {}, from, tick)
  {
    hide RepairKey, Progress, Reachable;
    NextInOrder(turn, todo, from, tick, p);
    if NothingFails(env) { VisitWorksExactly(env, rev, wc0, wc, turn, todo, p); }
    if RepairKey(env, env.faults(tick), rev, wc, p).Some? { RepairKeyProgress(env, tick, rev, wc0, wc, turn, todo, p); }
  }

  /** What the whole pass comes to. */
  ghost predicate Passed(env: Env, rev: int, wc0: Copy, wc: Copy, turn: map<Path, nat>) {
    && Progress(env, rev, wc0, wc, turn, {}) && RemainsExactly(env, rev, wc0, wc, turn)
    && (ServerAgrees(env, rev, wc0) ==> DatabaseAgrees(env, wc))
  }

  lemma PassEnds(env: Env, rev: int, wc0: Copy, wc: Copy, turn: map<Path, nat>, from: nat, tick: nat)
    requires Underway(env, rev, wc0, wc, turn, {}, from, tick)
    ensures Passed(env, rev, wc0, wc, turn) && InOrder(turn, {}, from, tick)
    ensures NothingFails(env) ==> forall p | p in wc0.db :: Reachable(env, rev, wc0, p)
  {
    hide Settled, Reachable, InOrder;
    RemainingKeysExactly(env, rev, wc0, wc, turn);
    if ServerAgrees(env, rev, wc0) { RepairedDatabaseAgrees(env, rev, wc0, wc, turn); }
  }

  // ---- the pass as the program runs it ----

  class Checker {
    const env: Env
    var tree: Tree
    var db: map<Path, Checksum>
    var tick: nat

    ghost function Wc(): Copy reads this { Copy(tree, db) }

    constructor (env: Env, tree: Tree, db: map<Path, Checksum>)
      ensures this.env == env && Wc() == Copy(tree, db)
    {
      this.env, this.tree, this.db, tick := env, tree, db, 0;
    }

    /** The body of the scan; ok is false where the program exits. */
    method CheckKey(f: Faults, rev: int, p: Path) returns (ok: bool)
      requires p in db
      modifies `tree, `db
      ensures match RepairKey(env, f, rev, old(Wc()), p)
              case None => !ok
              case Some(wc) => ok && Wc() == wc
    {
      var needFile, open := false, false;
      if p in tree {
        if tree[p].File? {
          if f.open { return false; }
          open := true;
          if env.md5(tree[p].content) != db[p] { needFile := true; }
        }
      } else {
        needFile := true;
      }
      ok := true;
      if needFile {
        var got := Served(env, f, rev, p);
        if got == None {
          db := db - {p};
          if !f.unlink { tree := tree - {p}; }
        } else {
          if !open {
            var dirs := MakeDirs(f, tree, p);
            if f.create || dirs == None { return false; }
            tree := dirs.value;
          }
          tree := tree[p := File(got.value)];
        }
      }
    }

    /** Visits every key once, in the order of the tree; turn says which failures each visit met. */
    method CheckIntegrity(repair: bool, rev: int) returns (ok: bool, ghost turn: map<Path, nat>)
      modifies this
      ensures !repair ==> ok && Wc() == old(Wc())
      ensures repair ==> InOrder(turn, {}, old(tick), tick)
      ensures repair && ok ==> Passed(env, rev, old(Wc()), Wc(), turn)
      ensures repair && NothingFails(env) ==> (ok <==> forall p | p in old(db) :: Reachable(env, rev, old(Wc()), p))
    {
      hide RepairKey, Underway, Passed, Reachable, InOrder, NothingFails;
      ok, turn := true, map[];
      if !repair { return; }
      var todo := db.Keys;
      Beginning(env, rev, Wc(), tick);
      while todo != {}
        invariant ok && Underway(env, rev, old(Wc()), Wc(), turn, todo, old(tick), tick)
        decreases |todo|
      {
        ghost var least := LeastKey(todo);
        var p :| p in todo && forall q | q in todo :: Leq(p, q);
        TodoIsThere(env, rev, old(Wc()), Wc(), turn, todo, old(tick), tick);
        Visited(env, rev, old(Wc()), Wc(), turn, todo, old(tick), tick, p);
        ok := CheckKey(env.faults(tick), rev, p);
        if !ok { return; }
        tick, todo, turn := tick + 1, todo - {p}, turn[p := tick];
      }
      PassEnds(env, rev, old(Wc()), Wc(), turn, old(tick), tick);
    }
  }
}
