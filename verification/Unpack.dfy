/** The spec-driven unpacker of ra_svn: one token of lookahead, pushed back when it does not match. */
module Unpack {
  import opened Bytes
  import opened Tokenizer
  import opened Wire

  datatype What = N | W | S

  /** The suffix of a spec letter: none, `?` or `*`. */
  datatype Many = One | Maybe | Star

  /** A spec string, letter by letter: `(`, `)`, and n, w or s with its suffix. */
  datatype Want = WOpen | WClose | WItem(what: What, many: Many)

  /** What a caller's variable receives: an absent number reads as 0, anything else absent as NULL. */
  datatype Val = VNum(n: int) | VBytes(s: bytes) | VNull | VMany(vals: seq<Val>)

  const VUNPACK := 0x4000

  function KindOf(what: What): Kind {
    match what case N => NUM_OUT case W => TOK_OUT case S => STRING_OUT
  }

  function MismatchOf(what: What): int {
    match what case N => VUNPACK + 3 case W => VUNPACK + 4 case S => VUNPACK + 5
  }

  function AbsentOf(what: What): Val { if what == N then VNum(0) else VNull }

  function ValOf(t: Tok): Val {
    match t case TWord(w) => VBytes(w) case TNumber(n) => VNum(n) case TText(s) => VBytes(s) case _ => VNull
  }

  function CodeOf(x: Read): int
    requires !x.Got?
  {
    if x.Eod? then PARSE_EOD else x.code
  }

  /** A call's result: the reader, the return code, and the values stored so far. */
  datatype Unpacked = Unpacked(rd: Reading, res: int, vals: seq<Val>)

  /** The values of a starred item, from its first token on; the token that ends it is pushed back. */
  function Gather(r: Reading, what: What, vals: seq<Val>): (u: Unpacked)
    requires r.pos <= |r.buf| && !r.back
    decreases |r.buf| - r.pos
  {
    if r.lx.kind != KindOf(what) then Unpacked(r.(back := true), 0, vals)
    else
      var x := ReadOne(r);
      var more := vals + [ValOf(TokOf(r))];
      if !x.Got? then Unpacked(r, CodeOf(x), more) else Gather(x.rd, what, more)
  }

  function UnpackOne(r: Reading, w: Want): Unpacked {
    var x := ReadOne(r);
    if !x.Got? then Unpacked(r, CodeOf(x), [])
    else
      var k := x.rd.lx.kind;
      match w
      case WOpen => if k == LIST_START then Unpacked(x.rd, 0, []) else Unpacked(x.rd.(back := true), VUNPACK + 1, [])
      case WClose => if k == LIST_END then Unpacked(x.rd, 0, []) else Unpacked(x.rd.(back := true), VUNPACK + 2, [])
      case WItem(what, One) =>
        if k == KindOf(what) then Unpacked(x.rd, 0, [ValOf(TokOf(x.rd))])
        else Unpacked(x.rd.(back := true), MismatchOf(what), [])
      case WItem(what, Maybe) =>
        if k == KindOf(what) then Unpacked(x.rd, 0, [ValOf(TokOf(x.rd))])
        else Unpacked(x.rd.(back := true), 0, [AbsentOf(what)])
      case WItem(what, Star) =>
        var u := Gather(x.rd, what, []);
        Unpacked(u.rd, u.res, [VMany(u.vals)])
  }

  /** A whole spec; it stops at the first item that fails. */
  function Vunpack(r: Reading, spec: seq<Want>): Unpacked
    decreases |spec|
  {
    if spec == [] then Unpacked(r, 0, [])
    else
      var u := UnpackOne(r, spec[0]);
      if u.res != 0 then u
      else
        var v := Vunpack(u.rd, spec[1..]);
        Unpacked(v.rd, v.res, u.vals + v.vals)
  }

  /** One item of a spec, by the token that is read for it: it fails only at a token of another kind,
      where one is required, and the code says what was. */
  lemma OneFailsExactly(r: Reading, w: Want)
    requires ReadOne(r).Got? && (w.WItem? ==> w.many != Star)
    ensures var u, k := UnpackOne(r, w), ReadOne(r).rd.lx.kind;
            u.res == match w
                     case WOpen => if k == LIST_START then 0 else VUNPACK + 1
                     case WClose => if k == LIST_END then 0 else VUNPACK + 2
                     case WItem(N, One) => if k == NUM_OUT then 0 else VUNPACK + 3
                     case WItem(W, One) => if k == TOK_OUT then 0 else VUNPACK + 4
                     case WItem(S, One) => if k == STRING_OUT then 0 else VUNPACK + 5
                     case WItem(_, _) => 0
    ensures var u, k := UnpackOne(r, w), ReadOne(r).rd.lx.kind;
            && (w == WItem(N, Maybe) && k != NUM_OUT ==> u.vals == [VNum(0)])
            && (w == WItem(W, Maybe) && k != TOK_OUT ==> u.vals == [VNull])
            && (w == WItem(S, Maybe) && k != STRING_OUT ==> u.vals == [VNull])
  {
    hide ReadOne;
  }

  // ---- the unpacker as the program runs it ----

  /** What the caller's variable receives from the token just read. */
  method CurrentValue(rd: Reader, what: What) returns (v: Val)
    requires rd.Complete() && rd.kind == KindOf(what)
    ensures v == ValOf(TokOf(rd.Now()))
  {
    if what == N {
      v := VNum(rd.i);
    } else {
      var s := rd.Slice();
      v := VBytes(s);
    }
  }

  /** svnproto_vunpack: letter by letter. Where the reader stands after an error is left open. */
  method RunVunpack(rd: Reader, spec: seq<Want>) returns (res: int, vals: seq<Val>)
    requires rd.Valid()
    modifies rd
    ensures rd.Valid()
    ensures var u := Vunpack(old(rd.Now()), spec); res == u.res && vals == u.vals && (res == 0 ==> rd.Now() == u.rd)
  {
    res, vals := 0, [];
    var k := 0;
    while k < |spec|
      invariant 0 <= k <= |spec| && res == 0 && rd.Valid()
      invariant Vunpack(old(rd.Now()), spec) == After(vals, Vunpack(rd.Now(), spec[k..]))
    {
      assert spec[k..][0] == spec[k] && spec[k..][1..] == spec[k + 1..];
      VunpackStep(vals, rd.Now(), spec[k..]);
      var more;
      res, more := RunOne(rd, spec[k]);
      vals := vals + more;
      if res != 0 { return; }
      k := k + 1;
    }
    assert vals + [] == vals;
  }

  function After(vals: seq<Val>, u: Unpacked): Unpacked { u.(vals := vals + u.vals) }

  lemma VunpackStep(vals: seq<Val>, r: Reading, spec: seq<Want>)
    requires spec != []
    ensures UnpackOne(r, spec[0]).res != 0 ==> After(vals, Vunpack(r, spec)) == After(vals, UnpackOne(r, spec[0]))
    ensures var u := UnpackOne(r, spec[0]);
            u.res == 0 ==> After(vals, Vunpack(r, spec)) == After(vals + u.vals, Vunpack(u.rd, spec[1..]))
  {
    hide UnpackOne;
    var u := UnpackOne(r, spec[0]);
    if u.res == 0 {
      var v := Vunpack(u.rd, spec[1..]);
      assert vals + (u.vals + v.vals) == vals + u.vals + v.vals;
    }
  }

  /** One spec letter with its suffix. */
  method RunOne(rd: Reader, w: Want) returns (res: int, vals: seq<Val>)
    requires rd.Valid()
    modifies rd
    ensures rd.Valid()
    ensures var u := UnpackOne(old(rd.Now()), w); res == u.res && vals == u.vals && (res == 0 ==> rd.Now() == u.rd)
  {
    vals := [];
    res := rd.ReadOneValue();
    if res != 0 { return; }
    match w {
      case WOpen =>
        if rd.kind != LIST_START {
          rd.backtrack := true;
          res := VUNPACK + 1;
        }
      case WClose =>
        if rd.kind != LIST_END {
          rd.backtrack := true;
          res := VUNPACK + 2;
        }
      case WItem(what, many) =>
        if many == Star {
          var got;
          res, got := RunStar(rd, what);
          vals := [VMany(got)];
        } else if rd.kind == KindOf(what) {
          var v := CurrentValue(rd, what);
          vals := [v];
        } else {
          rd.backtrack := true;
          if many == Maybe {
            vals := [AbsentOf(what)];
          } else {
            res := MismatchOf(what);
          }
        }
    }
  }

  /** The loop of a starred item, entered with its first token read. */
  method RunStar(rd: Reader, what: What) returns (res: int, vals: seq<Val>)
    requires rd.Valid() && rd.Complete() && !rd.backtrack
    modifies rd
    ensures rd.Valid()
    ensures var u := Gather(old(rd.Now()), what, []); res == u.res && vals == u.vals && (res == 0 ==> rd.Now() == u.rd)
  {
    res, vals := 0, [];
    while rd.kind == KindOf(what)
      invariant res == 0 && rd.Valid() && rd.Complete() && !rd.backtrack && rd.pos <= |rd.Total()|
      invariant Gather(rd.Now(), what, vals) == Gather(old(rd.Now()), what, [])
      decreases |rd.Total()| - rd.pos
    {
      var v := CurrentValue(rd, what);
      vals := vals + [v];
      res := rd.ReadOneValue();
      if res != 0 { return; }
    }
    rd.backtrack := true;
  }

  // ---- unpacking inverts packing ----

  /** What a sender put on the wire for a spec. */
  datatype Arg =
    | Open
    | Close
    | Plain(t: Tok)
    | Optional(what: What, opt: Option<Tok>)
    | Repeated(what: What, ts: seq<Tok>)

  predicate Fits(t: Tok, what: What) {
    match what case N => t.TNumber? case W => t.TWord? case S => t.TText?
  }

  function WhatOf(t: Tok): What { match t case TNumber(_) => N case TWord(_) => W case _ => S }

  predicate GoodArg(a: Arg) {
    match a
    case Plain(t) => GoodTok(t) && Fits(t, WhatOf(t))
    case Optional(what, t) => t.Some? ==> GoodTok(t.value) && Fits(t.value, what)
    case Repeated(what, ts) => forall t | t in ts :: GoodTok(t) && Fits(t, what)
    case _ => true
  }

  function Toks(a: Arg): seq<Tok> {
    match a
    case Open => [TOpen]
    case Close => [TClose]
    case Plain(t) => [t]
    case Optional(_, t) => if t.Some? then [t.value] else []
    case Repeated(_, ts) => ts
  }

  function WantOf(a: Arg): Want {
    match a
    case Open => WOpen
    case Close => WClose
    case Plain(t) => WItem(WhatOf(t), One)
    case Optional(what, _) => WItem(what, Maybe)
    case Repeated(what, _) => WItem(what, Star)
  }

  function ValsOf(ts: seq<Tok>): seq<Val> { if ts == [] then [] else [ValOf(ts[0])] + ValsOf(ts[1..]) }

  function Received(a: Arg): seq<Val> {
    match a
    case Open => []
    case Close => []
    case Plain(t) => [ValOf(t)]
    case Optional(what, t) => [if t.Some? then ValOf(t.value) else AbsentOf(what)]
    case Repeated(_, ts) => [VMany(ValsOf(ts))]
  }

  function AllToks(args: seq<Arg>): seq<Tok> { if args == [] then [] else Toks(args[0]) + AllToks(args[1..]) }

  function Spec(args: seq<Arg>): seq<Want> { if args == [] then [] else [WantOf(args[0])] + Spec(args[1..]) }

  function AllReceived(args: seq<Arg>): seq<Val> {
    if args == [] then [] else Received(args[0]) + AllReceived(args[1..])
  }

  /** An item that is absent, or a run that ends, is followed by a token that shows it: not a string,
      which could not be pushed back, and not another of its kind. */
  predicate Shown(a: Arg, next: seq<Tok>) {
    (a.Repeated? || (a.Optional? && a.opt == None)) ==> next != [] && !next[0].TText? && !Fits(next[0], a.what)
  }

  predicate WellSent(args: seq<Arg>, after: seq<Tok>) {
    args == [] || (GoodArg(args[0]) && Shown(args[0], AllToks(args[1..]) + after) && WellSent(args[1..], after))
  }

  /** A reader in front of the tokens ts and then the bytes of tail. */
  ghost predicate Before(r: Reading, ts: seq<Tok>, tail: bytes) {
    GoodToks(ts) &&
    if ts == [] then At(r, tail)
    else exists sep: byte :: IsSpace(sep) && At(r, SpellTok(ts[0], sep) + (Spell(ts[1..]) + tail))
  }

  /** A reader that has just delivered ts[0]: the rest is next, and unless the token is a string it
      can be pushed back. */
  ghost predicate Holding(r: Reading, ts: seq<Tok>, tail: bytes) {
    && ts != [] && r.pos <= |r.buf| && !r.back && TokOf(r) == ts[0]
    && Before(r, ts[1..], tail) && (!ts[0].TText? ==> Before(r.(back := true), ts, tail))
    && (forall what :: r.lx.kind == KindOf(what) <==> Fits(ts[0], what))
    && (r.lx.kind == LIST_START <==> ts[0] == TOpen) && (r.lx.kind == LIST_END <==> ts[0] == TClose)
  }

  lemma NextToken(r: Reading, ts: seq<Tok>, tail: bytes)
    requires ts != [] && Before(r, ts, tail)
    ensures ReadOne(r).Got? && Holding(ReadOne(r).rd, ts, tail)
  {
    hide ReadOne, At, SpellTok, Spell;
    var sep: byte :| IsSpace(sep) && At(r, SpellTok(ts[0], sep) + (Spell(ts[1..]) + tail));
    TokenRead(r, ts[0], sep, Spell(ts[1..]) + tail);
    AtIsBefore(ReadOne(r).rd, ts[1..], tail);
  }

  lemma AtIsBefore(r: Reading, ts: seq<Tok>, tail: bytes)
    requires GoodToks(ts) && At(r, Spell(ts) + tail)
    ensures Before(r, ts, tail)
  {
    hide At, SpellTok;
    if ts == [] {
      assert Spell(ts) + tail == tail;
    } else {
      assert Spell(ts) + tail == SpellTok(ts[0], SPACE) + (Spell(ts[1..]) + tail);
      assert IsSpace(SPACE);
    }
  }

  lemma GatherStep(r: Reading, what: What, ts: seq<Tok>, tail: bytes, vals: seq<Val>)
    requires Holding(r, ts, tail) && Fits(ts[0], what) && ts[1..] != []
    ensures ReadOne(r).Got? && Holding(ReadOne(r).rd, ts[1..], tail)
    ensures Gather(r, what, vals) == Gather(ReadOne(r).rd, what, vals + [ValOf(ts[0])])
  {
    NextToken(r, ts[1..], tail);
  }

  lemma ValsStep(vals: seq<Val>, ts: seq<Tok>)
    ensures ts == [] ==> vals + ValsOf(ts) == vals
    ensures ts != [] ==> vals + [ValOf(ts[0])] + ValsOf(ts[1..]) == vals + ValsOf(ts)
  {
  }

  lemma GatherEnds(r: Reading, what: What, next: seq<Tok>, tail: bytes, vals: seq<Val>)
    requires Holding(r, next, tail) && !next[0].TText? && !Fits(next[0], what)
    ensures Gather(r, what, vals) == Unpacked(r.(back := true), 0, vals) && Before(r.(back := true), next, tail)
  {
    hide ReadOne, Before;
  }

  lemma {:induction false} GatherReceives(r: Reading, what: What, ts: seq<Tok>, next: seq<Tok>, tail: bytes,
                                          vals: seq<Val>)
    requires Holding(r, ts + next, tail) && (forall t | t in ts :: Fits(t, what))
    requires next != [] && !next[0].TText? && !Fits(next[0], what)
    ensures Gather(r, what, vals) == Unpacked(Gather(r, what, vals).rd, 0, vals + ValsOf(ts))
    ensures Before(Gather(r, what, vals).rd, next, tail)
    decreases |ts|
  {
    hide ReadOne, Before, Holding, Gather, Fits, ValOf, ValsOf;
    ValsStep(vals, ts);
    if ts == [] {
      assert ts + next == next;
      GatherEnds(r, what, next, tail, vals);
    } else {
      assert (ts + next)[0] == ts[0] && ts[0] in ts;
      assert (ts + next)[1..] == ts[1..] + next;
      GatherStep(r, what, ts + next, tail, vals);
      GatherReceives(ReadOne(r).rd, what, ts[1..], next, tail, vals + [ValOf(ts[0])]);
    }
  }

  lemma StarReceives(r: Reading, what: What, ts: seq<Tok>, next: seq<Tok>, tail: bytes)
    requires Before(r, ts + next, tail) && forall t | t in ts :: Fits(t, what)
    requires next != [] && !next[0].TText? && !Fits(next[0], what)
    ensures var u := UnpackOne(r, WItem(what, Star));
            u.res == 0 && u.vals == [VMany(ValsOf(ts))] && Before(u.rd, next, tail)
  {
    hide ReadOne, Before, Holding;
    NextToken(r, ts + next, tail);
    GatherReceives(ReadOne(r).rd, what, ts, next, tail, []);
    assert [] + ValsOf(ts) == ValsOf(ts);
  }

  lemma AbsentReceives(r: Reading, what: What, next: seq<Tok>, tail: bytes)
    requires Before(r, next, tail) && next != [] && !next[0].TText? && !Fits(next[0], what)
    ensures var u := UnpackOne(r, WItem(what, Maybe));
            u.res == 0 && u.vals == [AbsentOf(what)] && Before(u.rd, next, tail)
  {
    NextToken(r, next, tail);
  }

  lemma OneReceives(r: Reading, a: Arg, next: seq<Tok>, tail: bytes)
    requires GoodArg(a) && Shown(a, next) && Before(r, Toks(a) + next, tail)
    ensures var u := UnpackOne(r, WantOf(a)); u.res == 0 && u.vals == Received(a) && Before(u.rd, next, tail)
  {
    hide ReadOne, Before;
    if a.Repeated? {
      StarReceives(r, a.what, a.ts, next, tail);
    } else if Toks(a) == [] {
      assert Toks(a) + next == next;
      AbsentReceives(r, a.what, next, tail);
    } else {
      NextToken(r, Toks(a) + next, tail);
      assert (Toks(a) + next)[1..] == next;
    }
  }

  /** For any arguments sent as their spec allows, unpacking gives exactly the values sent, and leaves
      the reader exactly behind their bytes, wherever they stand and whatever follows. */
  lemma {:induction false} UnpackInvertsPack(r: Reading, args: seq<Arg>, after: seq<Tok>, tail: bytes)
    requires WellSent(args, after) && Before(r, AllToks(args) + after, tail)
    ensures var u := Vunpack(r, Spec(args));
            u.res == 0 && u.vals == AllReceived(args) && Before(u.rd, after, tail)
    decreases |args|
  {
    hide UnpackOne, Before;
    if args == [] {
      assert AllToks(args) + after == after;
    } else {
      var next := AllToks(args[1..]) + after;
      assert AllToks(args) + after == Toks(args[0]) + next;
      OneReceives(r, args[0], next, tail);
      assert Spec(args)[0] == WantOf(args[0]) && Spec(args)[1..] == Spec(args[1..]);
      UnpackInvertsPack(UnpackOne(r, WantOf(args[0])).rd, args[1..], after, tail);
    }
  }
}
