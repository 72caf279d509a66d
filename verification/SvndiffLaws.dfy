/** What the svndiff parser guarantees: it inverts every encoder the format allows, and it can
    be stopped and resumed at any field boundary and nowhere else. */
module SvndiffLaws {
  import opened Bytes
  import opened Base128
  import opened Svndiff

  // ---- an encoder, with every choice the format leaves open ----

  /** One instruction; `short` asks for the one-byte length where it fits. */
  datatype Instr = Instr(insn: Insn, short: bool)

  /** A window as a sender holds it; packInsns and packData ask for compression of a section. */
  datatype Source = Source(svo: nat, svl: nat, tvl: nat, instrs: seq<Instr>, packInsns: bool,
                           data: bytes, packData: bool)

  ghost predicate Long(n: int) { 0 <= n < LONG_LIMIT }

  ghost predicate GoodInsn(i: Insn) {
    0 <= i.code < 4 && Long(i.len) && (if i.code == NEW then i.offset == -1 else Long(i.offset))
  }

  ghost predicate GoodInstrs(instrs: seq<Instr>) {
    forall e :: e in instrs ==> GoodInsn(e.insn)
  }

  function EncodeInstr(e: Instr): bytes
    requires GoodInsn(e.insn)
  {
    var i := e.insn;
    var short := e.short && 1 <= i.len < 64;
    [i.code * 64 + if short then i.len else 0]
    + (if short then [] else Encode(i.len))
    + (if i.code == NEW then [] else Encode(i.offset))
  }

  function EncodeInstrs(instrs: seq<Instr>): bytes
    requires GoodInstrs(instrs)
  {
    if instrs == [] then [] else EncodeInstr(instrs[0]) + EncodeInstrs(instrs[1..])
  }

  function Plain(instrs: seq<Instr>): seq<Insn> {
    if instrs == [] then [] else [instrs[0].insn] + Plain(instrs[1..])
  }

  /** Compressed only on request and only when strictly smaller. */
  function Payload(z: Zlib, raw: bytes, pack: bool): bytes {
    if pack && |z.deflate(raw)| < |raw| then z.deflate(raw) else raw
  }

  function EncodeSection(z: Zlib, raw: bytes, pack: bool): bytes {
    Encode(|raw|) + Payload(z, raw, pack)
  }

  ghost predicate GoodSource(z: Zlib, w: Source) {
    && Long(w.svo) && Long(w.svl) && Long(w.tvl) && GoodInstrs(w.instrs)
    && Long(|EncodeInstrs(w.instrs)|) && Long(|w.data|)
    && Long(|EncodeSection(z, EncodeInstrs(w.instrs), w.packInsns)|)
    && Long(|EncodeSection(z, w.data, w.packData)|)
  }

  function InsnSection(z: Zlib, w: Source): bytes
    requires GoodSource(z, w)
  {
    EncodeSection(z, EncodeInstrs(w.instrs), w.packInsns)
  }

  function DataSection(z: Zlib, w: Source): bytes { EncodeSection(z, w.data, w.packData) }

  function EncodeWindow(z: Zlib, w: Source): bytes
    requires GoodSource(z, w)
  {
    var insns, data := InsnSection(z, w), DataSection(z, w);
    Encode(w.svo) + (Encode(w.svl) + (Encode(w.tvl) + (Encode(|insns|) + (Encode(|data|) + (insns + data)))))
  }

  function EncodeWindows(z: Zlib, ws: seq<Source>): bytes
    requires forall w :: w in ws ==> GoodSource(z, w)
  {
    if ws == [] then [] else EncodeWindow(z, ws[0]) + EncodeWindows(z, ws[1..])
  }

  function EncodeDoc(z: Zlib, version: byte, ws: seq<Source>): bytes
    requires forall w :: w in ws ==> GoodSource(z, w)
  {
    [83, 86, 78, version] + EncodeWindows(z, ws)
  }

  function Received(z: Zlib, w: Source): Window
    requires GoodSource(z, w)
  {
    Window(w.svo, w.svl, w.tvl, |InsnSection(z, w)|, |DataSection(z, w)|, Plain(w.instrs), Some(w.data))
  }

  function ReceivedAll(z: Zlib, ws: seq<Source>): seq<Window>
    requires forall w :: w in ws ==> GoodSource(z, w)
  {
    if ws == [] then [] else [Received(z, ws[0])] + ReceivedAll(z, ws[1..])
  }

  // ---- round trip ----

  lemma InsnRoundTrip(e: Instr, rest: bytes)
    requires GoodInsn(e.insn)
    ensures DecodeInsn(EncodeInstr(e) + rest) == GotInsn(e.insn, |EncodeInstr(e)|)
  {
    hide DecodeInsn, Decode, Encode;
    var i := e.insn;
    var low := if e.short && 1 <= i.len < 64 then i.len else 0;
    var len := if low > 0 then [] else Encode(i.len);
    var off := if i.code == NEW then [] else Encode(i.offset);
    assert EncodeInstr(e) + rest == [i.code * 64 + low] + (len + (off + rest));
    if low == 0 { NumberRoundTrip(i.len, off + rest); }
    if i.code != NEW { NumberRoundTrip(i.offset, rest); }
    DecodeParts(i, low, len, off, rest);
  }

  lemma DecodeParts(i: Insn, low: nat, len: bytes, off: bytes, rest: bytes)
    requires GoodInsn(i) && low < 64
    requires if low > 0 then low == i.len && len == [] else Decode(len + (off + rest)) == Number(i.len, |len|)
    requires if i.code == NEW then off == [] else Decode(off + rest) == Number(i.offset, |off|)
    ensures DecodeInsn([i.code * 64 + low] + (len + (off + rest))) == GotInsn(i, 1 + |len| + |off|)
  {
    var s := [i.code * 64 + low] + (len + (off + rest));
    assert s[1..] == len + (off + rest);
    assert s[1 + |len|..] == off + rest;
  }

  /** Any instructions, and behind them nothing, or bytes that are no instruction: those end the list
      without an error. */
  lemma {:induction false} InsnsRoundTrip(instrs: seq<Instr>, bad: bytes)
    requires GoodInstrs(instrs) && (bad != [] ==> DecodeInsn(bad).NoInsn?)
    ensures DecodeInsns(EncodeInstrs(instrs) + bad) == Plain(instrs)
  {
    if instrs == [] {
      assert EncodeInstrs(instrs) + bad == bad;
    } else {
      var one, rest := EncodeInstr(instrs[0]), EncodeInstrs(instrs[1..]) + bad;
      assert EncodeInstrs(instrs) + bad == one + rest;
      InsnRoundTrip(instrs[0], rest);
      assert (one + rest)[|one|..] == rest;
      InsnsRoundTrip(instrs[1..], bad);
    }
  }

  lemma EncodedAlone(n: nat)
    requires Long(n)
    ensures Decode(Encode(n)) == Number(n, |Encode(n)|) && |Encode(n)| > 0
  {
    NumberRoundTrip(n, []);
    assert Encode(n) + [] == Encode(n);
  }

  lemma CutInLength(first: byte, n: nat, k: nat)
    requires Long(n) && first % 64 == 0 && k < |Encode(n)|
    ensures DecodeInsn([first] + Encode(n)[..k]).NoInsn?
  {
    hide Decode, Encode;
    EncodedAlone(n);
    NumberCut(Encode(n), k);
    assert ([first] + Encode(n)[..k])[1..] == Encode(n)[..k];
  }

  lemma CutInOffset(first: byte, len: bytes, n: nat, k: nat)
    requires Long(n) && first / 64 != NEW && k < |Encode(n)|
    requires var rest := len + Encode(n)[..k];
             if first % 64 == 0 then Decode(rest).Number? && Decode(rest).used == |len| else len == []
    ensures DecodeInsn([first] + (len + Encode(n)[..k])).NoInsn?
  {
    hide Decode, Encode;
    EncodedAlone(n);
    NumberCut(Encode(n), k);
    var s := [first] + (len + Encode(n)[..k]);
    assert s[1..] == len + Encode(n)[..k] && s[1 + |len|..] == Encode(n)[..k];
  }

  /** An instruction that is cut short is none. */
  lemma CutInsnIsNone(e: Instr, k: nat)
    requires GoodInsn(e.insn) && 0 < k < |EncodeInstr(e)|
    ensures DecodeInsn(EncodeInstr(e)[..k]).NoInsn?
  {
    hide DecodeInsn, Decode, Encode;
    var i := e.insn;
    var low := if e.short && 1 <= i.len < 64 then i.len else 0;
    var len := if low > 0 then [] else Encode(i.len);
    var first: byte := i.code * 64 + low;
    var s := EncodeInstr(e);
    if k <= |len| {
      assert s[..k] == [first] + Encode(i.len)[..k - 1];
      CutInLength(first, i.len, k - 1);
    } else {
      var off := Encode(i.offset)[..k - 1 - |len|];
      assert s[..k] == [first] + (len + off);
      if low == 0 { NumberRoundTrip(i.len, off); }
      CutInOffset(first, len, i.offset, k - 1 - |len|);
    }
  }

  /** A section by its two lengths: outside the buffer it has no result; stored raw it is taken as it is;
      otherwise it must inflate to no more than the announced length. */
  lemma SectionExactly(z: Zlib, n: nat, payload: bytes, rest: bytes, left: int)
    requires Long(n)
    ensures var head := Encode(n); var r := DecodeSection(z, head + payload + rest, |head| + left);
            && (r == Overrun <==> left < 0 || left > |payload + rest|)
            && (left == |payload| ==> r == if |payload| == n then Section(payload, |head| + left)
                                           else match z.inflate(payload)
                                                case Some(data) =>
                                                  if |data| > n then BadSection else Section(data, |head| + left)
                                                case None => BadSection)
  {
    var head := Encode(n);
    assert head + payload + rest == head + (payload + rest);
    NumberRoundTrip(n, payload + rest);
    assert (head + payload + rest)[|head|..|head| + |payload|] == payload;
  }

  lemma SectionRoundTrip(z: Zlib, raw: bytes, pack: bool, rest: bytes)
    requires InversePair(z) && Long(|raw|)
    ensures var e := EncodeSection(z, raw, pack);
            DecodeSection(z, e + rest, |e|) == Section(raw, |e|)
  {
    var n, payload := Encode(|raw|), Payload(z, raw, pack);
    var s := EncodeSection(z, raw, pack) + rest;
    assert s == n + (payload + rest);
    NumberRoundTrip(|raw|, payload + rest);
    assert s[|n|..|n| + |payload|] == payload;
    assert z.inflate(z.deflate(raw)) == Some(raw);
  }

  /** A step that consumes exactly the field in front leaves the rest to parse. */
  lemma ParseField(z: Zlib, d: Doc, field: bytes, rest: bytes, d': Doc)
    requires d.Valid() && field != [] && d'.Valid()
    requires OneStep(z, d, field + rest) == Next(d', |field|)
    ensures Parse(z, d, field + rest) == Parse(z, d', rest)
  {
    assert (field + rest)[|field|..] == rest;
  }

  function With(d: Doc, w: Window, s: State): Doc { Doc(d.version, s, d.wnd + [w]) }

  /** The window header after one more number, by the state that reads it. */
  function Put(w: Window, s: State, n: int): Window {
    if s == SVO then w.(sviewOffset := n)
    else if s == SVL then w.(sviewLen := n)
    else if s == TVL then w.(tviewLen := n)
    else if s == INSL then w.(inslen := n)
    else w.(newlen := n)
  }

  function After(s: State): State {
    if s == SVO then SVL else if s == SVL then TVL else if s == TVL then INSL else if s == INSL then NEWL else INSNS
  }

  lemma HeaderNumber(z: Zlib, d: Doc, w: Window, s: State, n: nat, rest: bytes)
    requires s in {SVO, SVL, TVL, INSL, NEWL} && Long(n)
    ensures Parse(z, With(d, w, s), Encode(n) + rest) == Parse(z, With(d, Put(w, s, n), After(s)), rest)
  {
    NumberRoundTrip(n, rest);
    var d0, d1 := With(d, w, s), With(d, Put(w, s, n), After(s));
    assert d0.SetLast(Put(w, s, n)).wnd == d1.wnd;
    ParseField(z, d0, Encode(n), rest, d1);
  }

  lemma HeaderViews(z: Zlib, d: Doc, w: Source, rest: bytes)
    requires d.state == NWND && Long(w.svo) && Long(w.svl) && Long(w.tvl)
    ensures Parse(z, d, Encode(w.svo) + (Encode(w.svl) + (Encode(w.tvl) + rest)))
         == Parse(z, With(d, Window(w.svo, w.svl, w.tvl, 0, 0, [], None), INSL), rest)
  {
    var s2 := Encode(w.tvl) + rest;
    var s1 := Encode(w.svl) + s2;
    var s0 := Encode(w.svo) + s1;
    assert s0[0..] == s0;
    assert Parse(z, d, s0) == Parse(z, With(d, EMPTY_WINDOW, SVO), s0);
    var w1 := Put(EMPTY_WINDOW, SVO, w.svo);
    var w2 := Put(w1, SVL, w.svl);
    HeaderNumber(z, d, EMPTY_WINDOW, SVO, w.svo, s1);
    HeaderNumber(z, d, w1, SVL, w.svl, s2);
    HeaderNumber(z, d, w2, TVL, w.tvl, rest);
  }

  lemma HeaderLengths(z: Zlib, d: Doc, w: Window, inslen: nat, newlen: nat, rest: bytes)
    requires Long(inslen) && Long(newlen)
    ensures Parse(z, With(d, w, INSL), Encode(inslen) + (Encode(newlen) + rest))
         == Parse(z, With(d, w.(inslen := inslen, newlen := newlen), INSNS), rest)
  {
    HeaderNumber(z, d, w, INSL, inslen, Encode(newlen) + rest);
    HeaderNumber(z, d, w.(inslen := inslen), NEWL, newlen, rest);
  }

  lemma InsnSectionField(z: Zlib, d: Doc, w: Window, instrs: seq<Instr>, pack: bool, rest: bytes)
    requires InversePair(z) && GoodInstrs(instrs) && Long(|EncodeInstrs(instrs)|) && w.insns == []
    requires w.inslen == |EncodeSection(z, EncodeInstrs(instrs), pack)|
    ensures Parse(z, With(d, w, INSNS), EncodeSection(z, EncodeInstrs(instrs), pack) + rest)
         == Parse(z, With(d, w.(insns := Plain(instrs)), BYTES), rest)
  {
    hide DecodeSection, EncodeSection, EncodeInstrs, DecodeInsns, Plain, Parse;
    var d0, d1 := With(d, w, INSNS), With(d, w.(insns := Plain(instrs)), BYTES);
    SectionRoundTrip(z, EncodeInstrs(instrs), pack, rest);
    InsnsRoundTrip(instrs, []);
    assert EncodeInstrs(instrs) + [] == EncodeInstrs(instrs);
    assert [] + Plain(instrs) == Plain(instrs);
    assert d0.SetLast(d1.Last()).wnd == d1.wnd;
    ParseField(z, d0, EncodeSection(z, EncodeInstrs(instrs), pack), rest, d1);
  }

  lemma DataSectionField(z: Zlib, d: Doc, w: Window, data: bytes, pack: bool, rest: bytes)
    requires InversePair(z) && Long(|data|) && w.newlen == |EncodeSection(z, data, pack)|
    ensures Parse(z, With(d, w, BYTES), EncodeSection(z, data, pack) + rest)
         == Parse(z, With(d, w.(bytes := Some(data)), NWND), rest)
  {
    hide DecodeSection, EncodeSection, Parse;
    var d0, d1 := With(d, w, BYTES), With(d, w.(bytes := Some(data)), NWND);
    SectionRoundTrip(z, data, pack, rest);
    assert d0.SetLast(d1.Last()).wnd == d1.wnd;
    ParseField(z, d0, EncodeSection(z, data, pack), rest, d1);
  }

  lemma WindowRoundTrip(z: Zlib, d: Doc, w: Source, rest: bytes)
    requires InversePair(z) && d.state == NWND && GoodSource(z, w)
    ensures Parse(z, d, EncodeWindow(z, w) + rest) == Parse(z, With(d, Received(z, w), NWND), rest)
  {
    var insns, data := InsnSection(z, w), DataSection(z, w);
    var s1 := insns + (data + rest);
    var s0 := Encode(|insns|) + (Encode(|data|) + s1);
    EncodedWindowThen(z, w, rest);
    HeaderViews(z, d, w, s0);
    var head := Window(w.svo, w.svl, w.tvl, 0, 0, [], None);
    HeaderLengths(z, d, head, |insns|, |data|, s1);
    var full := head.(inslen := |insns|, newlen := |data|);
    InsnSectionField(z, d, full, w.instrs, w.packInsns, data + rest);
    DataSectionField(z, d, full.(insns := Plain(w.instrs)), w.data, w.packData, rest);
  }

  lemma EncodedWindowThen(z: Zlib, w: Source, rest: bytes)
    requires GoodSource(z, w)
    ensures EncodeWindow(z, w) + rest
         == Encode(w.svo) + (Encode(w.svl) + (Encode(w.tvl)
              + (Encode(|InsnSection(z, w)|) + (Encode(|DataSection(z, w)|)
                   + (InsnSection(z, w) + (DataSection(z, w) + rest))))))
  {
    Reassociate(Encode(w.svo), Encode(w.svl), Encode(w.tvl), Encode(|InsnSection(z, w)|),
                Encode(|DataSection(z, w)|), InsnSection(z, w), DataSection(z, w), rest);
  }

  lemma Reassociate(a: bytes, b: bytes, c: bytes, d: bytes, e: bytes, f: bytes, g: bytes, rest: bytes)
    ensures a + (b + (c + (d + (e + (f + g))))) + rest == a + (b + (c + (d + (e + (f + (g + rest))))))
  {
  }

  function Extended(d: Doc, more: seq<Window>): Doc { d.(wnd := d.wnd + more) }

  lemma ExtendedTwice(d: Doc, w: Window, more: seq<Window>)
    requires d.state == NWND
    ensures Extended(With(d, w, NWND), more) == Extended(d, [w] + more)
  {
    assert d.wnd + [w] + more == d.wnd + ([w] + more);
  }

  lemma {:induction false} WindowsRoundTrip(z: Zlib, d: Doc, ws: seq<Source>)
    requires InversePair(z) && d.state == NWND && forall w :: w in ws ==> GoodSource(z, w)
    ensures Parse(z, d, EncodeWindows(z, ws)) == Done(Extended(d, ReceivedAll(z, ws)))
    decreases |ws|
  {
    if ws == [] {
      assert Extended(d, []) == d;
    } else {
      var next := With(d, Received(z, ws[0]), NWND);
      WindowRoundTrip(z, d, ws[0], EncodeWindows(z, ws[1..]));
      WindowsRoundTrip(z, next, ws[1..]);
      ExtendedTwice(d, Received(z, ws[0]), ReceivedAll(z, ws[1..]));
    }
  }

  /** Any document, in any of its encodings, comes back window for window. */
  lemma DocRoundTrip(z: Zlib, version: byte, ws: seq<Source>)
    requires InversePair(z) && forall w :: w in ws ==> GoodSource(z, w)
    ensures Parse(z, INITIAL_DOC, EncodeDoc(z, version, ws))
         == Done(Doc(if version < 128 then version else version - 256, NWND, ReceivedAll(z, ws)))
  {
    var magic := [83, 86, 78, version];
    var s := magic + EncodeWindows(z, ws);
    assert s[..3] == [83, 86, 78] && s[3] == version;
    var d := Doc(SignedChar(version), NWND, []);
    ParseField(z, INITIAL_DOC, magic, EncodeWindows(z, ws), d);
    WindowsRoundTrip(z, d, ws);
    assert [] + ReceivedAll(z, ws) == ReceivedAll(z, ws);
  }

  // ---- what a failure leaves ----

  /** A document begins with SVN and a version byte, and with nothing else. */
  lemma VersionExactly(z: Zlib, d: Doc, s: bytes)
    requires d.state == VERSION && s != []
    ensures var r := OneStep(z, d, s);
            if |s| >= 4 && s[..3] == Ascii("SVN") then
              var version: int := s[3];
              r == Next(d.(version := if version < 128 then version else version - 256, state := NWND), 4)
            else r == Fail(d, PARSE_DOC + 1)
  {
    assert Ascii("SVN") == [83, 86, 78];
  }

  /** A header number that is not complete is stored as far as it goes, and the state stays. */
  lemma FailedNumberStays(z: Zlib, d: Doc, w: Window, s: State, t: bytes)
    requires s in {SVO, SVL, TVL, INSL, NEWL} && t != [] && Decode(t).Broken?
    ensures OneStep(z, With(d, w, s), t) == Fail(With(d, Put(w, s, Decode(t).val), s), PARSE_DOC + CutCode(s))
  {
    hide Decode;
    assert With(d, w, s).SetLast(Put(w, s, Decode(t).val)).wnd == With(d, Put(w, s, Decode(t).val), s).wnd;
  }

  /** A section that is not good leaves the window as it was; the parser has moved on behind the
      instructions all the same. */
  lemma FailedSectionStays(z: Zlib, d: Doc, w: Window, t: bytes)
    requires t != []
    ensures DecodeSection(z, t, w.inslen) == BadSection ==>
              OneStep(z, With(d, w, INSNS), t) == Fail(With(d, w, BYTES), PARSE_DOC + 7)
    ensures DecodeSection(z, t, w.newlen) == BadSection ==>
              OneStep(z, With(d, w, BYTES), t) == Fail(With(d, w, BYTES), PARSE_DOC + 8)
  {
    hide DecodeSection;
  }

  // ---- resumption ----

  /** A step depends on nothing beyond the bytes it consumes. */
  lemma StepLocal(z: Zlib, d: Doc, a: bytes, b: bytes)
    requires a != [] && b != [] && d.Valid()
    requires var r := OneStep(z, d, a); r.Next? && r.used <= |b| && a[..r.used] == b[..r.used]
    ensures OneStep(z, d, b) == OneStep(z, d, a)
  {
    var u := OneStep(z, d, a).used;
    if d.state == VERSION {
      assert a[..3] == a[..u][..3] == b[..u][..3] == b[..3];
      assert a[3] == a[..u][3] == b[..u][3] == b[3];
    } else if d.state != NWND {
      NumberPrefix(a, b, u);
      if d.state == INSNS {
        SectionLocal(z, a, b, d.Last().inslen);
      } else if d.state == BYTES {
        SectionLocal(z, a, b, d.Last().newlen);
      }
    }
  }

  lemma NumberPrefix(a: bytes, b: bytes, u: nat)
    requires u <= |a| && u <= |b| && a[..u] == b[..u]
    ensures Decode(a).Number? && Decode(a).used <= u ==> Decode(b) == Decode(a)
  {
    if Decode(a).Number? && Decode(a).used <= u {
      assert a[..Decode(a).used] == a[..u][..Decode(a).used];
      assert b[..Decode(a).used] == b[..u][..Decode(a).used];
      DecodeLocal(a, b);
    }
  }

  lemma SectionLocal(z: Zlib, a: bytes, b: bytes, encodedLen: int)
    requires var r := DecodeSection(z, a, encodedLen);
             r.Section? && r.used <= |b| && a[..r.used] == b[..r.used]
    ensures DecodeSection(z, b, encodedLen) == DecodeSection(z, a, encodedLen)
  {
    var u := DecodeSection(z, a, encodedLen).used;
    NumberPrefix(a, b, u);
    var n := Decode(a);
    assert a[n.used..u] == a[..u][n.used..] == b[..u][n.used..] == b[n.used..u];
  }

  /** The positions in s between two fields, as the parser meets them from d. */
  ghost predicate Boundary(z: Zlib, d: Doc, s: bytes, k: nat)
    requires d.Valid()
    decreases |s|, if d.state == NWND then 1 else 0
  {
    k == 0 || (s != [] && var r := OneStep(z, d, s);
               r.Next? && r.used <= k && Boundary(z, r.doc, s[r.used..], k - r.used))
  }

  /** A first call that returns 0 leaves the second exactly the rest of the work. */
  lemma {:induction false} ParseAppend(z: Zlib, d: Doc, a: bytes, b: bytes)
    requires d.Valid() && Parse(z, d, a).Done?
    ensures Parse(z, d, a + b) == Parse(z, Parse(z, d, a).doc, b)
    decreases |a|, if d.state == NWND then 1 else 0
  {
    if a == [] {
      assert a + b == b;
    } else {
      var r := OneStep(z, d, a);
      assert (a + b)[..r.used] == a[..r.used];
      StepLocal(z, d, a, a + b);
      assert (a + b)[r.used..] == a[r.used..] + b;
      ParseAppend(z, r.doc, a[r.used..], b);
    }
  }

  /** In a document that parses, the prefixes that parse are those cut between two fields. */
  lemma {:induction false} PrefixParsesAtBoundaries(z: Zlib, d: Doc, s: bytes, k: nat)
    requires d.Valid() && Parse(z, d, s).Done? && k <= |s|
    ensures Parse(z, d, s[..k]).Done? <==> Boundary(z, d, s, k)
    decreases |s|, if d.state == NWND then 1 else 0
  {
    if k != 0 {
      var t := s[..k];
      var r := OneStep(z, d, s);
      if r.used <= k {
        assert s[..r.used] == t[..r.used];
        StepLocal(z, d, s, t);
        assert t[r.used..] == s[r.used..][..k - r.used];
        PrefixParsesAtBoundaries(z, r.doc, s[r.used..], k - r.used);
      } else if OneStep(z, d, t).Next? {
        var u := OneStep(z, d, t).used;
        assert s[..u] == t[..u];
        StepLocal(z, d, t, s);
        assert false;
      }
    }
  }

  /** Where a cut after k bytes of s falls: between two fields, inside the version or a number, where
      the parser fails with a code, or inside the payload of a section, where it reads on past the end. */
  datatype Cut = Between | InNumber(code: int) | InPayload

  /** The code of the state that is cut. */
  function CutCode(s: State): int {
    match s
    case VERSION => 1
    case NWND => 0
    case SVO => 2
    case SVL => 3
    case TVL => 4
    case INSL => 5
    case NEWL => 6
    case INSNS => 7
    case BYTES => 8
  }

  function CutOf(z: Zlib, d: Doc, s: bytes, k: nat): Cut
    requires d.Valid()
    decreases |s|, if d.state == NWND then 1 else 0
  {
    if k == 0 || s == [] then Between
    else
      var r := OneStep(z, d, s);
      if r.Next? && r.used <= k then CutOf(z, r.doc, s[r.used..], k - r.used)
      else if d.state in {INSNS, BYTES} && Decode(s).Number? && Decode(s).used <= k then InPayload
      else InNumber(CutCode(d.state))
  }

  lemma {:induction false} ScanCut(s: bytes, k: nat, room: nat, acc: int, used: nat)
    requires var n := Scan(s, room, acc, used); n.Number? && k < n.used - used
    ensures Scan(s[..k], room, acc, used).Broken?
    decreases |s|
  {
    if k > 0 {
      assert s[..k][1..] == s[1..][..k - 1];
      ScanCut(s[1..], k - 1, room - 1, Wrap(acc * 128 + s[0] % 128), used + 1);
    }
  }

  lemma SectionCut(z: Zlib, s: bytes, k: nat, encodedLen: int)
    requires var r := DecodeSection(z, s, encodedLen); r.Section? && k < r.used
    ensures Decode(s).Number?
    ensures DecodeSection(z, s[..k], encodedLen) == if Decode(s).used <= k then Overrun else BadSection
  {
    hide Scan;
    if Decode(s).used <= k {
      assert s[..k][..k] == s[..k];
      NumberPrefix(s, s[..k], k);
    } else {
      ScanCut(s, k, MAX_ENCODED_INT_LEN, 0, 0);
    }
  }

  lemma StepCut(z: Zlib, d: Doc, s: bytes, k: nat)
    requires d.Valid() && s != [] && 0 < k <= |s|
    requires var r := OneStep(z, d, s); r.Next? && k < r.used
    ensures match CutOf(z, d, s, k)
            case Between => false
            case InNumber(code) => OneStep(z, d, s[..k]).Fail? && OneStep(z, d, s[..k]).code == PARSE_DOC + code
            case InPayload => OneStep(z, d, s[..k]) == Undefined
  {
    hide Decode, DecodeSection;
    if d.state == INSNS {
      SectionCut(z, s, k, d.Last().inslen);
    } else if d.state == BYTES {
      SectionCut(z, s, k, d.Last().newlen);
    } else if d.state == VERSION {
      assert |s[..k]| == k < 4;
    } else {
      NumberCut(s, k);
    }
  }

  lemma NumberCut(s: bytes, k: nat)
    requires Decode(s).Number? && k < Decode(s).used
    ensures Decode(s[..k]).Broken?
  {
    ScanCut(s, k, MAX_ENCODED_INT_LEN, 0, 0);
  }

  /** What a call on the first k bytes of a document that parses comes to, by where they end. */
  lemma {:induction false} CutExactly(z: Zlib, d: Doc, s: bytes, k: nat)
    requires d.Valid() && Parse(z, d, s).Done? && k <= |s|
    ensures var r := Parse(z, d, s[..k]);
            match CutOf(z, d, s, k)
            case Between => r.Done? && Boundary(z, d, s, k)
            case InNumber(code) => r.Failed? && r.code == PARSE_DOC + code && code in {1, 2, 3, 4, 5, 6, 7, 8}
            case InPayload => r == Unknown
    decreases |s|, if d.state == NWND then 1 else 0
  {
    hide OneStep;
    if k != 0 {
      var t, r := s[..k], OneStep(z, d, s);
      if r.used <= k {
        assert s[..r.used] == t[..r.used];
        StepLocal(z, d, s, t);
        assert t[r.used..] == s[r.used..][..k - r.used];
        CutExactly(z, r.doc, s[r.used..], k - r.used);
      } else {
        StepCut(z, d, s, k);
        StepCodes(z, d, s, k);
      }
    }
  }

  lemma StepCodes(z: Zlib, d: Doc, s: bytes, k: nat)
    requires d.Valid() && s != [] && 0 < k && OneStep(z, d, s).Next? && k < OneStep(z, d, s).used
    ensures CutOf(z, d, s, k).InNumber? ==> CutOf(z, d, s, k).code in {1, 2, 3, 4, 5, 6, 7, 8}
  {
  }

  lemma ConcatPrefix(chunks: seq<bytes>, j: nat)
    requires j <= |chunks|
    ensures var k := |Concat(chunks[..j])|;
            k <= |Concat(chunks)| && Concat(chunks)[..k] == Concat(chunks[..j])
  {
    assert chunks == chunks[..j] + chunks[j..];
    ConcatAppend(chunks[..j], chunks[j..]);
  }

  /** Chunks parse one by one exactly when each initial run of them parses as a whole. */
  lemma {:induction false} ChunkPrefixes(z: Zlib, d: Doc, chunks: seq<bytes>)
    requires d.Valid()
    ensures ParseChunks(z, d, chunks).Done?
       <==> forall j | 0 <= j <= |chunks| :: Parse(z, d, Concat(chunks[..j])).Done?
    ensures ParseChunks(z, d, chunks).Done? ==> ParseChunks(z, d, chunks) == Parse(z, d, Concat(chunks))
    decreases |chunks|
  {
    if chunks != [] {
      var a, rest := chunks[0], chunks[1..];
      ConcatLast([], a);
      assert [] + [a] == chunks[..1] && [] + a == a;
      if Parse(z, d, a).Done? {
        var d' := Parse(z, d, a).doc;
        ChunkPrefixes(z, d', rest);
        ParseAppend(z, d, a, Concat(rest));
        forall j | 0 <= j <= |rest|
          ensures Parse(z, d', Concat(rest[..j])) == Parse(z, d, Concat(chunks[..j + 1]))
        {
          assert chunks[..j + 1][1..] == rest[..j];
          ParseAppend(z, d, a, Concat(rest[..j]));
        }
        assert forall j | 1 <= j <= |chunks| :: Parse(z, d', Concat(rest[..j - 1])) == Parse(z, d, Concat(chunks[..j]));
      }
    }
  }

  /** However a document is cut into chunks: they all parse exactly when every cut is between
      two fields, and then the state reached is that of one call on the whole document. */
  lemma ChunkedParse(z: Zlib, d: Doc, chunks: seq<bytes>)
    requires d.Valid() && Parse(z, d, Concat(chunks)).Done?
    ensures ParseChunks(z, d, chunks).Done?
       <==> forall j | 0 <= j <= |chunks| :: Boundary(z, d, Concat(chunks), |Concat(chunks[..j])|)
    ensures ParseChunks(z, d, chunks).Done? ==> ParseChunks(z, d, chunks) == Parse(z, d, Concat(chunks))
  {
    ChunkPrefixes(z, d, chunks);
    forall j | 0 <= j <= |chunks|
      ensures Boundary(z, d, Concat(chunks), |Concat(chunks[..j])|) <==> Parse(z, d, Concat(chunks[..j])).Done?
    {
      ConcatPrefix(chunks, j);
      PrefixParsesAtBoundaries(z, d, Concat(chunks), |Concat(chunks[..j])|);
    }
  }

  /** The fields of a window, in order. */
  function Fields(z: Zlib, w: Source): seq<bytes>
    requires GoodSource(z, w)
  {
    [Encode(w.svo)] + ([Encode(w.svl)] + ([Encode(w.tvl)] + ([Encode(|InsnSection(z, w)|)]
      + ([Encode(|DataSection(z, w)|)] + ([InsnSection(z, w)] + [DataSection(z, w)])))))
  }

  function AllFields(z: Zlib, ws: seq<Source>): seq<bytes>
    requires forall w :: w in ws ==> GoodSource(z, w)
  {
    if ws == [] then [] else Fields(z, ws[0]) + AllFields(z, ws[1..])
  }

  lemma ChunkStep(z: Zlib, d: Doc, field: bytes, more: seq<bytes>, d': Doc)
    requires d.Valid() && d'.Valid() && Parse(z, d, field + []) == Parse(z, d', [])
    ensures ParseChunks(z, d, [field] + more) == ParseChunks(z, d', more)
  {
    assert field + [] == field;
    assert ([field] + more)[1..] == more;
  }

  lemma HeaderChunk(z: Zlib, d: Doc, w: Window, s: State, n: nat, more: seq<bytes>)
    requires s in {SVO, SVL, TVL, INSL, NEWL} && Long(n)
    ensures ParseChunks(z, With(d, w, s), [Encode(n)] + more)
         == ParseChunks(z, With(d, Put(w, s, n), After(s)), more)
  {
    HeaderNumber(z, d, w, s, n, []);
    ChunkStep(z, With(d, w, s), Encode(n), more, With(d, Put(w, s, n), After(s)));
  }

  lemma HeaderChunks(z: Zlib, d: Doc, w: Source, inslen: nat, newlen: nat, more: seq<bytes>)
    requires d.state == NWND && Long(w.svo) && Long(w.svl) && Long(w.tvl) && Long(inslen) && Long(newlen)
    ensures ParseChunks(z, d, [Encode(w.svo)] + ([Encode(w.svl)] + ([Encode(w.tvl)]
              + ([Encode(inslen)] + ([Encode(newlen)] + more)))))
         == ParseChunks(z, With(d, Window(w.svo, w.svl, w.tvl, inslen, newlen, [], None), INSNS), more)
  {
    var w1 := Put(EMPTY_WINDOW, SVO, w.svo);
    var w2 := Put(w1, SVL, w.svl);
    var w3 := Put(w2, TVL, w.tvl);
    var w4 := Put(w3, INSL, inslen);
    var m5 := [Encode(newlen)] + more;
    var m4 := [Encode(inslen)] + m5;
    var m3 := [Encode(w.tvl)] + m4;
    var m2 := [Encode(w.svl)] + m3;
    HeaderNumber(z, d, EMPTY_WINDOW, SVO, w.svo, []);
    assert (Encode(w.svo) + [])[0..] == Encode(w.svo) + [];
    assert Parse(z, d, Encode(w.svo) + []) == Parse(z, With(d, EMPTY_WINDOW, SVO), Encode(w.svo) + []);
    ChunkStep(z, d, Encode(w.svo), m2, With(d, w1, SVL));
    HeaderChunk(z, d, w1, SVL, w.svl, m3);
    HeaderChunk(z, d, w2, TVL, w.tvl, m4);
    HeaderChunk(z, d, w3, INSL, inslen, m5);
    HeaderChunk(z, d, w4, NEWL, newlen, more);
  }

  lemma WindowChunks(z: Zlib, d: Doc, w: Source, more: seq<bytes>)
    requires InversePair(z) && d.state == NWND && GoodSource(z, w)
    ensures ParseChunks(z, d, Fields(z, w) + more) == ParseChunks(z, With(d, Received(z, w), NWND), more)
  {
    var insns, data := InsnSection(z, w), DataSection(z, w);
    var last := [insns] + ([data] + more);
    var head := Window(w.svo, w.svl, w.tvl, |insns|, |data|, [], None);
    assert Fields(z, w) + more == [Encode(w.svo)] + ([Encode(w.svl)] + ([Encode(w.tvl)]
             + ([Encode(|insns|)] + ([Encode(|data|)] + last))));
    HeaderChunks(z, d, w, |insns|, |data|, last);
    InsnSectionField(z, d, head, w.instrs, w.packInsns, []);
    var mid := head.(insns := Plain(w.instrs));
    ChunkStep(z, With(d, head, INSNS), insns, [data] + more, With(d, mid, BYTES));
    DataSectionField(z, d, mid, w.data, w.packData, []);
    ChunkStep(z, With(d, mid, BYTES), data, more, With(d, Received(z, w), NWND));
  }

  /** Sent one field at a time, a document is received as when sent whole. */
  lemma {:induction false} FieldByField(z: Zlib, d: Doc, ws: seq<Source>)
    requires InversePair(z) && d.state == NWND && forall w :: w in ws ==> GoodSource(z, w)
    ensures ParseChunks(z, d, AllFields(z, ws)) == Done(Extended(d, ReceivedAll(z, ws)))
    decreases |ws|
  {
    if ws == [] {
      assert Extended(d, []) == d;
    } else {
      WindowChunks(z, d, ws[0], AllFields(z, ws[1..]));
      FieldByField(z, With(d, Received(z, ws[0]), NWND), ws[1..]);
      ExtendedTwice(d, Received(z, ws[0]), ReceivedAll(z, ws[1..]));
    }
  }

  lemma {:induction false} FieldsConcat(z: Zlib, ws: seq<Source>)
    requires forall w :: w in ws ==> GoodSource(z, w)
    ensures Concat(AllFields(z, ws)) == EncodeWindows(z, ws)
  {
    if ws != [] {
      ConcatAppend(Fields(z, ws[0]), AllFields(z, ws[1..]));
      WindowConcat(z, ws[0]);
      FieldsConcat(z, ws[1..]);
    }
  }

  lemma ConcatOne(a: bytes)
    ensures Concat([a]) == a
  {
    assert [a][1..] == [];
  }

  lemma ConcatFirst(a: bytes, more: seq<bytes>)
    ensures Concat([a] + more) == a + Concat(more)
  {
    assert ([a] + more)[1..] == more;
  }

  lemma WindowConcat(z: Zlib, w: Source)
    requires GoodSource(z, w)
    ensures Concat(Fields(z, w)) == EncodeWindow(z, w)
  {
    hide Encode, EncodeSection, InsnSection, DataSection, Concat;
    var m6 := [InsnSection(z, w)] + [DataSection(z, w)];
    var m5 := [Encode(|DataSection(z, w)|)] + m6;
    var m4 := [Encode(|InsnSection(z, w)|)] + m5;
    var m3 := [Encode(w.tvl)] + m4;
    var m2 := [Encode(w.svl)] + m3;
    ConcatOne(DataSection(z, w));
    ConcatFirst(InsnSection(z, w), [DataSection(z, w)]);
    ConcatFirst(Encode(|DataSection(z, w)|), m6);
    ConcatFirst(Encode(|InsnSection(z, w)|), m5);
    ConcatFirst(Encode(w.tvl), m4);
    ConcatFirst(Encode(w.svl), m3);
    ConcatFirst(Encode(w.svo), m2);
  }

  /** Chunks cut anywhere between the fields of the encoded windows end in the same state. */
  lemma RegroupedFields(z: Zlib, d: Doc, ws: seq<Source>, chunks: seq<bytes>)
    requires InversePair(z) && d.state == NWND && forall w :: w in ws ==> GoodSource(z, w)
    requires Concat(chunks) == EncodeWindows(z, ws)
    requires forall j | 0 <= j <= |chunks| ::
               exists k | 0 <= k <= |AllFields(z, ws)| :: Concat(chunks[..j]) == Concat(AllFields(z, ws)[..k])
    ensures ParseChunks(z, d, chunks) == Done(Extended(d, ReceivedAll(z, ws)))
  {
    var fields := AllFields(z, ws);
    FieldsConcat(z, ws);
    WindowsRoundTrip(z, d, ws);
    FieldByField(z, d, ws);
    ChunkedParse(z, d, fields);
    forall j | 0 <= j <= |chunks| ensures Boundary(z, d, Concat(chunks), |Concat(chunks[..j])|) {
      var k :| 0 <= k <= |fields| && Concat(chunks[..j]) == Concat(fields[..k]);
      assert Boundary(z, d, Concat(fields), |Concat(fields[..k])|);
    }
    ChunkedParse(z, d, chunks);
  }
}
