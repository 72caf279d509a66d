/** svndiff documents: instructions, sections, windows, and the resumable document parser. */
module Svndiff {
  import opened Bytes
  import opened Base128

  const SOURCE := 0
  const TARGET := 1
  const NEW := 2

  datatype Insn = Insn(code: int, offset: int, len: int)

  /** inslen and newlen are the encoded lengths of the two sections; bytes is None until the
      new-data section has been read. */
  datatype Window = Window(sviewOffset: int, sviewLen: int, tviewLen: int, inslen: int, newlen: int,
                           insns: seq<Insn>, bytes: Option<bytes>)

  const EMPTY_WINDOW := Window(0, 0, 0, 0, 0, [], None)

  datatype State = VERSION | NWND | SVO | SVL | TVL | INSL | NEWL | INSNS | BYTES

  /** zlib, of which only the two byte-string functions matter. */
  datatype Zlib = Zlib(deflate: bytes -> bytes, inflate: bytes -> Option<bytes>)

  ghost predicate InversePair(z: Zlib) {
    forall s: bytes :: z.inflate(z.deflate(s)) == Some(s)
  }

  // ---- instructions ----

  datatype DecodedInsn = GotInsn(insn: Insn, used: nat) | NoInsn

  function DecodeInsn(s: bytes): (r: DecodedInsn)
    requires s != []
    ensures r.GotInsn? ==> 0 < r.used <= |s|
  {
    var len := if s[0] % 64 == 0 then Decode(s[1..]) else Number(s[0] % 64, 0);
    if len.Broken? then NoInsn
    else
      var offset := if s[0] / 64 == NEW then Number(-1, 0) else Decode(s[1 + len.used..]);
      if offset.Broken? then NoInsn
      else GotInsn(Insn(s[0] / 64, offset.val, len.val), 1 + len.used + offset.used)
  }

  method ReadInsn(buf: bytes, start: nat, end: nat) returns (r: DecodedInsn)
    requires start < end <= |buf|
    ensures r == DecodeInsn(buf[start..end])
  {
    ghost var s := buf[start..end];
    var c := buf[start];
    var code, len, offset, p := c / 64, c % 64, -1, start + 1;
    assert buf[p..end] == s[1..];
    if len == 0 {
      var n := DecodeNumber(buf, p, end);
      if n.Broken? { return NoInsn; }
      len, p := n.val, p + n.used;
    }
    if code != NEW {
      assert buf[p..end] == s[p - start..];
      var n := DecodeNumber(buf, p, end);
      if n.Broken? { return NoInsn; }
      offset, p := n.val, p + n.used;
    }
    r := GotInsn(Insn(code, offset, len), p - start);
  }

  /** The instructions of a section; one that cannot be decoded silently ends the list. */
  function DecodeInsns(s: bytes): seq<Insn> {
    if s == [] then []
    else match DecodeInsn(s)
      case NoInsn => []
      case GotInsn(i, used) => [i] + DecodeInsns(s[used..])
  }

  lemma DecodeInsnsAfter(done: seq<Insn>, s: bytes)
    requires s != []
    ensures DecodeInsn(s).NoInsn? ==> done + DecodeInsns(s) == done
    ensures var r := DecodeInsn(s);
            r.GotInsn? ==> done + DecodeInsns(s) == done + [r.insn] + DecodeInsns(s[r.used..])
  {
  }

  // ---- sections ----

  /** Overrun: the announced lengths reach outside the buffer, where C has no defined result. */
  datatype Section = Section(data: bytes, used: nat) | BadSection | Overrun

  function DecodeSection(z: Zlib, s: bytes, encodedLen: int): (r: Section)
    ensures r.Section? ==> 0 < r.used <= |s|
  {
    match Decode(s)
    case Broken(_) => BadSection
    case Number(origLen, used) =>
      var left := encodedLen - used;
      if origLen < 0 || left < 0 || used + left > |s| then Overrun
      else
        var payload := s[used..used + left];
        if left == origLen then Section(payload, used + left)
        else match z.inflate(payload)
          case Some(data) => if |data| <= origLen then Section(data, used + left) else BadSection
          case None => BadSection
  }

  // ---- the document parser, one step at a time ----

  function SignedChar(c: int): int { if c < 128 then c else c - 256 }

  datatype Doc = Doc(version: int, state: State, wnd: seq<Window>) {
    ghost predicate Valid() { state !in {VERSION, NWND} ==> wnd != [] }

    function Last(): Window { if wnd == [] then EMPTY_WINDOW else wnd[|wnd| - 1] }

    function SetLast(w: Window): Doc
      requires wnd != []
    {
      this.(wnd := wnd[|wnd| - 1 := w])
    }
  }

  const INITIAL_DOC := Doc(-1, VERSION, [])

  /** Next: the parser moved to doc after `used` bytes. Fail keeps what was stored so far. */
  datatype Step = Next(doc: Doc, used: nat) | Fail(doc: Doc, code: int) | Undefined

  const PARSE_DOC := 0x1000

  const UNDEFINED := -1

  function StepNumber(d: Doc, s: bytes, put: (Window, int) -> Window, next: State, code: int): (r: Step)
    requires d.wnd != [] && code > 0
    ensures r.Next? ==> 0 < r.used <= |s| && r.doc.wnd != []
    ensures r.Fail? ==> r.doc.wnd != []
  {
    match Decode(s)
    case Number(v, used) => Next(d.SetLast(put(d.Last(), v)).(state := next), used)
    case Broken(v) => Fail(d.SetLast(put(d.Last(), v)), PARSE_DOC + code)
  }

  function PutSvo(w: Window, v: int): Window { w.(sviewOffset := v) }

  function PutSvl(w: Window, v: int): Window { w.(sviewLen := v) }

  function PutTvl(w: Window, v: int): Window { w.(tviewLen := v) }

  function PutInsl(w: Window, v: int): Window { w.(inslen := v) }

  function PutNewl(w: Window, v: int): Window { w.(newlen := v) }

  function OneStep(z: Zlib, d: Doc, s: bytes): (r: Step)
    requires s != [] && d.Valid()
    ensures r.Next? ==> r.used <= |s| && r.doc.Valid() && (r.used == 0 <==> d.state == NWND)
    ensures r.Next? && d.state == NWND ==> r.doc.state != NWND
    ensures r.Fail? ==> r.doc.Valid() && r.code != UNDEFINED
  {
    match d.state
    case VERSION =>
      if |s| < 4 || s[..3] != [83, 86, 78] then Fail(d, PARSE_DOC + 1)
      else Next(d.(version := SignedChar(s[3]), state := NWND), 4)
    case NWND => Next(d.(wnd := d.wnd + [EMPTY_WINDOW], state := SVO), 0)
    case SVO => StepNumber(d, s, PutSvo, SVL, 2)
    case SVL => StepNumber(d, s, PutSvl, TVL, 3)
    case TVL => StepNumber(d, s, PutTvl, INSL, 4)
    case INSL => StepNumber(d, s, PutInsl, NEWL, 5)
    case NEWL => StepNumber(d, s, PutNewl, INSNS, 6)
    case INSNS =>
      (match DecodeSection(z, s, d.Last().inslen)
       case Section(data, used) =>
         Next(d.SetLast(d.Last().(insns := d.Last().insns + DecodeInsns(data))).(state := BYTES), used)
       case BadSection => Fail(d.(state := BYTES), PARSE_DOC + 7)
       case Overrun => Undefined)
    case BYTES =>
      (match DecodeSection(z, s, d.Last().newlen)
       case Section(data, used) => Next(d.SetLast(d.Last().(bytes := Some(data))).(state := NWND), used)
       case BadSection => Fail(d, PARSE_DOC + 8)
       case Overrun => Undefined)
  }

  /** The result of one call: all input consumed, an error return, or undefined. */
  datatype Parsed = Done(doc: Doc) | Failed(doc: Doc, code: int) | Unknown

  function Parse(z: Zlib, d: Doc, s: bytes): (r: Parsed)
    requires d.Valid()
    ensures !r.Unknown? ==> r.doc.Valid()
    ensures r.Failed? ==> r.code != UNDEFINED
    decreases |s|, if d.state == NWND then 1 else 0
  {
    if s == [] then Done(d)
    else match OneStep(z, d, s)
      case Next(d', used) => Parse(z, d', s[used..])
      case Fail(d', code) => Failed(d', code)
      case Undefined => Unknown
  }

  /** The calls a run of text-delta chunks makes, stopping at the first that does not return 0. */
  function ParseChunks(z: Zlib, d: Doc, chunks: seq<bytes>): (r: Parsed)
    requires d.Valid()
    ensures r.Done? ==> r.doc.Valid()
    decreases |chunks|
  {
    if chunks == [] then Done(d)
    else
      var r := Parse(z, d, chunks[0]);
      if r.Done? then ParseChunks(z, r.doc, chunks[1..]) else r
  }

  // ---- the parser as the program runs it ----

  class SvndiffDoc {
    var version: int
    var parseState: State
    var wnd: seq<Window>

    ghost predicate Valid() reads this { Value().Valid() }

    function Value(): Doc reads this { Doc(version, parseState, wnd) }

    constructor ()
      ensures Valid() && Value() == INITIAL_DOC
    {
      version, parseState, wnd := -1, VERSION, [];
    }

    method Clear()
      modifies this
      ensures Valid() && Value() == INITIAL_DOC
    {
      version, parseState, wnd := -1, VERSION, [];
    }

    method SetCurrent(w: Window)
      requires wnd != []
      modifies `wnd
      ensures Value() == old(Value()).SetLast(w)
    {
      wnd := wnd[|wnd| - 1 := w];
    }

    /** One of the five header numbers of the current window. */
    method ParseNumber(buf: bytes, start: nat, end: nat, put: (Window, int) -> Window, next: State, code: int)
      returns (res: int, p: nat)
      requires start <= end <= |buf| && wnd != [] && code > 0
      modifies this
      ensures start <= p <= end
      ensures match StepNumber(old(Value()), buf[start..end], put, next, code)
              case Next(d, used) => res == 0 && Value() == d && p == start + used
              case Fail(d, c) => res == c && Value() == d
              case Undefined => false
    {
      var n := DecodeNumber(buf, start, end);
      SetCurrent(put(wnd[|wnd| - 1], n.val));
      if n.Number? {
        parseState := next;
        return 0, start + n.used;
      }
      res, p := PARSE_DOC + code, start;
    }

    method ParseSection(z: Zlib, buf: bytes, start: nat, end: nat, encodedLen: int) returns (r: Section)
      requires start <= end <= |buf|
      ensures r == DecodeSection(z, buf[start..end], encodedLen)
    {
      var n := DecodeNumber(buf, start, end);
      if n.Broken? { return BadSection; }
      var left := encodedLen - n.used;
      if n.val < 0 || left < 0 || start + n.used + left > end { return Overrun; }
      var payload := buf[start + n.used..start + n.used + left];
      assert payload == buf[start..end][n.used..n.used + left];
      if left == n.val { return Section(payload, n.used + left); }
      var data := z.inflate(payload);
      if data == None || |data.value| > n.val { return BadSection; }
      r := Section(data.value, n.used + left);
    }

    method ParseInsns(data: bytes) returns (insns: seq<Insn>)
      ensures insns == DecodeInsns(data)
    {
      insns := [];
      var p := 0;
      ghost var rest := data;
      while p < |data|
        invariant 0 <= p <= |data| && rest == data[p..]
        invariant insns + DecodeInsns(rest) == DecodeInsns(data)
      {
        assert data[p..|data|] == rest;
        var r := ReadInsn(data, p, |data|);
        DecodeInsnsAfter(insns, rest);
        if r.NoInsn? { return; }
        rest := rest[r.used..];
        insns, p := insns + [r.insn], p + r.used;
      }
    }

    method ParseOne(z: Zlib, buf: bytes, start: nat, end: nat) returns (res: int, p: nat)
      requires start < end <= |buf| && Valid()
      modifies this
      ensures start <= p <= end
      ensures match OneStep(z, old(Value()), buf[start..end])
              case Next(d, used) => res == 0 && Value() == d && p == start + used
              case Fail(d, c) => res == c != 0 && Value() == d
              case Undefined => res == UNDEFINED
    {
      ghost var s := buf[start..end];
      res, p := 0, start;
      match parseState {
        case VERSION =>
          if end - start < 4 || !(buf[start] == 83 && buf[start + 1] == 86 && buf[start + 2] == 78) {
            assert |s| >= 4 ==> s[..3] == [buf[start], buf[start + 1], buf[start + 2]];
            return PARSE_DOC + 1, start;
          }
          assert s[..3] == [83, 86, 78];
          version := SignedChar(buf[start + 3]);
          parseState, p := NWND, start + 4;
        case NWND =>
          wnd, parseState := wnd + [EMPTY_WINDOW], SVO;
        case SVO => res, p := ParseNumber(buf, start, end, PutSvo, SVL, 2);
        case SVL => res, p := ParseNumber(buf, start, end, PutSvl, TVL, 3);
        case TVL => res, p := ParseNumber(buf, start, end, PutTvl, INSL, 4);
        case INSL => res, p := ParseNumber(buf, start, end, PutInsl, NEWL, 5);
        case NEWL => res, p := ParseNumber(buf, start, end, PutNewl, INSNS, 6);
        case INSNS =>
          var w := wnd[|wnd| - 1];
          var sec := ParseSection(z, buf, start, end, w.inslen);
          if sec.Overrun? { return UNDEFINED, start; }
          if sec.Section? {
            var insns := ParseInsns(sec.data);
            SetCurrent(w.(insns := w.insns + insns));
            p := start + sec.used;
          } else {
            res := PARSE_DOC + 7;
          }
          parseState := BYTES;
        case BYTES =>
          var w := wnd[|wnd| - 1];
          var sec := ParseSection(z, buf, start, end, w.newlen);
          if sec.Overrun? { return UNDEFINED, start; }
          if sec.BadSection? { return PARSE_DOC + 8, start; }
          SetCurrent(w.(bytes := Some(sec.data)));
          parseState, p := NWND, start + sec.used;
      }
    }

    /** svndiff_parse_doc: only the new-window state consumes nothing, and it is never
        taken twice in a row. */
    method ParseDoc(z: Zlib, buf: bytes, start: nat, end: nat) returns (res: int)
      requires start <= end <= |buf| && Valid()
      modifies this
      ensures match Parse(z, old(Value()), buf[start..end])
              case Done(d) => res == 0 && Value() == d
              case Failed(d, c) => res == c != 0 && Value() == d
              case Unknown => res == UNDEFINED
    {
      hide OneStep;
      res := 0;
      var p := start;
      while res == 0 && p < end
        invariant start <= p <= end
        invariant res == 0 ==> Valid()
        invariant res == 0 ==> Parse(z, Value(), buf[p..end]) == Parse(z, old(Value()), buf[start..end])
        invariant res != 0 ==> match Parse(z, old(Value()), buf[start..end])
                               case Done(_) => false
                               case Failed(d, c) => res == c && Value() == d
                               case Unknown => res == UNDEFINED
        decreases res == 0, end - p, if parseState == NWND then 1 else 0
      {
        ghost var q := p;
        res, p := ParseOne(z, buf, p, end);
        assert res == 0 ==> buf[q..end][p - q..] == buf[p..end];
      }
    }
  }
}
