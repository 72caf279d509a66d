/** From the bytes of a delta to the text: what a sender says with its instructions is what the file
    editor builds. */
module DeltaText {
  import opened Bytes
  import opened Base128
  import opened Svndiff
  import TargetView
  import L = SvndiffLaws
  import opened SvnEdit
  import opened SvnEditLaws
  import opened SvnEditRun
  import opened SvnEditResume

  // ---- what a sender says ----

  /** The next piece of the target: bytes of the source view, bytes of the target so far, which may run
      on into what they produce, or new bytes. */
  datatype Op = FromSource(at: nat, len: nat) | FromTarget(at: nat, len: nat) | Fresh(data: bytes)

  /** A piece, and whether its length goes into the first byte where it fits. */
  datatype Said = Said(op: Op, short: bool)

  /** A window: where its source view lies, its pieces, and which of its sections are compressed. */
  datatype Part = Part(svo: nat, svl: nat, said: seq<Said>, packInsns: bool, packData: bool)

  function Contents(src: Option<bytes>): bytes { if src.Some? then src.value else [] }

  /** The piece reads only what is there. */
  predicate Reads(src: Option<bytes>, svo: nat, out: bytes, op: Op) {
    match op
    case FromSource(at, len) => src.Some? && svo + at + len <= |src.value|
    case FromTarget(at, _) => at < |out|
    case Fresh(_) => true
  }

  /** Byte k of a copy from the target is byte at + k, in the target so far or in the copy itself. */
  function Repeated(out: bytes, at: nat, len: nat): (r: bytes)
    requires at < |out|
    ensures |r| == len
    ensures forall k | 0 <= k < len :: r[k] == (out + r)[at + k]
    decreases len
  {
    if len == 0 then []
    else
      var r := Repeated(out, at, len - 1);
      r + [(out + r)[at + len - 1]]
  }

  function Piece(src: Option<bytes>, svo: nat, out: bytes, op: Op): bytes
    requires Reads(src, svo, out, op)
  {
    match op
    case FromSource(at, len) => src.value[svo + at..svo + at + len]
    case FromTarget(at, len) => Repeated(out, at, len)
    case Fresh(data) => data
  }

  predicate AllRead(src: Option<bytes>, svo: nat, out: bytes, said: seq<Said>)
    decreases |said|
  {
    said == [] || (Reads(src, svo, out, said[0].op)
                   && AllRead(src, svo, out + Piece(src, svo, out, said[0].op), said[1..]))
  }

  /** The target of a window whose pieces are said after out. */
  function Text(src: Option<bytes>, svo: nat, out: bytes, said: seq<Said>): (r: bytes)
    requires AllRead(src, svo, out, said)
    ensures |out| <= |r|
    decreases |said|
  {
    if said == [] then out else Text(src, svo, out + Piece(src, svo, out, said[0].op), said[1..])
  }

  predicate Sayable(src: Option<bytes>, parts: seq<Part>) { forall p | p in parts :: AllRead(src, p.svo, [], p.said) }

  /** And of all windows, each over the whole source. */
  function Texts(src: Option<bytes>, parts: seq<Part>): bytes
    requires Sayable(src, parts)
  {
    if parts == [] then [] else Text(src, parts[0].svo, [], parts[0].said) + Texts(src, parts[1..])
  }

  // ---- how it is spelled ----

  function Size(op: Op): nat { if op.Fresh? then |op.data| else op.len }

  /** Code 0 is a copy from the source, 1 one from the target, 2 new data. */
  function InsnOf(op: Op): Insn {
    match op
    case FromSource(at, len) => Insn(0, at, len)
    case FromTarget(at, len) => Insn(1, at, len)
    case Fresh(data) => Insn(2, -1, |data|)
  }

  function Instrs(said: seq<Said>): seq<L.Instr> {
    if said == [] then [] else [L.Instr(InsnOf(said[0].op), said[0].short)] + Instrs(said[1..])
  }

  function FreshData(said: seq<Said>): bytes {
    if said == [] then [] else NewIn(said[0].op) + FreshData(said[1..])
  }

  function SourceOf(src: Option<bytes>, p: Part): L.Source
    requires AllRead(src, p.svo, [], p.said)
  {
    L.Source(p.svo, p.svl, |Text(src, p.svo, [], p.said)|, Instrs(p.said), p.packInsns, FreshData(p.said), p.packData)
  }

  /** The window can be spelled: its numbers fit. */
  ghost predicate Spellable(z: Zlib, src: Option<bytes>, p: Part) {
    AllRead(src, p.svo, [], p.said) && L.GoodSource(z, SourceOf(src, p))
  }

  ghost predicate AllSpellable(z: Zlib, src: Option<bytes>, parts: seq<Part>) {
    |Contents(src)| < LONG_LIMIT && forall p | p in parts :: Spellable(z, src, p)
  }

  function Sources(z: Zlib, src: Option<bytes>, parts: seq<Part>): (r: seq<L.Source>)
    requires Sayable(src, parts) && AllSpellable(z, src, parts)
    ensures forall s | s in r :: L.GoodSource(z, s)
  {
    if parts == [] then []
    else
      assert Spellable(z, src, parts[0]);
      [SourceOf(src, parts[0])] + Sources(z, src, parts[1..])
  }

  /** The bytes of a delta. */
  function Delta(z: Zlib, src: Option<bytes>, version: byte, parts: seq<Part>): bytes
    requires Sayable(src, parts) && AllSpellable(z, src, parts)
  {
    L.EncodeDoc(z, version, Sources(z, src, parts))
  }

  // ---- the window means what was said ----

  lemma {:induction false} RepeatedIsPattern(out: bytes, at: nat, len: nat)
    requires at < |out|
    ensures Repeated(out, at, len) == TargetView.Pattern(out, at, len)
    decreases len
  {
    hide TargetView.Rem;
    if len > 0 {
      RepeatedIsPattern(out, at, len - 1);
      var r, k, d := Repeated(out, at, len - 1), len - 1, |out| - at;
      if k < d {
        SmallRem(k, d);
      } else {
        RemBack(k, d);
        assert (out + r)[at + k] == r[k - d] == out[at + TargetView.Rem(k - d, d)];
      }
    }
  }

  lemma SmallRem(k: nat, d: nat)
    requires k < d
    ensures TargetView.Rem(k, d) == k
  {
  }

  lemma RemBack(k: nat, d: nat)
    requires 0 < d <= k
    ensures TargetView.Rem(k, d) == TargetView.Rem(k - d, d)
  {
    var q, r := (k - d) / d, (k - d) % d;
    assert k - d == q * d + r;
    assert k == (q + 1) * d + r;
    TargetView.ModUnique(k, d, q + 1, r);
  }

  lemma OnePiece(src: Option<bytes>, w: Window, out: bytes, done: bytes, op: Op, rest: bytes)
    requires w.bytes == Some(done + NewIn(op) + rest)
    requires 0 <= w.sviewOffset && Reads(src, w.sviewOffset, out, op) && |Contents(src)| < LONG_LIMIT
    requires |out| + Size(op) <= w.tviewLen < LONG_LIMIT
    ensures var i, navail := InsnOf(op), w.tviewLen - |out|;
            && TargetView.GoodInsn(src, w, |out|, |done|, navail, i)
            && TargetView.Piece(src, w, out, |done|, navail, i) == Piece(src, w.sviewOffset, out, op)
  {
    if op.FromTarget? { RepeatedIsPattern(out, op.at, op.len); }
  }

  lemma EmitStep(src: Option<bytes>, w: Window, out: bytes, used: nat, op: Op, piece: bytes, more: seq<Insn>)
    requires w.bytes.Some? && |piece| == Size(op)
    requires var i, navail := InsnOf(op), w.tviewLen - |out|;
             && TargetView.GoodInsn(src, w, |out|, used, navail, i)
             && TargetView.Piece(src, w, out, used, navail, i) == piece
             && TargetView.GoodInsns(src, w, |out + piece|, used + |NewIn(op)|, w.tviewLen - |out + piece|, more)
    ensures var insns, navail := [InsnOf(op)] + more, w.tviewLen - |out|;
            && TargetView.GoodInsns(src, w, |out|, used, navail, insns)
            && TargetView.Emit(src, w, out, used, navail, insns)
               == TargetView.Emit(src, w, out + piece, used + |NewIn(op)|, w.tviewLen - |out + piece|, more)
  {
    hide TargetView.GoodInsn, TargetView.Piece;
    TakenBy(op, used);
    assert ([InsnOf(op)] + more)[1..] == more;
  }

  lemma {:induction false} PiecesMean(src: Option<bytes>, w: Window, out: bytes, done: bytes, said: seq<Said>)
    requires w.bytes == Some(done + FreshData(said)) && 0 <= w.sviewOffset && |Contents(src)| < LONG_LIMIT
    requires AllRead(src, w.sviewOffset, out, said) && |Text(src, w.sviewOffset, out, said)| == w.tviewLen < LONG_LIMIT
    ensures var insns, navail := L.Plain(Instrs(said)), w.tviewLen - |out|;
            && TargetView.GoodInsns(src, w, |out|, |done|, navail, insns)
            && TargetView.Emit(src, w, out, |done|, navail, insns) == Text(src, w.sviewOffset, out, said)
    decreases |said|
  {
    hide TargetView.GoodInsn, TargetView.Piece, TargetView.GoodInsns, TargetView.Emit, Reads, Piece, InsnOf, L.Plain,
         Instrs, FreshData, AllRead, Text;
    if said == [] {
      NothingSaid(src, w, out, |done|);
    } else {
      var op := said[0].op;
      SaidStep(src, w.sviewOffset, out, said);
      var piece := Piece(src, w.sviewOffset, out, op);
      FreshStep(done, said);
      PieceSize(src, w.sviewOffset, out, op);
      PlainStep(said);
      OnePiece(src, w, out, done, op, FreshData(said[1..]));
      PiecesMean(src, w, out + piece, done + NewIn(op), said[1..]);
      EmitStep(src, w, out, |done|, op, piece, L.Plain(Instrs(said[1..])));
    }
  }

  lemma NothingSaid(src: Option<bytes>, w: Window, out: bytes, used: nat)
    requires w.bytes.Some? && 0 <= w.sviewOffset
    ensures L.Plain(Instrs([])) == []
    ensures AllRead(src, w.sviewOffset, out, []) && Text(src, w.sviewOffset, out, []) == out
    ensures |out| == w.tviewLen ==>
              TargetView.GoodInsns(src, w, |out|, used, 0, []) && TargetView.Emit(src, w, out, used, 0, []) == out
  {
  }

  lemma SaidStep(src: Option<bytes>, svo: nat, out: bytes, said: seq<Said>)
    requires said != [] && AllRead(src, svo, out, said)
    ensures Reads(src, svo, out, said[0].op)
    ensures var out' := out + Piece(src, svo, out, said[0].op);
            && AllRead(src, svo, out', said[1..]) && Text(src, svo, out, said) == Text(src, svo, out', said[1..])
            && |out'| <= |Text(src, svo, out, said)|
  {
  }

  function NewIn(op: Op): bytes { if op.Fresh? then op.data else [] }

  lemma FreshStep(done: bytes, said: seq<Said>)
    requires said != []
    ensures done + FreshData(said) == done + NewIn(said[0].op) + FreshData(said[1..])
  {
  }

  lemma TakenBy(op: Op, used: nat)
    ensures TargetView.Taken(used, InsnOf(op)) == used + |NewIn(op)| && InsnOf(op).len == Size(op)
  {
  }

  lemma PieceSize(src: Option<bytes>, svo: nat, out: bytes, op: Op)
    requires Reads(src, svo, out, op)
    ensures |Piece(src, svo, out, op)| == Size(op)
  {
  }

  lemma PlainStep(said: seq<Said>)
    requires said != []
    ensures L.Plain(Instrs(said)) == [InsnOf(said[0].op)] + L.Plain(Instrs(said[1..]))
  {
    assert Instrs(said)[1..] == Instrs(said[1..]);
  }

  /** The received window is well formed, and means what the sender said. */
  lemma PartMeans(z: Zlib, src: Option<bytes>, p: Part)
    requires Spellable(z, src, p) && |Contents(src)| < LONG_LIMIT
    ensures var w := L.Received(z, SourceOf(src, p));
            TargetView.WellFormed(src, w) && TargetView.Meaning(src, w) == Text(src, p.svo, [], p.said)
  {
    hide L.InsnSection, L.DataSection, L.GoodInstrs, L.EncodeSection, L.EncodeInstrs, AllRead, Text, FreshData,
         L.Plain, Instrs, TargetView.GoodInsns, TargetView.Emit;
    var w, t := L.Received(z, SourceOf(src, p)), Text(src, p.svo, [], p.said);
    assert [] + FreshData(p.said) == FreshData(p.said);
    PiecesMean(src, w, [], [], p.said);
    assert t[..w.tviewLen] == t;
  }

  lemma {:induction false} PartsMean(z: Zlib, src: Option<bytes>, parts: seq<Part>)
    requires Sayable(src, parts) && AllSpellable(z, src, parts)
    ensures var ws := L.ReceivedAll(z, Sources(z, src, parts));
            AllWellFormed(src, ws) && Patch(src, ws) == Texts(src, parts)
    decreases |parts|
  {
    hide Spellable, SourceOf, L.Received, L.GoodSource, TargetView.WellFormed, TargetView.Meaning, Text, AllRead;
    if parts != [] {
      assert parts[0] in parts && Spellable(z, src, parts[0]);
      PartMeans(z, src, parts[0]);
      PartsMean(z, src, parts[1..]);
      var sources := Sources(z, src, parts);
      assert sources[1..] == Sources(z, src, parts[1..]);
      var ws := L.ReceivedAll(z, sources);
      assert ws[0] == L.Received(z, sources[0]) && ws[1..] == L.ReceivedAll(z, sources[1..]);
    }
  }

  /** The whole delta, from its bytes: it parses, to windows that build reliably, whose patched source
      is the text that was said. */
  lemma DeltaMeans(z: Zlib, src: Option<bytes>, version: byte, parts: seq<Part>)
    requires InversePair(z) && Sayable(src, parts) && AllSpellable(z, src, parts)
    ensures var r := Parse(z, INITIAL_DOC, Delta(z, src, version, parts));
            && r.Done? && (r.doc.version == -1 <==> version == 255)
            && AllWellFormed(src, r.doc.wnd) && Patch(src, r.doc.wnd) == Texts(src, parts)
  {
    hide Parse, AllWellFormed, Patch, Texts, Sources, L.EncodeDoc, L.ReceivedAll, Sayable, AllSpellable;
    PartsMean(z, src, parts);
    L.DocRoundTrip(z, version, Sources(z, src, parts));
    SameDocument(z, src, version, parts);
  }

  lemma SameDocument(z: Zlib, src: Option<bytes>, version: byte, parts: seq<Part>)
    requires Sayable(src, parts) && AllSpellable(z, src, parts)
    ensures Delta(z, src, version, parts) == L.EncodeDoc(z, version, Sources(z, src, parts))
  {
  }

  /** Sent in chunks that are cut between fields, with the checksums of both texts, such a delta is one
      that the server made for the text, so that the edit ends with it from all the local files that it
      can start from. */
  lemma DeltaMakes(env: Env, rev: int, e: Edit, src: Option<bytes>, version: byte, parts: seq<Part>)
    requires InversePair(env.zlib) && version != 255 && Sayable(src, parts) && AllSpellable(env.zlib, src, parts)
    requires e.FileEdit? && e.delta.Some? && Concat(e.delta.value) == Delta(env.zlib, src, version, parts)
    requires forall j | 0 <= j <= |e.delta.value| ::
               L.Boundary(env.zlib, INITIAL_DOC, Concat(e.delta.value), |Concat(e.delta.value[..j])|)
    requires e.text == env.md5(Texts(src, parts)) && e.open == src.Some?
    requires if src.Some? then
               && e.base == Some(env.md5(src.value)) && ServerHas(env, e.path, e.rev, src.value)
               && (env.md5(src.value) == e.text ==> src.value == Texts(src, parts))
             else e.base == None
    ensures Makes(env, rev, e, src, Texts(src, parts))
  {
    hide L.Boundary, Parse, ParseChunks, AllSpellable, Sayable, Patch, AllWellFormed, Texts, Delta;
    DeltaMeans(env.zlib, src, version, parts);
    L.ChunkedParse(env.zlib, INITIAL_DOC, e.delta.value);
  }
}
