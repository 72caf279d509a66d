/** Building the target view of one svndiff window, in a buffer whose initial contents are
    whatever the allocator left there. */
module TargetView {
  import opened Bytes
  import opened Base128
  import opened Svndiff

  const BUILD_TVIEW := 0x2000

  /** Built: the buffer, the write position, how much new data is used up, and how much room the
      code believes is left. Crashed: what C does is undefined, because an access leaves its buffer,
      a sum leaves the range of a long, or a pointer is null. */
  datatype Built = Built(buf: bytes, at: nat, used: nat, navail: int) | NotBuilt(code: int) | Crashed

  // ---- what the loop does to the buffer ----

  /** Copy `len` bytes upwards, one at a time, so that a copy can feed on itself. */
  function CopyUp(buf: bytes, from: nat, to: nat, len: nat): (r: bytes)
    requires from + len <= |buf| && to + len <= |buf|
    ensures |r| == |buf|
    decreases len
  {
    if len == 0 then buf else CopyUp(buf[to := buf[from]], from + 1, to + 1, len - 1)
  }

  /** The bytes pread finds: those of the file that lie in the requested range. */
  function ReadAt(file: bytes, offset: nat, len: nat): (r: bytes)
    ensures |r| <= len
  {
    if offset >= |file| then [] else file[offset..Min(|file|, offset + len)]
  }

  function Overwrite(buf: bytes, at: nat, data: bytes): (r: bytes)
    requires at + |data| <= |buf|
    ensures |r| == |buf|
  {
    buf[..at] + data + buf[at + |data|..]
  }

  predicate IsLong(x: int) { -LONG_LIMIT <= x < LONG_LIMIT }

  /** Source bytes, checked after they are read; pread refuses a negative length or offset. */
  function ApplySource(src: Option<bytes>, w: Window, b: Built, i: Insn): (r: Built)
    requires b.Built? && b.at <= |b.buf|
    ensures r.Built? ==> r.at == b.at + i.len <= |r.buf| == |b.buf|
    ensures r.NotBuilt? ==> r.code > 0
  {
    var offset := i.offset + w.sviewOffset;
    if !IsLong(offset) then Crashed
    else if src == None || offset < 0 || i.len < 0 then NotBuilt(BUILD_TVIEW + 2)
    else
      var data := ReadAt(src.value, offset, i.len);
      if b.at + |data| > |b.buf| then Crashed
      else if |data| < i.len then NotBuilt(BUILD_TVIEW + 3)
      else Built(Overwrite(b.buf, b.at, data), b.at + i.len, b.used, b.navail - i.len)
  }

  /** New bytes; memcpy takes any length. */
  function ApplyNew(w: Window, b: Built, i: Insn): (r: Built)
    requires b.Built? && w.bytes.Some? && b.at <= |b.buf|
    ensures r.Built? ==> r.at == b.at + i.len <= |r.buf| == |b.buf|
    ensures r.NotBuilt? ==> r.code > 0
  {
    if |w.bytes.value| - b.used < i.len then NotBuilt(BUILD_TVIEW + 4)
    else if i.len < 0 || b.at + i.len > |b.buf| then Crashed
    else
      var data := w.bytes.value[b.used..b.used + i.len];
      Built(Overwrite(b.buf, b.at, data), b.at + i.len, b.used + i.len, b.navail - i.len)
  }

  /** Target bytes. The loop does nothing for a length that is not positive, but the length is
      taken off the room all the same. */
  function ApplyTarget(w: Window, b: Built, i: Insn): (r: Built)
    requires b.Built? && b.at <= |b.buf| && w.tviewLen < |b.buf|
    ensures r.Built? ==> r.at == b.at + Max(i.len, 0) <= |r.buf| == |b.buf|
    ensures r.NotBuilt? ==> r.code > 0
  {
    if !IsLong(i.offset + i.len) then Crashed
    else if i.offset + i.len >= w.tviewLen then NotBuilt(BUILD_TVIEW + 5)
    else if !IsLong(b.navail - i.len) then Crashed
    else if i.len <= 0 then b.(navail := b.navail - i.len)
    else if i.offset < 0 || b.at + i.len > |b.buf| then Crashed
    else Built(CopyUp(b.buf, i.offset, b.at, i.len), b.at + i.len, b.used, b.navail - i.len)
  }

  function ApplyInsn(src: Option<bytes>, w: Window, b: Built, i: Insn): (r: Built)
    requires b.Built? && w.bytes.Some? && b.at <= |b.buf| && w.tviewLen < |b.buf|
    ensures r.Built? ==> b.at <= r.at <= |r.buf| == |b.buf|
    ensures r.NotBuilt? ==> r.code > 0
  {
    if i.len > b.navail then NotBuilt(BUILD_TVIEW + 1)
    else if i.code == SOURCE then ApplySource(src, w, b, i)
    else if i.code == NEW then ApplyNew(w, b, i)
    else if i.code == TARGET then ApplyTarget(w, b, i)
    else NotBuilt(BUILD_TVIEW + 6)
  }

  function Run(src: Option<bytes>, w: Window, b: Built, insns: seq<Insn>): (r: Built)
    requires b.Built? && w.bytes.Some? && b.at <= |b.buf| && w.tviewLen < |b.buf|
    ensures r.Built? ==> b.at <= r.at <= |r.buf| == |b.buf|
    ensures r.NotBuilt? ==> r.code > 0
    decreases |insns|
  {
    if insns == [] then b
    else
      var r := ApplyInsn(src, w, b, insns[0]);
      if r.Built? then Run(src, w, r, insns[1..]) else r
  }

  /** The whole call, started on an allocation of one byte more than the view, which holds `junk`. */
  function Build(src: Option<bytes>, w: Window, junk: bytes): (r: Built)
    requires w.tviewLen < |junk|
    ensures r.Built? ==> 0 <= w.tviewLen < |r.buf|
    ensures r.NotBuilt? ==> r.code > 0
  {
    if w.bytes == None || w.tviewLen < 0 then Crashed
    else Run(src, w, Built(junk, 0, 0, w.tviewLen), w.insns)
  }

  const CRASHED := -1

  /** svndiff_build_tview on a freshly allocated buffer. */
  method BuildTview(w: Window, src: Option<bytes>, tview: array<byte>) returns (res: int)
    requires w.tviewLen < tview.Length
    modifies tview
    ensures match Build(src, w, old(tview[..]))
            case Built(buf, _, _, _) => res == 0 && tview[..] == buf
            case NotBuilt(code) => res == code
            case Crashed => res == CRASHED
  {
    hide ApplyInsn;
    if w.bytes == None || w.tviewLen < 0 { return CRASHED; }
    res := 0;
    var at, used, navail, k := 0, 0, w.tviewLen, 0;
    while k < |w.insns|
      invariant 0 <= k <= |w.insns| && 0 <= at <= tview.Length && 0 <= used
      invariant Run(src, w, Built(tview[..], at, used, navail), w.insns[k..]) == Build(src, w, old(tview[..]))
    {
      assert w.insns[k..][0] == w.insns[k] && w.insns[k..][1..] == w.insns[k + 1..];
      res, at, used, navail := BuildInsn(w, w.insns[k], src, tview, at, used, navail);
      if res != 0 { return; }
      k := k + 1;
    }
  }

  /** One instruction; `at` is the write position, `used` the position in the new data. */
  method BuildInsn(w: Window, i: Insn, src: Option<bytes>, tview: array<byte>, at: nat, used: nat, navail: int)
    returns (res: int, at': nat, used': nat, navail': int)
    requires w.bytes.Some? && at <= tview.Length && w.tviewLen < tview.Length
    modifies tview
    ensures match ApplyInsn(src, w, Built(old(tview[..]), at, used, navail), i)
            case Built(buf, a, u, n) => res == 0 && tview[..] == buf && at' == a && used' == u && navail' == n
            case NotBuilt(code) => res == code != 0
            case Crashed => res == CRASHED
  {
    res, at', used', navail' := 0, at, used, navail;
    if i.len > navail { return BUILD_TVIEW + 1, at, used, navail; }
    if i.code == SOURCE {
      var offset := i.offset + w.sviewOffset;
      if !IsLong(offset) { return CRASHED, at, used, navail; }
      if src == None || offset < 0 || i.len < 0 { return BUILD_TVIEW + 2, at, used, navail; }
      var data := ReadAt(src.value, offset, i.len);
      if at + |data| > tview.Length { return CRASHED, at, used, navail; }
      Store(tview, at, data);
      if |data| < i.len { return BUILD_TVIEW + 3, at, used, navail; }
      at', navail' := at + i.len, navail - i.len;
    } else if i.code == NEW {
      if |w.bytes.value| - used < i.len { return BUILD_TVIEW + 4, at, used, navail; }
      if i.len < 0 || at + i.len > tview.Length { return CRASHED, at, used, navail; }
      Store(tview, at, w.bytes.value[used..used + i.len]);
      at', used', navail' := at + i.len, used + i.len, navail - i.len;
    } else if i.code == TARGET {
      if !IsLong(i.offset + i.len) { return CRASHED, at, used, navail; }
      if i.offset + i.len >= w.tviewLen { return BUILD_TVIEW + 5, at, used, navail; }
      if !IsLong(navail - i.len) { return CRASHED, at, used, navail; }
      if i.len > 0 {
        if i.offset < 0 || at + i.len > tview.Length { return CRASHED, at, used, navail; }
        PatterningCopy(tview, i.offset, at, i.len);
        at' := at + i.len;
      }
      navail' := navail - i.len;
    } else {
      res := BUILD_TVIEW + 6;
    }
  }

  method Store(a: array<byte>, at: nat, data: bytes)
    requires at + |data| <= a.Length
    modifies a
    ensures a[..] == Overwrite(old(a[..]), at, data)
  {
    forall k | 0 <= k < |data| { a[at + k] := data[k]; }
  }

  method PatterningCopy(a: array<byte>, offset: nat, at: nat, len: nat)
    requires offset + len <= a.Length && at + len <= a.Length
    modifies a
    ensures a[..] == CopyUp(old(a[..]), offset, at, len)
  {
    var from, to := offset, at;
    while from < offset + len
      invariant offset <= from <= offset + len && to == at + (from - offset)
      invariant CopyUp(a[..], from, to, offset + len - from) == CopyUp(old(a[..]), offset, at, len)
    {
      ghost var before := a[..];
      a[to] := a[from];
      assert a[..] == before[to := before[from]];
      from, to := from + 1, to + 1;
    }
  }

  // ---- what a window means ----

  function Rem(k: nat, d: nat): (r: nat)
    requires d > 0
    ensures r < d
  {
    k % d
  }

  /** `len` bytes that repeat the tail of `out` starting at `offset`. */
  function Pattern(out: bytes, offset: nat, len: nat): (r: bytes)
    requires offset < |out|
    ensures |r| == len
  {
    seq(len, k requires 0 <= k => out[offset + Rem(k, |out| - offset)])
  }

  /** An instruction that means something after `at` bytes of target and `used` bytes of new data,
      with `navail` bytes believed to be left; `at` may go one byte past the view. */
  ghost predicate GoodInsn(src: Option<bytes>, w: Window, at: nat, used: nat, navail: int, i: Insn)
    requires w.bytes.Some?
  {
    && i.len <= navail && at + i.len <= w.tviewLen + 1 && (i.code != TARGET ==> 0 <= i.len)
    && (i.code == SOURCE ==>
          && src.Some? && 0 <= i.offset + w.sviewOffset < LONG_LIMIT
          && (i.len == 0 || i.offset + w.sviewOffset + i.len <= |src.value|))
    && (i.code == NEW ==> used + i.len <= |w.bytes.value|)
    && (i.code == TARGET ==>
          && IsLong(i.offset + i.len) && IsLong(navail - i.len) && i.offset + i.len < w.tviewLen
          && (i.len > 0 ==> 0 <= i.offset < at))
    && i.code in {SOURCE, TARGET, NEW}
  }

  function Taken(used: nat, i: Insn): int { if i.code == NEW then used + i.len else used }

  ghost predicate GoodInsns(src: Option<bytes>, w: Window, at: nat, used: nat, navail: int, insns: seq<Insn>)
    requires w.bytes.Some?
    decreases |insns|
  {
    if insns == [] then at >= w.tviewLen
    else
      var i := insns[0];
      GoodInsn(src, w, at, used, navail, i)
      && GoodInsns(src, w, at + Max(i.len, 0), Taken(used, i), navail - i.len, insns[1..])
  }

  /** Every target instruction reads what is already written, nothing is written behind the
      allocation, and the view ends full. */
  ghost predicate WellFormed(src: Option<bytes>, w: Window) {
    w.bytes.Some? && w.tviewLen >= 0 && GoodInsns(src, w, 0, 0, w.tviewLen, w.insns)
  }

  ghost function Piece(src: Option<bytes>, w: Window, out: bytes, used: nat, navail: int, i: Insn): (r: bytes)
    requires w.bytes.Some? && GoodInsn(src, w, |out|, used, navail, i)
    ensures |r| == Max(i.len, 0)
  {
    if i.len <= 0 then []
    else if i.code == SOURCE then src.value[i.offset + w.sviewOffset..][..i.len]
    else if i.code == NEW then w.bytes.value[used..used + i.len]
    else Pattern(out, i.offset, i.len)
  }

  ghost function Emit(src: Option<bytes>, w: Window, out: bytes, used: nat, navail: int, insns: seq<Insn>): (r: bytes)
    requires w.bytes.Some? && GoodInsns(src, w, |out|, used, navail, insns)
    ensures |r| >= w.tviewLen
    decreases |insns|
  {
    if insns == [] then out
    else
      var i := insns[0];
      var piece := Piece(src, w, out, used, navail, i);
      Emit(src, w, out + piece, Taken(used, i), navail - i.len, insns[1..])
  }

  /** The target text a well-formed window denotes. */
  ghost function Meaning(src: Option<bytes>, w: Window): (r: bytes)
    requires WellFormed(src, w)
    ensures |r| == w.tviewLen
  {
    Emit(src, w, [], 0, w.tviewLen, w.insns)[..w.tviewLen]
  }

  // ---- the buffer agrees with the meaning ----

  lemma {:induction false} CopyUpElsewhere(buf: bytes, from: nat, to: nat, len: nat, j: nat)
    requires from + len <= |buf| && to + len <= |buf| && j < |buf| && !(to <= j < to + len)
    ensures CopyUp(buf, from, to, len)[j] == buf[j]
    decreases len
  {
    if len > 0 { CopyUpElsewhere(buf[to := buf[from]], from + 1, to + 1, len - 1, j); }
  }

  /** The patterning copy repeats the bytes between `from` and `to` as often as it takes. */
  lemma {:induction false} CopyUpRepeats(buf: bytes, from: nat, to: nat, len: nat, k: nat)
    requires from < to && to + len <= |buf| && k < len
    ensures CopyUp(buf, from, to, len)[to + k] == buf[from + Rem(k, to - from)]
    decreases len
  {
    hide Rem;
    var buf' := buf[to := buf[from]];
    if k == 0 {
      NextRemainder(0, to - from);
      CopyUpElsewhere(buf', from + 1, to + 1, len - 1, to);
    } else {
      CopyUpRepeats(buf', from + 1, to + 1, len - 1, k - 1);
      NextRemainder(k - 1, to - from);
    }
  }

  lemma NextRemainder(k: nat, d: nat)
    requires d > 0
    ensures Rem(k + 1, d) == if Rem(k, d) == d - 1 then 0 else Rem(k, d) + 1
    ensures Rem(0, d) == 0
  {
    var q, r := k / d, k % d;
    assert k == q * d + r;
    if r == d - 1 {
      assert k + 1 == (q + 1) * d;
      ModUnique(k + 1, d, q + 1, 0);
    } else {
      ModUnique(k + 1, d, q, r + 1);
    }
  }

  lemma ModUnique(n: int, d: nat, q: int, r: int)
    requires d > 0 && n == q * d + r && 0 <= r < d
    ensures n % d == r
  {
    var q', r' := n / d, n % d;
    assert n == q' * d + r';
    if q' > q { MulAtLeast(q' - q, q', q, d); }
    if q' < q { MulAtLeast(q - q', q, q', d); }
  }

  lemma MulAtLeast(x: int, a: int, b: int, d: nat)
    requires x == a - b >= 1
    ensures a * d - b * d >= d
  {
    assert a * d - b * d == x * d == d + (x - 1) * d;
  }

  lemma CopyUpIsPattern(buf: bytes, offset: nat, at: nat, len: nat)
    requires offset < at && at + len <= |buf|
    ensures CopyUp(buf, offset, at, len)[..at + len] == buf[..at] + Pattern(buf[..at], offset, len)
  {
    hide CopyUp, Rem;
    var r := CopyUp(buf, offset, at, len);
    forall j | 0 <= j < at ensures r[j] == buf[j] { CopyUpElsewhere(buf, offset, at, len, j); }
    forall j | at <= j < at + len ensures r[j] == buf[offset + Rem(j - at, at - offset)] {
      CopyUpRepeats(buf, offset, at, len, j - at);
    }
  }

  /** The bound check of a target copy rejects nothing that reads written bytes and fits. */
  lemma BoundNeverRejects(src: Option<bytes>, w: Window, b: Built, i: Insn)
    requires b.Built? && w.bytes.Some? && b.at <= w.tviewLen < |b.buf| && b.at + b.navail == w.tviewLen < LONG_LIMIT
    requires i.code == TARGET && 0 <= i.offset < b.at && 0 < i.len <= b.navail
    ensures ApplyInsn(src, w, b, i).Built?
  {
  }

  /** A buffer of the size the call allocates. */
  ghost predicate Allocated(w: Window, b: Built) {
    b.Built? && w.bytes.Some? && 0 <= w.tviewLen && |b.buf| == w.tviewLen + 1 && b.at <= |b.buf|
  }

  lemma SourceMeans(src: Option<bytes>, w: Window, b: Built, i: Insn)
    requires Allocated(w, b) && GoodInsn(src, w, b.at, b.used, b.navail, i) && i.code == SOURCE
    ensures var r := ApplyInsn(src, w, b, i);
            r.Built? && r.buf[..r.at] == b.buf[..b.at] + Piece(src, w, b.buf[..b.at], b.used, b.navail, i)
  {
    var offset := i.offset + w.sviewOffset;
    if i.len > 0 { assert ReadAt(src.value, offset, i.len) == src.value[offset..][..i.len]; }
  }

  lemma InsnMeans(src: Option<bytes>, w: Window, b: Built, i: Insn)
    requires Allocated(w, b) && GoodInsn(src, w, b.at, b.used, b.navail, i)
    ensures var r := ApplyInsn(src, w, b, i);
            && Allocated(w, r) && r.at == b.at + Max(i.len, 0) && r.used == Taken(b.used, i)
            && r.navail == b.navail - i.len
            && r.buf[..r.at] == b.buf[..b.at] + Piece(src, w, b.buf[..b.at], b.used, b.navail, i)
  {
    if i.code == TARGET {
      if i.len > 0 { CopyUpIsPattern(b.buf, i.offset, b.at, i.len); }
    } else if i.code == SOURCE {
      SourceMeans(src, w, b, i);
    }
  }

  lemma {:induction false} RunMeans(src: Option<bytes>, w: Window, b: Built, insns: seq<Insn>)
    requires Allocated(w, b) && GoodInsns(src, w, b.at, b.used, b.navail, insns)
    ensures var r := Run(src, w, b, insns);
            r.Built? && r.at >= w.tviewLen && r.buf[..r.at] == Emit(src, w, b.buf[..b.at], b.used, b.navail, insns)
    decreases |insns|
  {
    hide ApplyInsn, Piece, GoodInsn;
    if insns != [] {
      var b' := ApplyInsn(src, w, b, insns[0]);
      InsnMeans(src, w, b, insns[0]);
      RunMeans(src, w, b', insns[1..]);
      assert Emit(src, w, b.buf[..b.at], b.used, b.navail, insns)
          == Emit(src, w, b'.buf[..b'.at], b'.used, b'.navail, insns[1..]);
    }
  }

  /** Whatever the buffer held before, a well-formed window leaves its meaning there. */
  lemma BuildMeans(src: Option<bytes>, w: Window, junk: bytes)
    requires WellFormed(src, w) && |junk| == w.tviewLen + 1
    ensures var r := Build(src, w, junk); r.Built? && r.buf[..w.tviewLen] == Meaning(src, w)
  {
    assert junk[..0] == [];
    RunMeans(src, w, Built(junk, 0, 0, w.tviewLen), w.insns);
    var r := Build(src, w, junk);
    assert r.buf[..r.at][..w.tviewLen] == r.buf[..w.tviewLen];
  }

  // ---- and only well-formed windows do ----

  lemma InsnKeeps(src: Option<bytes>, w: Window, b: Built, i: Insn, j: nat)
    requires Allocated(w, b) && j < |b.buf|
    requires var r := ApplyInsn(src, w, b, i); r.Built? && !(b.at <= j < r.at)
    ensures ApplyInsn(src, w, b, i).buf[j] == b.buf[j]
  {
    if i.code == TARGET && i.len > 0 { CopyUpElsewhere(b.buf, i.offset, b.at, i.len, j); }
  }

  lemma {:induction false} RunKeeps(src: Option<bytes>, w: Window, b: Built, insns: seq<Insn>, j: nat)
    requires Allocated(w, b) && j < |b.buf|
    requires var r := Run(src, w, b, insns); r.Built? && !(b.at <= j < r.at)
    ensures Run(src, w, b, insns).buf[j] == b.buf[j]
    decreases |insns|
  {
    hide ApplyInsn;
    if insns != [] {
      InsnKeeps(src, w, b, insns[0], j);
      RunKeeps(src, w, ApplyInsn(src, w, b, insns[0]), insns[1..], j);
    }
  }

  /** Two runs that differ in every byte not written yet. */
  ghost predicate Differ(w: Window, b: Built, c: Built)
  {
    && Allocated(w, b) && Allocated(w, c) && b.at == c.at && b.used == c.used && b.navail == c.navail
    && b.buf[..b.at] == c.buf[..b.at]
    && forall j | b.at <= j < |b.buf| :: b.buf[j] != c.buf[j]
  }

  /** An instruction that goes through is good, or copies bytes that are not written yet. */
  lemma BuiltIsGood(src: Option<bytes>, w: Window, b: Built, i: Insn)
    requires Allocated(w, b) && ApplyInsn(src, w, b, i).Built?
    ensures GoodInsn(src, w, b.at, b.used, b.navail, i)
         || (i.code == TARGET && i.len > 0 && b.at <= i.offset && i.offset + i.len < w.tviewLen)
  {
  }

  /** A good instruction writes the same bytes in both runs; one that reads ahead does not. */
  lemma StepDiffers(src: Option<bytes>, w: Window, b: Built, c: Built, i: Insn)
    requires Differ(w, b, c)
    requires var (b', c') := (ApplyInsn(src, w, b, i), ApplyInsn(src, w, c, i)); b'.Built? && c'.Built?
    ensures var (b', c') := (ApplyInsn(src, w, b, i), ApplyInsn(src, w, c, i));
            if GoodInsn(src, w, b.at, b.used, b.navail, i) then Differ(w, b', c')
            else b.at < b'.at && b.at < c'.at && b.at < w.tviewLen && b'.buf[b.at] != c'.buf[b.at]
  {
    hide GoodInsn;
    var b', c' := ApplyInsn(src, w, b, i), ApplyInsn(src, w, c, i);
    if GoodInsn(src, w, b.at, b.used, b.navail, i) {
      hide ApplyInsn;
      InsnMeans(src, w, b, i);
      InsnMeans(src, w, c, i);
      forall j | b'.at <= j < |b'.buf| ensures b'.buf[j] != c'.buf[j] {
        InsnKeeps(src, w, b, i, j);
        InsnKeeps(src, w, c, i, j);
      }
    } else {
      BuiltIsGood(src, w, b, i);
      CopyUpElsewhere(b.buf[b.at := b.buf[i.offset]], i.offset + 1, b.at + 1, i.len - 1, b.at);
      CopyUpElsewhere(c.buf[b.at := c.buf[i.offset]], i.offset + 1, b.at + 1, i.len - 1, b.at);
    }
  }

  lemma OneByteApart(x: bytes, y: bytes, n: nat, j: nat)
    requires j < n <= |x| && n <= |y| && x[j] != y[j]
    ensures x[..n] != y[..n]
  {
    assert x[..n][j] != y[..n][j];
  }

  lemma {:induction false} AgreeingRunsAreGood(src: Option<bytes>, w: Window, b: Built, c: Built, insns: seq<Insn>)
    requires Differ(w, b, c)
    requires var (r, s) := (Run(src, w, b, insns), Run(src, w, c, insns));
             r.Built? && s.Built? && r.buf[..w.tviewLen] == s.buf[..w.tviewLen]
    ensures GoodInsns(src, w, b.at, b.used, b.navail, insns)
    decreases |insns|
  {
    hide ApplyInsn, GoodInsn;
    if insns == [] {
      if b.at < w.tviewLen { OneByteApart(b.buf, c.buf, w.tviewLen, b.at); }
    } else {
      var i := insns[0];
      var b', c' := ApplyInsn(src, w, b, i), ApplyInsn(src, w, c, i);
      StepDiffers(src, w, b, c, i);
      if GoodInsn(src, w, b.at, b.used, b.navail, i) {
        InsnMeans(src, w, b, i);
        AgreeingRunsAreGood(src, w, b', c', insns[1..]);
      } else {
        RunKeeps(src, w, b', insns[1..], b.at);
        RunKeeps(src, w, c', insns[1..], b.at);
        OneByteApart(Run(src, w, b, insns).buf, Run(src, w, c, insns).buf, w.tviewLen, b.at);
      }
    }
  }

  /** Junk that differs everywhere cannot hide behind a window that is not well formed. */
  lemma AgreeingBuildsAreGood(src: Option<bytes>, w: Window, zeros: bytes, ones: bytes)
    requires 0 <= w.tviewLen && |zeros| == |ones| == w.tviewLen + 1
    requires forall j | 0 <= j < |zeros| :: zeros[j] != ones[j]
    requires var (r, s) := (Build(src, w, zeros), Build(src, w, ones));
             r.Built? && s.Built? && r.buf[..w.tviewLen] == s.buf[..w.tviewLen]
    ensures WellFormed(src, w)
  {
    assert zeros[..0] == ones[..0];
    AgreeingRunsAreGood(src, w, Built(zeros, 0, 0, w.tviewLen), Built(ones, 0, 0, w.tviewLen), w.insns);
  }

  /** Whatever the allocator left in the buffer, the call succeeds, and always with one result. */
  ghost predicate BuildsReliably(src: Option<bytes>, w: Window) {
    w.tviewLen >= 0 && exists out: bytes :: AlwaysBuilds(src, w, out)
  }

  ghost predicate AlwaysBuilds(src: Option<bytes>, w: Window, out: bytes)
    requires w.tviewLen >= 0
  {
    forall junk: bytes | |junk| == w.tviewLen + 1 ::
      var r := Build(src, w, junk); r.Built? && r.buf[..w.tviewLen] == out
  }

  /** The checks svndiff_build_tview leaves out, exactly: it can be relied on if and only if the
      window is well formed. */
  lemma BuildsReliablyExactly(src: Option<bytes>, w: Window)
    ensures BuildsReliably(src, w) <==> WellFormed(src, w)
  {
    if WellFormed(src, w) {
      forall junk: bytes | |junk| == w.tviewLen + 1
        ensures var r := Build(src, w, junk); r.Built? && r.buf[..w.tviewLen] == Meaning(src, w)
      {
        BuildMeans(src, w, junk);
      }
      assert AlwaysBuilds(src, w, Meaning(src, w));
    }
    if BuildsReliably(src, w) {
      var out: bytes :| AlwaysBuilds(src, w, out);
      var zeros: bytes := seq(w.tviewLen + 1, _ => 0);
      var ones: bytes := seq(w.tviewLen + 1, _ => 1);
      assert Build(src, w, zeros).Built? && Build(src, w, ones).Built?;
      AgreeingBuildsAreGood(src, w, zeros, ones);
    }
  }

  // ---- how an instruction fails ----

  /** How many of the bytes that a copy from the source asks for are there. */
  function Readable(src: bytes, offset: int, len: int): nat { Max(0, Min(|src|, offset + len) - Max(offset, 0)) }

  /** When each error is returned. */
  lemma InsnCodesExactly(src: Option<bytes>, w: Window, b: Built, i: Insn)
    requires b.Built? && w.bytes.Some? && b.at <= |b.buf| && w.tviewLen < |b.buf|
    ensures var r, from := ApplyInsn(src, w, b, i), i.offset + w.sviewOffset;
            var fits := i.len <= b.navail;
            && (r == NotBuilt(BUILD_TVIEW + 1) <==> !fits)
            && (r == NotBuilt(BUILD_TVIEW + 2) <==>
                  fits && i.code == 0 && IsLong(from) && (src == None || from < 0 || i.len < 0))
            && (r == NotBuilt(BUILD_TVIEW + 3) <==>
                  fits && i.code == 0 && IsLong(from) && src.Some? && from >= 0 && 0 <= i.len
                  && Readable(src.value, from, i.len) < i.len && b.at + Readable(src.value, from, i.len) <= |b.buf|)
            && (r == NotBuilt(BUILD_TVIEW + 4) <==> fits && i.code == 2 && |w.bytes.value| - b.used < i.len)
            && (r == NotBuilt(BUILD_TVIEW + 5) <==>
                  fits && i.code == 1 && IsLong(i.offset + i.len) && i.offset + i.len >= w.tviewLen)
            && (r == NotBuilt(BUILD_TVIEW + 6) <==> fits && i.code != 0 && i.code != 1 && i.code != 2)
  {
    hide CopyUp, Overwrite;
  }

  /** The instruction leaves a buffer, or one of its sums leaves the range of a long. */
  predicate Overruns(src: Option<bytes>, w: Window, b: Built, i: Insn)
    requires b.Built? && w.bytes.Some?
  {
    var from := i.offset + w.sviewOffset;
    if i.code == 0 then
      !IsLong(from) || (src.Some? && from >= 0 && 0 <= i.len && b.at + Readable(src.value, from, i.len) > |b.buf|)
    else if i.code == 1 then
      !IsLong(i.offset + i.len)
      || (i.offset + i.len < w.tviewLen
          && (!IsLong(b.navail - i.len) || (i.len > 0 && (i.offset < 0 || b.at + i.len > |b.buf|))))
    else
      i.code == 2 && i.len <= |w.bytes.value| - b.used && (i.len < 0 || b.at + i.len > |b.buf|)
  }

  /** And when an instruction has no defined result. */
  lemma InsnCrashesExactly(src: Option<bytes>, w: Window, b: Built, i: Insn)
    requires b.Built? && w.bytes.Some? && b.at <= |b.buf| && w.tviewLen < |b.buf|
    ensures ApplyInsn(src, w, b, i) == Crashed <==> i.len <= b.navail && Overruns(src, w, b, i)
  {
    hide CopyUp, Overwrite;
  }

  /** A window without its data section, or of negative length, has no result; one without instructions
      leaves the fresh memory as it is. */
  lemma NothingToBuild(src: Option<bytes>, w: Window, junk: bytes)
    requires w.tviewLen < |junk|
    ensures w.bytes == None || w.tviewLen < 0 ==> Build(src, w, junk) == Crashed
    ensures w.bytes.Some? && w.tviewLen >= 0 && w.insns == [] ==> Build(src, w, junk) == Built(junk, 0, 0, w.tviewLen)
  {
  }

  // ---- negative lengths and offsets, which nothing rejects ----

  /** Without negative numbers, and with sums in range, no access leaves its buffer: what the view
      holds may depend on junk, but nothing else is touched. */
  ghost predicate Unsigned(w: Window, i: Insn) {
    0 <= i.len && IsLong(i.offset + w.sviewOffset) && IsLong(i.offset + i.len) && (i.code == TARGET ==> 0 <= i.offset)
  }

  lemma {:induction false} UnsignedStaysInside(src: Option<bytes>, w: Window, b: Built, insns: seq<Insn>)
    requires Allocated(w, b) && b.at + b.navail == w.tviewLen < LONG_LIMIT
    requires 0 <= b.navail && forall i | i in insns :: Unsigned(w, i)
    ensures !Run(src, w, b, insns).Crashed?
    decreases |insns|
  {
    if insns != [] {
      assert Unsigned(w, insns[0]);
      var r := ApplyInsn(src, w, b, insns[0]);
      if r.Built? { UnsignedStaysInside(src, w, r, insns[1..]); }
    }
  }

  /** A call on such a window keeps within its buffers, whatever the source and the fresh memory. */
  lemma BuildStaysInside(src: Option<bytes>, w: Window, junk: bytes)
    requires w.bytes.Some? && 0 <= w.tviewLen < LONG_LIMIT && |junk| == w.tviewLen + 1
    requires forall i | i in w.insns :: Unsigned(w, i)
    ensures !Build(src, w, junk).Crashed?
  {
    UnsignedStaysInside(src, w, Built(junk, 0, 0, w.tviewLen), w.insns);
  }

  const BACKWARD := Insn(TARGET, 4, -3)

  /** Minus three in ten bytes: the last seven bits are shifted over the sign. */
  lemma MinusThree()
    ensures Decode([0x81, 255, 255, 255, 255, 255, 255, 255, 255, 0x7d, 4]) == Number(-3, 10)
  {
    hide Scan, Wrap;
    var r8: bytes := [0x7d] + [4];
    var r7: bytes := [255] + r8;
    var r6: bytes := [255] + r7;
    var r5: bytes := [255] + r6;
    var r4: bytes := [255] + r5;
    var r3: bytes := [255] + r4;
    var r2: bytes := [255] + r3;
    var r1: bytes := [255] + r2;
    var r0: bytes := [255] + r1;
    assert [0x81] + r0 == [0x81, 255, 255, 255, 255, 255, 255, 255, 255, 0x7d, 4];
    ScanDigit(1, 0, 0x81, r0, 10, 0);
    ScanDigit(0xff, 0x1, 255, r1, 9, 1);
    ScanDigit(0x7fff, 0xff, 255, r2, 8, 2);
    ScanDigit(0x3fffff, 0x7fff, 255, r3, 7, 3);
    ScanDigit(0x1fffffff, 0x3fffff, 255, r4, 6, 4);
    ScanDigit(0xfffffffff, 0x1fffffff, 255, r5, 5, 5);
    ScanDigit(0x7ffffffffff, 0xfffffffff, 255, r6, 4, 6);
    ScanDigit(0x3ffffffffffff, 0x7ffffffffff, 255, r7, 3, 7);
    ScanDigit(0x1ffffffffffffff, 0x3ffffffffffff, 255, r8, 2, 8);
    LastDigit();
  }

  lemma LastDigit()
    ensures Scan([0x7d] + [4], 1, 0x1ff_ffff_ffff_ffff, 9) == Number(-3, 10)
  {
  }

  lemma Four()
    ensures Decode([4]) == Number(4, 1)
  {
  }

  /** Twelve bytes that the instruction decoder takes for a target copy of length -3. */
  lemma BackwardIsDecoded()
    ensures DecodeInsn([64, 0x81, 255, 255, 255, 255, 255, 255, 255, 255, 0x7d, 4]) == GotInsn(BACKWARD, 12)
  {
    hide Decode;
    var s: bytes := [64, 0x81, 255, 255, 255, 255, 255, 255, 255, 255, 0x7d, 4];
    MinusThree();
    Four();
    assert s[1..] == [0x81, 255, 255, 255, 255, 255, 255, 255, 255, 0x7d, 4] && s[11..] == [4];
  }

  /** A window of five bytes that begins with it, and then takes n new bytes. */
  function BackwardWindow(n: int, data: bytes): Window {
    Window(0, 0, 5, 0, 0, [BACKWARD] + [Insn(NEW, -1, n)], Some(data))
  }

  /** It makes the code believe in three bytes more than there are. With five new bytes the window is
      filled, and can be relied on. */
  lemma BackwardCanBeHarmless(src: Option<bytes>, data: bytes)
    requires |data| >= 5
    ensures BuildsReliably(src, BackwardWindow(5, data))
  {
    var w := BackwardWindow(5, data);
    var last := [Insn(NEW, -1, 5)];
    assert w.insns[1..] == last && last[1..] == [];
    assert GoodInsns(src, w, 5, 5, 3, []);
    assert GoodInsns(src, w, 0, 0, 8, last);
    BuildsReliablyExactly(src, w);
  }

  /** With eight, which the code takes to fit, it writes past the end of its allocation. */
  lemma BackwardOverruns(src: Option<bytes>, data: bytes, junk: bytes)
    requires |data| == 8 && |junk| == 6
    ensures Build(src, BackwardWindow(8, data), junk) == Crashed
  {
    var w := BackwardWindow(8, data);
    var last := [Insn(NEW, -1, 8)];
    assert w.insns[0] == BACKWARD && w.insns[1..] == last;
    assert Run(src, w, Built(junk, 0, 0, 8), last) == Crashed;
    assert ApplyInsn(src, w, Built(junk, 0, 0, 5), BACKWARD) == Built(junk, 0, 0, 8);
  }
}
