/** The WebDAV update report: XML events drive the file editor, and a stack of names rebuilds the
    path of each element. */
module PathStack {
  import opened Bytes

  datatype Kind = OpenDirectory | AddDirectory | OpenFile | AddFile | DeleteEntry | Other

  datatype Event = Start(kind: Kind, name: Option<bytes>) | End(kind: Kind)

  /** What is asked of the file editor, and for which path. */
  datatype Call =
    | OpenRoot
    | OpenDir(path: bytes)
    | AddDir(path: bytes)
    | OpenThe(path: bytes)
    | AddThe(path: bytes)
    | Delete(path: bytes)
    | CloseFile

  /** The file editor's return code for the last of the calls so far. */
  type Answers = seq<Call> -> int

  datatype State = State(cwp: seq<bytes>, calls: seq<Call>)

  /** Every name behind a slash. */
  function Join(names: seq<bytes>): bytes { if names == [] then [] else [SLASH] + names[0] + Join(names[1..]) }

  lemma {:induction false} JoinSnoc(names: seq<bytes>, n: bytes)
    ensures Join(names + [n]) == Join(names) + [SLASH] + n
  {
    if names == [] {
      assert Join([n]) == [SLASH] + n + Join([n][1..]);
    } else {
      assert (names + [n])[0] == names[0] && (names + [n])[1..] == names[1..] + [n];
      JoinSnoc(names[1..], n);
    }
  }

  lemma JoinSpelled()
    ensures Join([Ascii("trunk"), Ascii("src")]) == Ascii("/trunk/src")
  {
    var names: seq<bytes>, none: seq<bytes> := [Ascii("trunk"), Ascii("src")], [];
    assert names[1..] == [Ascii("src")] && names[1..][1..] == none;
    assert Ascii("/trunk/src") == [SLASH] + Ascii("trunk") + ([SLASH] + Ascii("src") + []);
  }

  function Leave(cwp: seq<bytes>): seq<bytes> { if cwp == [] then [] else cwp[..|cwp| - 1] }

  function CallFor(kind: Kind, path: bytes): Call
    requires kind != Other
  {
    match kind
    case OpenDirectory => OpenDir(path)
    case AddDirectory => AddDir(path)
    case OpenFile => OpenThe(path)
    case AddFile => AddThe(path)
    case DeleteEntry => Delete(path)
  }

  function Step(answer: Answers, s: State, ev: Event): State {
    match ev
    case Start(Other, _) => s
    case Start(OpenDirectory, None) => s.(calls := s.calls + [OpenRoot])
    case Start(_, None) => s
    case Start(kind, Some(n)) =>
      var calls := s.calls + [CallFor(kind, Join(s.cwp + [n]))];
      State(if kind == DeleteEntry && answer(calls) == 0 then s.cwp else s.cwp + [n], calls)
    case End(kind) =>
      if kind == OpenDirectory || kind == AddDirectory then s.(cwp := Leave(s.cwp))
      else if kind == OpenFile || kind == AddFile then State(Leave(s.cwp), s.calls + [CloseFile])
      else s
  }

  function Run(answer: Answers, s: State, evs: seq<Event>): State
    decreases |evs|
  {
    if evs == [] then s else Run(answer, Step(answer, s, evs[0]), evs[1..])
  }

  // ---- the handlers as the program runs them ----

  class DavEditor {
    const answer: Answers
    var cwp: seq<bytes>
    var calls: seq<Call>

    ghost function Now(): State reads this { State(cwp, calls) }

    constructor (answer: Answers)
      ensures Now() == State([], []) && this.answer == answer
    {
      this.answer, cwp, calls := answer, [], [];
    }

    method EnterName(dir: bytes)
      modifies `cwp
      ensures cwp == old(cwp) + [dir]
    {
      cwp := cwp + [dir];
    }

    method LeaveName()
      modifies `cwp
      ensures cwp == Leave(old(cwp))
    {
      if |cwp| > 0 { cwp := cwp[..|cwp| - 1]; }
    }

    /** dav_cwp: the size first, then the names one after another into a buffer of that size. */
    method CurrentPath() returns (path: array<byte>)
      ensures fresh(path) && path[..] == Join(cwp) + [0]
    {
      var sz, k := 0, 0;
      while k < |cwp|
        invariant 0 <= k <= |cwp| && sz + k == |Join(cwp[..k])|
      {
        assert cwp[..k + 1] == cwp[..k] + [cwp[k]];
        JoinSnoc(cwp[..k], cwp[k]);
        sz, k := sz + |cwp[k]|, k + 1;
      }
      assert cwp[..k] == cwp;
      sz := sz + |cwp|;
      path := new byte[sz + 1];
      var d := 0;
      k := 0;
      while k < |cwp|
        invariant 0 <= k <= |cwp| && d == |Join(cwp[..k])| <= sz && path[..d] == Join(cwp[..k])
      {
        var name := cwp[k];
        assert cwp[..k + 1] == cwp[..k] + [name];
        JoinSnoc(cwp[..k], name);
        JoinFits(cwp, k + 1);
        ghost var done := path[..d];
        path[d] := SLASH;
        forall i | 0 <= i < |name| { path[d + 1 + i] := name[i]; }
        assert path[..d + 1 + |name|] == done + [SLASH] + name;
        d, k := d + 1 + |name|, k + 1;
      }
      assert cwp[..k] == cwp;
      path[d] := 0;
    }

    /** Ask the editor. */
    method Ask(c: Call) returns (res: int)
      modifies `calls
      ensures calls == old(calls) + [c] && res == answer(calls)
    {
      calls := calls + [c];
      res := answer(calls);
    }

    /** editor_el_start; its failures are traced and otherwise dropped. */
    method ElStart(kind: Kind, name: Option<bytes>)
      modifies this
      ensures Now() == Step(answer, old(Now()), Start(kind, name))
    {
      if kind == Other { return; }
      if name == None {
        if kind == OpenDirectory { var res := Ask(OpenRoot); }
        return;
      }
      EnterName(name.value);
      var path := CurrentPath();
      var p := path[..path.Length - 1];
      assert p == Join(cwp);
      var res := Ask(CallFor(kind, p));
      if kind == DeleteEntry {
        if res != 0 { return; }
        LeaveName();
        assert cwp == old(cwp);
      }
    }

    /** editor_el_end. */
    method ElEnd(kind: Kind)
      modifies this
      ensures Now() == Step(answer, old(Now()), End(kind))
    {
      match kind {
        case OpenDirectory => LeaveName();
        case AddDirectory => LeaveName();
        case OpenFile =>
          var res := Ask(CloseFile);
          LeaveName();
        case AddFile =>
          var res := Ask(CloseFile);
          LeaveName();
        case _ =>
      }
    }
  }

  lemma {:induction false} JoinFits(names: seq<bytes>, k: nat)
    requires k <= |names|
    ensures |Join(names[..k])| <= |Join(names)|
  {
    if k > 0 {
      JoinFits(names[1..], k - 1);
      assert names[..k][1..] == names[1..][..k - 1];
    }
  }

  // ---- the path stack agrees with the document tree ----

  datatype Element = Element(kind: Kind, name: Option<bytes>, children: seq<Element>)

  /** The events the XML parser reports for an element. */
  function Events(e: Element): seq<Event>
    decreases e, 1
  {
    [Start(e.kind, e.name)] + AllEvents(e.children) + [End(e.kind)]
  }

  function AllEvents(es: seq<Element>): seq<Event>
    decreases es, 0
  {
    if es == [] then [] else Events(es[0]) + AllEvents(es[1..])
  }

  /** The names from the root down to and including e's own, for the elements inside e. */
  function Below(names: seq<bytes>, e: Element): seq<bytes> {
    if e.name.Some? && e.kind != Other && e.kind != DeleteEntry then names + [e.name.value] else names
  }

  function Opening(names: seq<bytes>, e: Element): seq<Call> {
    if e.name == None then
      if e.kind == OpenDirectory then [OpenRoot] else []
    else
      var path := Join(names) + [SLASH] + e.name.value;
      match e.kind
      case OpenDirectory => [OpenDir(path)]
      case AddDirectory => [AddDir(path)]
      case OpenFile => [OpenThe(path)]
      case AddFile => [AddThe(path)]
      case DeleteEntry => [Delete(path)]
      case Other => []
  }

  function Closing(e: Element): seq<Call> { if e.kind == OpenFile || e.kind == AddFile then [CloseFile] else [] }

  /** What a reader of the document expects: each element in document order, with the names of its
      named ancestors and its own as the path, and each file closed behind what it holds. */
  function Expected(names: seq<bytes>, e: Element): seq<Call>
    decreases e, 1
  {
    Opening(names, e) + AllExpected(Below(names, e), e.children) + Closing(e)
  }

  function AllExpected(names: seq<bytes>, es: seq<Element>): seq<Call>
    decreases es, 0
  {
    if es == [] then [] else Expected(names, es[0]) + AllExpected(names, es[1..])
  }

  /** Every directory, file and delete element has a name, except that an open-directory outside of
      all named ones may have none. */
  predicate WellNamed(names: seq<bytes>, e: Element)
    decreases e, 1
  {
    && (e.kind == Other || e.name.Some? || (e.kind == OpenDirectory && names == []))
    && AllWellNamed(Below(names, e), e.children)
  }

  predicate AllWellNamed(names: seq<bytes>, es: seq<Element>)
    decreases es, 0
  {
    es == [] || (WellNamed(names, es[0]) && AllWellNamed(names, es[1..]))
  }

  ghost predicate DeletesSucceed(answer: Answers) {
    forall calls: seq<Call> | calls != [] && calls[|calls| - 1].Delete? :: answer(calls) == 0
  }

  lemma {:induction false} RunAppend(answer: Answers, s: State, a: seq<Event>, b: seq<Event>)
    ensures Run(answer, s, a + b) == Run(answer, Run(answer, s, a), b)
    decreases |a|
  {
    if a == [] {
      assert a + b == b;
    } else {
      assert (a + b)[0] == a[0] && (a + b)[1..] == a[1..] + b;
      RunAppend(answer, Step(answer, s, a[0]), a[1..], b);
    }
  }

  lemma RunOne(answer: Answers, s: State, ev: Event)
    ensures Run(answer, s, [ev]) == Step(answer, s, ev)
  {
    assert [ev][1..] == [];
  }

  lemma StartStep(answer: Answers, names: seq<bytes>, calls: seq<Call>, e: Element)
    requires WellNamed(names, e) && DeletesSucceed(answer)
    ensures Step(answer, State(names, calls), Start(e.kind, e.name))
         == State(Below(names, e), calls + Opening(names, e))
  {
    if e.name.Some? { JoinSnoc(names, e.name.value); }
    if e.kind == DeleteEntry {
      var more := calls + Opening(names, e);
      assert more[|more| - 1].Delete?;
    }
  }

  lemma EndStep(answer: Answers, names: seq<bytes>, calls: seq<Call>, e: Element)
    requires WellNamed(names, e)
    ensures Step(answer, State(Below(names, e), calls), End(e.kind)) == State(names, calls + Closing(e))
  {
  }

  /** For any well-named document whose deletes succeed, the editor is asked exactly what the
      document says, path by path, and the stack after an element is the stack before it. */
  lemma {:induction false} PathsAgree(answer: Answers, names: seq<bytes>, calls: seq<Call>, e: Element)
    requires WellNamed(names, e) && DeletesSucceed(answer)
    ensures Run(answer, State(names, calls), Events(e)) == State(names, calls + Expected(names, e))
    decreases e, 1
  {
    hide Step, Run, Below, Opening, Closing, AllEvents, AllExpected, DeletesSucceed;
    var s, start, end := State(names, calls), Start(e.kind, e.name), End(e.kind);
    var inside, kids := Below(names, e), AllExpected(Below(names, e), e.children);
    RunAppend(answer, s, [start] + AllEvents(e.children), [end]);
    RunAppend(answer, s, [start], AllEvents(e.children));
    RunOne(answer, s, start);
    StartStep(answer, names, calls, e);
    AllPathsAgree(answer, inside, calls + Opening(names, e), e.children);
    RunOne(answer, State(inside, calls + Opening(names, e) + kids), end);
    EndStep(answer, names, calls + Opening(names, e) + kids, e);
    assert calls + Opening(names, e) + kids + Closing(e) == calls + Expected(names, e);
  }

  lemma {:induction false} AllPathsAgree(answer: Answers, names: seq<bytes>, calls: seq<Call>, es: seq<Element>)
    requires AllWellNamed(names, es) && DeletesSucceed(answer)
    ensures Run(answer, State(names, calls), AllEvents(es)) == State(names, calls + AllExpected(names, es))
    decreases es, 0
  {
    hide Step, Events, Expected, WellNamed, DeletesSucceed;
    if es == [] {
      assert calls + [] == calls;
    } else {
      RunAppend(answer, State(names, calls), Events(es[0]), AllEvents(es[1..]));
      PathsAgree(answer, names, calls, es[0]);
      AllPathsAgree(answer, names, calls + Expected(names, es[0]), es[1..]);
      assert calls + Expected(names, es[0]) + AllExpected(names, es[1..]) == calls + AllExpected(names, es);
    }
  }

  // ---- where the stack and the document part ways ----

  lemma RunTwo(answer: Answers, s: State, a: Event, b: Event)
    ensures Run(answer, s, [a, b]) == Step(answer, Step(answer, s, a), b)
  {
    assert [a, b] == [a] + [b];
    RunAppend(answer, s, [a], [b]);
    RunOne(answer, s, a);
    RunOne(answer, Step(answer, s, a), b);
  }

  /** A delete leaves the stack as it was exactly when it succeeds; a failed one leaves its name
      behind. The paths of its later siblings carry it, until the end of the directory around them
      takes it off instead of that directory's own name. */
  lemma DeleteRestoresExactly(answer: Answers, s: State, n: bytes)
    ensures var s' := Run(answer, s, Events(Element(DeleteEntry, Some(n), [])));
            var call := Delete(Join(s.cwp + [n]));
            && s'.calls == s.calls + [call]
            && s'.cwp == if answer(s'.calls) == 0 then s.cwp else s.cwp + [n]
  {
    var evs := Events(Element(DeleteEntry, Some(n), []));
    assert evs == [Start(DeleteEntry, Some(n)), End(DeleteEntry)];
    RunTwo(answer, s, Start(DeleteEntry, Some(n)), End(DeleteEntry));
  }

  /** An element without a name asks for nothing at its start, unless it opens the root; but its end
      closes a file, and takes the name of the directory around it off the stack. */
  lemma NamelessPopsParent(answer: Answers, s: State, kind: Kind)
    ensures var s' := Run(answer, s, Events(Element(kind, None, [])));
            && s'.cwp == (if kind == DeleteEntry || kind == Other then s.cwp else Leave(s.cwp))
            && s'.calls == s.calls + if kind == OpenDirectory then [OpenRoot]
                                     else if kind == OpenFile || kind == AddFile then [CloseFile] else []
  {
    var evs := Events(Element(kind, None, []));
    assert evs == [Start(kind, None), End(kind)];
    RunTwo(answer, s, Start(kind, None), End(kind));
  }
}
