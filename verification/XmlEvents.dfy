/** The events of an XML reader, and the trees and traces they stand for. */
module XmlEvents {

  import opened Sequences

  type Attrs = map<string, string>

  datatype Event = Start(name: string, attrs: Attrs) | End(name: string) | Chars(text: string)

  datatype Tree = Element(name: string, attrs: Attrs, children: seq<Tree>) | Text(text: string)

  // ---------------------------------------------------------------- stripping

  predicate Blank(c: char) {
    c == ' ' || c == '\U{0B}' || c == '\r' || c == '\t' || c == '\n'
  }

  function StripLeft(s: string): string {
    if s != [] && Blank(s[0]) then StripLeft(s[1..]) else s
  }

  function StripRight(s: string): string {
    if s != [] && Blank(s[|s| - 1]) then StripRight(s[..|s| - 1]) else s
  }

  /** ch.strip(' \v\r\t\n') */
  function Strip(s: string): string {
    StripRight(StripLeft(s))
  }

  ghost predicate AllBlank(s: string) {
    forall i | 0 <= i < |s| :: Blank(s[i])
  }

  lemma {:induction false} StripLeftIs(s: string, n: nat)
    requires n <= |s| && AllBlank(s[..n]) && (n == |s| || !Blank(s[n]))
    ensures StripLeft(s) == s[n..]
    decreases n
  {
    if n > 0 {
      assert s[..n][0] == s[0];
      assert s[1..][..n - 1] == s[..n][1..];
      StripLeftIs(s[1..], n - 1);
    }
  }

  lemma {:induction false} StripRightIs(s: string, n: nat)
    requires n <= |s| && AllBlank(s[n..]) && (n == 0 || !Blank(s[n - 1]))
    ensures StripRight(s) == s[..n]
    decreases |s| - n
  {
    if n < |s| {
      var below := s[..|s| - 1];
      assert s[n..][|s| - 1 - n] == s[|s| - 1];
      assert below[n..] == s[n..][..|s| - 1 - n];
      StripRightIs(below, n);
      assert below[..n] == s[..n];
    }
  }

  /** All but the blanks at both ends. */
  ghost predicate Inner(s: string, from: nat, to: nat) {
    from < to <= |s| && !Blank(s[from]) && !Blank(s[to - 1])
    && (forall i | 0 <= i < from :: Blank(s[i])) && (forall i | to <= i < |s| :: Blank(s[i]))
  }

  lemma StripIs(s: string, from: nat, to: nat)
    requires Inner(s, from, to)
    ensures Strip(s) == s[from..to]
  {
    StripLeftIs(s, from);
    var rest := s[from..];
    assert rest[to - from - 1] == s[to - 1];
    assert rest[to - from..] == s[to..];
    StripRightIs(rest, to - from);
    assert rest[..to - from] == s[from..to];
  }

  lemma StripBlank(s: string)
    requires AllBlank(s)
    ensures Strip(s) == []
  {
    StripLeftIs(s, |s|);
  }

  lemma InnerExists(s: string) returns (from: nat, end: nat)
    requires !AllBlank(s)
    ensures Inner(s, from, end)
  {
    from, end := 0, |s|;
    while Blank(s[from])
      invariant from < |s| && (forall i | 0 <= i < from :: Blank(s[i])) && exists i :: from <= i < |s| && !Blank(s[i])
      decreases |s| - from
    {
      from := from + 1;
    }
    while Blank(s[end - 1])
      invariant from < end <= |s| && (forall i | end <= i < |s| :: Blank(s[i]))
      decreases end
    {
      end := end - 1;
    }
  }

  lemma BlankIs(c: char)
    ensures Blank(c) <==> c in {' ', '\U{0B}', '\r', '\t', '\n'}
  {
  }

  /** Nothing is left of exactly these texts. */
  lemma StripLeavesNothing(s: string)
    ensures Strip(s) == [] <==> forall i | 0 <= i < |s| :: s[i] in {' ', '\U{0B}', '\r', '\t', '\n'}
  {
    if AllBlank(s) {
      StripBlank(s);
    } else {
      var from, end := InnerExists(s);
      StripIs(s, from, end);
      assert !Blank(s[from]);
    }
  }

  /** What is left begins and ends with other characters, and only these are taken from its ends. */
  lemma StripTakesEnds(s: string) returns (before: string, after: string)
    requires Strip(s) != []
    ensures s == before + Strip(s) + after
    ensures forall c | c in before || c in after :: c in {' ', '\U{0B}', '\r', '\t', '\n'}
    ensures Strip(s)[0] !in {' ', '\U{0B}', '\r', '\t', '\n'}
    ensures Strip(s)[|Strip(s)| - 1] !in {' ', '\U{0B}', '\r', '\t', '\n'}
  {
    if AllBlank(s) {
      StripBlank(s);
    }
    var from, end := InnerExists(s);
    StripIs(s, from, end);
    before, after := s[..from], s[end..];
  }

  /** The blanks between two texts are at no end. */
  ghost predicate JoinsClean(a: string, b: string) {
    AllBlank(a) || AllBlank(b) || (!Blank(a[|a| - 1]) && !Blank(b[0]))
  }

  lemma InnerOfBoth(a: string, b: string, from: nat, mid: nat, mid': nat, to: nat)
    requires Inner(a, from, mid) && Inner(b, mid', to)
    ensures Inner(a + b, from, |a| + to)
    ensures Strip(a + b) == Strip(a) + Strip(b) <==> mid == |a| && mid' == 0
  {
    var s := a + b;
    assert s[from] == a[from] && s[|a| + to - 1] == b[to - 1];
    assert forall i | |a| + to <= i < |s| :: s[i] == b[i - |a|];
    StripIs(a, from, mid);
    StripIs(b, mid', to);
    StripIs(s, from, |a| + to);
    assert s[from..|a| + to] == a[from..] + b[..to];
  }

  lemma InnerOfOne(a: string, b: string)
    requires AllBlank(a) || AllBlank(b)
    ensures Strip(a + b) == Strip(a) + Strip(b)
  {
    var s := a + b;
    if AllBlank(a) && AllBlank(b) {
      StripBlank(a);
      StripBlank(b);
      StripBlank(s);
    } else if AllBlank(a) {
      var from, to := InnerExists(b);
      StripBlank(a);
      StripIs(b, from, to);
      assert forall i | 0 <= i < |b| :: s[|a| + i] == b[i];
      StripIs(s, |a| + from, |a| + to);
      assert s[|a| + from..|a| + to] == b[from..to];
    } else {
      var from, to := InnerExists(a);
      StripBlank(b);
      StripIs(a, from, to);
      assert forall i | |a| <= i < |s| :: s[i] == b[i - |a|];
      StripIs(s, from, to);
      assert s[from..to] == a[from..to];
    }
  }

  /** Stripping two parts of a text is stripping the text exactly if no blanks are lost between them. */
  lemma StripConcat(a: string, b: string)
    ensures Strip(a + b) == Strip(a) + Strip(b) <==> JoinsClean(a, b)
  {
    if AllBlank(a) || AllBlank(b) {
      InnerOfOne(a, b);
    } else {
      var from, mid := InnerExists(a);
      var mid', to := InnerExists(b);
      InnerOfBoth(a, b, from, mid, mid', to);
    }
  }

  // ---------------------------------------------------------------- specification

  /** The events that read a tree in order. */
  function Trace(t: Tree): seq<Event> {
    match t
    case Text(text) => [Chars(text)]
    case Element(name, attrs, children) => [Start(name, attrs)] + Traces(children) + [End(name)]
  }

  function Traces(ts: seq<Tree>): seq<Event> {
    if ts == [] then [] else Traces(ts[..|ts| - 1]) + Trace(ts[|ts| - 1])
  }

  function Pending(text: string): seq<Event> {
    if text == [] then [] else [Chars(text)]
  }

  /** The events with adjacent stripped text merged and empty text dropped; some text is already at hand. */
  function Clean(events: seq<Event>, text: string): seq<Event> {
    if events == [] then Pending(text)
    else if events[0].Chars? then Clean(events[1..], text + Strip(events[0].text))
    else Pending(text) + [events[0]] + Clean(events[1..], [])
  }

  /** Text of only such characters, between the elements of an indented document, changes nothing. */
  lemma {:induction false} BlankTextChangesNothing(a: seq<Event>, blank: string, b: seq<Event>, text: string)
    requires forall i | 0 <= i < |blank| :: blank[i] in {' ', '\U{0B}', '\r', '\t', '\n'}
    ensures Clean(a + [Chars(blank)] + b, text) == Clean(a + b, text)
    decreases |a|
  {
    var with := a + [Chars(blank)] + b;
    if a == [] {
      StripLeavesNothing(blank);
      assert with == [Chars(blank)] + b && a + b == b;
      assert text + [] == text;
    } else {
      assert with[0] == (a + b)[0] == a[0];
      assert with[1..] == a[1..] + [Chars(blank)] + b && (a + b)[1..] == a[1..] + b;
      BlankTextChangesNothing(a[1..], blank, b, if a[0].Chars? then text + Strip(a[0].text) else []);
    }
  }

  lemma {:induction false} CleanTells(events: seq<Event>, s: string, t: string)
    requires Clean(events, s) == Clean(events, t)
    ensures s == t
    decreases |events|
  {
    if events == [] {
      PendingTells(s, t, []);
    } else if events[0].Chars? {
      CleanTells(events[1..], s + Strip(events[0].text), t + Strip(events[0].text));
      SameBefore(s, t, Strip(events[0].text));
    } else {
      Associate(Pending(s), [events[0]], Clean(events[1..], []));
      Associate(Pending(t), [events[0]], Clean(events[1..], []));
      PendingTells(s, t, [events[0]] + Clean(events[1..], []));
    }
  }

  lemma SameBefore(s: string, t: string, u: string)
    requires s + u == t + u
    ensures s == t
  {
    assert s == (s + u)[..|s|] && t == (t + u)[..|t|];
  }

  lemma PendingTells(s: string, t: string, rest: seq<Event>)
    requires Pending(s) + rest == Pending(t) + rest && (rest == [] || !rest[0].Chars?)
    ensures s == t
  {
    if s != [] {
      assert (Pending(s) + rest)[0] == Chars(s);
    }
    if t != [] {
      assert (Pending(t) + rest)[0] == Chars(t);
    }
  }

  /**
   The reader may split a text without changing what is built exactly where no blanks are lost:
   next to blank text, or between two characters that are not blank.
   */
  lemma SplitTextReadsTheSame(a: string, b: string, rest: seq<Event>, text: string)
    ensures Clean([Chars(a + b)] + rest, text) == Clean([Chars(a), Chars(b)] + rest, text) <==> JoinsClean(a, b)
  {
    var once, twice := [Chars(a + b)] + rest, [Chars(a), Chars(b)] + rest;
    assert once[1..] == rest && twice[1..] == [Chars(b)] + rest && twice[1..][1..] == rest;
    StripConcat(a, b);
    Associate(text, Strip(a), Strip(b));
    assert Clean(once, text) == Clean(rest, text + Strip(a + b));
    assert Clean(twice, text) == Clean(twice[1..], text + Strip(a)) == Clean(rest, text + Strip(a) + Strip(b));
    if Clean(once, text) == Clean(twice, text) {
      CleanTells(rest, text + Strip(a + b), text + Strip(a) + Strip(b));
      SameAfter(text, Strip(a + b), Strip(a) + Strip(b));
    }
  }

  lemma SameAfter(s: string, t: string, u: string)
    requires s + t == s + u
    ensures t == u
  {
    assert t == (s + t)[|s|..] && u == (s + u)[|s|..];
  }

  /** A blank at the end of the first part is lost. */
  lemma SplitTextMayLoseBlanks(rest: seq<Event>)
    ensures Clean([Chars("x y")] + rest, []) != Clean([Chars("x "), Chars("y")] + rest, [])
  {
    assert "x y" == "x " + "y";
    assert !Blank("x "[0]) && !Blank("y"[0]);
    SplitTextReadsTheSame("x ", "y", rest, []);
  }

  /** Every element that opens closes, under its name, and text is inside an element; these are open, innermost first. */
  predicate WellNested(events: seq<Event>, open: seq<string>) {
    if events == [] then open == [] else
      match events[0]
      case Start(name, _) => WellNested(events[1..], [name] + open)
      case End(name) => open != [] && open[0] == name && WellNested(events[1..], open[1..])
      case Chars(text) => (open != [] || Strip(text) == []) && WellNested(events[1..], open)
  }

  /** How many elements close outside all others. */
  function Documents(events: seq<Event>, depth: nat): nat {
    if events == [] then 0 else
      match events[0]
      case Start(_, _) => Documents(events[1..], depth + 1)
      case End(_) => (if depth == 1 then 1 else 0) + Documents(events[1..], if depth == 0 then 0 else depth - 1)
      case Chars(_) => Documents(events[1..], depth)
  }

  // ---------------------------------------------------------------- building

  /** The elements that are still open, innermost first, with the children they have so far. */
  datatype Stack = Empty | Push(name: string, attrs: Attrs, children: seq<Tree>, below: Stack)

  /** The closed roots, the open elements, and the text at hand. */
  datatype State = State(roots: seq<Tree>, stack: Stack, text: string)

  const START: State := State([], Empty, [])

  function Depth(stack: Stack): nat {
    if stack.Empty? then 0 else 1 + Depth(stack.below)
  }

  function NamesOf(stack: Stack): seq<string> {
    if stack.Empty? then [] else [stack.name] + NamesOf(stack.below)
  }

  /** The innermost open element gets a child, or the roots do. */
  function Add(s: State, t: Tree): State {
    match s.stack
    case Empty => s.(roots := s.roots + [t])
    case Push(name, attrs, children, below) => s.(stack := Push(name, attrs, children + [t], below))
  }

  function Flush(s: State): State {
    if s.text == [] then s else Add(s, Text(s.text)).(text := [])
  }

  function Close(s: State): State
    requires s.stack.Push?
  {
    Add(s.(stack := s.stack.below), Element(s.stack.name, s.stack.attrs, s.stack.children))
  }

  /** An element is open where an event needs one. */
  predicate Possible(s: State, e: Event) {
    (s.stack.Empty? ==> s.text == []) &&
    match e
    case Start(_, _) => true
    case End(_) => s.stack.Push?
    case Chars(text) => s.stack.Push? || Strip(text) == []
  }

  function Step(s: State, e: Event): (r: State)
    requires Possible(s, e)
    ensures r.stack.Empty? ==> r.text == []
  {
    match e
    case Start(name, attrs) => var f := Flush(s); f.(stack := Push(name, attrs, [], f.stack))
    case End(_) => Close(Flush(s))
    case Chars(text) => s.(text := s.text + Strip(text))
  }

  // ---------------------------------------------------------------- the trace of what is built

  function StackTrace(stack: Stack): seq<Event> {
    match stack
    case Empty => []
    case Push(name, attrs, children, below) => StackTrace(below) + [Start(name, attrs)] + Traces(children)
  }

  /** All of it but the text at hand. */
  function StateTrace(s: State): seq<Event> {
    Traces(s.roots) + StackTrace(s.stack)
  }

  lemma TracesOne(ts: seq<Tree>, t: Tree)
    ensures Traces(ts + [t]) == Traces(ts) + Trace(t)
  {
    assert (ts + [t])[..|ts|] == ts;
  }

  lemma {:induction false} TracesConcat(a: seq<Tree>, b: seq<Tree>)
    ensures Traces(a + b) == Traces(a) + Traces(b)
  {
    if b == [] {
      assert a + b == a;
    } else {
      var below, last := b[..|b| - 1], b[|b| - 1];
      TracesConcat(a, below);
      TracesOne(a + below, last);
      TracesOne(below, last);
      AssociateFour(Traces(a), Traces(below), Trace(last), []);
      assert b == below + [last] && a + b == a + below + [last];
    }
  }

  lemma AddTrace(s: State, t: Tree)
    ensures StateTrace(Add(s, t)) == StateTrace(s) + Trace(t)
  {
    match s.stack
    case Empty =>
      TracesOne(s.roots, t);
    case Push(name, attrs, children, below) =>
      TracesOne(children, t);
      AssociateFour(StackTrace(below) + [Start(name, attrs)], Traces(children), Trace(t), []);
      Regroup(Traces(s.roots), StackTrace(below) + [Start(name, attrs)], Traces(children), Trace(t), []);
  }

  lemma Regroup<T>(a: seq<T>, b: seq<T>, c: seq<T>, d: seq<T>, e: seq<T>)
    ensures a + (b + (c + d)) + e == a + (b + c) + d + e
    ensures a + b + (c + d + e) == a + (b + c + d) + e
  {
  }

  lemma FlushTrace(s: State)
    requires s.stack.Empty? ==> s.text == []
    ensures StateTrace(Flush(s)) == StateTrace(s) + Pending(s.text)
  {
    if s.text != [] {
      AddTrace(s, Text(s.text));
    }
  }

  lemma CloseTrace(s: State)
    requires s.stack.Push?
    ensures StateTrace(Close(s)) == StateTrace(s) + [End(s.stack.name)]
  {
    var Push(name, attrs, children, below) := s.stack;
    AddTrace(s.(stack := below), Element(name, attrs, children));
    Regroup(Traces(s.roots), StackTrace(below), [Start(name, attrs)], Traces(children), [End(name)]);
  }

  lemma OpenTrace(s: State, name: string, attrs: Attrs)
    ensures StateTrace(s.(stack := Push(name, attrs, [], s.stack))) == StateTrace(s) + [Start(name, attrs)]
  {
  }

  /** What an event that is not text adds to the trace, besides the text before it. */
  lemma StepTrace(s: State, e: Event)
    requires Possible(s, e) && !e.Chars?
    requires e.End? ==> s.stack.name == e.name
    ensures StateTrace(Step(s, e)) == StateTrace(s) + Pending(s.text) + [e]
  {
    FlushTrace(s);
    match e
    case Start(name, attrs) => OpenTrace(Flush(s), name, attrs);
    case End(name) => CloseTrace(Flush(s));
  }

  lemma FirstIsPossible(s: State, events: seq<Event>)
    requires events != [] && WellNested(events, NamesOf(s.stack)) && (s.stack.Empty? ==> s.text == [])
    ensures Possible(s, events[0])
  {
  }

  lemma StepKeepsNesting(s: State, events: seq<Event>)
    requires events != [] && WellNested(events, NamesOf(s.stack)) && Possible(s, events[0])
    ensures WellNested(events[1..], NamesOf(Step(s, events[0]).stack))
  {
    if events[0].End? {
      assert ([events[0].name] + NamesOf(s.stack.below))[1..] == NamesOf(s.stack.below);
    }
  }

  function Run(s: State, events: seq<Event>): State
    requires WellNested(events, NamesOf(s.stack)) && (s.stack.Empty? ==> s.text == [])
    decreases |events|
  {
    if events == [] then s else
      FirstIsPossible(s, events);
      StepKeepsNesting(s, events);
      Run(Step(s, events[0]), events[1..])
  }

  /** What was built and what is still to come make up the same trace after an event as before. */
  lemma ReadOne(s: State, events: seq<Event>)
    requires events != [] && WellNested(events, NamesOf(s.stack)) && Possible(s, events[0])
    ensures var r := Step(s, events[0]);
      StateTrace(r) + Clean(events[1..], r.text) == StateTrace(s) + Clean(events, s.text)
  {
    if !events[0].Chars? {
      StepTrace(s, events[0]);
      AssociateFour(StateTrace(s), Pending(s.text), [events[0]], Clean(events[1..], []));
    }
  }

  /**
   The trace of what is built is the events read, with adjacent stripped text merged and empty
   text dropped; and nothing stays open.
   */
  lemma {:induction false} TraceIsClean(s: State, events: seq<Event>)
    requires WellNested(events, NamesOf(s.stack)) && (s.stack.Empty? ==> s.text == [])
    ensures var r := Run(s, events);
      r.stack.Empty? && r.text == [] && Traces(r.roots) == StateTrace(s) + Clean(events, s.text)
    decreases |events|
  {
    if events != [] {
      FirstIsPossible(s, events);
      StepKeepsNesting(s, events);
      TraceIsClean(Step(s, events[0]), events[1..]);
      ReadOne(s, events);
    }
  }

  /** No text is empty, and no two are next to each other. */
  ghost predicate TextIsMerged(events: seq<Event>) {
    (forall i | 0 <= i < |events| :: events[i].Chars? ==> events[i].text != [])
    && (forall i | 0 <= i < |events| - 1 :: !(events[i].Chars? && events[i + 1].Chars?))
  }

  lemma Merged(text: string, e: Event, rest: seq<Event>)
    requires !e.Chars? && TextIsMerged(rest)
    ensures TextIsMerged(Pending(text) + [e] + rest)
  {
    var all, k := Pending(text) + [e] + rest, |Pending(text)|;
    forall i | 0 <= i < |all| - 1 ensures !(all[i].Chars? && all[i + 1].Chars?) {
      if i > k {
        assert all[i] == rest[i - k - 1] && all[i + 1] == rest[i + 1 - k - 1];
      }
    }
  }

  lemma {:induction false} CleanIsMerged(events: seq<Event>, text: string)
    ensures TextIsMerged(Clean(events, text))
  {
    if events != [] {
      if events[0].Chars? {
        CleanIsMerged(events[1..], text + Strip(events[0].text));
      } else {
        CleanIsMerged(events[1..], []);
        Merged(text, events[0], Clean(events[1..], []));
      }
    }
  }

  lemma PrefixOfPrefix<T>(a: seq<T>, b: seq<T>, c: seq<T>)
    requires |a| <= |b| <= |c| && b[..|a|] == a && c[..|b|] == b
    ensures c[..|a|] == a
  {
    assert c[..|b|][..|a|] == c[..|a|];
  }

  /** A root more when the outermost element closes. */
  lemma StepRoots(s: State, e: Event)
    requires Possible(s, e)
    ensures var (before, after) := (s.roots, Step(s, e).roots);
      |after| == |before| + (if e.End? && Depth(s.stack) == 1 then 1 else 0) && after[..|before|] == before
    ensures Depth(Step(s, e).stack) == Depth(s.stack) + (if e.Start? then 1 else if e.End? then -1 else 0)
  {
  }

  /** One root more for each element that closes outside all others. */
  lemma {:induction false} RootsAreDocuments(s: State, events: seq<Event>)
    requires WellNested(events, NamesOf(s.stack)) && (s.stack.Empty? ==> s.text == [])
    ensures var r := Run(s, events).roots;
      |r| == |s.roots| + Documents(events, Depth(s.stack)) && r[..|s.roots|] == s.roots
    decreases |events|
  {
    if events != [] {
      FirstIsPossible(s, events);
      StepKeepsNesting(s, events);
      StepRoots(s, events[0]);
      var next := Step(s, events[0]);
      RootsAreDocuments(next, events[1..]);
      PrefixOfPrefix(s.roots, next.roots, Run(next, events[1..]).roots);
    }
  }
}
