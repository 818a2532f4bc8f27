/**
 Path normalization (_NormPath in pxr/base/arch/fileSystem.cpp).

 PathSpec says what the normal form of a path is: a stack of components.  NormPath is the
 algorithm, which rewrites a copy of the path in place in one pass.
 */
module PathSpec {

  const SLASH := '/'

  type Token = string

  // ---------------------------------------------------------------- tokens

  /** How many leading characters of s are slashes. */
  function Slashes(s: string): (n: nat)
    ensures n <= |s|
  {
    if s == "" || s[0] != SLASH then 0 else 1 + Slashes(s[1..])
  }

  lemma {:induction false} SlashesAre(s: string)
    ensures s[..Slashes(s)] == seq(Slashes(s), _ => SLASH)
    ensures Slashes(s) < |s| ==> s[Slashes(s)] != SLASH
  {
    if s != "" && s[0] == SLASH {
      SlashesAre(s[1..]);
      assert s[..Slashes(s)] == [SLASH] + s[1..][..Slashes(s[1..])];
    }
  }

  /** How many leading characters of s are not slashes. */
  function TokenLength(s: string): (n: nat)
    ensures n <= |s|
  {
    if s == "" || s[0] == SLASH then 0 else 1 + TokenLength(s[1..])
  }

  /** TokenLength is the length of the longest prefix without a slash. */
  lemma {:induction false} TokenLengthIs(s: string, n: nat)
    requires n <= |s|
    ensures TokenLength(s) == n <==> SLASH !in s[..n] && (n < |s| ==> s[n] == SLASH)
    decreases n
  {
    if n > 0 && s[0] != SLASH {
      assert s[..n] == [s[0]] + s[1..][..n - 1];
      TokenLengthIs(s[1..], n - 1);
    } else if n > 0 {
      assert s[..n][0] == SLASH;
    }
  }

  /** The non-empty components between slashes. */
  function Components(s: string): seq<Token>
    decreases |s|
  {
    var n := TokenLength(s);
    if s == "" then []
    else if n == 0 then Components(s[1..])
    else [s[..n]] + Components(s[n..])
  }

  lemma {:induction false} ComponentsAreTokens(s: string)
    ensures forall t | t in Components(s) :: IsToken(t)
    decreases |s|
  {
    var n := TokenLength(s);
    if s != "" {
      TokenLengthIs(s, n);
      ComponentsAreTokens(if n == 0 then s[1..] else s[n..]);
    }
  }

  predicate IsToken(t: Token) {
    t != "" && SLASH !in t
  }

  /** None, one or two leading slashes are kept; three or more count as one. */
  function Root(s: string): string {
    if Slashes(s) >= 3 then "/" else s[..Slashes(s)]
  }

  // ---------------------------------------------------------------- normal form

  function Top(stack: seq<Token>): Token
    requires stack != []
  {
    stack[|stack| - 1]
  }

  function Pop(stack: seq<Token>): seq<Token>
    requires stack != []
  {
    stack[..|stack| - 1]
  }

  /** One component: '.' is dropped, '..' takes an ordinary component away, is kept in a relative path, or is dropped at the root. */
  function Step(absolute: bool, stack: seq<Token>, t: Token): seq<Token> {
    if t == "." then stack
    else if t != ".." then stack + [t]
    else if stack == [] then (if absolute then [] else [".."])
    else if Top(stack) == ".." then stack + [".."]
    else Pop(stack)
  }

  function Steps(absolute: bool, stack: seq<Token>, ts: seq<Token>): seq<Token>
    decreases |ts|
  {
    if ts == [] then stack else Steps(absolute, Step(absolute, stack, ts[0]), ts[1..])
  }

  function Join(ts: seq<Token>): string {
    if ts == [] then ""
    else if |ts| == 1 then ts[0]
    else Join(Pop(ts)) + "/" + Top(ts)
  }

  function Stack(s: string): seq<Token> {
    Steps(Root(s) != "", [], Components(s))
  }

  function Show(root: string, stack: seq<Token>): string {
    if root == "" && stack == [] then "." else root + Join(stack)
  }

  /** The normal form of a path. */
  function Norm(s: string): string {
    Show(Root(s), Stack(s))
  }

  // ---------------------------------------------------------------- canonical stacks

  /** No '.'; '..' only as a leading run, and only in a relative path. */
  ghost predicate Canonical(absolute: bool, stack: seq<Token>) {
    && (forall t | t in stack :: IsToken(t) && t != ".")
    && (forall i | 0 <= i < |stack| && stack[i] == ".." :: !absolute && forall j | 0 <= j < i :: stack[j] == "..")
  }

  lemma StepKeepsCanonical(absolute: bool, stack: seq<Token>, t: Token)
    requires Canonical(absolute, stack) && IsToken(t)
    ensures Canonical(absolute, Step(absolute, stack, t))
  {
    if t == ".." && stack != [] && Top(stack) == ".." {
      assert stack[|stack| - 1] == "..";
    }
  }

  lemma {:induction false} StepsKeepCanonical(absolute: bool, stack: seq<Token>, ts: seq<Token>)
    requires Canonical(absolute, stack) && forall t | t in ts :: IsToken(t)
    ensures Canonical(absolute, Steps(absolute, stack, ts))
    decreases |ts|
  {
    if ts != [] {
      StepKeepsCanonical(absolute, stack, ts[0]);
      StepsKeepCanonical(absolute, Step(absolute, stack, ts[0]), ts[1..]);
    }
  }

  lemma StackIsCanonical(s: string)
    ensures Canonical(Root(s) != "", Stack(s))
  {
    ComponentsAreTokens(s);
    StepsKeepCanonical(Root(s) != "", [], Components(s));
  }

  lemma {:induction false} StepsConcat(absolute: bool, stack: seq<Token>, a: seq<Token>, b: seq<Token>)
    ensures Steps(absolute, stack, a + b) == Steps(absolute, Steps(absolute, stack, a), b)
    decreases |a|
  {
    if a == [] {
      assert a + b == b;
    } else {
      assert (a + b)[1..] == a[1..] + b;
      StepsConcat(absolute, Step(absolute, stack, a[0]), a[1..], b);
    }
  }

  /** The top of a canonical stack is put on what is below it. */
  lemma TopStep(absolute: bool, stack: seq<Token>)
    requires Canonical(absolute, stack) && stack != []
    ensures Canonical(absolute, Pop(stack)) && Step(absolute, Pop(stack), Top(stack)) == stack
  {
    var below, top := Pop(stack), Top(stack);
    assert top in stack && below + [top] == stack;
    assert forall t | t in below :: t in stack;
    assert forall i | 0 <= i < |below| :: below[i] == stack[i];
    assert stack[|stack| - 1] == top;
  }

  /** A canonical stack is rebuilt by its own components. */
  lemma {:induction false} CanonicalIsFixed(absolute: bool, stack: seq<Token>)
    requires Canonical(absolute, stack)
    ensures Steps(absolute, [], stack) == stack
    decreases |stack|
  {
    if stack != [] {
      var below, top := Pop(stack), Top(stack);
      TopStep(absolute, stack);
      CanonicalIsFixed(absolute, below);
      StepsConcat(absolute, [], below, [top]);
      assert below + [top] == stack;
      OneStep(absolute, below, top);
    }
  }

  lemma OneStep(absolute: bool, stack: seq<Token>, t: Token)
    ensures Steps(absolute, stack, [t]) == Step(absolute, stack, t)
  {
    assert [t][1..] == [];
  }

  // ---------------------------------------------------------------- reading back

  lemma {:induction false} ComponentsAppend(a: string, b: string)
    requires b == "" || b[0] == SLASH
    ensures Components(a + b) == Components(a) + Components(b)
    decreases |a|
  {
    if a == "" {
      assert a + b == b;
    } else {
      var n := TokenLength(a);
      TokenLengthAppend(a, b);
      if n == 0 {
        assert (a + b)[1..] == a[1..] + b;
        ComponentsAppend(a[1..], b);
      } else {
        assert (a + b)[..n] == a[..n] && (a + b)[n..] == a[n..] + b;
        ComponentsAppend(a[n..], b);
      }
    }
  }

  lemma {:induction false} TokenLengthAppend(a: string, b: string)
    requires b == "" || b[0] == SLASH
    ensures TokenLength(a + b) == TokenLength(a)
    decreases |a|
  {
    if a == "" {
      assert a + b == b;
    } else {
      assert (a + b)[1..] == a[1..] + b;
      TokenLengthAppend(a[1..], b);
    }
  }

  lemma {:induction false} TokenIsComponent(t: Token)
    requires IsToken(t)
    ensures Components(t) == [t]
  {
    assert t[..|t|] == t && t[|t|..] == "";
    TokenLengthIs(t, |t|);
  }

  lemma SlashFirst(s: string)
    ensures Components("/" + s) == Components(s)
  {
    assert ("/" + s)[1..] == s;
  }

  /** Components undoes Join. */
  lemma {:induction false} JoinReadsBack(ts: seq<Token>)
    requires forall t | t in ts :: IsToken(t)
    ensures Components(Join(ts)) == ts
    ensures ts != [] ==> Join(ts) != "" && Join(ts)[0] != SLASH
    decreases |ts|
  {
    if |ts| == 1 {
      assert ts[0] in ts;
      TokenIsComponent(ts[0]);
      assert ts == [ts[0]];
    } else if ts != [] {
      var below, top := Pop(ts), Top(ts);
      assert top in ts && below + [top] == ts;
      JoinReadsBack(below);
      ComponentsAppend(Join(below), "/" + top);
      assert Join(below) + ("/" + top) == Join(ts);
      SlashFirst(top);
      TokenIsComponent(top);
    }
  }

  lemma {:induction false} LeadingSlashes(n: nat, s: string, rest: string)
    requires s == seq(n, _ => SLASH) + rest && (rest == "" || rest[0] != SLASH)
    ensures Slashes(s) == n && Components(s) == Components(rest)
    decreases n
  {
    if n == 0 {
      assert s == rest;
    } else {
      assert s[1..] == seq(n - 1, _ => SLASH) + rest;
      LeadingSlashes(n - 1, s[1..], rest);
      assert TokenLength(s) == 0;
    }
  }

  ghost predicate IsRoot(root: string) {
    root == "" || root == "/" || root == "//"
  }

  lemma RootIsRoot(s: string)
    ensures IsRoot(Root(s))
  {
    SlashesAre(s);
    var r := s[..Slashes(s)];
    assert |r| == 1 ==> r == "/";
    assert |r| == 2 ==> r == "//";
  }

  /** The root and the stack can be read back from what is shown. */
  lemma ShowReadsBack(root: string, stack: seq<Token>)
    requires IsRoot(root) && Canonical(root != "", stack)
    ensures Root(Show(root, stack)) == root && Stack(Show(root, stack)) == stack
  {
    JoinReadsBack(stack);
    if root == "" && stack == [] {
      TokenIsComponent(".");
      assert Steps(false, [], ["."]) == [];
    } else {
      var shown := root + Join(stack);
      assert root == seq(|root|, _ => SLASH);
      LeadingSlashes(|root|, shown, Join(stack));
      assert shown[..|root|] == root;
      CanonicalIsFixed(root != "", stack);
    }
  }

  // ---------------------------------------------------------------- laws

  /** The result is "." or a root and a joined canonical stack: no empty or '.' component, '..' only leading and relative. */
  lemma NormIsCanonical(s: string)
    ensures Root(Norm(s)) == Root(s) && Stack(Norm(s)) == Stack(s)
    ensures Norm(s) == "." ||
            (Norm(s) == Root(s) + Join(Components(Norm(s))) && Canonical(Root(s) != "", Components(Norm(s))))
  {
    RootIsRoot(s);
    StackIsCanonical(s);
    ShowReadsBack(Root(s), Stack(s));
    if Norm(s) != "." {
      JoinReadsBack(Stack(s));
      assert Root(s) == seq(|Root(s)|, _ => SLASH);
      LeadingSlashes(|Root(s)|, Norm(s), Join(Stack(s)));
    }
  }

  lemma NormIsIdempotent(s: string)
    ensures Norm(Norm(s)) == Norm(s)
  {
    NormIsCanonical(s);
  }

  /** Two paths have the same normal form exactly if they have the same root and the same stack. */
  lemma NormDetermines(s: string, t: string)
    ensures Norm(s) == Norm(t) <==> Root(s) == Root(t) && Stack(s) == Stack(t)
  {
    NormIsCanonical(s);
    NormIsCanonical(t);
  }

  function Under(a: string, b: string): string {
    a + "/" + b
  }

  lemma StackUnder(a: string, b: string)
    ensures Stack(Under(a, b)) == Steps(Root(Under(a, b)) != "", [], Components(a) + Components(b))
  {
    assert Under(a, b) == a + ("/" + b);
    ComponentsAppend(a, "/" + b);
    SlashFirst(b);
  }

  /** The components of a normal form do the same work as those of the path, wherever both start. */
  lemma NormComponents(s: string, ts: seq<Token>)
    ensures Steps(Root(s) != "", [], Components(Norm(s)) + ts) == Steps(Root(s) != "", [], Components(s) + ts)
  {
    var absolute := Root(s) != "";
    NormIsCanonical(s);
    StepsConcat(absolute, [], Components(Norm(s)), ts);
    StepsConcat(absolute, [], Components(s), ts);
  }

  lemma {:induction false} RootUnder(a: string, b: string)
    requires a != "" && Slashes(a) < |a|
    ensures Root(Under(a, b)) == Root(a)
  {
    var n := Slashes(a);
    SlashesAre(a);
    assert a[..n] == seq(n, _ => SLASH);
    LeadingSlashes(n, Under(a, b), a[n..] + "/" + b);
    assert Under(a, b)[..n] == a[..n];
  }

  /**
   Normalizing the front of a path first changes nothing exactly if it leaves the root of
   the whole path as it was.
   */
  lemma NormFrontFirst(a: string, b: string)
    ensures Norm(Under(a, b)) == Norm(Under(Norm(a), b)) <==> Root(Under(a, b)) == Root(Under(Norm(a), b))
  {
    var n := Norm(a);
    NormDetermines(Under(a, b), Under(n, b));
    StackUnder(a, b);
    StackUnder(n, b);
    if a != "" {
      RootStaysAbsolute(a, b);
      NormComponents(a, Components(b));
    }
  }

  lemma RootStaysAbsolute(a: string, b: string)
    requires a != ""
    ensures Root(Under(a, b)) != "" <==> Root(a) != ""
  {
    assert Under(a, b)[0] == a[0];
  }

  lemma SlashesStaySlashes(a: string)
    requires a != "" && Slashes(a) == |a|
    ensures Slashes(Norm(a)) == |Norm(a)|
  {
    SlashesAre(a);
    assert a == seq(|a|, _ => SLASH) + "";
    LeadingSlashes(|a|, a, "");
    assert Norm(a) == Root(a) == seq(|Root(a)|, _ => SLASH) + "";
    LeadingSlashes(|Root(a)|, Norm(a), "");
  }

  /** It does so for every non-empty front whose normal form is more than slashes. */
  lemma NormFrontKeepsRoot(a: string, b: string)
    requires a != "" && Slashes(Norm(a)) < |Norm(a)|
    ensures Norm(Under(a, b)) == Norm(Under(Norm(a), b))
  {
    NormIsCanonical(a);
    if Slashes(a) == |a| {
      SlashesStaySlashes(a);
    }
    RootUnder(a, b);
    RootUnder(Norm(a), b);
    NormFrontFirst(a, b);
  }

  function RootLength(slashes: nat): nat {
    if slashes >= 3 then 1 else slashes
  }

  lemma RootsAreSlashes(s: string, t: string)
    ensures |Root(s)| == RootLength(Slashes(s))
    ensures Root(s) == Root(t) <==> RootLength(Slashes(s)) == RootLength(Slashes(t))
  {
    RootIsRoot(s);
    RootIsRoot(t);
  }

  /** The slash that joins is a leading one only after a front that is all slashes. */
  lemma {:induction false} SlashesUnder(a: string, b: string)
    ensures Slashes(Under(a, b)) == if Slashes(a) < |a| then Slashes(a) else |a| + 1 + Slashes(b)
    decreases |a|
  {
    var whole := Under(a, b);
    if a == "" {
      assert whole[1..] == b;
    } else {
      assert whole[1..] == Under(a[1..], b);
      SlashesUnder(a[1..], b);
    }
  }

  lemma AllSlashes(root: string)
    requires IsRoot(root)
    ensures Slashes(root) == |root|
  {
    assert root == seq(|root|, _ => SLASH) + "";
    LeadingSlashes(|root|, root, "");
  }

  /** A front whose normal form is its root: the slash that joins is then one of the leading ones. */
  lemma NormFrontIsRoot(a: string, b: string)
    requires a != "" && Root(a) != "" && Stack(a) == []
    ensures Norm(a) == Root(a)
    ensures Root(Under(a, b)) == Root(Under(Norm(a), b)) <==>
            a == "/" || a == "//" || (Root(a) == "/" && b != "" && b[0] == SLASH)
  {
    assert Norm(a) == Root(a);
    RootIsRoot(a);
    AllSlashes(Root(a));
    SlashesUnder(a, b);
    SlashesUnder(Root(a), b);
    RootsAreSlashes(a, a);
    RootsAreSlashes(Under(a, b), Under(Root(a), b));
    SlashesAre(a);
  }

  /**
   Exactly when normalizing the front first is harmless: for every relative front, for every
   front that leaves components, and otherwise if the front is its own normal form, or the
   slashes after it make the joining slash one of three or more.
   */
  lemma NormFrontExactly(a: string, b: string)
    ensures Norm(Under(a, b)) == Norm(Under(Norm(a), b)) <==>
            a != "" && (Root(a) == "" || Stack(a) != [] || a == "/" || a == "//"
                        || (Root(a) == "/" && b != "" && b[0] == SLASH))
  {
    NormFrontFirst(a, b);
    if a == "" {
      EmptyFront(b);
    } else if Root(a) == "" || Stack(a) != [] {
      MoreThanSlashes(a);
      NormFrontKeepsRoot(a, b);
    } else {
      NormFrontIsRoot(a, b);
    }
  }

  /** Nothing in front makes the whole path absolute, and its normal form makes it relative. */
  lemma EmptyFront(b: string)
    ensures Root(Under("", b)) != Root(Under(Norm(""), b))
  {
    SlashesUnder("", b);
    SlashesUnder(".", b);
    assert Norm("") == ".";
    RootsAreSlashes(Under("", b), Under(".", b));
  }

  lemma MoreThanSlashes(a: string)
    requires Root(a) == "" || Stack(a) != []
    ensures Slashes(Norm(a)) < |Norm(a)|
  {
    RootIsRoot(a);
    StackIsCanonical(a);
    JoinReadsBack(Stack(a));
    if Norm(a) != "." {
      assert Root(a) == seq(|Root(a)|, _ => SLASH);
      LeadingSlashes(|Root(a)|, Norm(a), Join(Stack(a)));
    }
  }

  lemma NormOfOne(s: string, n: nat, t: Token)
    requires s == seq(n, _ => SLASH) + t && IsToken(t) && TypicalToken(t)
    ensures Slashes(s) == n && Norm(s) == Root(s) + t
  {
    LeadingSlashes(n, s, t);
    TokenIsComponent(t);
    assert Steps(Root(s) != "", [], [t]) == [t];
  }

  predicate TypicalToken(t: Token) {
    t != "." && t != ".."
  }

  /** Not for every front: three slashes are one, and then the slash that joins makes two. */
  lemma NormFrontMayChangeRoot()
    ensures Norm(Under("///", "y")) == "/y" && Norm(Under(Norm("///"), "y")) == "//y"
  {
    NormOfSlashes("///");
    FourThenComponent();
    TwoThenComponent();
    JoinedSlashes();
  }

  lemma JoinedSlashes()
    ensures Under("///", "y") == "////y" && Under("/", "y") == "//y"
  {
  }

  lemma NormOfSlashes(s: string)
    requires |s| >= 3 && s == seq(|s|, _ => SLASH)
    ensures Norm(s) == "/"
  {
    LeadingSlashes(|s|, s, "");
  }

  lemma FourThenComponent()
    ensures Norm("////y") == "/y"
  {
    NormOfOne("////y", 4, "y");
  }

  lemma TwoThenComponent()
    ensures Norm("//y") == "//y"
  {
    NormOfOne("//y", 2, "y");
  }

  /** Nor for other fronts that lose their components. */
  lemma NormFrontMayLoseComponents()
    ensures Norm(Under("/.", "y")) != Norm(Under(Norm("/."), "y"))
  {
    LeadingSlashes(1, "/.", ".");
    TokenIsComponent(".");
    assert Steps(true, [], ["."]) == [];
    NormFrontExactly("/.", "y");
  }
}

module NormPath {
  import opened PathSpec

  datatype TokenType = Dot | DotDot | Elem

  function TypeOf(t: Token): TokenType {
    if |t| == 1 && t[0] == '.' then Dot
    else if |t| == 2 && t[0] == '.' && t[1] == '.' then DotDot
    else Elem
  }

  /** The components of a stack, each followed by a slash. */
  ghost function Slashed(stack: seq<Token>): string {
    if stack == [] then "" else Slashed(Pop(stack)) + Top(stack) + "/"
  }

  lemma {:induction false} SlashedIsJoin(stack: seq<Token>)
    requires stack != []
    ensures Slashed(stack) == Join(stack) + "/"
    decreases |stack|
  {
    if |stack| > 1 {
      SlashedIsJoin(Pop(stack));
    }
  }

  /** The root and the stack are written, the last slash possibly missing. */
  ghost predicate Written(out: string, root: string, stack: seq<Token>) {
    && (forall t | t in stack :: IsToken(t))
    && (out == root + Slashed(stack) || (stack != [] && out == root + Join(stack)))
  }

  lemma SkipSlash(s: string, i: nat)
    requires i < |s| && s[i] == SLASH
    ensures Components(s[i..]) == Components(s[i + 1..])
    ensures Slashes(s[i..]) == 1 + Slashes(s[i + 1..])
  {
    assert s[i..][1..] == s[i + 1..];
    assert TokenLength(s[i..]) == 0;
  }

  /** A token between first and second, as long as possible. */
  ghost predicate AtToken(s: string, first: nat, second: nat) {
    && first < second <= |s| && IsToken(s[first..second])
    && (second < |s| ==> s[second] == SLASH)
  }

  /** The components from the current token on. */
  ghost function Remaining(s: string, first: nat, second: nat): seq<Token>
    requires first <= second <= |s|
  {
    if first == |s| then [] else [s[first..second]] + Components(s[second..])
  }

  lemma TakeToken(s: string, first: nat, second: nat)
    requires first <= second <= |s| && SLASH !in s[first..second]
    requires first < |s| ==> s[first] != SLASH
    requires second < |s| ==> s[second] == SLASH
    ensures Components(s[first..]) == Remaining(s, first, second)
    ensures first < |s| ==> AtToken(s, first, second)
  {
    if first < |s| {
      var rest, n := s[first..], second - first;
      assert rest[..n] == s[first..second] && rest[n..] == s[second..];
      TokenLengthIs(rest, n);
    }
  }

  /** The next token of s at or after i: skips slashes, then takes everything up to a slash. */
  method NextToken(s: string, i: nat) returns (first: nat, second: nat)
    requires i <= |s|
    ensures i <= first <= second <= |s| && first == i + Slashes(s[i..])
    ensures Components(s[i..]) == Remaining(s, first, second)
    ensures first < |s| ==> AtToken(s, first, second)
    ensures i < |s| && s[i] == SLASH ==> i < first
  {
    first := SkipSlashes(s, i);
    second := SkipToken(s, first);
    TakeToken(s, first, second);
  }

  method SkipToken(s: string, first: nat) returns (second: nat)
    requires first <= |s|
    ensures first <= second <= |s| && SLASH !in s[first..second] && (second < |s| ==> s[second] == SLASH)
  {
    second := first;
    while second != |s| && s[second] != SLASH
      invariant first <= second <= |s| && forall j | first <= j < second :: s[j] != SLASH
      decreases |s| - second
    {
      second := second + 1;
    }
  }

  method SkipSlashes(s: string, i: nat) returns (first: nat)
    requires i <= |s|
    ensures i <= first <= |s| && (first < |s| ==> s[first] != SLASH)
    ensures first == i + Slashes(s[i..]) && Components(s[first..]) == Components(s[i..])
  {
    first := i;
    while first != |s| && s[first] == SLASH
      invariant i <= first <= |s| && Components(s[first..]) == Components(s[i..])
      invariant first + Slashes(s[first..]) == i + Slashes(s[i..])
      decreases |s| - first
    {
      SkipSlash(s, first);
      first := first + 1;
    }
  }

  /** Where the top of the stack starts in what is written. */
  lemma TopOfWritten(out: string, root: string, stack: seq<Token>) returns (base: nat)
    requires out == root + Slashed(stack) && stack != [] && IsToken(Top(stack))
    ensures |root| <= base < base + |Top(stack)| + 1 == |out|
    ensures out[..base] == root + Slashed(Pop(stack)) && out[base..|out| - 1] == Top(stack)
    ensures out[|out| - 1] == SLASH && out[|out| - 2] != SLASH
    ensures base > |root| ==> out[base - 1] == SLASH
  {
    var below, top := Slashed(Pop(stack)), Top(stack);
    base := |root + below|;
    assert out == root + (below + top + "/");
    LastToken(out, root + below, top);
    SlashedEnds(Pop(stack));
    assert below != "" ==> (root + below)[base - 1] == below[|below| - 1];
  }

  lemma LastToken(out: string, below: string, top: string)
    requires out == below + top + "/" && IsToken(top)
    ensures |out| == |below| + |top| + 1 && out[..|below|] == below && out[|below|..|out| - 1] == top
    ensures out[|out| - 1] == SLASH && out[|out| - 2] != SLASH
    ensures forall i | 0 <= i < |below| :: out[i] == below[i]
  {
    assert out[|out| - 2] == top[|top| - 1];
  }

  lemma SlashedEnds(stack: seq<Token>)
    ensures Slashed(stack) != "" ==> Slashed(stack)[|Slashed(stack)| - 1] == SLASH
  {
  }

  /** The next token of path backwards from end, as far as floor: path[low..high]. */
  method NextTokenBack(path: array<char>, floor: nat, end: nat) returns (low: nat, high: nat)
    requires floor <= end <= path.Length
    ensures floor <= low <= high <= end
    ensures (forall i | high <= i < end :: path[i] == SLASH) && (high > floor ==> path[high - 1] != SLASH)
    ensures (forall i | low <= i < high :: path[i] != SLASH) && (low > floor ==> path[low - 1] == SLASH)
  {
    high := end;
    while high != floor && path[high - 1] == SLASH
      invariant floor <= high <= end && forall i | high <= i < end :: path[i] == SLASH
    {
      high := high - 1;
    }
    low := high;
    while low != floor && path[low - 1] != SLASH
      invariant floor <= low <= high && forall i | low <= i < high :: path[i] != SLASH
    {
      low := low - 1;
    }
  }

  /** Backwards from the end of what is written, the next token is the top of the stack. */
  lemma BackTokenIsTop(out: string, root: string, stack: seq<Token>, low: nat, high: nat)
    requires out == root + Slashed(stack) && forall t | t in stack :: IsToken(t)
    requires |root| <= low <= high <= |out|
    requires (forall i | high <= i < |out| :: out[i] == SLASH) && (high > |root| ==> out[high - 1] != SLASH)
    requires (forall i | low <= i < high :: out[i] != SLASH) && (low > |root| ==> out[low - 1] == SLASH)
    ensures high == |root| <==> stack == []
    ensures stack == [] ==> low == high
    ensures stack != [] ==> out[low..high] == Top(stack) && out[..low] == root + Slashed(Pop(stack))
  {
    if stack != [] {
      assert Top(stack) in stack;
      var base := TopOfWritten(out, root, stack);
      assert high == |out| - 1;
      assert SLASH !in out[base..high];
      assert low == base;
    }
  }

  /** Copies a token of inPath to path at w; the source only does so when w lags behind the token. */
  method CopyToken(path: array<char>, w: nat, inPath: string, first: nat, second: nat)
    requires w <= first <= second <= |inPath| == path.Length
    modifies path
    ensures path[..w] == old(path[..w]) && path[w..w + second - first] == inPath[first..second]
    ensures forall i | w + second - first <= i < path.Length :: path[i] == old(path[i])
  {
    var from := first;
    var to := w;
    while from != second
      invariant first <= from <= second && to == w + from - first
      invariant path[..w] == old(path[..w]) && path[w..to] == inPath[first..from]
      invariant forall i | to <= i < path.Length :: path[i] == old(path[i])
    {
      path[to] := inPath[from];
      from, to := from + 1, to + 1;
    }
  }

  lemma WrittenPush(out: string, root: string, stack: seq<Token>, t: Token)
    requires out == root + Slashed(stack)
    ensures out + t + "/" == root + Slashed(stack + [t])
    ensures out + t == root + Join(stack + [t])
  {
    assert Pop(stack + [t]) == stack;
    if stack != [] {
      SlashedIsJoin(stack);
      assert out + t == root + (Join(stack) + "/" + t);
    }
  }

  /**
   Everything that holds between two tokens: writeIdx is the write head, first the read head.
   While the two are level and a token is left, the buffer is unmodified.
   */
  ghost predicate Invariant(path: string, inPath: string, root: string, stack: seq<Token>, writeIdx: nat, first: nat)
  {
    && |path| == |inPath| && |root| <= writeIdx <= first <= |inPath|
    && (forall i | first <= i < |path| :: path[i] == inPath[i])
    && (writeIdx == first < |path| ==> path == inPath)
    && Written(path[..writeIdx], root, stack)
    && (first < |inPath| ==> path[..writeIdx] == root + Slashed(stack))
  }

  /** The position after a token and the slash that ends it, if there is one. */
  function After(second: nat, s: string): nat {
    if second < |s| then second + 1 else second
  }

  /** An ordinary component is copied, or skipped as long as nothing was changed. */
  method WriteElem(path: array<char>, inPath: string, first: nat, second: nat, writeIdx: nat,
                   ghost root: string, ghost stack: seq<Token>) returns (w: nat)
    requires AtToken(inPath, first, second)
    requires Invariant(path[..], inPath, root, stack, writeIdx, first)
    modifies path
    ensures Invariant(path[..], inPath, root, stack + [inPath[first..second]], w, After(second, inPath))
  {
    ghost var token := inPath[first..second];
    WrittenPush(path[..writeIdx], root, stack, token);
    w := writeIdx;
    if w == first {
      w := w + second - first;
      assert path[..w] == path[..writeIdx] + token;
      if w != path.Length {
        w := w + 1;
        assert path[..w] == path[..writeIdx] + token + "/";
      }
    } else {
      ghost var out := path[..w];
      CopyToken(path, w, inPath, first, second);
      w := w + second - first;
      assert path[..w] == out + token;
      if w != path.Length {
        path[w] := '/';
        w := w + 1;
        assert path[..w] == out + token + "/";
      }
    }
  }

  /** A '..' is kept if nothing ordinary is left to take away in a relative path. */
  method WriteDotDot(path: array<char>, inPath: string, first: nat, second: nat, writeIdx: nat,
                     ghost root: string, ghost stack: seq<Token>) returns (w: nat)
    requires AtToken(inPath, first, second) && inPath[first..second] == ".."
    requires Invariant(path[..], inPath, root, stack, writeIdx, first)
    modifies path
    ensures Invariant(path[..], inPath, root, stack + [".."], w, After(second, inPath))
  {
    ghost var out := path[..writeIdx];
    WrittenPush(out, root, stack, "..");
    assert writeIdx == first ==> path[..] == inPath;
    assert inPath[first] == inPath[first..second][0] && inPath[first + 1] == inPath[first..second][1];
    w := writeIdx;
    path[w] := '.';
    path[w + 1] := '.';
    w := w + 2;
    assert path[..w] == out + "..";
    if w != path.Length {
      path[w] := '/';
      w := w + 1;
      assert path[..w] == out + ".." + "/";
    }
    assert writeIdx == first ==> path[..] == inPath;
  }

  /** The backward token decides what '..' does to the stack. */
  lemma DotDotStep(back: Token, root: string, stack: seq<Token>, none: bool)
    requires none <==> stack == []
    requires back == if stack == [] then "" else Top(stack)
    ensures Step(root != "", stack, "..") ==
            if (root == "" && none) || TypeOf(back) == DotDot then stack + [".."]
            else if !none then Pop(stack) else stack
  {
    assert TypeOf(back) == DotDot <==> back == "..";
  }

  lemma SlicesOfPrefix(s: string, w: nat, low: nat, high: nat)
    requires low <= high <= w <= |s|
    ensures s[..w][low..high] == s[low..high] && s[..w][..low] == s[..low]
  {
  }

  /** The same for what is written up to w. */
  lemma BackStep(path: string, w: nat, root: string, stack: seq<Token>, low: nat, high: nat)
    requires w <= |path| && path[..w] == root + Slashed(stack) && forall t | t in stack :: IsToken(t)
    requires |root| <= low <= high <= w
    requires (forall i | high <= i < w :: path[i] == SLASH) && (high > |root| ==> path[high - 1] != SLASH)
    requires (forall i | low <= i < high :: path[i] != SLASH) && (low > |root| ==> path[low - 1] == SLASH)
    ensures high == |root| <==> stack == []
    ensures stack != [] ==> path[..low] == root + Slashed(Pop(stack))
    ensures Step(root != "", stack, "..") ==
            if (root == "" && stack == []) || TypeOf(path[low..high]) == DotDot then stack + [".."]
            else if stack != [] then Pop(stack)
            else stack
  {
    var out := path[..w];
    SlicesOfPrefix(path, w, low, high);
    BackTokenIsTop(out, root, stack, low, high);
    DotDotStep(path[low..high], root, stack, high == |root|);
  }

  /** The '..' case. */
  method DotDotCase(path: array<char>, inPath: string, first: nat, second: nat, writeIdx: nat, firstWriteIdx: nat,
                    ghost root: string, ghost stack: seq<Token>) returns (w: nat)
    requires AtToken(inPath, first, second) && inPath[first..second] == ".." && firstWriteIdx == |root|
    requires Invariant(path[..], inPath, root, stack, writeIdx, first)
    modifies path
    ensures Invariant(path[..], inPath, root, Step(root != "", stack, ".."), w, After(second, inPath))
  {
    w := writeIdx;
    var low, high := NextTokenBack(path, firstWriteIdx, w);
    BackStep(path[..], w, root, stack, low, high);
    Advance(path[..], inPath, root, stack, w, first, After(second, inPath));
    if (firstWriteIdx == 0 && high == firstWriteIdx) || TypeOf(path[low..high]) == DotDot {
      w := WriteDotDot(path, inPath, first, second, w, root, stack);
    } else if high != firstWriteIdx {
      w := low;
    }
  }

  /** The token switch: what is written afterwards is one step further. */
  method OneToken(path: array<char>, inPath: string, first: nat, second: nat, writeIdx: nat, firstWriteIdx: nat,
                  ghost root: string, ghost stack: seq<Token>) returns (w: nat)
    requires AtToken(inPath, first, second) && firstWriteIdx == |root|
    requires Invariant(path[..], inPath, root, stack, writeIdx, first)
    modifies path
    ensures Invariant(path[..], inPath, root, Step(root != "", stack, inPath[first..second]), w, After(second, inPath))
  {
    var token := inPath[first..second];
    match TypeOf(token) {
      case Elem =>
        assert token != "." && token != "..";
        w := WriteElem(path, inPath, first, second, writeIdx, root, stack);
      case Dot =>
        assert token == ".";
        w := writeIdx;
      case DotDot =>
        assert token == "..";
        w := DotDotCase(path, inPath, first, second, writeIdx, firstWriteIdx, root, stack);
    }
  }

  /** Moving the read head over slashes keeps everything. */
  lemma Advance(path: string, inPath: string, root: string, stack: seq<Token>, writeIdx: nat, from: nat, to: nat)
    requires Invariant(path, inPath, root, stack, writeIdx, from) && from <= to <= |inPath|
    ensures Invariant(path, inPath, root, stack, writeIdx, to)
  {
  }

  /** What is written ends in a slash of its own exactly if it is the stack with every slash. */
  lemma TrailingSlash(out: string, root: string, stack: seq<Token>)
    requires Written(out, root, stack)
    ensures if stack == [] then out == root
            else |out| > |root| && out[..if out[|out| - 1] == SLASH then |out| - 1 else |out|] == root + Join(stack)
    ensures stack != [] ==> Join(stack) != ""
  {
    if stack != [] {
      JoinReadsBack(stack);
      SlashedIsJoin(stack);
      assert Top(stack) in stack;
      assert |stack| == 1 ==> Top(stack) == Join(stack);
      assert Join(stack)[|Join(stack)| - 1] == Top(stack)[|Top(stack)| - 1];
    }
  }

  /** Removes a trailing slash, cuts the buffer, and names the empty path. */
  method Finish(path: array<char>, writeIdx: nat, firstWriteIdx: nat, ghost root: string, ghost stack: seq<Token>)
    returns (result: string)
    requires writeIdx <= path.Length && firstWriteIdx == |root| && Written(path[..writeIdx], root, stack)
    ensures result == Show(root, stack)
  {
    ghost var out := path[..writeIdx];
    TrailingSlash(out, root, stack);
    var w := writeIdx;
    if w > firstWriteIdx && path[w - 1] == '/' {
      w := w - 1;
    }
    assert path[..w] == out[..w];
    result := path[..w];
    if result == "" {
      result := ".";
    }
  }

  /** The token is a step, and the components after it are still to come. */
  lemma StepsOn(s: string, first: nat, second: nat, root: string, stack: seq<Token>)
    requires AtToken(s, first, second)
    ensures Steps(root != "", stack, Remaining(s, first, second))
         == Steps(root != "", Step(root != "", stack, s[first..second]), Components(s[second..]))
  {
    assert Remaining(s, first, second)[1..] == Components(s[second..]);
  }

  /** _NormPath. */
  method NormPath(inPath: string) returns (result: string)
    ensures result == Norm(inPath)
  {
    var path := new char[|inPath|](i requires 0 <= i < |inPath| => inPath[i]);
    assert path[..] == inPath == inPath[0..];
    var first, second := NextToken(inPath, 0);
    var writeIdx: nat := if first >= 3 then 1 else first;
    var firstWriteIdx := writeIdx;

    ghost var root, stack := Root(inPath), [];
    assert path[..writeIdx] == root + Slashed(stack);
    while first != |inPath|
      invariant first <= second <= |inPath| && (first < |inPath| ==> AtToken(inPath, first, second))
      invariant firstWriteIdx == |root|
      invariant Invariant(path[..], inPath, root, stack, writeIdx, first)
      invariant Steps(root != "", stack, Remaining(inPath, first, second)) == Stack(inPath)
      decreases |inPath| - first
    {
      writeIdx := OneToken(path, inPath, first, second, writeIdx, firstWriteIdx, root, stack);
      StepsOn(inPath, first, second, root, stack);
      stack := Step(root != "", stack, inPath[first..second]);
      ghost var from := After(second, inPath);
      first, second := NextToken(inPath, second);
      Advance(path[..], inPath, root, stack, writeIdx, from, first);
    }
    result := Finish(path, writeIdx, firstWriteIdx, root, stack);
  }
}
