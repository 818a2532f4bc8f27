/**
 What normalizing keeps of a path (_NormPath in pxr/base/arch/fileSystem.cpp): the directory
 that it leads to, from wherever one stands.
 */
module PathMeaning {
  import opened PathSpec

  /** A directory, as the names that lead to it from the root. */
  type Directory = seq<Token>

  /** Where one step leads; the root is its own parent. */
  function Enter(dir: Directory, t: Token): Directory {
    if t == "." then dir
    else if t == ".." then (if dir == [] then [] else dir[..|dir| - 1])
    else dir + [t]
  }

  function Follow(dir: Directory, ts: seq<Token>): Directory
    decreases |ts|
  {
    if ts == [] then dir else Follow(Enter(dir, ts[0]), ts[1..])
  }

  /** Where a path leads from a directory, unless it starts at the root. */
  function Where(s: string, dir: Directory): Directory {
    Follow(if "/" <= s then [] else dir, Components(s))
  }

  // ---------------------------------------------------------------- the stack means the same

  lemma {:induction false} FollowConcat(dir: Directory, a: seq<Token>, b: seq<Token>)
    ensures Follow(dir, a + b) == Follow(Follow(dir, a), b)
    decreases |a|
  {
    if a == [] {
      assert a + b == b;
    } else {
      assert (a + b)[1..] == a[1..] + b;
      FollowConcat(Enter(dir, a[0]), a[1..], b);
    }
  }

  lemma FollowOne(dir: Directory, a: seq<Token>, t: Token)
    ensures Follow(dir, a + [t]) == Enter(Follow(dir, a), t)
  {
    FollowConcat(dir, a, [t]);
    assert Follow(Enter(Follow(dir, a), t), [t][1..]) == Enter(Follow(dir, a), t);
  }

  lemma FollowStep(absolute: bool, dir: Directory, stack: seq<Token>, t: Token)
    requires (absolute ==> dir == []) && Canonical(absolute, stack)
    ensures Follow(dir, Step(absolute, stack, t)) == Enter(Follow(dir, stack), t)
  {
    FollowOne(dir, stack, t);
    if t == ".." && stack != [] && Top(stack) != ".." {
      assert Top(stack) in stack;
      assert Pop(stack) + [Top(stack)] == stack;
      FollowOne(dir, Pop(stack), Top(stack));
    } else if t == ".." && stack == [] {
      assert [] + [".."] == [".."];
    }
  }

  lemma {:induction false} FollowSteps(absolute: bool, dir: Directory, stack: seq<Token>, ts: seq<Token>)
    requires (absolute ==> dir == []) && Canonical(absolute, stack) && forall t | t in ts :: IsToken(t)
    ensures Follow(dir, Steps(absolute, stack, ts)) == Follow(Follow(dir, stack), ts)
    decreases |ts|
  {
    if ts != [] {
      StepKeepsCanonical(absolute, stack, ts[0]);
      FollowStep(absolute, dir, stack, ts[0]);
      FollowSteps(absolute, dir, Step(absolute, stack, ts[0]), ts[1..]);
    }
  }

  lemma RootIsThere(s: string)
    ensures Root(s) != "" <==> "/" <= s
  {
    assert "/" <= s <==> s != "" && s[0] == '/';
  }

  lemma WhereIsStack(s: string, dir: Directory)
    ensures Where(s, dir) == Follow(if "/" <= s then [] else dir, Stack(s))
  {
    RootIsThere(s);
    ComponentsAreTokens(s);
    FollowSteps(Root(s) != "", if "/" <= s then [] else dir, [], Components(s));
  }

  // ---------------------------------------------------------------- and no other stack does

  /** How many leading '..' a stack has. */
  function Ups(stack: seq<Token>): (n: nat)
    ensures n <= |stack|
  {
    if stack != [] && stack[0] == ".." then 1 + Ups(stack[1..]) else 0
  }

  lemma {:induction false} FollowNames(dir: Directory, ts: seq<Token>)
    requires "." !in ts && ".." !in ts
    ensures Follow(dir, ts) == dir + ts
    decreases |ts|
  {
    if ts == [] {
      assert dir + ts == dir;
    } else {
      assert ts[0] in ts;
      FollowNames(dir + [ts[0]], ts[1..]);
      assert dir + [ts[0]] + ts[1..] == dir + ts;
    }
  }

  /** The leading '..' go up, and the rest goes down. */
  lemma {:induction false} FollowCanonical(dir: Directory, stack: seq<Token>)
    requires Canonical(false, stack) && Ups(stack) <= |dir|
    ensures Follow(dir, stack) == dir[..|dir| - Ups(stack)] + stack[Ups(stack)..]
    decreases |stack|
  {
    if stack != [] && stack[0] == ".." {
      CanonicalBehind(stack);
      FollowCanonical(dir[..|dir| - 1], stack[1..]);
      assert dir[..|dir| - 1][..|dir| - Ups(stack)] == dir[..|dir| - Ups(stack)];
      assert stack[1..][Ups(stack[1..])..] == stack[Ups(stack)..];
    } else {
      FollowNames(dir, stack);
      assert dir[..|dir|] == dir && stack[0..] == stack;
    }
  }

  lemma CanonicalBehind(stack: seq<Token>)
    requires Canonical(false, stack) && stack != []
    ensures Canonical(false, stack[1..])
  {
    var rest := stack[1..];
    assert forall t | t in rest :: t in stack;
    assert forall i | 0 <= i < |rest| :: rest[i] == stack[i + 1];
  }

  lemma {:induction false} UpsAre(stack: seq<Token>)
    ensures stack[..Ups(stack)] == seq(Ups(stack), _ => "..")
  {
    if stack != [] && stack[0] == ".." {
      UpsAre(stack[1..]);
      assert stack[..Ups(stack)] == [stack[0]] + stack[1..][..Ups(stack[1..])];
    }
  }

  ghost predicate SameFromEverywhere(a: seq<Token>, b: seq<Token>) {
    forall dir :: Follow(dir, a) == Follow(dir, b)
  }

  /** From a directory of equal names, fewer '..' leave one of these names behind. */
  lemma NameIsLeft(a: seq<Token>, b: seq<Token>, name: Token)
    requires Canonical(false, a) && Canonical(false, b) && SameFromEverywhere(a, b) && Ups(a) < Ups(b)
    ensures Ups(b) < |b| && b[Ups(b)] == name
  {
    var dir := seq(Ups(b), _ => name);
    FollowCanonical(dir, a);
    FollowCanonical(dir, b);
    assert Follow(dir, a) == Follow(dir, b);
    assert Follow(dir, a)[0] == name;
    assert dir[..|dir| - Ups(b)] + b[Ups(b)..] == b[Ups(b)..];
  }

  lemma UpsAreSame(a: seq<Token>, b: seq<Token>)
    requires Canonical(false, a) && Canonical(false, b) && SameFromEverywhere(a, b)
    ensures Ups(a) == Ups(b)
  {
    if Ups(a) < Ups(b) {
      NameIsLeft(a, b, "x");
      NameIsLeft(a, b, "y");
    } else if Ups(b) < Ups(a) {
      NameIsLeft(b, a, "x");
      NameIsLeft(b, a, "y");
    }
  }

  lemma CanonicalIsOnly(a: seq<Token>, b: seq<Token>)
    requires Canonical(false, a) && Canonical(false, b) && SameFromEverywhere(a, b)
    ensures a == b
  {
    UpsAreSame(a, b);
    var n := Ups(a);
    var dir := seq(n, _ => "x");
    FollowCanonical(dir, a);
    FollowCanonical(dir, b);
    assert Follow(dir, a) == Follow(dir, b);
    assert dir[..0] + a[n..] == a[n..] && dir[..0] + b[n..] == b[n..];
    UpsAre(a);
    UpsAre(b);
    assert a == a[..n] + a[n..] && b == b[..n] + b[n..];
  }

  lemma AbsoluteIsOnly(a: seq<Token>, b: seq<Token>)
    requires Canonical(true, a) && Canonical(true, b) && Follow([], a) == Follow([], b)
    ensures a == b
  {
    FollowNames([], a);
    FollowNames([], b);
    assert [] + a == a && [] + b == b;
  }

  // ---------------------------------------------------------------- laws

  /** A normal form leads where the path leads, from every directory. */
  lemma NormLeadsThere(s: string, dir: Directory)
    ensures Where(Norm(s), dir) == Where(s, dir)
  {
    NormIsCanonical(s);
    RootIsThere(s);
    RootIsThere(Norm(s));
    WhereIsStack(s, dir);
    WhereIsStack(Norm(s), dir);
  }

  ghost predicate LeadTheSame(s: string, t: string) {
    forall dir :: Where(s, dir) == Where(t, dir)
  }

  lemma StacksLeadTheSame(s: string, t: string)
    requires Root(s) == Root(t) && LeadTheSame(s, t)
    ensures Stack(s) == Stack(t)
  {
    RootIsThere(s);
    RootIsThere(t);
    StackIsCanonical(s);
    StackIsCanonical(t);
    if Root(s) == "" {
      forall dir
        ensures Follow(dir, Stack(s)) == Follow(dir, Stack(t))
      {
        WhereIsStack(s, dir);
        WhereIsStack(t, dir);
        assert Where(s, dir) == Where(t, dir);
      }
      CanonicalIsOnly(Stack(s), Stack(t));
    } else {
      WhereIsStack(s, []);
      WhereIsStack(t, []);
      assert Where(s, []) == Where(t, []);
      AbsoluteIsOnly(Stack(s), Stack(t));
    }
  }

  /** Two paths have the same normal form exactly if they keep the same slashes and lead to the same directory from everywhere. */
  lemma NormIsMeaning(s: string, t: string)
    ensures Norm(s) == Norm(t) <==> Root(s) == Root(t) && LeadTheSame(s, t)
  {
    NormDetermines(s, t);
    if Norm(s) == Norm(t) {
      forall dir
        ensures Where(s, dir) == Where(t, dir)
      {
        NormLeadsThere(s, dir);
        NormLeadsThere(t, dir);
      }
    } else if Root(s) == Root(t) && LeadTheSame(s, t) {
      StacksLeadTheSame(s, t);
    }
  }

  /** Exactly two leading slashes stay two, and any other number but none is one. */
  lemma RootIs(s: string)
    ensures Root(s) == if "//" <= s && !("///" <= s) then "//" else if "/" <= s then "/" else ""
  {
    SlashesAre(s);
    RootIsThere(s);
    var n := Slashes(s);
    assert forall i | 0 <= i < n :: s[i] == s[..n][i] == '/';
    assert "//" <= s <==> n >= 2;
    assert "///" <= s <==> n >= 3;
  }

  /** Only what leads nowhere else from everywhere, without being absolute, is named ".", and no normal form is empty. */
  lemma NormIsDot(s: string)
    ensures Norm(s) != ""
    ensures Norm(s) == "." <==> !("/" <= s) && forall dir :: Where(s, dir) == dir
  {
    StackIsCanonical(s);
    RootIsThere(s);
    RootIsThere(".");
    JoinReadsBack(Stack(s));
    DotLeadsNowhere();
    NormIsMeaning(s, ".");
    assert Root(".") == "";
    DotIsNormal();
  }

  lemma DotLeadsNowhere()
    ensures forall dir :: Where(".", dir) == dir
  {
    TokenIsComponent(".");
    RootIsThere(".");
    forall dir
      ensures Where(".", dir) == dir
    {
      assert Follow(Enter(dir, "."), ["."][1..]) == dir;
    }
  }

  lemma DotIsNormal()
    ensures Norm(".") == "."
  {
    TokenIsComponent(".");
    assert Steps(false, [], ["."]) == [];
  }
}
