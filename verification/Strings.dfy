/** The searches of std::string that the modelled code uses. */
module Strings {

  /** std::string::npos: no position. */
  const NPOS := -1

  type Chars = set<char>

  /** find_last_of: the last position at or before i that holds one of the characters. */
  function LastIn(s: string, cs: Chars, i: int): (r: int)
    requires i < |s|
    ensures NPOS <= r < |s| && (r <= i || r == NPOS) && (r != NPOS ==> s[r] in cs)
    decreases i + 1
  {
    if i < 0 then NPOS else if s[i] in cs then i else LastIn(s, cs, i - 1)
  }

  /** find_last_not_of. */
  function LastNotIn(s: string, cs: Chars, i: int): (r: int)
    requires i < |s|
    ensures NPOS <= r < |s| && (r <= i || r == NPOS)
    decreases i + 1
  {
    if i < 0 then NPOS else if s[i] !in cs then i else LastNotIn(s, cs, i - 1)
  }

  /** find_first_not_of. */
  function FirstNotIn(s: string, cs: Chars, i: nat): (r: int)
    requires i <= |s|
    ensures NPOS <= r < |s|
    decreases |s| - i
  {
    if i == |s| then NPOS else if s[i] !in cs then i else FirstNotIn(s, cs, i + 1)
  }

  /** find: the first position at or after i where pattern occurs. */
  function Find(s: string, pattern: string, i: nat): (r: int)
    ensures r == NPOS || i <= r <= |s| - |pattern|
    decreases |s| - i
  {
    if i + |pattern| > |s| then NPOS
    else if s[i..i + |pattern|] == pattern then i
    else Find(s, pattern, i + 1)
  }

  lemma {:induction false} LastInIs(s: string, cs: Chars, i: int, r: nat)
    requires r <= i < |s| && s[r] in cs && forall j | r < j <= i :: s[j] !in cs
    ensures LastIn(s, cs, i) == r
    decreases i
  {
    if i > r {
      LastInIs(s, cs, i - 1, r);
    }
  }

  lemma {:induction false} LastInNone(s: string, cs: Chars, i: int)
    requires i < |s| && forall j | 0 <= j <= i :: s[j] !in cs
    ensures LastIn(s, cs, i) == NPOS
    decreases i + 1
  {
    if i >= 0 {
      LastInNone(s, cs, i - 1);
    }
  }

  lemma {:induction false} LastNotInIs(s: string, cs: Chars, i: int, r: nat)
    requires r <= i < |s| && s[r] !in cs && forall j | r < j <= i :: s[j] in cs
    ensures LastNotIn(s, cs, i) == r
    decreases i
  {
    if i > r {
      LastNotInIs(s, cs, i - 1, r);
    }
  }

  lemma {:induction false} FirstNotInIs(s: string, cs: Chars, i: nat, r: nat)
    requires i <= r < |s| && s[r] !in cs && forall j | i <= j < r :: s[j] in cs
    ensures FirstNotIn(s, cs, i) == r
    decreases r - i
  {
    if i < r {
      FirstNotInIs(s, cs, i + 1, r);
    }
  }

  predicate Occurs(s: string, pattern: string, i: int) {
    0 <= i && i + |pattern| <= |s| && s[i..i + |pattern|] == pattern
  }

  lemma {:induction false} FindIs(s: string, pattern: string, i: nat, r: nat)
    requires i <= r && Occurs(s, pattern, r) && forall j | i <= j < r :: !Occurs(s, pattern, j)
    ensures Find(s, pattern, i) == r
    decreases r - i
  {
    if i < r {
      assert !Occurs(s, pattern, i);
      FindIs(s, pattern, i + 1, r);
    }
  }

  lemma {:induction false} FindNone(s: string, pattern: string, i: nat)
    requires forall j | i <= j :: !Occurs(s, pattern, j)
    ensures Find(s, pattern, i) == NPOS
    decreases |s| - i
  {
    if i + |pattern| <= |s| {
      assert !Occurs(s, pattern, i);
      FindNone(s, pattern, i + 1);
    }
  }

  /** find finds the first occurrence, or there is none. */
  lemma {:induction false} FindMeans(s: string, pattern: string, i: nat)
    ensures var r := Find(s, pattern, i);
      (r != NPOS ==> Occurs(s, pattern, r))
      && forall j | i <= j && (r == NPOS || j < r) :: !Occurs(s, pattern, j)
    decreases |s| - i
  {
    if i + |pattern| <= |s| && s[i..i + |pattern|] != pattern {
      FindMeans(s, pattern, i + 1);
    }
  }
}
