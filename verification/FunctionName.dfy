/** Function names in compiler output (pxr/base/arch/function.cpp). */
module FunctionName {
  import opened Options
  import opened Strings

  // ---------------------------------------------------------------- start of a name

  const SPACE_OR_CLOSE: Chars := {' ', '>'}

  /**
   Where the name that ends at i starts, reading backwards one character at a time: a space
   outside angle brackets ends it.  None stands for reading before the start of s.
   */
  function Scan(s: string, i: nat, depth: nat): Option<nat>
    requires i < |s|
  {
    if i == 0 then
      if s[0] == ' ' then Some(1) else if s[0] == '>' then None else Some(0)
    else if depth == 0 then
      if s[i] == ' ' then Some(i + 1) else Scan(s, i - 1, if s[i] == '>' then 1 else 0)
    else
      Scan(s, i - 1, if s[i] == '>' then depth + 1 else if s[i] == '<' then depth - 1 else depth)
  }

  /** The last position of s at or before i. */
  function Clamp(s: string, i: nat): int {
    if i < |s| then i else |s| - 1
  }

  function StartOfName(s: string, i: nat): Option<nat> {
    if s == "" then Some(0) else Scan(s, Clamp(s, i), 0)
  }

  /** Outside brackets, the scan passes everything up to a space or '>'. */
  lemma {:induction false} ScanSkips(s: string, i: nat)
    requires i < |s|
    ensures var r := LastIn(s, SPACE_OR_CLOSE, i);
      Scan(s, i, 0) == if r == NPOS then Some(0) else Scan(s, r, 0)
  {
    if i > 0 && s[i] !in SPACE_OR_CLOSE {
      ScanSkips(s, i - 1);
    } else if i == 0 {
      assert LastIn(s, SPACE_OR_CLOSE, i) == if s[0] in SPACE_OR_CLOSE then 0 else NPOS;
    }
  }

  /** At the first position the scan does not look at the depth. */
  lemma ScanAtFirst(s: string, depth: nat)
    requires s != ""
    ensures Scan(s, 0, depth) == Scan(s, 0, 0)
  {
  }

  /** _GetStartOfName: skips everything between matching brackets, and searches for a space. */
  method GetStartOfName(s: string, pos: nat) returns (r: Option<nat>)
    ensures r == StartOfName(s, pos)
  {
    var i := LastIn(s, SPACE_OR_CLOSE, Clamp(s, pos));
    if s != "" { ScanSkips(s, Clamp(s, pos)); }
    while i != NPOS && s[i] != ' '
      invariant NPOS <= i < |s| && (i != NPOS ==> s[i] in SPACE_OR_CLOSE)
      invariant StartOfName(s, pos) == if i == NPOS then Some(0) else Scan(s, i, 0)
      decreases i
    {
      var nestingDepth := 1;
      ghost var start := i;
      while nestingDepth != 0
        invariant 0 <= i <= start && nestingDepth >= 0 && (i == start ==> nestingDepth == 1)
        invariant i == 0 ==> start == 0 && s[0] == '>'
        invariant nestingDepth == 0 ==> s[i] == '<'
        invariant if i == 0 then StartOfName(s, pos) == None else StartOfName(s, pos) == Scan(s, i - 1, nestingDepth)
        decreases i
      {
        if i == 0 {
          return None;  // decrementing i leaves the string
        }
        i := i - 1;
        if i == 0 {
          ScanAtFirst(s, nestingDepth);
          break;
        }
        if s[i] == '>' {
          nestingDepth := nestingDepth + 1;
        } else if s[i] == '<' {
          nestingDepth := nestingDepth - 1;
        }
      }
      ScanSkips(s, i);
      i := LastIn(s, SPACE_OR_CLOSE, i);
    }
    r := Some(if i == NPOS then 0 else i + 1);
  }

  /** It only leaves the string if that begins with a closing bracket. */
  lemma {:induction false} ScanLeavesString(s: string, i: nat, depth: nat)
    requires i < |s| && Scan(s, i, depth) == None
    ensures s[0] == '>'
    decreases i
  {
    if i > 0 && !(depth == 0 && s[i] == ' ') {
      ScanLeavesString(s, i - 1, if s[i] == '>' then depth + 1
                                 else if s[i] == '<' && depth > 0 then depth - 1 else depth);
    }
  }

  lemma {:induction false} ScanStartsBefore(s: string, i: nat, depth: nat)
    requires i < |s| && Scan(s, i, depth).Some?
    ensures Scan(s, i, depth).value <= if s[i] == ' ' then i + 1 else i
    decreases i
  {
    if i > 0 && !(depth == 0 && s[i] == ' ') {
      ScanStartsBefore(s, i - 1, if s[i] == '>' then depth + 1
                                 else if s[i] == '<' && depth > 0 then depth - 1 else depth);
    }
  }

  /** The bracket depth after q, read forwards from depth 0; None if brackets close too soon or a space is outside them. */
  function Nesting(q: string): Option<nat> {
    if q == "" then Some(0)
    else
      var c := q[|q| - 1];
      match Nesting(q[..|q| - 1])
      case None => None
      case Some(d) =>
        if c == '<' then Some(d + 1)
        else if c == '>' then (if d == 0 then None else Some(d - 1))
        else if c == ' ' && d == 0 then None
        else Some(d)
  }

  /** A qualified name: its brackets match, and it has no spaces outside them. */
  predicate IsQualifiedName(q: string) {
    Nesting(q) == Some(0)
  }

  lemma {:induction false} ScanUnwinds(s: string, start: nat, q: string, depth: nat)
    requires start + |q| < |s| && s[start] == ' ' && s[start + 1..start + 1 + |q|] == q
    requires Nesting(q) == Some(depth)
    ensures Scan(s, start + |q|, depth) == Some(start + 1)
    decreases |q|
  {
    if q != "" {
      var before := q[..|q| - 1];
      assert s[start + |q|] == s[start + 1..start + 1 + |q|][|q| - 1];
      assert s[start + 1..start + 1 + |before|] == before;
      ScanUnwinds(s, start, before, Nesting(before).value);
    }
  }

  /**
   A return type, a space, and a qualified name: the start of the whole name is found, from its
   last character or from a character after it, however deeply its brackets nest.
   */
  lemma StartOfQualifiedName(before: string, q: string, after: string, i: nat)
    requires IsQualifiedName(q)
    requires i == |before| + |q| || (i == |before| + 1 + |q| && after != "" && after[0] !in SPACE_OR_CLOSE)
    ensures StartOfName(before + " " + q + after, i) == Some(|before| + 1)
  {
    var s := before + " " + q + after;
    assert s[|before| + 1..|before| + 1 + |q|] == q;
    ScanUnwinds(s, |before|, q, 0);
  }

  /** What _GetFunctionName cuts out; None if looking for the start of the name leaves the string. */
  function QualifiedNameOf(function_: string, prettyFunction: string): Option<string> {
    var start := Find(prettyFunction, "::" + function_, 0);
    if start <= 0 then Some(function_)
    else
      match StartOfName(prettyFunction, start)
      case None => None
      case Some(i) =>
        ScanStartsBefore(prettyFunction, start, 0);
        Some(prettyFunction[i..start + |function_| + 2])
  }

  /** A name starts at the start of the string or after a space. */
  lemma {:induction false} ScanStopsAtSpace(s: string, i: nat, depth: nat)
    requires i < |s| && Scan(s, i, depth).Some?
    ensures var start := Scan(s, i, depth).value; start == 0 || (start <= |s| && s[start - 1] == ' ')
    decreases i
  {
    if i > 0 && !(depth == 0 && s[i] == ' ') {
      ScanStopsAtSpace(s, i - 1, if s[i] == '>' then depth + 1
                                 else if s[i] == '<' && depth > 0 then depth - 1 else depth);
    }
  }

  /** The first occurrence. */
  ghost predicate FirstAt(s: string, pattern: string, p: nat) {
    Occurs(s, pattern, p) && forall j | 0 <= j < p :: !Occurs(s, pattern, j)
  }

  /** The name from a start at or before p on, where the member begins, up to the end of the member. */
  ghost predicate IsMemberName(s: string, p: nat, member: string, name: string) {
    p + |member| <= |s| &&
    exists start :: 0 <= start <= p && (start == 0 || s[start - 1] == ' ') && name == s[start..p] + member
  }

  /**
   _GetFunctionName.  The function is a member if it is first found after "::" past the start of
   the string; then what comes before it, back to a space or the start, belongs to the name.
   */
  method GetFunctionName(function_: string, prettyFunction: string) returns (r: Option<string>)
    ensures r == QualifiedNameOf(function_, prettyFunction)
    ensures (forall p: nat | p > 0 :: !FirstAt(prettyFunction, "::" + function_, p)) ==> r == Some(function_)
    ensures forall p: nat | p > 0 && FirstAt(prettyFunction, "::" + function_, p) ::
              if r == None then prettyFunction[0] == '>'
              else IsMemberName(prettyFunction, p, "::" + function_, r.value)
  {
    var memberFunction := "::";
    memberFunction := memberFunction + function_;
    var functionStart := Find(prettyFunction, memberFunction, 0);
    FoundFirst(prettyFunction, memberFunction);
    if functionStart == NPOS || functionStart == 0 {
      return Some(function_);
    }
    var functionEnd := functionStart + |function_| + 2;
    var i := GetStartOfName(prettyFunction, functionStart);
    if i == None {
      ScanLeavesString(prettyFunction, functionStart, 0);
      return None;
    }
    ScanStartsBefore(prettyFunction, functionStart, 0);
    ScanStopsAtSpace(prettyFunction, functionStart, 0);
    r := Some(prettyFunction[i.value..functionEnd]);
    CutMember(prettyFunction, i.value, functionStart, memberFunction);
  }

  lemma CutMember(s: string, start: nat, p: nat, member: string)
    requires start <= p && Occurs(s, member, p) && (start == 0 || s[start - 1] == ' ')
    ensures IsMemberName(s, p, member, s[start..p + |member|])
  {
    assert s[start..p + |member|] == s[start..p] + s[p..p + |member|];
  }

  lemma FoundFirst(s: string, pattern: string)
    ensures var r := Find(s, pattern, 0);
      if r == NPOS then forall p: nat :: !FirstAt(s, pattern, p)
      else FirstAt(s, pattern, r) && forall p: nat | FirstAt(s, pattern, p) :: p == r
  {
    FindMeans(s, pattern, 0);
  }

  /** A member function's class is found with it, template arguments included. */
  lemma QualifiedNameIsFound(before: string, q: string, function_: string, after: string)
    requires IsQualifiedName(q)
    requires var s := before + " " + q + "::" + function_ + after;
      Find(s, "::" + function_, 0) == |before| + 1 + |q|
    ensures QualifiedNameOf(function_, before + " " + q + "::" + function_ + after) == Some(q + "::" + function_)
  {
    var s, rest := before + " " + q + "::" + function_ + after, "::" + function_ + after;
    assert s == before + " " + q + rest;
    StartOfQualifiedName(before, q, rest, |before| + 1 + |q|);
    assert s[|before| + 1..|before| + 1 + |q| + |function_| + 2] == q + "::" + function_;
  }
}
