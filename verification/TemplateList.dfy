/** Template lists in compiler output (pxr/base/arch/function.cpp). */
module TemplateList {
  import opened Options
  import opened Strings
  import opened FunctionName

  // ---------------------------------------------------------------- template lists

  const WITH := " [with "

  /** The head ends where the pattern first occurs; the list is what follows its "[with", but for the last character. */
  ghost predicate IsSplit(s: string, head: string, list: string) {
    if exists j :: Occurs(s, WITH, j) then
      |s| > 0 && s == head + " [with" + list + [s[|s| - 1]] && Occurs(s, WITH, |head|)
      && forall j | 0 <= j < |head| :: !Occurs(s, WITH, j)
    else head == s && list == ""
  }

  /** _Split: the function, and the template list with a leading space. */
  method Split(prettyFunction: string) returns (head: string, list: string)
    ensures (head, list) == SplitAt(prettyFunction)
    ensures IsSplit(prettyFunction, head, list)
  {
    FindMeans(prettyFunction, WITH, 0);
    var i := Find(prettyFunction, WITH, 0);
    if i != NPOS {
      var n := |prettyFunction|;
      head, list := prettyFunction[..i], prettyFunction[i + 6..][..n - i - 7];
      CutAt(prettyFunction, i);
    } else {
      return prettyFunction, "";
    }
  }

  lemma CutAt(s: string, i: nat)
    requires Occurs(s, WITH, i)
    ensures s == s[..i] + " [with" + s[i + 6..][..|s| - i - 7] + [s[|s| - 1]]
  {
    var pattern := WITH;
    assert s[i..i + 7][..6] == pattern[..6];
    assert s == s[..i] + s[i..i + 7][..6] + s[i + 6..][..|s| - i - 7] + [s[|s| - 1]];
  }

  function SplitAt(s: string): (string, string) {
    var i := Find(s, WITH, 0);
    if i != NPOS then (s[..i], s[i + 6..][..|s| - i - 7]) else (s, "")
  }

  datatype Entry = Entry(key: string, value: string)

  /** What stands before entry n; compilers separate the entries by commas or by semicolons. */
  function Separator(n: nat, semicolons: set<nat>): string {
    if n == 0 then " " else if n in semicolons then "; " else ", "
  }

  /** A list, with semicolons before the entries of these numbers and commas before the others. */
  function ListText(entries: seq<Entry>, semicolons: set<nat>): string {
    if entries == [] then ""
    else
      var n := |entries| - 1;
      ListText(entries[..n], semicolons) + Separator(n, semicolons) + entries[n].key + " = " + entries[n].value
  }

  /** _FormatTemplateList. */
  method FormatTemplateList(templates: seq<Entry>) returns (result: string)
    ensures result == Formatted(templates)
  {
    result := "";
    if templates != [] {
      for n := 0 to |templates|
        invariant n == 0 ==> result == ""
        invariant n > 0 ==> result == " [with" + ListText(templates[..n], {})
      {
        assert templates[..n + 1][..n] == templates[..n];
        if result == "" {
          result := result + WITH;
        } else {
          result := result + ", ";
        }
        result := result + templates[n].key;
        result := result + " = ";
        result := result + templates[n].value;
      }
      assert templates[..|templates|] == templates;
      result := result + "]";
    }
  }

  function Formatted(entries: seq<Entry>): string {
    if entries == [] then "" else " [with" + ListText(entries, {}) + "]"
  }

  const SPACE_OR_EQUALS: Chars := {' ', '='}
  const SEPARATORS: Chars := {' ', '=', ',', ';'}

  /** rfind('=', i). */
  function LastEquals(s: string, i: int): int {
    LastIn(s, {'='}, if i < |s| then i else |s| - 1)
  }

  /** How a turn of the loop of _GetTemplateList ends. */
  datatype Turn =
    | Next(entry: Entry, typeEnd: nat)  // an assignment, and where the text before the entry ends
    | Threw                             // substr was given a position past the end
    | Left                              // the search for the start of the key left the string

  /** What becomes of a call; it may run for ever. */
  datatype Read = Done(result: map<string, string>) | Failed(turn: Turn) | Running

  /** Where the key before the '=' at i ends; NPOS if there is none. */
  function KeyEnd(s: string, i: nat): int
    requires i < |s|
  {
    LastNotIn(s, SPACE_OR_EQUALS, i)
  }

  /** Where the key starts; without a key, the search starts at the end of the string. */
  function KeyStart(s: string, i: nat): Option<nat>
    requires i < |s|
  {
    StartOfName(s, if KeyEnd(s, i) == NPOS then |s| else KeyEnd(s, i))
  }

  /** Where the text before a key ends; from a key at the start, the search goes on at the end of the string. */
  function EndBefore(s: string, keyStart: nat): nat
    requires keyStart <= |s|
  {
    LastNotIn(s, SEPARATORS, (if keyStart == 0 then |s| else keyStart) - 1) + 1
  }

  lemma KeyStartInside(s: string, i: nat)
    requires i < |s|
    ensures KeyStart(s, i).Some? ==> KeyStart(s, i).value <= |s|
    ensures KeyStart(s, i).Some? && KeyEnd(s, i) != NPOS ==> KeyStart(s, i).value <= KeyEnd(s, i)
  {
    var end := KeyEnd(s, i);
    LastNotInSkips(s, SPACE_OR_EQUALS, i);
    if KeyStart(s, i).Some? {
      ScanStartsBefore(s, Clamp(s, if end == NPOS then |s| else end), 0);
    }
  }

  /** substr takes what there is of a length that wrapped. */
  function KeyText(s: string, keyStart: nat, keyEnd: int): string
    requires keyStart <= |s| && keyEnd < |s| && (keyEnd == NPOS || keyStart <= keyEnd)
  {
    if keyEnd != NPOS then s[keyStart..keyEnd + 1] else if keyStart == 0 then "" else s[keyStart..]
  }

  function ValueText(s: string, typeStart: nat, typeEnd: nat): string
    requires typeStart <= |s| && typeEnd <= |s|
  {
    if typeStart <= typeEnd then s[typeStart..typeEnd] else s[typeStart..]
  }

  /** One turn, with the wrapped positions and lengths that searches without success lead to. */
  function TurnAt(s: string, typeEnd: nat, i: nat): Turn
    requires i < |s| && typeEnd <= |s|
  {
    var typeStart, keyEnd := FirstNotIn(s, SPACE_OR_EQUALS, i), KeyEnd(s, i);
    KeyStartInside(s, i);
    match KeyStart(s, i)
    case None => Left
    case Some(keyStart) =>
      if typeStart == NPOS then Threw
      else
        Next(Entry(KeyText(s, keyStart, keyEnd), ValueText(s, typeStart, typeEnd)), EndBefore(s, keyStart))
  }

  lemma {:induction false} LastNotInSkips(s: string, cs: Chars, i: nat)
    requires i < |s|
    ensures LastNotIn(s, cs, i) != NPOS ==> s[LastNotIn(s, cs, i)] !in cs
  {
    if s[i] in cs && i > 0 {
      LastNotInSkips(s, cs, i - 1);
    }
  }

  /** The loop, watched for so many turns. */
  function Parse(s: string, typeEnd: nat, result: map<string, string>, turns: nat): Read
    requires typeEnd <= |s|
    decreases turns
  {
    var i := LastEquals(s, typeEnd);
    if i == NPOS then Done(result)
    else if turns == 0 then Running
    else
      match TurnAt(s, typeEnd, i)
      case Next(entry, end) => Parse(s, end, result[entry.key := entry.value], turns - 1)
      case failed => Failed(failed)
  }

  lemma ParseTurn(s: string, typeEnd: nat, result: map<string, string>, turns: nat, i: nat, entry: Entry, end: nat)
    requires typeEnd <= |s| && i < |s| && LastEquals(s, typeEnd) == i && turns > 0
    requires TurnAt(s, typeEnd, i) == Next(entry, end)
    ensures end <= |s| && Parse(s, typeEnd, result, turns) == Parse(s, end, result[entry.key := entry.value], turns - 1)
  {
  }

  /** The searches around one '='. */
  method ReadEntry(s: string, typeEnd: nat, i: nat) returns (r: Turn)
    requires i < |s| && typeEnd <= |s|
    ensures r == TurnAt(s, typeEnd, i)
  {
    var typeStart := FirstNotIn(s, SPACE_OR_EQUALS, i);
    var nameEnd := LastNotIn(s, SPACE_OR_EQUALS, i);
    var nameStart := GetStartOfName(s, if nameEnd == NPOS then |s| else nameEnd);
    if nameStart == None {
      return Left;
    }
    if typeStart == NPOS {
      return Threw;
    }
    KeyStartInside(s, i);
    var start := nameStart.value;
    r := Next(Entry(KeyText(s, start, nameEnd), ValueText(s, typeStart, typeEnd)),
              LastNotIn(s, SEPARATORS, (if start == 0 then |s| else start) - 1) + 1);
  }

  /**
   _GetTemplateList, from the last entry to the first.  If it has not ended after as many turns
   as there are characters, it never ends: see RunsForEver.
   */
  method GetTemplateList(templates: string) returns (r: Read)
    ensures r == Parse(templates, |templates|, map[], |templates|)
  {
    hide TurnAt;
    var result: map<string, string> := map[];
    var typeEnd: nat := |templates|;
    var i := LastEquals(templates, typeEnd);
    var turns: nat := |templates|;
    ghost var outcome := Parse(templates, typeEnd, result, turns);
    while i != NPOS
      invariant typeEnd <= |templates| && i == LastEquals(templates, typeEnd)
      invariant Parse(templates, typeEnd, result, turns) == outcome
      decreases turns
    {
      if turns == 0 {
        return Running;
      }
      var turn := ReadEntry(templates, typeEnd, i);
      if !turn.Next? {
        return Failed(turn);
      }
      ParseTurn(templates, typeEnd, result, turns, i, turn.entry, turn.typeEnd);
      result := result[turn.entry.key := turn.entry.value];
      typeEnd := turn.typeEnd;
      i := LastEquals(templates, typeEnd);
      turns := turns - 1;
    }
    r := Done(result);
  }

  // ---------------------------------------------------------------- termination

  /** The position of the '=' that the turn at i leads to; NPOS if the loop ends there, one way or another. */
  function Following(s: string, i: nat): (j: int)
    requires i < |s|
    ensures NPOS <= j < |s|
  {
    KeyStartInside(s, i);
    if KeyStart(s, i) == None || FirstNotIn(s, SPACE_OR_EQUALS, i) == NPOS then NPOS
    else LastEquals(s, EndBefore(s, KeyStart(s, i).value))
  }

  /** The position after so many turns. */
  function Walk(s: string, i: int, turns: nat): (j: int)
    requires NPOS <= i < |s|
    ensures NPOS <= j < |s|
    decreases turns
  {
    if turns == 0 || i == NPOS then i else Walk(s, Following(s, i), turns - 1)
  }

  lemma {:induction false} RunningIsWalking(s: string, typeEnd: nat, result: map<string, string>, turns: nat)
    requires typeEnd <= |s|
    ensures Parse(s, typeEnd, result, turns) == Running <==> Walk(s, LastEquals(s, typeEnd), turns) != NPOS
    decreases turns
  {
    var i := LastEquals(s, typeEnd);
    if i != NPOS && turns > 0 {
      KeyStartInside(s, i);
      match TurnAt(s, typeEnd, i)
      case Next(entry, end) => RunningIsWalking(s, end, result[entry.key := entry.value], turns - 1);
      case _ =>
    }
  }

  lemma {:induction false} WalkOn(s: string, i: int, a: nat, b: nat)
    requires NPOS <= i < |s|
    ensures Walk(s, i, a + b) == Walk(s, Walk(s, i, a), b)
    decreases a
  {
    if a > 0 && i != NPOS {
      WalkOn(s, Following(s, i), a - 1, b);
    }
  }

  /** More values below a bound than the bound are not all different. */
  lemma {:induction false} Pigeons(p: seq<int>, n: nat) returns (a: nat, b: nat)
    requires |p| > n && forall k | 0 <= k < |p| :: 0 <= p[k] < n
    ensures a < b < |p| && p[a] == p[b]
    decreases n
  {
    var last := |p| - 1;
    if k: nat :| k < last && p[k] == p[last] {
      a, b := k, last;
    } else {
      // The value at the end is nowhere else, so the largest value can take its place.
      assert n > 0 by { assert 0 <= p[last] < n; }
      var v := p[last];
      var q := seq(last, k requires 0 <= k < last => if p[k] == n - 1 then v else p[k]);
      forall k | 0 <= k < last ensures 0 <= q[k] < n - 1 {
        assert p[k] != v;
      }
      a, b := Pigeons(q, n - 1);
      assert q[a] == q[b];
    }
  }

  /** A loop that comes back to a position never ends. */
  lemma {:induction false} NeverEnds(s: string, i: int, a: nat, b: nat, turns: nat)
    requires NPOS <= i < |s| && a < b && Walk(s, i, a) == Walk(s, i, b) != NPOS
    ensures Walk(s, i, turns) != NPOS
    decreases turns
  {
    if turns <= b {
      WalkOn(s, i, turns, b - turns);
    } else {
      NeverEnds(s, i, a, b, turns - (b - a));
      WalkOn(s, i, b, turns - b);
      WalkOn(s, i, a, turns - b);
    }
  }

  /** The loop of _GetTemplateList ends, if it does, within as many turns as there are characters. */
  lemma RunsForEver(s: string, turns: nat)
    requires Parse(s, |s|, map[], |s|) == Running
    ensures Parse(s, |s|, map[], turns) == Running
  {
    var i := LastEquals(s, |s|);
    RunningIsWalking(s, |s|, map[], |s|);
    var p := seq(|s| + 1, k requires 0 <= k <= |s| => Walk(s, i, k));
    forall k | 0 <= k < |p| ensures 0 <= p[k] < |s| {
      WalkOn(s, i, k, |s| - k);
    }
    var a, b := Pigeons(p, |s|);
    NeverEnds(s, i, a, b, turns);
    RunningIsWalking(s, |s|, map[], turns);
  }

  /** The '=' has a key before it, after a space, and something other than spaces and '=' after it. */
  predicate HasKey(s: string, i: nat)
    requires i < |s|
  {
    KeyEnd(s, i) != NPOS && KeyStart(s, i).Some? && KeyStart(s, i).value > 0 && FirstNotIn(s, SPACE_OR_EQUALS, i) != NPOS
  }

  /**
   What a turn reads around the '=' at i.  The key ends before it and the value starts after it,
   with only spaces and '=' between; the value ends where the turn was told, and the next one is
   told where the text before the key ends, without its spaces, '=', commas and semicolons.
   */
  ghost predicate IsTurn(s: string, typeEnd: nat, i: nat, entry: Entry, end: nat, key: nat, keyEnd: nat, value: nat) {
    && end <= key <= keyEnd <= i < value < |s| && typeEnd <= |s|
    && (forall j | keyEnd < j < value :: s[j] == ' ' || s[j] == '=')
    && s[keyEnd] != ' ' && s[keyEnd] != '=' && s[value] != ' ' && s[value] != '='
    && entry.key == s[key..keyEnd + 1]
    && entry.value == (if value <= typeEnd then s[value..typeEnd] else s[value..])
    && (forall j | end <= j < key :: s[j] == ' ' || s[j] == '=' || s[j] == ',' || s[j] == ';')
    && (end > 0 ==> s[end - 1] != ' ' && s[end - 1] != '=' && s[end - 1] != ',' && s[end - 1] != ';')
  }

  lemma {:induction false} LastNotInPasses(s: string, cs: Chars, i: int)
    requires i < |s|
    ensures forall j | LastNotIn(s, cs, i) < j <= i && 0 <= j :: s[j] in cs
    decreases i + 1
  {
    if i >= 0 && s[i] in cs {
      LastNotInPasses(s, cs, i - 1);
    }
  }

  lemma {:induction false} FirstNotInPasses(s: string, cs: Chars, i: nat)
    requires i <= |s|
    ensures var r := FirstNotIn(s, cs, i);
      (r != NPOS ==> i <= r && s[r] !in cs) && forall j | i <= j < (if r == NPOS then |s| else r) :: s[j] in cs
    decreases |s| - i
  {
    if i < |s| && s[i] in cs {
      FirstNotInPasses(s, cs, i + 1);
    }
  }

  lemma TurnReads(s: string, typeEnd: nat, i: nat) returns (entry: Entry, end: nat)
    requires i < |s| && typeEnd <= |s| && s[i] == '=' && HasKey(s, i)
    ensures TurnAt(s, typeEnd, i) == Next(entry, end)
    ensures IsTurn(s, typeEnd, i, entry, end, KeyStart(s, i).value, KeyEnd(s, i), FirstNotIn(s, SPACE_OR_EQUALS, i))
  {
    var key := KeyStart(s, i).value;
    KeyStartInside(s, i);
    entry, end := TurnAt(s, typeEnd, i).entry, EndBefore(s, key);
    LastNotInSkips(s, SPACE_OR_EQUALS, i);
    LastNotInPasses(s, SPACE_OR_EQUALS, i);
    FirstNotInPasses(s, SPACE_OR_EQUALS, i);
    LastNotInSkips(s, SEPARATORS, key - 1);
    LastNotInPasses(s, SEPARATORS, key - 1);
  }

  /** Then the next '=' is further left. */
  lemma GoesLeft(s: string, i: nat)
    requires i < |s| && HasKey(s, i)
    ensures Following(s, i) < i
  {
    KeyStartInside(s, i);
  }

  lemma KeyedTurn(s: string, typeEnd: nat, i: nat) returns (entry: Entry, end: nat)
    requires i < |s| && typeEnd <= |s| && HasKey(s, i)
    ensures TurnAt(s, typeEnd, i) == Next(entry, end) && end <= |s| && LastEquals(s, end) == Following(s, i) < i
  {
    GoesLeft(s, i);
    KeyStartInside(s, i);
    entry, end := TurnAt(s, typeEnd, i).entry, EndBefore(s, KeyStart(s, i).value);
  }

  lemma KeyedParse(s: string, typeEnd: nat, result: map<string, string>, turns: nat)
    returns (end: nat, result': map<string, string>)
    requires typeEnd <= |s| && LastEquals(s, typeEnd) != NPOS && turns > 0 && HasKey(s, LastEquals(s, typeEnd))
    ensures end <= |s| && LastEquals(s, end) < LastEquals(s, typeEnd)
    ensures Parse(s, typeEnd, result, turns) == Parse(s, end, result', turns - 1)
  {
    var i, entry := LastEquals(s, typeEnd), Entry("", "");
    entry, end := KeyedTurn(s, typeEnd, i);
    ParseTurn(s, typeEnd, result, turns, i, entry, end);
    result' := result[entry.key := entry.value];
  }

  lemma EqualsIsThere(s: string, typeEnd: nat)
    ensures LastEquals(s, typeEnd) != NPOS ==> s[LastEquals(s, typeEnd)] == '='
  {
  }

  lemma {:induction false} KeyedTurnsEnd(s: string, typeEnd: nat, result: map<string, string>, turns: nat)
    requires typeEnd <= |s| && LastEquals(s, typeEnd) < turns
    requires forall j: nat | j < |s| && s[j] == '=' :: HasKey(s, j)
    ensures Parse(s, typeEnd, result, turns).Done?
    decreases turns
  {
    hide TurnAt, HasKey;
    if LastEquals(s, typeEnd) != NPOS {
      EqualsIsThere(s, typeEnd);
      var end, result' := KeyedParse(s, typeEnd, result, turns);
      KeyedTurnsEnd(s, end, result', turns - 1);
    }
  }

  /** If every '=' has a key and a value, the loop ends with a map. */
  lemma KeyedListsEnd(s: string)
    requires forall j: nat | j < |s| && s[j] == '=' :: HasKey(s, j)
    ensures Parse(s, |s|, map[], |s|).Done?
  {
    if s != "" {
      KeyedTurnsEnd(s, |s|, map[], |s|);
    }
  }

  /** A turn that leads back to its own '='. */
  lemma StaysRunning(s: string, i: nat, turns: nat)
    requires i < |s| && LastEquals(s, |s|) == i && Following(s, i) == i
    ensures Parse(s, |s|, map[], turns) == Running
  {
    assert Walk(s, i, 1) == Walk(s, i, 0);
    NeverEnds(s, i, 0, 1, turns);
    RunningIsWalking(s, |s|, map[], turns);
  }

  /** A key at the start of the string: the search for the text before it wraps to the end. */
  lemma KeyAtStartRunsForEver(turns: nat)
    ensures Parse("A=B", 3, map[], turns) == Running
  {
    var s := "A=B";
    LastInIs(s, {'='}, 2, 1);
    FirstNotInIs(s, SPACE_OR_EQUALS, 1, 2);
    LastNotInIs(s, SPACE_OR_EQUALS, 1, 0);
    assert Scan(s, 0, 0) == Some(0);
    LastNotInIs(s, SEPARATORS, 2, 2);
    StaysRunning(s, 1, turns);
  }

  /** No key: the search for its start wraps to the end. */
  lemma NoKeyRunsForEver(turns: nat)
    ensures Parse(" = A B", 6, map[], turns) == Running
  {
    var s := " = A B";
    LastInIs(s, {'='}, 5, 1);
    FirstNotInIs(s, SPACE_OR_EQUALS, 1, 3);
    assert LastNotIn(s, SPACE_OR_EQUALS, 0) == NPOS;
    assert LastNotIn(s, SPACE_OR_EQUALS, 1) == NPOS;
    assert Scan(s, 5, 0) == Scan(s, 4, 0) == Some(5);
    LastNotInIs(s, SEPARATORS, 4, 3);
    LastInIs(s, {'='}, 4, 1);
    StaysRunning(s, 1, turns);
  }

  // ---------------------------------------------------------------- reading a formatted list

  predicate GoodKey(key: string) {
    key != "" && ' ' !in key && '=' !in key && '>' !in key
  }

  predicate GoodValue(value: string) {
    && value != "" && '=' !in value
    && value[0] != ' ' && value[|value| - 1] !in {' ', ',', ';'}
  }

  predicate GoodEntry(e: Entry) {
    GoodKey(e.key) && GoodValue(e.value)
  }

  /** An entry that ends at t in s, with its '=' at i and its key at k, after a space. */
  ghost predicate EntryAt(s: string, k: nat, i: nat, t: nat, e: Entry) {
    && 0 < k && i == k + |e.key| + 1 && t == i + 2 + |e.value| <= |s|
    && s[k - 1] == ' ' && s[k..i - 1] == e.key && s[i - 1] == ' ' && s[i] == '=' && s[i + 1] == ' '
    && s[i + 2..t] == e.value
    && (t < |s| ==> s[t] != '=')
  }

  lemma EqualsOfEntry(s: string, k: nat, i: nat, t: nat, e: Entry)
    requires EntryAt(s, k, i, t, e) && GoodEntry(e)
    ensures LastEquals(s, t) == i
  {
    forall j | i < j < |s| && j <= t
      ensures s[j] != '='
    {
      if i + 2 <= j < t { assert s[j] == e.value[j - i - 2]; }
    }
    LastInIs(s, {'='}, if t < |s| then t else |s| - 1, i);
  }

  lemma StartOfKey(s: string, k: nat, i: nat, t: nat, e: Entry)
    requires EntryAt(s, k, i, t, e) && GoodEntry(e)
    ensures StartOfName(s, i - 2) == Some(k)
  {
    forall j | k <= j <= i - 2
      ensures s[j] !in SPACE_OR_CLOSE
    {
      assert s[j] == e.key[j - k];
    }
    LastInIs(s, SPACE_OR_CLOSE, i - 2, k - 1);
    ScanSkips(s, i - 2);
  }

  lemma ParsesEntry(s: string, k: nat, i: nat, t: nat, e: Entry)
    requires EntryAt(s, k, i, t, e) && GoodEntry(e)
    ensures TurnAt(s, t, i) == Next(e, LastNotIn(s, SEPARATORS, k - 1) + 1)
  {
    assert s[i + 2] == e.value[0];
    FirstNotInIs(s, SPACE_OR_EQUALS, i, i + 2);
    assert s[i - 2] == e.key[|e.key| - 1];
    LastNotInIs(s, SPACE_OR_EQUALS, i, i - 2);
    StartOfKey(s, k, i, t, e);
  }

  /** What the assignments leave in the map, from the last entry to the first. */
  function Assigned(entries: seq<Entry>, result: map<string, string>): map<string, string> {
    if entries == [] then result
    else
      var n := |entries| - 1;
      Assigned(entries[..n], result[entries[n].key := entries[n].value])
  }

  /** The text before an entry: a front without '=', the entries before it, and the separator. */
  function Before(front: string, entries: seq<Entry>, semicolons: set<nat>): string
    requires entries != []
  {
    front + ListText(entries[..|entries| - 1], semicolons) + Separator(|entries| - 1, semicolons)
  }

  /** An entry after a space. */
  lemma EntryFits(s: string, before: string, e: Entry)
    requires before != "" && before[|before| - 1] == ' ' && before + e.key + " = " + e.value <= s
    requires var t := |before + e.key + " = " + e.value|; t < |s| ==> s[t] != '='
    ensures EntryAt(s, |before|, |before| + |e.key| + 1, |before + e.key + " = " + e.value|, e)
  {
    var text := before + e.key + " = " + e.value;
    EntryInText(before, e.key, e.value, text);
    assert s[..|text|] == text;
    SliceOfPrefix(s, |text|, |before|, |before| + |e.key|);
    SliceOfPrefix(s, |text|, |before| + |e.key| + 3, |text|);
  }

  lemma EntryInText(before: string, key: string, value: string, text: string)
    requires text == before + key + " = " + value
    ensures var k, i := |before|, |before| + |key| + 1;
      text[k..i - 1] == key && text[i - 1] == ' ' && text[i] == '=' && text[i + 1] == ' ' && text[i + 2..] == value
    ensures forall j | 0 <= j < |before| :: text[j] == before[j]
  {
  }

  lemma SliceOfPrefix(s: string, n: nat, from: nat, to: nat)
    requires from <= to <= n <= |s|
    ensures s[..n][from..to] == s[from..to]
  {
  }

  lemma LastEntryText(front: string, entries: seq<Entry>, semicolons: set<nat>)
    requires entries != []
    ensures var (e, b) := (entries[|entries| - 1], Before(front, entries, semicolons));
      front + ListText(entries, semicolons) == b + e.key + " = " + e.value && b != "" && b[|b| - 1] == ' '
  {
    var n := |entries| - 1;
    AssociateSix(front, ListText(entries[..n], semicolons), Separator(n, semicolons), entries[n].key, " = ", entries[n].value);
  }

  lemma AssociateSix(a: string, b: string, c: string, d: string, e: string, f: string)
    ensures a + (b + c + d + e + f) == a + b + c + d + e + f
  {
  }

  lemma LastEntryAt(s: string, front: string, entries: seq<Entry>, semicolons: set<nat>)
    requires entries != [] && front + ListText(entries, semicolons) <= s
    requires var t := |front + ListText(entries, semicolons)|; t < |s| ==> s[t] != '='
    ensures var e, k := entries[|entries| - 1], |Before(front, entries, semicolons)|;
      EntryAt(s, k, k + |e.key| + 1, |front + ListText(entries, semicolons)|, e)
  {
    hide ListText, Before, EntryAt;
    LastEntryText(front, entries, semicolons);
    EntryFits(s, Before(front, entries, semicolons), entries[|entries| - 1]);
  }

  /** The text before an entry ends, without its separators, where the entry before that ends. */
  lemma EntryBeforeEnds(s: string, front: string, entries: seq<Entry>, semicolons: set<nat>)
    requires |entries| > 1 && Before(front, entries, semicolons) <= s && GoodEntry(entries[|entries| - 2])
    ensures LastNotIn(s, SEPARATORS, |Before(front, entries, semicolons)| - 1) + 1
         == |front + ListText(entries[..|entries| - 1], semicolons)|
  {
    var rest := entries[..|entries| - 1];
    var t := |front + ListText(rest, semicolons)|;
    var v := rest[|rest| - 1].value;
    assert s[..t + 2] == front + ListText(rest, semicolons) + Separator(|rest|, semicolons);
    assert s[t - 1] == v[|v| - 1] && (s[t] == ',' || s[t] == ';') && s[t + 1] == ' ';
    assert v[|v| - 1] != '=';
    LastNotInIs(s, SEPARATORS, t + 1, t - 1);
  }

  /** A front without '=' and a formatted list end at t in s, up to separators if the list is empty. */
  ghost predicate ListAt(s: string, front: string, entries: seq<Entry>, semicolons: set<nat>, t: nat) {
    && front + ListText(entries, semicolons) <= s && '=' !in front
    && (forall e | e in entries :: GoodEntry(e))
    && if entries == [] then t <= |front| && (t < |s| ==> '=' !in s[..t + 1])
       else t == |front + ListText(entries, semicolons)| && (t < |s| ==> s[t] != '=')
  }

  lemma BeforeIsPrefix(front: string, entries: seq<Entry>, semicolons: set<nat>)
    requires entries != []
    ensures Before(front, entries, semicolons) <= front + ListText(entries, semicolons)
    ensures front + ListText(entries[..|entries| - 1], semicolons) <= Before(front, entries, semicolons)
  {
    var e, n := entries[|entries| - 1], |entries| - 1;
    ConcatPrefixes(front, ListText(entries[..n], semicolons), Separator(n, semicolons), e.key, " = ", e.value);
  }

  lemma ConcatPrefixes(a: string, b: string, c: string, d: string, e: string, f: string)
    ensures a + b <= a + b + c <= a + (b + c + d + e + f)
  {
    assert a + (b + c + d + e + f) == a + b + c + (d + e + f);
  }

  lemma ListBefore(s: string, front: string, entries: seq<Entry>, semicolons: set<nat>, t: nat)
    requires entries != [] && ListAt(s, front, entries, semicolons, t)
    ensures ListAt(s, front, entries[..|entries| - 1], semicolons,
                   LastNotIn(s, SEPARATORS, |Before(front, entries, semicolons)| - 1) + 1)
  {
    var n := |entries| - 1;
    BeforeIsPrefix(front, entries, semicolons);
    if n == 0 {
      assert s[..|front|] == front && s[|front|] == ' ';
      LastNotInBelow(s, SEPARATORS, |front|);
      assert forall j | 0 <= j <= |front| :: s[j] != '=';
    } else {
      assert entries[n - 1] in entries;
      EntryBeforeEnds(s, front, entries, semicolons);
      var before, at := Before(front, entries, semicolons), |front + ListText(entries[..n], semicolons)|;
      assert s[at] == before[at] == Separator(n, semicolons)[0];
    }
  }

  lemma ListEnds(s: string, front: string, entries: seq<Entry>, semicolons: set<nat>, t: nat)
    requires entries != [] && ListAt(s, front, entries, semicolons, t)
    ensures front + ListText(entries, semicolons) <= s && t == |front + ListText(entries, semicolons)|
    ensures (t < |s| ==> s[t] != '=') && GoodEntry(entries[|entries| - 1])
  {
    assert entries[|entries| - 1] in entries;
  }

  /** The turn that reads the last entry leaves the list before it. */
  lemma ParsesLast(s: string, front: string, entries: seq<Entry>, semicolons: set<nat>, t: nat,
                   result: map<string, string>, turns: nat)
    returns (end: nat)
    requires entries != [] && ListAt(s, front, entries, semicolons, t) && turns > 0
    ensures var last := entries[|entries| - 1];
      t <= |s| && end <= |s| && ListAt(s, front, entries[..|entries| - 1], semicolons, end)
      && Parse(s, t, result, turns) == Parse(s, end, result[last.key := last.value], turns - 1)
  {
    hide Parse, EntryAt, ListAt, ListText, Before, GoodEntry;
    var last := entries[|entries| - 1];
    ListEnds(s, front, entries, semicolons, t);
    LastEntryAt(s, front, entries, semicolons);
    end := ParsesAt(s, |Before(front, entries, semicolons)|, t, last, result, turns);
    ListBefore(s, front, entries, semicolons, t);
  }

  lemma ParsesAt(s: string, k: nat, t: nat, e: Entry, result: map<string, string>, turns: nat) returns (end: nat)
    requires EntryAt(s, k, k + |e.key| + 1, t, e) && GoodEntry(e) && turns > 0
    ensures end == LastNotIn(s, SEPARATORS, k - 1) + 1 && end <= |s|
    ensures Parse(s, t, result, turns) == Parse(s, end, result[e.key := e.value], turns - 1)
  {
    var i := k + |e.key| + 1;
    end := LastNotIn(s, SEPARATORS, k - 1) + 1;
    EqualsOfEntry(s, k, i, t, e);
    ParsesEntry(s, k, i, t, e);
    ParseTurn(s, t, result, turns, i, e, end);
  }

  lemma {:induction false} ParsesList(s: string, front: string, entries: seq<Entry>, semicolons: set<nat>, t: nat,
                                      result: map<string, string>, turns: nat)
    requires ListAt(s, front, entries, semicolons, t) && |entries| <= turns
    ensures t <= |s| && Parse(s, t, result, turns) == Done(Assigned(entries, result))
    decreases |entries|
  {
    hide Parse, ListAt;
    if entries == [] {
      ParsesNothing(s, front, semicolons, t, result, turns);
    } else {
      var last := entries[|entries| - 1];
      var end := ParsesLast(s, front, entries, semicolons, t, result, turns);
      ParsesList(s, front, entries[..|entries| - 1], semicolons, end, result[last.key := last.value], turns - 1);
    }
  }

  lemma ParsesNothing(s: string, front: string, semicolons: set<nat>, t: nat, result: map<string, string>, turns: nat)
    requires ListAt(s, front, [], semicolons, t)
    ensures t <= |s| && Parse(s, t, result, turns) == Done(result)
  {
    NoEquals(s, front, t);
  }

  lemma NoEquals(s: string, front: string, t: nat)
    requires front <= s && '=' !in front && t <= |front| && (t < |s| ==> '=' !in s[..t + 1])
    ensures LastEquals(s, t) == NPOS
  {
    var last := if t < |s| then t else |s| - 1;
    forall j | 0 <= j <= last
      ensures s[j] != '='
    {
      if t < |s| { assert s[j] == s[..t + 1][j]; } else { assert s[j] == front[j]; }
    }
    LastInNone(s, {'='}, last);
  }

  lemma LastNotInBelow(s: string, cs: Chars, i: nat)
    requires i < |s| && s[i] in cs
    ensures LastNotIn(s, cs, i) + 1 <= i
  {
  }

  // ---------------------------------------------------------------- round trip

  /** The entries of a map, each once, in any order. */
  ghost predicate Enumerates(entries: seq<Entry>, m: map<string, string>) {
    && (forall i, j | 0 <= i < j < |entries| :: entries[i].key != entries[j].key)
    && (forall e | e in entries :: e.key in m && m[e.key] == e.value)
    && (forall k | k in m :: Entry(k, m[k]) in entries)
  }

  lemma {:induction false} AssignedHolds(entries: seq<Entry>, result: map<string, string>)
    requires forall i, j | 0 <= i < j < |entries| :: entries[i].key != entries[j].key
    requires forall e | e in entries :: e.key !in result
    ensures forall e | e in entries :: e.key in Assigned(entries, result) && Assigned(entries, result)[e.key] == e.value
    ensures forall k | k in result :: k in Assigned(entries, result) && Assigned(entries, result)[k] == result[k]
    ensures forall k | k in Assigned(entries, result) :: k in result || exists e :: e in entries && e.key == k
    decreases |entries|
  {
    if entries != [] {
      var n := |entries| - 1;
      var rest, last := entries[..n], entries[n];
      AssignedHolds(rest, result[last.key := last.value]);
      assert entries == rest + [last];
    }
  }

  lemma AssignedIsMap(entries: seq<Entry>, m: map<string, string>)
    requires Enumerates(entries, m)
    ensures Assigned(entries, map[]) == m
  {
    AssignedHolds(entries, map[]);
    var a := Assigned(entries, map[]);
    forall k | k in m
      ensures k in a && a[k] == m[k]
    {
      assert Entry(k, m[k]) in entries;
    }
  }

  lemma OccursInFront(front: string, rest: string, pattern: string, j: nat)
    requires Occurs(front + rest, pattern, j) && j + |pattern| <= |front|
    ensures Occurs(front, pattern, j)
  {
    assert (front + rest)[j..j + |pattern|] == front[j..j + |pattern|];
  }

  /** A pattern that starts in the front and reaches over its end has the next character at the distance. */
  lemma OccursAcross(front: string, rest: string, pattern: string, j: nat)
    requires Occurs(front + rest, pattern, j) && j < |front| < j + |pattern|
    ensures rest != "" && pattern[|front| - j] == rest[0] && front[j..] == pattern[..|front| - j]
  {
    var s := front + rest;
    assert pattern[|front| - j] == s[j..j + |pattern|][|front| - j] == s[|front|];
    assert front[j..] == s[j..j + |pattern|][..|front| - j];
  }

  /** The first character of the pattern comes again as its last, and nowhere else. */
  ghost predicate IsBracketed(p: string) {
    |p| > 1 && p[|p| - 1] == p[0] && forall d | 0 < d < |p| - 1 :: p[d] != p[0]
  }

  /** The name ends in all of the pattern but its last character. */
  predicate EndsInFront(name: string, p: string)
    requires p != ""
  {
    |name| >= |p| - 1 && name[|name| - (|p| - 1)..] == p[..|p| - 1]
  }

  /** The pattern does not start inside the name, except by its last character. */
  lemma NotWithin(name: string, rest: string, p: string, j: nat)
    requires IsBracketed(p) && rest != "" && rest[0] == p[0] && j < |name| && !Occurs(name, p, j)
    requires j + |p| - 1 != |name| || !EndsInFront(name, p)
    ensures !Occurs(name + rest, p, j)
  {
    if Occurs(name + rest, p, j) {
      if j + |p| <= |name| {
        OccursInFront(name, rest, p, j);
      } else {
        OccursAcross(name, rest, p, j);
      }
    }
  }

  lemma OccursAfter(name: string, rest: string, p: string)
    requires IsBracketed(p) && p <= rest
    ensures Occurs(name + rest, p, |name|)
    ensures EndsInFront(name, p) ==> Occurs(name + rest, p, |name| - (|p| - 1))
  {
    var s := name + rest;
    assert s[|name|..|name| + |p|] == rest[..|p|];
    if EndsInFront(name, p) {
      var r := |name| - (|p| - 1);
      assert s[r..r + |p|] == name[r..] + [rest[0]];
      assert p == p[..|p| - 1] + [p[0]];
    }
  }

  /** The pattern is found after the name, or before its end if that is all of it but the last character. */
  lemma PatternIsFound(name: string, rest: string, p: string)
    requires IsBracketed(p) && Find(name, p, 0) == NPOS && p <= rest
    ensures Find(name + rest, p, 0) == if EndsInFront(name, p) then |name| - (|p| - 1) else |name|
  {
    var r := if EndsInFront(name, p) then |name| - (|p| - 1) else |name|;
    FindMeans(name, p, 0);
    forall j | 0 <= j < r
      ensures !Occurs(name + rest, p, j)
    {
      NotWithin(name, rest, p, j);
    }
    OccursAfter(name, rest, p);
    FindIs(name + rest, p, 0, r);
  }

  lemma WithIsBracketed()
    ensures IsBracketed(WITH) && |WITH| == 7 && WITH[0] == ' '
  {
  }

  lemma StartsWithPattern(list: string)
    requires list != "" && list[0] == ' '
    ensures WITH <= " [with" + list + "]"
  {
    var rest := " [with" + list + "]";
    assert rest[..7] == " [with" + [list[0]];
  }

  /** What _Split makes of a name and a list in brackets. */
  lemma SplitsBack(name: string, list: string)
    requires Find(name, WITH, 0) == NPOS && list != "" && list[0] == ' '
    ensures var s := name + (" [with" + list + "]");
      && SplitAt(s).1 == (if EndsInFront(name, WITH) then " [with" + list else list)
      && (SplitAt(s).0 == name <==> !EndsInFront(name, WITH))
  {
    WithIsBracketed();
    StartsWithPattern(list);
    SplitsAround(name, " [with", list, "]");
  }

  lemma SplitsAround(name: string, opening: string, list: string, closing: string)
    requires IsBracketed(WITH) && |WITH| == 7 && |opening| == 6 && |closing| == 1
    requires WITH <= opening + list + closing && Find(name, WITH, 0) == NPOS
    ensures var s := name + (opening + list + closing);
      && SplitAt(s).1 == (if EndsInFront(name, WITH) then opening + list else list)
      && (SplitAt(s).0 == name <==> !EndsInFront(name, WITH))
  {
    PatternIsFound(name, opening + list + closing, WITH);
    CutsBack(name, opening, list, closing);
  }

  lemma CutsBack(name: string, opening: string, list: string, closing: string)
    requires |opening| == 6 && |closing| == 1
    ensures var s := name + (opening + list + closing);
      && s[|name| + 6..][..|s| - |name| - 7] == list && s[..|name|] == name
      && s[|name|..][..|s| - |name| - 1] == opening + list
  {
    var s := name + (opening + list + closing);
    assert s[|name|..] == opening + list + closing;
    assert s[|name| + 6..] == list + closing;
  }

  lemma {:induction false} ListStartsWithSpace(entries: seq<Entry>, semicolons: set<nat>)
    requires entries != []
    ensures ListText(entries, semicolons) != "" && ListText(entries, semicolons)[0] == ' '
    decreases |entries|
  {
    if |entries| > 1 {
      ListStartsWithSpace(entries[..|entries| - 1], semicolons);
    }
  }

  /**
   Splitting a name and the list of a compiler, with commas and semicolons as it likes, and
   reading the list, assigns its entries.  The name is given back exactly if it does not itself
   end in the start of the pattern.
   */
  lemma CompilerListReads(name: string, entries: seq<Entry>, semicolons: set<nat>)
    requires Find(name, WITH, 0) == NPOS && entries != []
    requires forall e | e in entries :: GoodEntry(e)
    ensures var (head, list) := SplitAt(name + (" [with" + ListText(entries, semicolons) + "]"));
      && Parse(list, |list|, map[], |list|) == Done(Assigned(entries, map[]))
      && (head == name <==> !EndsInFront(name, WITH))
  {
    hide SplitAt, EndsInFront, Parse, ListText, Assigned, GoodEntry;
    var text := ListText(entries, semicolons);
    ListStartsWithSpace(entries, semicolons);
    SplitsBack(name, text);
    ParsesWhole(if EndsInFront(name, WITH) then " [with" else "", entries, semicolons);
    assert "" + text == text;
  }

  /**
   Splitting a name and a formatted map, and reading the list, gives the map back.  The name is
   given back exactly if it does not itself end in the start of the pattern.
   */
  lemma FormatReadsBack(name: string, m: map<string, string>, entries: seq<Entry>)
    requires Find(name, WITH, 0) == NPOS && Enumerates(entries, m)
    requires forall e | e in entries :: GoodEntry(e)
    ensures var (head, list) := SplitAt(name + Formatted(entries));
      && Parse(list, |list|, map[], |list|) == Done(m)
      && (head == name <==> entries == [] || !EndsInFront(name, WITH))
  {
    AssignedIsMap(entries, m);
    if entries == [] {
      assert name + Formatted(entries) == name;
      ParsesList("", "", [], {}, 0, map[], 0);
    } else {
      CompilerListReads(name, entries, {});
    }
  }

  lemma ParsesWhole(front: string, entries: seq<Entry>, semicolons: set<nat>)
    requires '=' !in front && entries != [] && forall e | e in entries :: GoodEntry(e)
    ensures var s := front + ListText(entries, semicolons); Parse(s, |s|, map[], |s|) == Done(Assigned(entries, map[]))
  {
    var s := front + ListText(entries, semicolons);
    ListIsLong(entries, semicolons);
    ParsesList(s, front, entries, semicolons, |s|, map[], |s|);
  }

  lemma {:induction false} ListIsLong(entries: seq<Entry>, semicolons: set<nat>)
    ensures |ListText(entries, semicolons)| >= |entries|
    decreases |entries|
  {
    if entries != [] {
      ListIsLong(entries[..|entries| - 1], semicolons);
    }
  }

  lemma LastEntry(entries: seq<Entry>, e: Entry, semicolons: set<nat>, result: map<string, string>)
    ensures ListText(entries + [e], semicolons)
         == ListText(entries, semicolons) + Separator(|entries|, semicolons) + e.key + " = " + e.value
    ensures Assigned(entries + [e], result) == Assigned(entries, result[e.key := e.value])
  {
    assert (entries + [e])[..|entries|] == entries;
  }

  lemma ThreeEntries(a: Entry, b: Entry, c: Entry, semicolons: set<nat>)
    ensures ListText([a] + [b] + [c], semicolons)
         == "" + " " + a.key + " = " + a.value + Separator(1, semicolons) + b.key + " = " + b.value
            + Separator(2, semicolons) + c.key + " = " + c.value
    ensures Assigned([a] + [b] + [c], map[]) == map[c.key := c.value][b.key := b.value][a.key := a.value]
  {
    LastEntry([], a, semicolons, map[c.key := c.value][b.key := b.value]);
    LastEntry([a], b, semicolons, map[c.key := c.value]);
    LastEntry([a] + [b], c, semicolons, map[]);
    assert [] + [a] == [a];
  }

  lemma ParsesThree(a: Entry, b: Entry, c: Entry, semicolons: set<nat>, list: string)
    requires GoodEntry(a) && GoodEntry(b) && GoodEntry(c)
    requires list == "" + " " + a.key + " = " + a.value + Separator(1, semicolons) + b.key + " = " + b.value
                     + Separator(2, semicolons) + c.key + " = " + c.value
    ensures Parse(list, |list|, map[], |list|) == Done(map[c.key := c.value][b.key := b.value][a.key := a.value])
  {
    hide Parse, ListText, Assigned, GoodEntry;
    ThreeEntries(a, b, c, semicolons);
    ParsesWhole("", [a] + [b] + [c], semicolons);
    assert "" + list == list;
  }

  lemma TextOfThree(list: string)
    requires list == "" + " " + "C" + " = " + "double" + "; " + "B" + " = " + "float" + "; " + "A" + " = " + "int"
    ensures list == " C = double; B = float; A = int"
  {
    assert |list| == 31;
  }

  lemma GoodThree()
    ensures GoodEntry(Entry("C", "double")) && GoodEntry(Entry("B", "float")) && GoodEntry(Entry("A", "int"))
  {
  }

  /** The list of a compiler that writes semicolons. */
  lemma SemicolonsAreSeparators(list: string)
    requires list == " C = double; B = float; A = int"
    ensures Parse(list, |list|, map[], |list|) == Done(map["A" := "int"]["B" := "float"]["C" := "double"])
  {
    hide Parse, GoodEntry;
    var c, b, a := Entry("C", "double"), Entry("B", "float"), Entry("A", "int");
    var text := "" + " " + c.key + " = " + c.value + "; " + b.key + " = " + b.value + "; " + a.key + " = " + a.value;
    TextOfThree(text);
    GoodThree();
    ParsesThree(c, b, a, {1, 2}, text);
  }

  /** A name that ends in the start of the pattern, which is found one space too early. */
  lemma NameMayNotComeBack()
    ensures var name, text := " [with", Formatted([Entry("A", "int")]);
      SplitAt(name + text).0 != name && SplitAt(name + text).1 == " [with A = int"
  {
    var entries := [Entry("A", "int")];
    var text := ListText(entries, {});
    assert entries[..0] == [] && text == " A = int";
    SplitsBack(" [with", text);
    assert " [with"[|" [with"| - 6..] == WITH[..6];
    assert Formatted(entries) == " [with" + text + "]";
  }
}
