/** The translation of globs to regular expressions (pxr/base/arch/regex.cpp). */
module GlobRegex {

  import opened Options
  import opened Sequences
  import opened Strings

  // ---------------------------------------------------------------- replacing

  /** The occurrences from the left, without overlap. */
  function Replaced(s: string, from: string, to: string): string
    requires from != []
  {
    if |s| < |from| then s
    else if s[..|from|] == from then to + Replaced(s[|from|..], from, to)
    else [s[0]] + Replaced(s[1..], from, to)
  }

  /** What replacing makes of a string from a position on, when this is the next occurrence. */
  function WithNext(s: string, from: string, to: string, pos: nat, at: int): string
    requires from != [] && pos <= |s| && (at == NPOS || pos <= at <= |s| - |from|)
  {
    if at == NPOS then s[pos..] else s[pos..at] + to + Replaced(s[at + |from|..], from, to)
  }

  lemma NextIsHere(s: string, from: string, to: string, pos: nat)
    requires from != [] && pos + |from| <= |s| && s[pos..pos + |from|] == from
    ensures Replaced(s[pos..], from, to) == WithNext(s, from, to, pos, pos)
  {
    var rest := s[pos..];
    assert rest[..|from|] == s[pos..pos + |from|];
    assert rest[|from|..] == s[pos + |from|..];
    assert s[pos..pos] + to == to;
  }

  lemma NextIsLater(s: string, from: string, to: string, pos: nat, at: int)
    requires from != [] && pos + |from| <= |s| && s[pos..pos + |from|] != from
    requires at == NPOS || pos < at <= |s| - |from|
    requires Replaced(s[pos + 1..], from, to) == WithNext(s, from, to, pos + 1, at)
    ensures Replaced(s[pos..], from, to) == WithNext(s, from, to, pos, at)
  {
    var rest := s[pos..];
    assert rest[..|from|] == s[pos..pos + |from|];
    assert rest[1..] == s[pos + 1..];
    assert Replaced(rest, from, to) == [s[pos]] + WithNext(s, from, to, pos + 1, at);
    if at == NPOS {
      assert s[pos..] == [s[pos]] + s[pos + 1..];
    } else {
      Regroup(s, pos, at, to, Replaced(s[at + |from|..], from, to));
    }
  }

  /** The next occurrence is replaced, and nothing before it. */
  lemma {:induction false} ReplacedNext(s: string, from: string, to: string, pos: nat)
    requires from != [] && pos <= |s|
    ensures Replaced(s[pos..], from, to) == WithNext(s, from, to, pos, Find(s, from, pos))
    decreases |s| - pos
  {
    if pos + |from| <= |s| {
      if s[pos..pos + |from|] == from {
        NextIsHere(s, from, to, pos);
      } else {
        ReplacedNext(s, from, to, pos + 1);
        NextIsLater(s, from, to, pos, Find(s, from, pos + 1));
      }
    }
  }

  lemma Regroup(s: string, pos: nat, at: nat, to: string, tail: string)
    requires pos < at <= |s|
    ensures [s[pos]] + (s[pos + 1..at] + to + tail) == s[pos..at] + to + tail
  {
  }

  /** One step of the loop: what is done grows, and the rest stays to be replaced. */
  lemma ReplaceOne(r: string, from: string, to: string, pos: nat, at: nat, next: string)
    requires from != [] && pos <= |r| && at == Find(r, from, pos)
    requires next == r[..at] + to + r[at + |from|..]
    ensures next[..at + |to|] + Replaced(next[at + |to|..], from, to) == r[..pos] + Replaced(r[pos..], from, to)
  {
    var tail := r[at + |from|..];
    var later, rest := Replaced(tail, from, to), Replaced(r[pos..], from, to);
    assert rest == r[pos..at] + to + later by {
      ReplacedNext(r, from, to, pos);
    }
    Spliced(r, pos, at, to, tail, next, later);
    assert Replaced(next[at + |to|..], from, to) == later;
  }

  lemma Spliced(r: string, pos: nat, at: nat, to: string, tail: string, next: string, later: string)
    requires pos <= at <= |r| && next == r[..at] + to + tail
    ensures next[at + |to|..] == tail && next[..at + |to|] + later == r[..pos] + (r[pos..at] + to + later)
  {
    assert next[..at + |to|] == r[..pos] + (r[pos..at] + to);
    Associate(r[..pos], r[pos..at] + to, later);
  }

  /** _Replace */
  method Replace(s: string, from: string, to: string) returns (r: string)
    requires from != []
    ensures r == Replaced(s, from, to)
  {
    r := s;
    var pos: nat := 0;
    assert r[..0] + Replaced(r[0..], from, to) == Replaced(s, from, to) by {
      assert r[0..] == s;
    }
    while true
      invariant pos <= |r| && r[..pos] + Replaced(r[pos..], from, to) == Replaced(s, from, to)
      decreases |r| - pos
    {
      var at := Find(r, from, pos);
      if at == NPOS {
        break;
      }
      var next := r[..at] + to + r[at + |from|..];
      ReplaceOne(r, from, to, pos, at, next);
      r := next;
      pos := at + |to|;
    }
    ReplacedNext(r, from, to, pos);
    assert r[..pos] + r[pos..] == r;
  }

  // ---------------------------------------------------------------- three passes as one

  /** The translation of one character. */
  function TranslateChar(c: char): string {
    if c == '.' then "\\." else if c == '*' then ".*" else if c == '?' then "." else [c]
  }

  function Translate(pattern: string): string {
    if pattern == [] then [] else TranslateChar(pattern[0]) + Translate(pattern[1..])
  }

  /** One character is replaced wherever it is, whatever is around it. */
  lemma {:induction false} ReplacedConcat(a: string, b: string, c: char, to: string)
    ensures Replaced(a + b, [c], to) == Replaced(a, [c], to) + Replaced(b, [c], to)
  {
    if a == [] {
      assert a + b == b;
    } else {
      ReplacedConcat(a[1..], b, c, to);
      assert (a + b)[1..] == a[1..] + b && (a + b)[..1] == a[..1] == [a[0]];
      Associate(if a[0] == c then to else [a[0]], Replaced(a[1..], [c], to), Replaced(b, [c], to));
    }
  }

  lemma ReplacedChar(x: char, c: char, to: string)
    ensures Replaced([x], [c], to) == if x == c then to else [x]
  {
    assert [x][1..] == [] && [x][..1] == [x];
  }

  function ThreePasses(pattern: string): string {
    Replaced(Replaced(Replaced(pattern, ".", "\\."), "*", ".*"), "?", ".")
  }

  lemma PassesConcat(a: string, b: string)
    ensures ThreePasses(a + b) == ThreePasses(a) + ThreePasses(b)
  {
    ReplacedConcat(a, b, '.', "\\.");
    ReplacedConcat(Replaced(a, ".", "\\."), Replaced(b, ".", "\\."), '*', ".*");
    ReplacedConcat(Replaced(Replaced(a, ".", "\\."), "*", ".*"), Replaced(Replaced(b, ".", "\\."), "*", ".*"), '?', ".");
  }

  /** No later pass touches what an earlier one put in. */
  lemma PassesChar(x: char)
    ensures ThreePasses([x]) == TranslateChar(x)
  {
    ReplacedChar(x, '.', "\\.");
    ReplacedChar(x, '*', ".*");
    ReplacedChar(x, '?', ".");
    Untouched("\\.", '*', ".*");
    Untouched("\\.", '?', ".");
    Untouched(".*", '?', ".");
  }

  lemma {:induction false} Untouched(s: string, c: char, to: string)
    requires c !in s
    ensures Replaced(s, [c], to) == s
  {
    if s != [] {
      assert s[..1] == [s[0]];
      Untouched(s[1..], c, to);
    }
  }

  /** The three passes translate every pattern character by character. */
  lemma {:induction false} PassesTranslate(pattern: string)
    ensures ThreePasses(pattern) == Translate(pattern)
  {
    if pattern != [] {
      PassesTranslate(pattern[1..]);
      PassesChar(pattern[0]);
      PassesConcat([pattern[0]], pattern[1..]);
      assert pattern == [pattern[0]] + pattern[1..];
    }
  }

  /** _GlobToRegex */
  method GlobToRegex(pattern: string) returns (r: string)
    ensures r == Translate(pattern)
  {
    r := Replace(pattern, ".", "\\.");
    r := Replace(r, "*", ".*");
    r := Replace(r, "?", ".");
    PassesTranslate(pattern);
  }

  // ---------------------------------------------------------------- meanings

  /** What a glob matches. */
  ghost predicate GlobMatches(pattern: string, text: string) {
    if pattern == [] then text == []
    else if pattern[0] == '*' then exists i :: 0 <= i <= |text| && GlobMatches(pattern[1..], text[i..])
    else text != [] && (pattern[0] == '?' || pattern[0] == text[0]) && GlobMatches(pattern[1..], text[1..])
  }

  /** The part of extended regular expressions that translations use: sequences of these. */
  datatype Item = Literal(c: char) | AnyOne | AnyMany

  /** The characters with a meaning of their own, in a regular expression. */
  predicate Special(c: char) {
    c in {'\\', '^', '$', '.', '[', ']', '(', ')', '|', '*', '+', '?', '{', '}'}
  }

  /** Reads a regular expression; None if it has more in it than these items. */
  function ParseRegex(s: string): Option<seq<Item>> {
    if s == [] then Some([])
    else if s[0] == '\\' then if |s| >= 2 && Special(s[1]) then Cons(Literal(s[1]), ParseRegex(s[2..])) else None
    else if s[0] == '.' then
      if |s| >= 2 && s[1] == '*' then Cons(AnyMany, ParseRegex(s[2..])) else Cons(AnyOne, ParseRegex(s[1..]))
    else if Special(s[0]) then None
    else Cons(Literal(s[0]), ParseRegex(s[1..]))
  }

  function Cons(item: Item, rest: Option<seq<Item>>): Option<seq<Item>> {
    match rest
    case None => None
    case Some(items) => Some([item] + items)
  }

  /** What items match, a star once more or no more; with REG_NEWLINE, a dot matches no newline. */
  ghost predicate RegexMatches(items: seq<Item>, text: string)
    decreases |items|, |text|
  {
    if items == [] then text == [] else
      match items[0]
      case Literal(c) => text != [] && text[0] == c && RegexMatches(items[1..], text[1..])
      case AnyOne => text != [] && text[0] != '\n' && RegexMatches(items[1..], text[1..])
      case AnyMany =>
        RegexMatches(items[1..], text) || (text != [] && text[0] != '\n' && RegexMatches(items, text[1..]))
  }

  /** A pattern whose only characters with a meaning are those of globs. */
  predicate Plain(pattern: string) {
    forall i | 0 <= i < |pattern| :: Special(pattern[i]) ==> pattern[i] in {'.', '*', '?'}
  }

  function ItemOf(c: char): Item {
    if c == '*' then AnyMany else if c == '?' then AnyOne else Literal(c)
  }

  function ItemsOf(pattern: string): seq<Item> {
    if pattern == [] then [] else [ItemOf(pattern[0])] + ItemsOf(pattern[1..])
  }

  /** A translation never begins with a star that a dot before it would take up. */
  lemma NoLeadingStar(pattern: string)
    ensures Translate(pattern) != [] ==> Translate(pattern)[0] != '*'
  {
  }

  /** The translation of a plain pattern reads as one item for each character. */
  lemma {:induction false} TranslationParses(pattern: string)
    requires Plain(pattern)
    ensures ParseRegex(Translate(pattern)) == Some(ItemsOf(pattern))
  {
    if pattern != [] {
      var c, rest := pattern[0], Translate(pattern[1..]);
      TranslationParses(pattern[1..]);
      NoLeadingStar(pattern[1..]);
      var s := Translate(pattern);
      if c == '.' || c == '*' {
        assert s[2..] == rest;
      } else {
        assert s[1..] == rest;
      }
    }
  }

  /** Once more and no more come to any number of times. */
  lemma {:induction false} ManyMatch(items: seq<Item>, text: string)
    requires items != [] && items[0] == AnyMany && '\n' !in text
    ensures RegexMatches(items, text) <==> exists i :: 0 <= i <= |text| && RegexMatches(items[1..], text[i..])
    decreases |text|
  {
    if text == [] {
      assert text[0..] == text;
    } else {
      var rest := text[1..];
      ManyMatch(items, rest);
      assert text[0..] == text;
      if j :| 0 <= j <= |rest| && RegexMatches(items[1..], rest[j..]) {
        assert rest[j..] == text[j + 1..];
      }
      if i :| 0 <= i <= |text| && RegexMatches(items[1..], text[i..]) && i > 0 {
        assert text[i..] == rest[i - 1..];
      }
    }
  }

  /** On text without newlines they match the same. */
  lemma {:induction false} ItemsMatch(pattern: string, text: string)
    requires '\n' !in text
    ensures RegexMatches(ItemsOf(pattern), text) <==> GlobMatches(pattern, text)
    decreases |pattern|
  {
    if pattern != [] {
      var items := ItemsOf(pattern);
      assert items[1..] == ItemsOf(pattern[1..]);
      forall i | 0 <= i <= |text|
        ensures RegexMatches(items[1..], text[i..]) <==> GlobMatches(pattern[1..], text[i..])
      {
        ItemsMatch(pattern[1..], text[i..]);
      }
      if pattern[0] == '*' {
        ManyMatch(items, text);
      } else if text != [] {
        ItemsMatch(pattern[1..], text[1..]);
      }
    }
  }

  /** Somewhere in the text. */
  ghost predicate GlobFound(pattern: string, text: string) {
    exists i, j :: 0 <= i <= j <= |text| && GlobMatches(pattern, text[i..j])
  }

  /** regexec, of a regular expression that was read. */
  ghost predicate RegexFound(items: seq<Item>, text: string) {
    exists i, j :: 0 <= i <= j <= |text| && RegexMatches(items, text[i..j])
  }

  /** For every plain pattern and every text without newlines, the regular expression is found where the glob is. */
  lemma TranslationFindsTheSame(pattern: string, text: string)
    requires Plain(pattern) && '\n' !in text
    ensures ParseRegex(Translate(pattern)).Some?
    ensures RegexFound(ParseRegex(Translate(pattern)).value, text) <==> GlobFound(pattern, text)
  {
    TranslationParses(pattern);
    forall i, j | 0 <= i <= j <= |text|
      ensures RegexMatches(ItemsOf(pattern), text[i..j]) <==> GlobMatches(pattern, text[i..j])
    {
      ItemsMatch(pattern, text[i..j]);
    }
  }
}
