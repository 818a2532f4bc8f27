/**
 Truncation of a UTF-8 name at a character boundary (_TruncateUtf8 in pxr/base/arch/threads.cpp),
 with UTF-8 as RFC 3629 defines it.
 */
module Utf8 {

  type Byte = n: nat | n < 0x100

  // ---------------------------------------------------------------- RFC 3629

  /** The code points that UTF-8 encodes (section 3): all but the surrogates. */
  type CodePoint = n: nat | n < 0xD800 || 0xE000 <= n < 0x11_0000

  /** Section 3. */
  function Encode(c: CodePoint): (s: seq<Byte>)
    ensures 1 <= |s| <= 4
  {
    if c < 0x80 then [c]
    else if c < 0x800 then [0xC0 + c / 0x40, 0x80 + c % 0x40]
    else if c < 0x1_0000 then [0xE0 + c / 0x1000, 0x80 + c / 0x40 % 0x40, 0x80 + c % 0x40]
    else [0xF0 + c / 0x4_0000, 0x80 + c / 0x1000 % 0x40, 0x80 + c / 0x40 % 0x40, 0x80 + c % 0x40]
  }

  function EncodeAll(cs: seq<CodePoint>): seq<Byte> {
    if cs == [] then [] else Encode(cs[0]) + EncodeAll(cs[1..])
  }

  /** UTF8-tail (section 4): the two top bits are 10. */
  predicate Tail(b: Byte) {
    0x80 <= b <= 0xBF
  }

  /** UTF8-char (section 4). */
  predicate IsChar(s: seq<Byte>) {
    || (|s| == 1 && s[0] <= 0x7F)
    || (|s| == 2 && 0xC2 <= s[0] <= 0xDF && Tail(s[1]))
    || (|s| == 3 && Tail(s[2]) && Tail(s[1])
        && ((s[0] == 0xE0 && 0xA0 <= s[1]) || 0xE1 <= s[0] <= 0xEC || (s[0] == 0xED && s[1] <= 0x9F) || 0xEE <= s[0] <= 0xEF))
    || (|s| == 4 && Tail(s[3]) && Tail(s[2]) && Tail(s[1])
        && ((s[0] == 0xF0 && 0x90 <= s[1]) || 0xF1 <= s[0] <= 0xF3 || (s[0] == 0xF4 && s[1] <= 0x8F)))
  }

  /** UTF8-octets (section 4), as its characters. */
  predicate Octets(s: seq<Byte>, chars: seq<seq<Byte>>) {
    if chars == [] then s == []
    else IsChar(chars[0]) && chars[0] <= s && Octets(s[|chars[0]|..], chars[1..])
  }

  ghost predicate ValidUtf8(s: seq<Byte>) {
    exists chars :: Octets(s, chars)
  }

  /** The grammar and the encoding agree on a character. */
  lemma EncodeIsChar(c: CodePoint)
    ensures IsChar(Encode(c))
  {
    if c >= 0x1_0000 {
      LeadOfFour(c);
    } else if c >= 0x800 {
      LeadOfThree(c);
    }
  }

  lemma LeadOfThree(c: CodePoint)
    requires 0x800 <= c < 0x1_0000
    ensures IsChar(Encode(c))
  {
    var a, b := c / 0x1000, c / 0x40 % 0x40;
    assert c / 0x40 == a * 0x40 + b;
  }

  lemma LeadOfFour(c: CodePoint)
    requires c >= 0x1_0000
    ensures IsChar(Encode(c))
  {
    var a, b := c / 0x4_0000, c / 0x1000 % 0x40;
    assert c / 0x1000 == a * 0x40 + b;
  }

  lemma TwoBytes(a: int, b: int) returns (c: nat)
    requires 0 <= a < 0x20 && 0 <= b < 0x40
    ensures c / 0x40 == a && c % 0x40 == b
    ensures c == a * 0x40 + b
  {
    c := a * 0x40 + b;
  }

  lemma ThreeBytes(a: int, b: int, d: int) returns (c: nat)
    requires 0 <= a < 0x10 && 0 <= b < 0x40 && 0 <= d < 0x40
    ensures c / 0x1000 == a && c / 0x40 % 0x40 == b && c % 0x40 == d
    ensures c == a * 0x1000 + b * 0x40 + d
  {
    c := a * 0x1000 + b * 0x40 + d;
    assert c / 0x40 == a * 0x40 + b;
  }

  lemma FourBytes(a: int, b: int, d: int, e: int) returns (c: nat)
    requires 0 <= a < 8 && 0 <= b < 0x40 && 0 <= d < 0x40 && 0 <= e < 0x40
    ensures c / 0x4_0000 == a && c / 0x1000 % 0x40 == b && c / 0x40 % 0x40 == d && c % 0x40 == e
    ensures c == a * 0x4_0000 + b * 0x1000 + d * 0x40 + e
  {
    c := a * 0x4_0000 + b * 0x1000 + d * 0x40 + e;
    assert c / 0x40 == a * 0x1000 + b * 0x40 + d;
    assert c / 0x1000 == a * 0x40 + b;
  }

  /** Every character of the grammar is the encoding of a code point. */
  lemma CharIsEncoded(s: seq<Byte>) returns (c: CodePoint)
    requires IsChar(s)
    ensures Encode(c) == s
  {
    var x;
    if |s| == 1 {
      x := s[0];
    } else if |s| == 2 {
      x := TwoBytes(s[0] - 0xC0, s[1] - 0x80);
    } else if |s| == 3 {
      x := ThreeBytes(s[0] - 0xE0, s[1] - 0x80, s[2] - 0x80);
    } else {
      x := FourBytes(s[0] - 0xF0, s[1] - 0x80, s[2] - 0x80, s[3] - 0x80);
    }
    c := x;
  }

  /** Both sections define the same strings. */
  lemma {:induction false} OctetsAreEncoded(s: seq<Byte>, chars: seq<seq<Byte>>) returns (cs: seq<CodePoint>)
    requires Octets(s, chars)
    ensures EncodeAll(cs) == s
  {
    cs := [];
    if chars != [] {
      var c := CharIsEncoded(chars[0]);
      cs := OctetsAreEncoded(s[|chars[0]|..], chars[1..]);
      cs := [c] + cs;
    }
  }

  lemma {:induction false} EncodedIsValid(cs: seq<CodePoint>) returns (chars: seq<seq<Byte>>)
    ensures Octets(EncodeAll(cs), chars) && |chars| == |cs|
  {
    chars := [];
    if cs != [] {
      EncodeIsChar(cs[0]);
      chars := EncodedIsValid(cs[1..]);
      chars := [Encode(cs[0])] + chars;
    }
  }

  // ---------------------------------------------------------------- where a character starts

  /** A position without a tail byte is where a character starts. */
  lemma {:induction false} StartsChar(cs: seq<CodePoint>, p: nat) returns (k: nat)
    requires p < |EncodeAll(cs)| && !Tail(EncodeAll(cs)[p])
    ensures k < |cs| && |EncodeAll(cs[..k])| == p && EncodeAll(cs[..k]) == EncodeAll(cs)[..p]
  {
    var n := |Encode(cs[0])|;
    if p == 0 {
      k := 0;
    } else {
      k := StartsChar(cs[1..], p - n);
      k := k + 1;
      assert cs[..k][1..] == cs[1..][..k - 1];
    }
  }

  /** And a character starts without a tail byte, after the characters before it. */
  lemma {:induction false} CharStarts(cs: seq<CodePoint>, k: nat)
    requires k < |cs|
    ensures |EncodeAll(cs[..k + 1])| == |EncodeAll(cs[..k])| + |Encode(cs[k])|
    ensures |EncodeAll(cs[..k])| < |EncodeAll(cs)| && !Tail(EncodeAll(cs)[|EncodeAll(cs[..k])|])
  {
    if k > 0 {
      CharStarts(cs[1..], k - 1);
      assert cs[..k][1..] == cs[1..][..k - 1];
      assert cs[..k + 1][1..] == cs[1..][..k];
    } else {
      assert cs[..1][1..] == [];
    }
  }

  // ---------------------------------------------------------------- truncation

  /** The last place at or before the limit that has no tail byte, or the start. */
  predicate CutsAt(name: seq<Byte>, limit: nat, cut: nat)
    requires limit < |name|
  {
    cut <= limit && (cut == 0 || !Tail(name[cut])) && forall i | cut < i <= limit :: Tail(name[i])
  }

  /** The characters that fit, and one more would not. */
  predicate Longest(cs: seq<CodePoint>, limit: nat, k: nat) {
    k <= |cs| && |EncodeAll(cs[..k])| <= limit && (k < |cs| ==> |EncodeAll(cs[..k + 1])| > limit)
  }

  /**
   For every encoded string and every limit below its length, the cut leaves the longest run of
   whole characters that fits, at most three bytes below the limit.
   */
  lemma CutIsLongest(cs: seq<CodePoint>, limit: nat, cut: nat) returns (k: nat)
    requires limit < |EncodeAll(cs)| && CutsAt(EncodeAll(cs), limit, cut)
    ensures Longest(cs, limit, k) && EncodeAll(cs)[..cut] == EncodeAll(cs[..k]) && cut + 3 >= limit
  {
    CharStarts(cs, 0);
    k := StartsChar(cs, cut);
    CharStarts(cs, k);
    var next := cut + |Encode(cs[k])|;
    if next <= limit {
      assert k + 1 < |cs| by {
        assert cs[..|cs|] == cs;
      }
      CharStarts(cs, k + 1);
    }
  }

  /** The valid beginnings of a valid string end between its characters. */
  lemma {:induction false} ValidPrefixEnds(s: seq<Byte>, chars: seq<seq<Byte>>, p: nat, prefix: seq<seq<Byte>>)
    requires Octets(s, chars) && p < |s| && Octets(s[..p], prefix)
    ensures !Tail(s[p])
  {
    if prefix != [] {
      var n := |prefix[0]|;
      assert prefix[0][0] == s[..p][0] == s[0] == chars[0][0];
      assert |chars[0]| == n;
      assert s[..p][n..] == s[n..][..p - n];
      ValidPrefixEnds(s[n..], chars[1..], p - n, prefix[1..]);
    }
  }

  /**
   For every valid string and every limit below its length, the cut leaves the longest valid
   beginning that fits, at most three bytes below the limit.
   */
  lemma CutIsLongestValid(name: seq<Byte>, limit: nat, cut: nat)
    requires ValidUtf8(name) && limit < |name| && CutsAt(name, limit, cut)
    ensures ValidUtf8(name[..cut]) && cut + 3 >= limit
    ensures forall p | cut < p <= limit :: !ValidUtf8(name[..p])
  {
    var chars :| Octets(name, chars);
    var cs := OctetsAreEncoded(name, chars);
    var k := CutIsLongest(cs, limit, cut);
    var kept := EncodedIsValid(cs[..k]);
    forall p | cut < p <= limit ensures !ValidUtf8(name[..p]) {
      if ValidUtf8(name[..p]) {
        var prefix :| Octets(name[..p], prefix);
        ValidPrefixEnds(name, chars, p, prefix);
      }
    }
  }

  /** _TruncateUtf8: the name itself if it fits, or the part of it before the cut, in the buffer. */
  method TruncateUtf8(name: seq<Byte>, buf: array<Byte>, maxBytes: nat) returns (inBuf: bool, ghost cut: nat)
    requires 0 !in name && maxBytes + 1 <= buf.Length
    modifies buf
    ensures inBuf == (|name| > maxBytes)
    ensures !inBuf ==> forall i | 0 <= i < buf.Length :: buf[i] == old(buf[i])
    ensures inBuf ==> CutsAt(name, maxBytes, cut)
                      && (forall i | 0 <= i < cut :: buf[i] == name[i]) && buf[cut] == 0
                      && forall i | cut < i < buf.Length :: buf[i] == old(buf[i])
  {
    var len := |name|;
    cut := 0;
    if len <= maxBytes {
      return false, 0;
    }
    var c: nat := maxBytes;
    while c > 0 && Tail(name[c])
      invariant c <= maxBytes && forall i | c < i <= maxBytes :: Tail(name[i])
    {
      c := c - 1;
    }
    forall i | 0 <= i < c {
      buf[i] := name[i];
    }
    buf[c] := 0;
    return true, c;
  }
}
