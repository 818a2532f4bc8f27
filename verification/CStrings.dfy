/** C strings, as pxr/base/arch/stackTrace.cpp reads them: characters up to a NUL. */
module CStrings {

  /** What a C string shows of a string: the part before the first NUL. */
  function CStr(s: string): string {
    if s == [] || s[0] == '\0' then [] else [s[0]] + CStr(s[1..])
  }

  lemma {:induction false} CStrIs(s: string, n: nat)
    requires n <= |s| && (forall i | 0 <= i < n :: s[i] != '\0') && (n == |s| || s[n] == '\0')
    ensures CStr(s) == s[..n]
  {
    if n > 0 {
      CStrIs(s[1..], n - 1);
      assert s[..n] == [s[0]] + s[1..][..n - 1];
    }
  }

  lemma {:induction false} CStrEnds(s: string)
    ensures |CStr(s)| <= |s| && CStr(s) == s[..|CStr(s)|]
    ensures |CStr(s)| == |s| || s[|CStr(s)|] == '\0'
  {
    if s != [] && s[0] != '\0' {
      CStrEnds(s[1..]);
      assert s[..|CStr(s)|] == [s[0]] + s[1..][..|CStr(s)| - 1];
    }
  }

  lemma {:induction false} CStrHasNoNul(s: string)
    ensures '\0' !in CStr(s)
  {
    if s != [] {
      CStrHasNoNul(s[1..]);
    }
  }

  /** asstrlen */
  method AsStrLen(s: string) returns (len: nat)
    ensures len <= |s| && CStr(s) == s[..len]
  {
    len := 0;
    while len < |s| && s[len] != '\0'
      invariant len <= |s| && forall i | 0 <= i < len :: s[i] != '\0'
    {
      len := len + 1;
    }
    CStrIs(s, len);
  }
}
