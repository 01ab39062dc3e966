// Strings as C reads them, up to the first NUL.
module CStrings {

  // The part of s that a reader of C strings sees.
  function CStr(s: string): string {
    if s == "" || s[0] == '\0' then "" else [s[0]] + CStr(s[1..])
  }

  lemma {:induction false} CStrWhole(s: string)
    ensures '\0' !in CStr(s) && (CStr(s) == s <==> '\0' !in s)
    ensures |CStr(s)| <= |s| && CStr(s) == s[..|CStr(s)|] && (|CStr(s)| < |s| ==> s[|CStr(s)|] == '\0')
  {
    if s != "" && s[0] != '\0' {
      CStrWhole(s[1..]);
      assert s == [s[0]] + s[1..];
    }
  }
}
