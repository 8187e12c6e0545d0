/** C strings: character sequences that end at the first NUL. */
module CStrings {

  // What a C string function sees of a character buffer.
  function CString(s: string): string {
    if s == [] || s[0] == '\0' then [] else [s[0]] + CString(s[1..])
  }

  function Take(s: string, max: nat): string {
    if |s| <= max then s else s[..max]
  }

  // The content of dest after safe_strcpy(dest, src, max).
  function Copied(src: string, max: nat): string {
    Take(CString(src), max)
  }

  predicate NoNul(s: string) {
    '\0' !in s
  }

  lemma {:induction false} CStringMeaning(s: string)
    ensures CString(s) <= s && NoNul(CString(s))
    ensures |CString(s)| < |s| ==> s[|CString(s)|] == '\0'
  {
    if s != [] && s[0] != '\0' {
      CStringMeaning(s[1..]);
    }
  }

  // A copy is the characters of the source up to its first NUL, and at most max of them.
  lemma CopiedInCharacters(src: string, max: nat)
    ensures var copy := Copied(src, max);
      && |copy| <= max && |copy| <= |src|
      && (forall j | 0 <= j < |copy| :: copy[j] == src[j] && src[j] != '\0')
      && (|copy| < max && |copy| < |src| ==> src[|copy|] == '\0')
  {
    CStringMeaning(src);
  }

  lemma {:induction false} CStringOfPrefix(s: string, rest: string)
    requires NoNul(s)
    ensures CString(s) == s
    ensures CString(s + ['\0'] + rest) == s
  {
    var t := s + ['\0'] + rest;
    if s != [] {
      assert t[1..] == s[1..] + ['\0'] + rest;
      CStringOfPrefix(s[1..], rest);
    }
  }
}
