/** The C-string view of character buffers shared by the console and the
    named-pipe front ends: a string ends at its first NUL, and the C
    library's case-insensitive comparisons (strcasecmp, strncasecmp) fold
    only the ASCII letters, as in the C locale. */
module CStrings {

  const NUL: char := 0 as char

  /** The string a C function sees in a buffer: everything before the first
      NUL, or the whole buffer when it holds none. */
  function CString(buf: seq<char>): (r: seq<char>)
    ensures |r| <= |buf| && r == buf[..|r|]
    ensures NUL !in r
    ensures |r| < |buf| ==> buf[|r|] == NUL
    decreases |buf|
  {
    if buf == [] || buf[0] == NUL then [] else [buf[0]] + CString(buf[1..])
  }

  /** A NUL written after some text ends the C string there, whatever
      follows; NUL-free text is then read back whole. */
  lemma {:induction false} CStringOfTerminated(text: seq<char>, rest: seq<char>)
    ensures CString(text + [NUL] + rest) == CString(text)
    ensures NUL !in text ==> CString(text) == text
    decreases |text|
  {
    if text != [] && text[0] != NUL {
      assert (text + [NUL] + rest)[1..] == text[1..] + [NUL] + rest;
      CStringOfTerminated(text[1..], rest);
    }
  }

  /** tolower in the C locale. */
  function ToLower(c: char): char
  {
    if 'A' <= c <= 'Z' then (c as int + 32) as char else c
  }

  /** `strncasecmp(s, p, strlen(p)) == 0` for a NUL-free p: s holds at least
      |p| characters before its end and they equal p up to letter case. */
  predicate CaseInsensitivePrefix(p: seq<char>, s: seq<char>)
  {
    |p| <= |s| && forall j :: 0 <= j < |p| ==> ToLower(p[j]) == ToLower(s[j])
  }

  /** `strcasecmp(a, b) == 0` for NUL-free a and b. */
  predicate CaseInsensitiveEqual(a: seq<char>, b: seq<char>)
  {
    |a| == |b| && CaseInsensitivePrefix(a, b)
  }

  /** Two patterns that are both case-insensitive prefixes of one string are
      case-insensitive prefixes of each other (the shorter of the longer). */
  lemma PrefixesNest(p: seq<char>, q: seq<char>, s: seq<char>)
    requires CaseInsensitivePrefix(p, s) && CaseInsensitivePrefix(q, s) && |p| <= |q|
    ensures CaseInsensitivePrefix(p, q)
  {
    forall j | 0 <= j < |p| ensures ToLower(p[j]) == ToLower(q[j]) {
      assert ToLower(p[j]) == ToLower(s[j]) == ToLower(q[j]);
    }
  }
}
