/**
 * NUL-terminated C strings.  A string is the sequence of its chars, one
 * char per C byte; what strcmp and strlen see of a buffer is its prefix
 * up to the first NUL.
 */
module CStrings {
  import opened Bytes

  const NUL: char := '\0'

  /** The chars of a byte buffer, one per byte. */
  function Chars(b: seq<byte>): (s: string)
    ensures |s| == |b|
  {
    seq(|b|, i requires 0 <= i < |b| => b[i] as char)
  }

  /** What C string functions see of `s`: everything before the first NUL. */
  function CStr(s: string): (r: string)
    ensures |r| <= |s| && r == s[..|r|]
    ensures NUL !in r
    ensures |r| < |s| ==> s[|r|] == NUL
    decreases |s|
  {
    if s == [] || s[0] == NUL then [] else [s[0]] + CStr(s[1..])
  }

  /** strcmp(a, b) == 0. */
  predicate StrEq(a: string, b: string) {
    CStr(a) == CStr(b)
  }

  /** A string without NUL is seen whole. */
  lemma {:induction false} CStrOfPlain(s: string)
    requires NUL !in s
    ensures CStr(s) == s
    decreases |s|
  {
    if s != [] {
      CStrOfPlain(s[1..]);
    }
  }

  /** The C string of `s` is its prefix before the first NUL, or all of `s` when it has none. */
  lemma {:induction false} CStrUpTo(s: string, i: nat)
    requires i <= |s| && NUL !in s[..i] && (i < |s| ==> s[i] == NUL)
    ensures CStr(s) == s[..i]
    decreases i
  {
    if i > 0 {
      assert s[0] == s[..i][0];
      assert s[1..][..i - 1] == s[..i][1..];
      CStrUpTo(s[1..], i - 1);
    }
  }
}
