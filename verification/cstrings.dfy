/** Character conventions of the firmware's NUL-terminated C strings. */
module CStrings {

  const NUL: char := '\0'
  const CR: char := '\r'
  const LF: char := '\n'

  /** True iff no character of `s` is the terminator. */
  predicate NulFree(s: seq<char>) {
    forall i :: 0 <= i < |s| ==> s[i] != NUL
  }

  /** True iff every character of `s` is the terminator (a cleared buffer). */
  predicate AllNul(s: seq<char>) {
    forall i :: 0 <= i < |s| ==> s[i] == NUL
  }

  /** A cleared buffer of `n` characters. */
  function Zeros(n: nat): (z: seq<char>)
    ensures |z| == n && AllNul(z)
  {
    seq(n, _ => NUL)
  }

  /** The characters a C routine reads from `s` as a string: everything
      before the first NUL, or all of `s` when it holds none (reads never
      go past the end of the buffer in this model). */
  function CStr(s: seq<char>): (t: seq<char>)
    ensures |t| <= |s| && t == s[..|t|]
    ensures NulFree(t)
    ensures |t| < |s| ==> s[|t|] == NUL
  {
    if s == [] || s[0] == NUL then [] else [s[0]] + CStr(s[1..])
  }

  /** A string followed by a terminator reads back as exactly that string. */
  lemma CStrOfTerminated(t: seq<char>, rest: seq<char>)
    requires NulFree(t)
    ensures CStr(t + [NUL] + rest) == t
  {
    var s := t + [NUL] + rest;
    assert s[|t|] == NUL;
    assert s[..|t|] == t;
  }

  /** A buffer without a terminator reads back whole. */
  lemma CStrOfNulFree(t: seq<char>)
    requires NulFree(t)
    ensures CStr(t) == t
  {
  }
}
