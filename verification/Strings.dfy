module Strings {
  /** The first place of `c` in `s`, or -1. */
  function IndexOf(s: string, c: char): (i: int)
    ensures -1 <= i < |s| && (i >= 0 ==> s[i] == c) && (forall k :: 0 <= k < (if i < 0 then |s| else i) ==> s[k] != c)
  {
    if s == "" then -1 else if s[0] == c then 0 else if IndexOf(s[1..], c) < 0 then -1 else 1 + IndexOf(s[1..], c)
  }
}
