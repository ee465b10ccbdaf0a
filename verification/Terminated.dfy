/** Strings that end before the first terminator. */
module Terminated {

  function UpTo<T(==)>(s: seq<T>, stop: T): (r: seq<T>)
    ensures r <= s && stop !in r && (|r| < |s| ==> s[|r|] == stop)
  {
    if s == [] || s[0] == stop then [] else [s[0]] + UpTo(s[1..], stop)
  }

  lemma {:induction false} UpToFirst<T>(s: seq<T>, stop: T, k: nat)
    requires k < |s| && s[k] == stop && stop !in s[..k]
    ensures UpTo(s, stop) == s[..k]
  {
    if k > 0 {
      assert s[0] in s[..k] && s[1..][..k - 1] == s[..k][1..];
      UpToFirst(s[1..], stop, k - 1);
    }
  }
}
