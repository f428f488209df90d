/** Python's ordering of `str` values: lexicographic by character, a proper
    prefix sorting first. */
module Strings {

  predicate StrLt(a: string, b: string)
    decreases |a|
  {
    if |a| == 0 then |b| > 0
    else if |b| == 0 then false
    else if a[0] != b[0] then a[0] < b[0]
    else StrLt(a[1..], b[1..])
  }

  lemma {:induction false} StrLtIrreflexive(a: string)
    ensures !StrLt(a, a)
    decreases |a|
  {
    if |a| > 0 {
      StrLtIrreflexive(a[1..]);
    }
  }

  lemma {:induction false} StrLtTransitive(a: string, b: string, c: string)
    requires StrLt(a, b) && StrLt(b, c)
    ensures StrLt(a, c)
    decreases |a|
  {
    if |a| > 0 && |b| > 0 && |c| > 0 && a[0] == b[0] && b[0] == c[0] {
      StrLtTransitive(a[1..], b[1..], c[1..]);
    }
  }

  /** Any two distinct strings are ordered one way or the other. */
  lemma {:induction false} StrLtTrichotomy(a: string, b: string)
    ensures a == b || StrLt(a, b) || StrLt(b, a)
    decreases |a|
  {
    if |a| > 0 && |b| > 0 && a[0] == b[0] {
      StrLtTrichotomy(a[1..], b[1..]);
      if a[1..] == b[1..] {
        assert a == [a[0]] + a[1..] && b == [b[0]] + b[1..];
      }
    }
  }
}
