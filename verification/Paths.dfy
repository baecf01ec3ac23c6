/** Prefix and suffix tests on path strings, and how they survive concatenation. */
module Paths {

  predicate StartsWith(s: string, prefix: string) {
    |prefix| <= |s| && s[..|prefix|] == prefix
  }

  predicate EndsWith(s: string, suffix: string) {
    |suffix| <= |s| && s[|s| - |suffix|..] == suffix
  }

  lemma StartsWithAppend(a: string, b: string, prefix: string)
    requires StartsWith(a, prefix)
    ensures StartsWith(a + b, prefix)
  {
    assert (a + b)[..|prefix|] == a[..|prefix|];
  }

  lemma EndsWithAppend(a: string, b: string, suffix: string)
    requires EndsWith(b, suffix)
    ensures EndsWith(a + b, suffix)
  {
    assert (a + b)[|a + b| - |suffix|..] == b[|b| - |suffix|..];
  }

  /** A string ending in a non-empty suffix ends in that suffix's last character. */
  lemma EndsWithLast(s: string, suffix: string)
    ensures |suffix| > 0 && EndsWith(s, suffix) ==> s[|s| - 1] == suffix[|suffix| - 1]
  {
    if |suffix| > 0 && EndsWith(s, suffix) {
      assert s[|s| - |suffix|..][|suffix| - 1] == s[|s| - 1];
    }
  }

  /** A string ends in what was appended to it. */
  lemma EndsWithSelf(a: string, b: string)
    ensures EndsWith(a + b, b)
  {
    assert (a + b)[|a + b| - |b|..] == b;
  }

  /** A string starts with whatever it was built from. */
  lemma StartsWithSelf(a: string, b: string)
    ensures StartsWith(a + b, a)
  {
    assert (a + b)[..|a|] == a;
  }

  /** A string starting with `a + b` starts with `a`. */
  lemma StartsWithShorter(s: string, a: string, b: string)
    requires StartsWith(s, a + b)
    ensures StartsWith(s, a)
  {
    assert s[..|a|] == (a + b)[..|a|];
  }

  /** A string starting with `a + x` does not start with `a + y` when `x` and `y` begin differently. */
  lemma Diverge(s: string, a: string, x: string, y: string)
    requires |x| > 0 && |y| > 0 && x[0] != y[0]
    requires StartsWith(s, a + x)
    ensures !StartsWith(s, a + y)
  {
    assert s[|a|] == (a + x)[|a|];
  }

  /** `a + x` does not start with `a + y` when `x` and `y` begin differently. */
  lemma NotStartsWithAfter(a: string, x: string, y: string)
    requires |x| > 0 && |y| > 0 && x[0] != y[0]
    ensures !StartsWith(a + x, a + y)
  {
    StartsWithSelf(a + x, "");
    assert a + x + "" == a + x;
    Diverge(a + x, a, x, y);
  }

  /** Appending to a common start keeps different strings different. */
  lemma AppendCancel(a: string, x: string, y: string)
    requires a + x == a + y
    ensures x == y
  {
    assert x == (a + x)[|a|..];
  }

  /** Starting with a string that starts with `prefix` means starting with `prefix`. */
  lemma StartsWithTrans(s: string, mid: string, prefix: string)
    ensures StartsWith(s, mid) && StartsWith(mid, prefix) ==> StartsWith(s, prefix)
  {
    if StartsWith(s, mid) && StartsWith(mid, prefix) {
      assert s[..|prefix|] == mid[..|prefix|];
    }
  }
}
