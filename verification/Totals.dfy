/** Sums of a measure over a sequence, as used for thread pools. */
module Totals {

  function Total<T>(f: T -> int, s: seq<T>): int {
    if s == [] then 0 else Total(f, s[..|s| - 1]) + f(s[|s| - 1])
  }

  lemma {:induction false} TotalUpdate<T>(f: T -> int, s: seq<T>, k: nat, t: T)
    requires k < |s|
    ensures Total(f, s[k := t]) == Total(f, s) - f(s[k]) + f(t)
  {
    var m := |s| - 1;
    if k == m {
      assert s[k := t][..m] == s[..m];
    } else {
      assert s[k := t][..m] == s[..m][k := t];
      TotalUpdate(f, s[..m], k, t);
    }
  }

  lemma Next(a: int, m: int)
    ensures a * (m + 1) == a * m + a
  {}

  lemma {:induction false} TotalBetween<T>(f: T -> int, s: seq<T>, lo: int, hi: int)
    requires forall x | x in s :: lo <= f(x) <= hi
    ensures lo * |s| <= Total(f, s) <= hi * |s|
  {
    if s != [] {
      var m := |s| - 1;
      TotalBetween(f, s[..m], lo, hi);
      assert s[m] in s;
      Next(lo, m);
      Next(hi, m);
    }
  }
}
