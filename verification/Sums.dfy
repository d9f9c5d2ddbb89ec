/** Sums of integer sequences, shared by the column layout and the viewport. */
module Sums {

  function Sum(s: seq<int>): int
  {
    if s == [] then 0 else Sum(s[..|s| - 1]) + s[|s| - 1]
  }

  lemma {:induction false} SumConcat(a: seq<int>, b: seq<int>)
    ensures Sum(a + b) == Sum(a) + Sum(b)
  {
    if b == [] {
      assert a + b == a;
    } else {
      var last := |b| - 1;
      assert (a + b)[..|a + b| - 1] == a + b[..last];
      SumConcat(a, b[..last]);
    }
  }

  lemma {:induction false} SumUpdate(s: seq<int>, i: nat, v: int)
    requires i < |s|
    ensures Sum(s[i := v]) == Sum(s) - s[i] + v
  {
    assert s == s[..i] + ([s[i]] + s[i + 1..]);
    assert s[i := v] == s[..i] + ([v] + s[i + 1..]);
    SumConcat(s[..i], [s[i]] + s[i + 1..]);
    SumConcat(s[..i], [v] + s[i + 1..]);
    SumConcat([s[i]], s[i + 1..]);
    SumConcat([v], s[i + 1..]);
  }

  /** Extending a slice by one element adds that element. */
  lemma SumSlice(s: seq<int>, lo: nat, hi: nat)
    requires lo <= hi < |s|
    ensures Sum(s[lo..hi + 1]) == Sum(s[lo..hi]) + s[hi]
  {
    assert s[lo..hi + 1][..hi - lo] == s[lo..hi];
  }

  lemma {:induction false} SumMonotone(a: seq<int>, b: seq<int>)
    requires |a| == |b|
    requires forall i :: 0 <= i < |a| ==> a[i] <= b[i]
    ensures Sum(a) <= Sum(b)
    ensures Sum(a) == Sum(b) ==> a == b
  {
    if a != [] {
      var n := |a| - 1;
      SumMonotone(a[..n], b[..n]);
      assert a == a[..n] + [a[n]] && b == b[..n] + [b[n]];
    }
  }

  method SumInts(values: seq<int>) returns (total: int)
    ensures total == Sum(values)
  {
    total := 0;
    for i := 0 to |values|
      invariant total == Sum(values[..i])
    {
      SumSlice(values, 0, i);
      assert values[0..i] == values[..i] && values[0..i + 1] == values[..i + 1];
      total := total + values[i];
    }
    assert values[..|values|] == values;
  }
}
