/** Occurrences in a sequence of indices, for the conservation laws of the protocol. */
module Counting {

  ghost function Times(s: seq<nat>, n: nat): nat {
    if s == [] then 0 else Times(s[..|s| - 1], n) + if s[|s| - 1] == n then 1 else 0
  }

  lemma {:induction false} TimesConcat(s: seq<nat>, t: seq<nat>, n: nat)
    ensures Times(s + t, n) == Times(s, n) + Times(t, n)
  {
    if t == [] {
      assert s + t == s;
    } else {
      TimesConcat(s, t[..|t| - 1], n);
      assert (s + t)[..|s + t| - 1] == s + t[..|t| - 1];
    }
  }

  lemma TimesOne(s: seq<nat>, m: nat, n: nat)
    ensures Times(s + [m], n) == Times(s, n) + if m == n then 1 else 0
  {
    assert (s + [m])[..|s|] == s;
  }

  lemma {:induction false} TimesPositiveIff(s: seq<nat>, n: nat)
    ensures Times(s, n) > 0 <==> n in s
  {
    if s != [] {
      var init := s[..|s| - 1];
      TimesPositiveIff(init, n);
      assert s == init + [s[|s| - 1]];
    }
  }

  /** A sequence in which nothing occurs twice has distinct elements. */
  lemma {:induction false} OnceMeansDistinct(s: seq<nat>, i: nat, j: nat)
    requires i < j < |s| && s[i] == s[j]
    ensures Times(s, s[i]) >= 2
  {
    var init := s[..|s| - 1];
    if j < |s| - 1 {
      OnceMeansDistinct(init, i, j);
    } else {
      TimesPositiveIff(init, s[i]);
      assert init[i] == s[i];
    }
  }

  /** Taking out one position takes out one occurrence. */
  lemma TimesRemove(s: seq<nat>, k: nat, n: nat)
    requires k < |s|
    ensures Times(s, n) == Times(s[..k] + s[k + 1..], n) + if s[k] == n then 1 else 0
  {
    assert s == s[..k] + [s[k]] + s[k + 1..];
    TimesConcat(s[..k] + [s[k]], s[k + 1..], n);
    TimesOne(s[..k], s[k], n);
    TimesConcat(s[..k], s[k + 1..], n);
  }
}
