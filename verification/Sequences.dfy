/** Sequence facts shared by the models. */
module Sequences {

  ghost predicate Distinct<T>(s: seq<T>) {
    forall i, j :: 0 <= i < j < |s| ==> s[i] != s[j]
  }

  predicate EndsWith(s: string, suffix: string) {
    |suffix| <= |s| && s[|s| - |suffix|..] == suffix
  }

  lemma SplitEnd(s: string, stem: string, suffix: string)
    requires s == stem + suffix
    ensures EndsWith(s, suffix) && s[..|s| - |suffix|] == stem
  {
  }

  lemma JoinEnd(s: string, suffix: string)
    ensures EndsWith(s, suffix) ==> |suffix| <= |s| && s == s[..|s| - |suffix|] + suffix
  {
  }

  /** A string that differs from the suffix at the `k`-th character from the end. */
  lemma SuffixLast(s: string, suffix: string, k: nat)
    requires k < |suffix| && k < |s| && s[|s| - 1 - k] != suffix[|suffix| - 1 - k]
    ensures !EndsWith(s, suffix)
  {
    if |suffix| <= |s| {
      assert s[|s| - |suffix|..][|suffix| - 1 - k] == s[|s| - 1 - k];
    }
  }

  /** Concatenations of parts of equal lengths are equal only part by part. */
  lemma ConcatInjective<T>(a: seq<T>, b: seq<T>, c: seq<T>, d: seq<T>)
    requires a + b == c + d && |a| == |c|
    ensures a == c && b == d
  {
    assert a == (a + b)[..|a|] && c == (c + d)[..|c|];
    assert b == (a + b)[|a|..] && d == (c + d)[|c|..];
  }

  lemma BagOfConcat<T>(a: seq<T>, b: seq<T>, whole: seq<T>)
    requires whole == a + b
    ensures multiset(whole) == multiset(a) + multiset(b)
  {
  }

  /** How many elements of `s` satisfy `p`. */
  function CountWhere<T>(s: seq<T>, p: T -> bool): nat {
    if s == [] then 0
    else CountWhere(s[..|s| - 1], p) + if p(s[|s| - 1]) then 1 else 0
  }

  lemma {:induction false} CountConcat<T>(s: seq<T>, t: seq<T>, p: T -> bool)
    ensures CountWhere(s + t, p) == CountWhere(s, p) + CountWhere(t, p)
  {
    if t == [] {
      assert s + t == s;
    } else {
      assert (s + t)[..|s + t| - 1] == s + t[..|t| - 1];
      CountConcat(s, t[..|t| - 1], p);
    }
  }

  /** The count does not depend on the order. */
  lemma {:induction false} CountOfBag<T>(s: seq<T>, t: seq<T>, p: T -> bool)
    requires multiset(s) == multiset(t)
    ensures CountWhere(s, p) == CountWhere(t, p)
  {
    if s == [] {
      assert |multiset(t)| == 0;
    } else {
      var init, last := s[..|s| - 1], s[|s| - 1];
      var k, rest := Remove(t, last, s);
      CountOfBag(init, t[..k] + rest, p);
      CountConcat(t[..k], [last] + rest, p);
      CountConcat([last], rest, p);
      CountConcat(t[..k], rest, p);
    }
  }

  /** The last element of `s` taken out of a rearrangement of `s`. */
  lemma Remove<T>(t: seq<T>, last: T, s: seq<T>) returns (k: nat, rest: seq<T>)
    requires multiset(s) == multiset(t) && s != [] && s[|s| - 1] == last
    ensures k < |t| && t == t[..k] + ([last] + rest)
    ensures multiset(s[..|s| - 1]) == multiset(t[..k] + rest)
  {
    var init := s[..|s| - 1];
    assert last in multiset(t) by { assert last in s; }
    k :| 0 <= k < |t| && t[k] == last;
    rest := t[k + 1..];
    BagOfConcat(init, [last], s);
    BagOfConcat(t[..k], [last] + rest, t);
    BagOfConcat([last], rest, [last] + rest);
    BagOfConcat(t[..k], rest, t[..k] + rest);
    assert multiset(init) == multiset(s) - multiset([last]);
    assert multiset(t[..k] + rest) == multiset(t) - multiset([last]);
  }

  lemma {:induction false} CountAll<T>(s: seq<T>, p: T -> bool)
    ensures (forall x :: x in s ==> p(x)) ==> CountWhere(s, p) == |s|
    ensures (forall x :: x in s ==> !p(x)) ==> CountWhere(s, p) == 0
  {
    if s != [] { CountAll(s[..|s| - 1], p); }
  }
}
