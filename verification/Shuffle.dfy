/** The in-place Fisher-Yates shuffle of `github-dataset.ts`. The random draws are a sequence of
    choices, one per position: choice `i` is a number in `0..i`. */
module Shuffle {
  import opened Sequences

  ghost predicate ValidChoices(choices: seq<nat>, n: nat) {
    |choices| == n && forall i :: 0 <= i < n ==> choices[i] <= i
  }

  function Swap<T>(s: seq<T>, i: nat, j: nat): (r: seq<T>)
    requires i < |s| && j < |s|
    ensures |r| == |s|
  {
    s[i := s[j]][j := s[i]]
  }

  /** The swaps of positions `n - 1` down to 1. */
  ghost function Shuffled<T>(s: seq<T>, choices: seq<nat>, n: nat): (r: seq<T>)
    requires ValidChoices(choices, |s|) && n <= |s|
    ensures |r| == |s|
    decreases n
  {
    if n <= 1 then s else Shuffled(Swap(s, n - 1, choices[n - 1]), choices, n - 1)
  }

  method ShuffleArray<T>(a: array<T>, choices: seq<nat>)
    requires ValidChoices(choices, a.Length)
    modifies a
    ensures a[..] == Shuffled(old(a[..]), choices, a.Length)
  {
    var i := a.Length - 1;
    while i > 0
      invariant i <= a.Length - 1 && (i < 0 ==> a.Length == 0)
      invariant a.Length > 0 ==> i >= 0 && Shuffled(a[..], choices, i + 1) == Shuffled(old(a[..]), choices, a.Length)
      invariant a.Length == 0 ==> a[..] == old(a[..])
    {
      var j := choices[i];
      ghost var before := a[..];
      a[i], a[j] := a[j], a[i];
      assert a[..] == Swap(before, i, j);
      i := i - 1;
    }
  }

  lemma SwapPermutes<T>(s: seq<T>, i: nat, j: nat)
    requires i < |s| && j < |s|
    ensures multiset(Swap(s, i, j)) == multiset(s)
  {
  }

  /** Whatever the choices, the result is a rearrangement of the input. */
  lemma {:induction false} ShuffledPermutes<T>(s: seq<T>, choices: seq<nat>, n: nat)
    requires ValidChoices(choices, |s|) && n <= |s|
    ensures multiset(Shuffled(s, choices, n)) == multiset(s)
    decreases n
  {
    if n > 1 {
      SwapPermutes(s, n - 1, choices[n - 1]);
      ShuffledPermutes(Swap(s, n - 1, choices[n - 1]), choices, n - 1);
    }
  }

  lemma SwapDistinct<T>(s: seq<T>, i: nat, j: nat)
    requires i < |s| && j < |s| && Distinct(s)
    ensures Distinct(Swap(s, i, j))
  {
  }

  /** The positions from `n` on are final once the swaps below `n` start. */
  lemma {:induction false} SuffixIsFinal<T>(s: seq<T>, choices: seq<nat>, n: nat)
    requires ValidChoices(choices, |s|) && n <= |s|
    ensures Shuffled(s, choices, n)[n..] == s[n..]
    decreases n
  {
    if n > 1 {
      var t := Swap(s, n - 1, choices[n - 1]);
      SuffixIsFinal(t, choices, n - 1);
      assert Shuffled(t, choices, n - 1)[n..] == Shuffled(t, choices, n - 1)[n - 1..][1..];
      assert t[n - 1..][1..] == s[n..];
    }
  }

  /** Distinct elements: the result determines every choice below `n`. */
  lemma {:induction false} ChoicesDetermined<T>(s: seq<T>, c: seq<nat>, d: seq<nat>, n: nat)
    requires Distinct(s) && ValidChoices(c, |s|) && ValidChoices(d, |s|) && n <= |s|
    requires Shuffled(s, c, n) == Shuffled(s, d, n)
    ensures c[..n] == d[..n]
    decreases n
  {
    if n > 1 {
      var t, u := Swap(s, n - 1, c[n - 1]), Swap(s, n - 1, d[n - 1]);
      SameChoice(s, c, d, n);
      SwapDistinct(s, n - 1, c[n - 1]);
      ChoicesDetermined(t, c, d, n - 1);
    }
  }

  lemma SameChoice<T>(s: seq<T>, c: seq<nat>, d: seq<nat>, n: nat)
    requires Distinct(s) && ValidChoices(c, |s|) && ValidChoices(d, |s|) && 1 < n <= |s|
    requires Shuffled(s, c, n) == Shuffled(s, d, n)
    ensures c[n - 1] == d[n - 1]
  {
    var t, u := Swap(s, n - 1, c[n - 1]), Swap(s, n - 1, d[n - 1]);
    SuffixIsFinal(t, c, n - 1);
    SuffixIsFinal(u, d, n - 1);
    SuffixAgrees(t, u, n - 1);
    assert s[c[n - 1]] == t[n - 1] == u[n - 1] == s[d[n - 1]];
  }

  /** Only the choices below `n` matter. */
  lemma {:induction false} OnlyPrefixMatters<T>(s: seq<T>, c: seq<nat>, d: seq<nat>, n: nat)
    requires ValidChoices(c, |s|) && ValidChoices(d, |s|) && n <= |s| && c[..n] == d[..n]
    ensures Shuffled(s, c, n) == Shuffled(s, d, n)
    decreases n
  {
    if n > 1 {
      assert c[n - 1] == c[..n][n - 1] == d[n - 1];
      assert c[..n - 1] == c[..n][..n - 1] == d[..n - 1];
      OnlyPrefixMatters(Swap(s, n - 1, c[n - 1]), c, d, n - 1);
    }
  }

  lemma {:induction false} DistinctByCount<T>(s: seq<T>)
    ensures Distinct(s) <==> forall x :: multiset(s)[x] <= 1
  {
    if s != [] {
      var init, last := s[..|s| - 1], s[|s| - 1];
      assert s == init + [last];
      assert multiset(s) == multiset(init) + multiset{last};
      DistinctByCount(init);
      if last in init {
        var j :| 0 <= j < |init| && init[j] == last;
        assert s[j] == s[|s| - 1];
        assert multiset(init)[last] >= 1;
        assert multiset(s)[last] >= 2;
      } else {
        assert multiset(init)[last] == 0;
        assert forall j :: 0 <= j < |init| ==> s[j] == init[j] && init[j] in init;
        if Distinct(init) {
          assert Distinct(s);
          forall x ensures multiset(s)[x] <= 1 {
            assert multiset(init)[x] <= 1;
          }
        } else {
          var x :| multiset(init)[x] > 1;
          assert multiset(s)[x] > 1;
        }
      }
    }
  }

  /** Every rearrangement of distinct elements that agrees from `n` on is reached. */
  lemma {:induction false} Reachable<T>(s: seq<T>, t: seq<T>, n: nat) returns (choices: seq<nat>)
    requires n <= |s| == |t| && Distinct(s) && Distinct(t) && s[n..] == t[n..]
    requires forall x :: x in t ==> x in s
    ensures ValidChoices(choices, |s|) && Shuffled(s, choices, n) == t
    decreases n
  {
    if n <= 1 {
      choices := seq(|s|, i => 0);
      if n == 1 { LastOneAgrees(s, t); }
    } else {
      var j := IndexOf(s, t, n);
      var u := Swap(s, n - 1, j);
      SwapStep(s, t, n, j);
      var lower := Reachable(u, t, n - 1);
      choices := lower[n - 1 := j];
      OnlyPrefixMatters(u, lower, choices, n - 1);
    }
  }

  lemma SuffixAgrees<T>(s: seq<T>, t: seq<T>, n: nat)
    requires n <= |s| == |t| && s[n..] == t[n..]
    ensures forall k :: n <= k < |s| ==> s[k] == t[k]
  {
    forall k | n <= k < |s| ensures s[k] == t[k] {
      assert s[k] == s[n..][k - n] && t[k] == t[n..][k - n];
    }
  }

  lemma IndexOf<T>(s: seq<T>, t: seq<T>, n: nat) returns (j: nat)
    requires 1 <= n <= |s| == |t| && Distinct(t) && s[n..] == t[n..] && forall x :: x in t ==> x in s
    ensures j < n && s[j] == t[n - 1]
  {
    assert t[n - 1] in t;
    j :| 0 <= j < |s| && s[j] == t[n - 1];
    SuffixAgrees(s, t, n);
  }

  lemma SwapKeeps<T>(s: seq<T>, i: nat, j: nat, x: T)
    requires i < |s| && j < |s| && x in s
    ensures x in Swap(s, i, j)
  {
    var k :| 0 <= k < |s| && s[k] == x;
    var u := Swap(s, i, j);
    assert u[if k == i then j else if k == j then i else k] == x;
  }

  lemma SwapStep<T>(s: seq<T>, t: seq<T>, n: nat, j: nat)
    requires j < n <= |s| == |t| && Distinct(s) && s[n..] == t[n..] && s[j] == t[n - 1]
    requires forall x :: x in t ==> x in s
    ensures var u := Swap(s, n - 1, j); Distinct(u) && u[n - 1..] == t[n - 1..] && forall x :: x in t ==> x in u
  {
    var u := Swap(s, n - 1, j);
    SwapDistinct(s, n - 1, j);
    forall x | x in t ensures x in u {
      SwapKeeps(s, n - 1, j, x);
    }
    assert u[n - 1] == t[n - 1];
    assert u[n - 1..] == [u[n - 1]] + s[n..];
    assert t[n - 1..] == [t[n - 1]] + t[n..];
  }

  lemma LastOneAgrees<T>(s: seq<T>, t: seq<T>)
    requires 1 <= |s| == |t| && Distinct(s) && Distinct(t) && s[1..] == t[1..]
    requires forall x :: x in t ==> x in s
    ensures s == t
  {
    var j := IndexOf(s, t, 1);
    assert s == [s[0]] + s[1..] && t == [t[0]] + t[1..];
  }

  ghost predicate Reaches<T>(s: seq<T>, choices: seq<nat>, t: seq<T>) {
    ValidChoices(choices, |s|) && Shuffled(s, choices, |s|) == t
  }

  /** For distinct elements the map from choice sequences to results is a bijection onto the
      rearrangements of the input, so uniform independent choices give a uniform shuffle. */
  lemma ShuffleIsBijective<T>(s: seq<T>, t: seq<T>)
    requires Distinct(s) && multiset(s) == multiset(t)
    ensures exists choices :: Reaches(s, choices, t)
    ensures forall c, d | Reaches(s, c, t) && Reaches(s, d, t) :: c == d
  {
    assert |s| == |multiset(s)| == |multiset(t)| == |t|;
    DistinctByCount(s);
    DistinctByCount(t);
    forall x | x in t ensures x in s {
      assert x in multiset(t);
    }
    var choices := Reachable(s, t, |s|);
    assert Reaches(s, choices, t);
    forall c, d | Reaches(s, c, t) && Reaches(s, d, t) ensures c == d {
      ChoicesDetermined(s, c, d, |s|);
      assert c[..|s|] == c && d[..|s|] == d;
    }
  }
}
