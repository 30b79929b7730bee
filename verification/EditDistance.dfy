/** The typo suggestions of `lsp.ts`: a Levenshtein table that takes only the diagonal on equal
    characters, and the search for the closest candidate. */
module EditDistance {
  import opened Wrappers

  function Min3(x: nat, y: nat, z: nat): (m: nat) {
    if x <= y && x <= z then x else if y <= z then y else z
  }

  /** The table entry for the first `j` characters of `a` and the first `i` of `b`. */
  function Distance(a: string, b: string, j: nat, i: nat): nat
    requires j <= |a| && i <= |b|
    decreases i + j
  {
    if j == 0 then i
    else if i == 0 then j
    else if b[i - 1] == a[j - 1] then Distance(a, b, j - 1, i - 1)
    else 1 + Min3(Distance(a, b, j - 1, i - 1), Distance(a, b, j - 1, i), Distance(a, b, j, i - 1))
  }

  function Levenshtein(a: string, b: string): nat {
    Distance(a, b, |a|, |b|)
  }

  method LevenshteinDistance(a: string, b: string) returns (d: nat)
    ensures d == Levenshtein(a, b)
  {
    var matrix := new nat[|b| + 1, |a| + 1];
    for i := 0 to |b| + 1
      invariant forall k :: 0 <= k < i ==> matrix[k, 0] == k
    {
      matrix[i, 0] := i;
    }
    for j := 0 to |a| + 1
      invariant forall k :: 0 <= k <= |b| ==> matrix[k, 0] == k
      invariant forall k :: 0 <= k < j ==> matrix[0, k] == k
    {
      matrix[0, j] := j;
    }
    for i := 1 to |b| + 1
      invariant forall k :: 0 <= k <= |b| ==> matrix[k, 0] == k
      invariant RowDone(matrix, a, b, i - 1, |a| + 1)
    {
      FillRow(a, b, matrix, i);
    }
    return matrix[|b|, |a|];
  }

  ghost predicate RowDone(matrix: array2<nat>, a: string, b: string, i: nat, j: nat)
    requires matrix.Length0 == |b| + 1 && matrix.Length1 == |a| + 1 && i <= |b| && j <= |a| + 1
    reads matrix
  {
    forall l :: 0 <= l < j ==> matrix[i, l] == Distance(a, b, l, i)
  }

  method FillRow(a: string, b: string, matrix: array2<nat>, i: nat)
    requires matrix.Length0 == |b| + 1 && matrix.Length1 == |a| + 1 && 0 < i <= |b|
    requires RowDone(matrix, a, b, i - 1, |a| + 1) && matrix[i, 0] == i
    modifies matrix
    ensures RowDone(matrix, a, b, i, |a| + 1)
    ensures forall k, l :: 0 <= k <= |b| && 0 <= l <= |a| && k != i ==> matrix[k, l] == old(matrix[k, l])
  {
    for j := 1 to |a| + 1
      invariant RowDone(matrix, a, b, i, j)
      invariant forall k, l :: 0 <= k <= |b| && 0 <= l <= |a| && k != i ==> matrix[k, l] == old(matrix[k, l])
    {
      if b[i - 1] == a[j - 1] {
        matrix[i, j] := matrix[i - 1, j - 1];
      } else {
        matrix[i, j] := Min3(matrix[i - 1, j - 1] + 1, matrix[i, j - 1] + 1, matrix[i - 1, j] + 1);
      }
    }
  }

  // ---------------------------------------------------------------- the table as a metric

  lemma {:induction false} Symmetric(a: string, b: string, j: nat, i: nat)
    requires j <= |a| && i <= |b|
    ensures Distance(a, b, j, i) == Distance(b, a, i, j)
    decreases i + j
  {
    if j > 0 && i > 0 {
      Symmetric(a, b, j - 1, i - 1);
      Symmetric(a, b, j - 1, i);
      Symmetric(a, b, j, i - 1);
    }
  }

  ghost predicate Close(x: nat, y: nat) {
    x <= y + 1 && y <= x + 1
  }

  /** One more character on either side moves the distance by at most one. */
  lemma {:induction false} OneMoreOfB(a: string, b: string, j: nat, i: nat)
    requires j <= |a| && i < |b|
    ensures Close(Distance(a, b, j, i + 1), Distance(a, b, j, i))
    decreases i + j
  {
    if j > 0 {
      OneMoreOfB(a, b, j - 1, i);
      OneMoreOfA(a, b, j - 1, i);
    }
  }

  lemma {:induction false} OneMoreOfA(a: string, b: string, j: nat, i: nat)
    requires j < |a| && i <= |b|
    ensures Close(Distance(a, b, j + 1, i), Distance(a, b, j, i))
    decreases i + j
  {
    if i > 0 {
      OneMoreOfA(a, b, j, i - 1);
      OneMoreOfB(a, b, j, i - 1);
    }
  }

  function Mismatch(x: char, y: char): nat {
    if x == y then 0 else 1
  }

  /** Taking only the diagonal on equal characters loses nothing: every entry is the minimum over all
      three moves, whether or not the characters agree. */
  lemma DiagonalIsOptimal(a: string, b: string, j: nat, i: nat)
    requires 0 < j <= |a| && 0 < i <= |b|
    ensures Distance(a, b, j, i) == Min3(Distance(a, b, j - 1, i - 1) + Mismatch(a[j - 1], b[i - 1]),
                                         Distance(a, b, j - 1, i) + 1,
                                         Distance(a, b, j, i - 1) + 1)
  {
    OneMoreOfA(a, b, j - 1, i - 1);
    OneMoreOfB(a, b, j - 1, i - 1);
  }

  lemma {:induction false} LengthBounds(a: string, b: string, j: nat, i: nat)
    requires j <= |a| && i <= |b|
    ensures Distance(a, b, j, i) <= i + j && i <= j + Distance(a, b, j, i) && j <= i + Distance(a, b, j, i)
    ensures j == 0 ==> Distance(a, b, j, i) == i
    ensures i == 0 ==> Distance(a, b, j, i) == j
    decreases i + j
  {
    hide Distance;
    LastStep(a, b, j, i);
    if i > 0 { LengthBounds(a, b, j, i - 1); }
    if j > 0 { LengthBounds(a, b, j - 1, i); }
    if j > 0 && i > 0 { LengthBounds(a, b, j - 1, i - 1); }
  }

  lemma Moves(a: string, b: string, j: nat, i: nat)
    requires 0 < j <= |a| && 0 < i <= |b|
    ensures Distance(a, b, j, i) <= Distance(a, b, j - 1, i - 1) + Mismatch(a[j - 1], b[i - 1])
    ensures Distance(a, b, j, i) <= Distance(a, b, j - 1, i) + 1
    ensures Distance(a, b, j, i) <= Distance(a, b, j, i - 1) + 1
    ensures || Distance(a, b, j, i) == Distance(a, b, j - 1, i - 1) + Mismatch(a[j - 1], b[i - 1])
            || Distance(a, b, j, i) == Distance(a, b, j - 1, i) + 1
            || Distance(a, b, j, i) == Distance(a, b, j, i - 1) + 1
  {
    hide Distance;
    DiagonalIsOptimal(a, b, j, i);
  }

  lemma MismatchTriangle(x: char, y: char, z: char)
    ensures Mismatch(x, z) <= Mismatch(x, y) + Mismatch(y, z)
  {
  }

  ghost predicate TriangleAt(a: string, b: string, c: string, i: nat, j: nat, k: nat) {
    i <= |a| && j <= |b| && k <= |c|
    && Distance(a, c, i, k) <= Distance(a, b, i, j) + Distance(b, c, j, k)
  }

  /** Remove a last character of `a`, `b` or `c`, whichever the two optimal paths spend there. */
  lemma TriangleStep(a: string, b: string, c: string, i: nat, j: nat, k: nat)
    requires 0 < i <= |a| && 0 < j <= |b| && 0 < k <= |c|
    requires TriangleAt(a, b, c, i - 1, j, k) && TriangleAt(a, b, c, i, j, k - 1)
    requires TriangleAt(a, b, c, i, j - 1, k) && TriangleAt(a, b, c, i, j - 1, k - 1)
    requires TriangleAt(a, b, c, i - 1, j - 1, k) && TriangleAt(a, b, c, i - 1, j - 1, k - 1)
    ensures TriangleAt(a, b, c, i, j, k)
  {
    hide Distance, Mismatch, Min3;
    Moves(a, b, i, j);
    Moves(b, c, j, k);
    Moves(a, c, i, k);
    MismatchTriangle(a[i - 1], b[j - 1], c[k - 1]);
  }

  lemma {:induction false} Triangle(a: string, b: string, c: string, i: nat, j: nat, k: nat)
    requires i <= |a| && j <= |b| && k <= |c|
    ensures TriangleAt(a, b, c, i, j, k)
    decreases i + j + k
  {
    hide Distance;
    if i == 0 || j == 0 || k == 0 {
      LengthBounds(a, b, i, j);
      LengthBounds(b, c, j, k);
      LengthBounds(a, c, i, k);
    } else {
      hide TriangleAt;
      Triangle(a, b, c, i - 1, j, k);
      Triangle(a, b, c, i, j, k - 1);
      Triangle(a, b, c, i, j - 1, k);
      Triangle(a, b, c, i, j - 1, k - 1);
      Triangle(a, b, c, i - 1, j - 1, k);
      Triangle(a, b, c, i - 1, j - 1, k - 1);
      TriangleStep(a, b, c, i, j, k);
    }
  }

  lemma {:induction false} ZeroMeansEqual(a: string, b: string, j: nat, i: nat)
    requires j <= |a| && i <= |b|
    ensures Distance(a, b, j, i) == 0 <==> a[..j] == b[..i]
    decreases i + j
  {
    if j > 0 && i > 0 {
      ZeroMeansEqual(a, b, j - 1, i - 1);
      assert a[..j] == a[..j - 1] + [a[j - 1]] && b[..i] == b[..i - 1] + [b[i - 1]];
    }
  }

  /** The distance is a metric on strings. */
  lemma LevenshteinIsMetric(a: string, b: string, c: string)
    ensures Levenshtein(a, b) == 0 <==> a == b
    ensures Levenshtein(a, b) == Levenshtein(b, a)
    ensures Levenshtein(a, c) <= Levenshtein(a, b) + Levenshtein(b, c)
  {
    ZeroMeansEqual(a, b, |a|, |b|);
    assert a[..|a|] == a && b[..|b|] == b;
    Symmetric(a, b, |a|, |b|);
    Triangle(a, b, c, |a|, |b|, |c|);
  }

  // ---------------------------------------------------------------- edit scripts

  datatype Edit = Insert(at: nat, c: char) | Delete(at: nat) | Substitute(at: nat, c: char)

  function Apply(e: Edit, s: string): Option<string> {
    match e
    case Insert(at, c) => if at <= |s| then Some(s[..at] + [c] + s[at..]) else None
    case Delete(at) => if at < |s| then Some(s[..at] + s[at + 1..]) else None
    case Substitute(at, c) => if at < |s| then Some(s[at := c]) else None
  }

  function ApplyAll(script: seq<Edit>, s: string): Option<string> {
    if script == [] then Some(s)
    else match Apply(script[0], s)
      case None => None
      case Some(t) => ApplyAll(script[1..], t)
  }

  /** Equal prefixes are at distance zero, and an equal suffix adds nothing. */
  lemma {:induction false} EqualPrefix(s: string, t: string, n: nat)
    requires n <= |s| && n <= |t| && s[..n] == t[..n]
    ensures Distance(s, t, n, n) == 0
  {
    if n > 0 {
      assert s[..n][n - 1] == t[..n][n - 1];
      assert s[..n][..n - 1] == s[..n - 1] && t[..n][..n - 1] == t[..n - 1];
      EqualPrefix(s, t, n - 1);
    }
  }

  lemma {:induction false} EqualSuffix(s: string, t: string, j: nat, i: nat, n: nat)
    requires j + n <= |s| && i + n <= |t|
    requires s[j..j + n] == t[i..i + n]
    ensures Distance(s, t, j + n, i + n) == Distance(s, t, j, i)
  {
    if n > 0 {
      assert s[j..j + n][n - 1] == t[i..i + n][n - 1];
      assert s[j..j + n][..n - 1] == s[j..j + n - 1] && t[i..i + n][..n - 1] == t[i..i + n - 1];
      EqualSuffix(s, t, j, i, n - 1);
    }
  }

  /** Strings that agree before `j`, `i` and after them, and differ by at most one character between. */
  lemma OneApart(s: string, t: string, p: nat, j: nat, i: nat)
    requires p <= j <= p + 1 && p <= i <= p + 1 && j <= |s| && i <= |t|
    requires s[..p] == t[..p] && s[j..] == t[i..]
    ensures Levenshtein(s, t) <= 1
  {
    EqualPrefix(s, t, p);
    if p < |s| { OneMoreOfA(s, t, p, p); }
    if p < |t| { OneMoreOfB(s, t, p, p); }
    var n := |s| - j;
    assert s[j..j + n] == s[j..] && t[i..i + n] == t[i..];
    EqualSuffix(s, t, j, i, n);
  }

  lemma OneEdit(e: Edit, s: string, t: string)
    requires Apply(e, s) == Some(t)
    ensures Levenshtein(s, t) <= 1
  {
    hide Distance, Levenshtein;
    match e
    case Insert(p, _) => OneApart(s, t, p, p, p + 1);
    case Delete(p) => OneApart(s, t, p, p + 1, p);
    case Substitute(p, _) => OneApart(s, t, p, p + 1, p + 1);
  }

  /** No script of insertions, deletions and substitutions is shorter than the distance. */
  lemma {:induction false} NoShorterScript(script: seq<Edit>, a: string, b: string)
    requires ApplyAll(script, a) == Some(b)
    ensures Levenshtein(a, b) <= |script|
  {
    if script == [] {
      LevenshteinIsMetric(a, b, b);
    } else {
      var t := Apply(script[0], a).value;
      OneEdit(script[0], a, t);
      NoShorterScript(script[1..], t, b);
      LevenshteinIsMetric(a, t, b);
    }
  }

  lemma PrependEdit(e: Edit, tail: seq<Edit>, s: string, t: string, r: string) returns (script: seq<Edit>)
    requires Apply(e, s) == Some(t) && ApplyAll(tail, t) == Some(r)
    ensures |script| == |tail| + 1 && ApplyAll(script, s) == Some(r)
  {
    script := [e] + tail;
    assert script[1..] == tail;
  }

  /** The three edits at the end of `u`, in front of `rest`. */
  lemma EditAtEnd(u: string, c: char, rest: string)
    ensures Apply(Insert(|u|, c), u + rest) == Some(u + ([c] + rest))
    ensures u != "" ==> Apply(Delete(|u| - 1), u + rest) == Some(u[..|u| - 1] + rest)
    ensures u != "" ==> Apply(Substitute(|u| - 1, c), u + rest) == Some(u[..|u| - 1] + ([c] + rest))
  {
    assert (u + rest)[..|u|] + [c] + (u + rest)[|u|..] == u + ([c] + rest);
    if u != "" {
      assert (u + rest)[..|u| - 1] + (u + rest)[|u|..] == u[..|u| - 1] + rest;
      assert (u + rest)[|u| - 1 := c] == u[..|u| - 1] + ([c] + rest);
    }
  }

  /** A script of exactly the distance, working from the end of the first `j` characters. */
  lemma {:induction false} ScriptOfDistance(a: string, b: string, j: nat, i: nat, rest: string)
    returns (script: seq<Edit>)
    requires j <= |a| && i <= |b|
    ensures |script| == Distance(a, b, j, i)
    ensures ApplyAll(script, a[..j] + rest) == Some(b[..i] + rest)
    decreases i + j
  {
    hide Apply, Distance;
    LastStep(a, b, j, i);
    if j == 0 && i == 0 {
      script := [];
    } else if j > 0 && i > 0 && a[j - 1] == b[i - 1] {
      MoveLast(a, j, rest);
      MoveLast(b, i, rest);
      script := ScriptOfDistance(a, b, j - 1, i - 1, [b[i - 1]] + rest);
    } else if i > 0 && Distance(a, b, j, i) == Distance(a, b, j, i - 1) + 1 {
      EditAtEnd(a[..j], b[i - 1], rest);
      MoveLast(b, i, rest);
      var tail := ScriptOfDistance(a, b, j, i - 1, [b[i - 1]] + rest);
      script := PrependEdit(Insert(j, b[i - 1]), tail, a[..j] + rest, a[..j] + ([b[i - 1]] + rest), b[..i] + rest);
    } else if Distance(a, b, j, i) == Distance(a, b, j - 1, i) + 1 {
      EditAtEnd(a[..j], ' ', rest);
      assert a[..j][..j - 1] == a[..j - 1];
      var tail := ScriptOfDistance(a, b, j - 1, i, rest);
      script := PrependEdit(Delete(j - 1), tail, a[..j] + rest, a[..j - 1] + rest, b[..i] + rest);
    } else {
      EditAtEnd(a[..j], b[i - 1], rest);
      assert a[..j][..j - 1] == a[..j - 1];
      MoveLast(b, i, rest);
      var tail := ScriptOfDistance(a, b, j - 1, i - 1, [b[i - 1]] + rest);
      script := PrependEdit(Substitute(j - 1, b[i - 1]), tail, a[..j] + rest, a[..j - 1] + ([b[i - 1]] + rest), b[..i] + rest);
    }
  }

  lemma LastStep(a: string, b: string, j: nat, i: nat)
    requires j <= |a| && i <= |b|
    ensures j == 0 && i == 0 ==> Distance(a, b, j, i) == 0
    ensures j == 0 < i ==> Distance(a, b, j, i) == Distance(a, b, j, i - 1) + 1
    ensures i == 0 < j ==> Distance(a, b, j, i) == Distance(a, b, j - 1, i) + 1
    ensures j > 0 && i > 0 && a[j - 1] == b[i - 1] ==> Distance(a, b, j, i) == Distance(a, b, j - 1, i - 1)
    ensures j > 0 && i > 0 && a[j - 1] != b[i - 1] ==>
              || Distance(a, b, j, i) == Distance(a, b, j, i - 1) + 1
              || Distance(a, b, j, i) == Distance(a, b, j - 1, i) + 1
              || Distance(a, b, j, i) == Distance(a, b, j - 1, i - 1) + 1
  {
  }

  lemma MoveLast(u: string, n: nat, rest: string)
    requires 0 < n <= |u|
    ensures u[..n] + rest == u[..n - 1] + ([u[n - 1]] + rest)
  {
  }

  /** The distance is the least number of edits, over all edit scripts. */
  lemma LevenshteinIsOptimal(a: string, b: string)
    ensures forall script :: ApplyAll(script, a) == Some(b) ==> Levenshtein(a, b) <= |script|
    ensures exists script :: ApplyAll(script, a) == Some(b) && Levenshtein(a, b) == |script|
  {
    forall script | ApplyAll(script, a) == Some(b) ensures Levenshtein(a, b) <= |script| {
      NoShorterScript(script, a, b);
    }
    var script := ScriptOfDistance(a, b, |a|, |b|, "");
    assert a[..|a|] + "" == a && b[..|b|] + "" == b;
  }

  // ---------------------------------------------------------------- the closest candidate

  function MaxDistance(target: string): nat {
    if |target| / 2 < 2 then 2 else |target| / 2
  }

  /** The bound in numbers: at most 2 edits, or at most half of the target's length. */
  lemma WithinBound(target: string, d: nat)
    ensures d <= MaxDistance(target) <==> d <= 2 || 2 * d <= |target|
  {
  }

  /** Candidate `k` is the first of the closest candidates and lies within the bound. */
  ghost predicate FirstClosest(target: string, candidates: seq<string>, lower: string -> string, k: nat) {
    && k < |candidates|
    && (Score(target, candidates[k], lower) <= 2 || 2 * Score(target, candidates[k], lower) <= |target|)
    && (forall i :: 0 <= i < k ==> Score(target, candidates[i], lower) > Score(target, candidates[k], lower))
    && (forall i :: 0 <= i < |candidates| ==> Score(target, candidates[i], lower) >= Score(target, candidates[k], lower))
  }

  /** There is one first closest candidate, so equally close candidates leave no choice. */
  lemma OneFirstClosest(target: string, candidates: seq<string>, lower: string -> string, j: nat, k: nat)
    requires FirstClosest(target, candidates, lower, j) && FirstClosest(target, candidates, lower, k)
    ensures j == k
  {
    hide Score;
  }

  function Score(target: string, candidate: string, lower: string -> string): nat {
    Levenshtein(lower(target), lower(candidate))
  }

  lemma ScoreIs(target: string, candidate: string, lower: string -> string)
    ensures Score(target, candidate, lower) == Levenshtein(lower(target), lower(candidate))
  {
  }

  /** `lower` is the lower-casing of the host language. */
  method FindClosestMatch(target: string, candidates: seq<string>, lower: string -> string) returns (r: Option<string>)
    ensures r.Some? <==> exists c :: c in candidates && (Score(target, c, lower) <= 2 || 2 * Score(target, c, lower) <= |target|)
    ensures r.Some? ==> exists k: nat :: FirstClosest(target, candidates, lower, k) && r.value == candidates[k]
    ensures r.Some? ==> forall c :: c in candidates ==> Score(target, r.value, lower) <= Score(target, c, lower)
  {
    hide Score, MaxDistance;
    r := None;
    var bestDistance: Option<nat> := None;
    ghost var best := 0;
    for n := 0 to |candidates|
      invariant r.None? <==> bestDistance.None?
      invariant r.None? ==> forall i :: 0 <= i < n ==> Score(target, candidates[i], lower) > 2 && 2 * Score(target, candidates[i], lower) > |target|
      invariant r.Some? ==> FirstClosest(target, candidates[..n], lower, best)
      invariant r.Some? ==> r.value == candidates[best] && bestDistance.value == Score(target, r.value, lower)
    {
      var distance := LevenshteinDistance(lower(target), lower(candidates[n]));
      assert distance == Score(target, candidates[n], lower) by { ScoreIs(target, candidates[n], lower); }
      WithinBound(target, distance);
      if (bestDistance.None? || distance < bestDistance.value) && distance <= MaxDistance(target) {
        bestDistance := Some(distance);
        r := Some(candidates[n]);
        best := n;
      }
    }
    assert candidates[..|candidates|] == candidates;
  }
}
