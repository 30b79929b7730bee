/** The CPU half of `sparse_distributions_from_logits_with_mode`: the top-p cut on a descending
    support and the softmax over what is kept. The device half supplies, for each row, the token
    ids, their logits in descending order and their full-vocabulary probabilities. */
module SparseRows {
  import opened Wrappers
  import opened Sequences
  import opened Floats
  import opened SparseSampling

  datatype Mode = Current | Mtplx

  datatype Config = Config(mode: Mode, temperature: real, topP: real)
  {
    predicate AppliesTopP() { 0.0 < topP < 1.0 }
  }

  /** The slack the current mode leaves on the tail threshold. */
  const TAIL_SLACK: real := 0.0000001

  function PositiveFinite(f: Float): real {
    if f.Finite? && f.value > 0.0 then f.value else 0.0
  }

  function Masses(base: seq<Float>): (b: seq<real>)
    ensures |b| == |base| && forall j :: 0 <= j < |b| ==> b[j] == PositiveFinite(base[j])
  {
    seq(|base|, j requires 0 <= j < |base| => PositiveFinite(base[j]))
  }

  // ---------------------------------------------------------------- the top-p cut

  /** `n` is the length of the shortest non-empty prefix whose mass reaches `topP`, or the whole
      support when none does. */
  ghost predicate ShortestReaching(b: seq<real>, topP: real, n: nat) {
    && 1 <= n <= |b|
    && (n == |b| || Mass(b, n) >= topP)
    && (forall m :: 1 <= m < n ==> Mass(b, m) < topP)
  }

  ghost function TailMass(b: seq<real>, j: nat): real
    requires j <= |b|
  {
    Mass(b, |b|) - Mass(b, j)
  }

  function Clamp(x: real): real {
    if x < 0.0 then 0.0 else if x > 1.0 then 1.0 else x
  }

  function TailThreshold(topP: real): real {
    Clamp(1.0 - (topP - TAIL_SLACK))
  }

  /** Entry `j` is kept exactly when the mass from `j` on exceeds the threshold; one entry is always
      kept. */
  ghost predicate TailCut(b: seq<real>, topP: real, n: nat) {
    && 1 <= n <= |b|
    && (forall j :: 1 <= j < |b| ==> (j < n <==> TailMass(b, j) > TailThreshold(topP)))
  }

  ghost predicate Cut(b: seq<real>, c: Config, n: nat) {
    if !c.AppliesTopP() then n == |b|
    else if c.mode == Mtplx then ShortestReaching(b, c.topP, n)
    else TailCut(b, c.topP, n)
  }

  /** The mask loop: in both modes the kept entries are a non-empty prefix of the support. */
  method KeepMask(base: seq<Float>, c: Config) returns (keep: array<bool>, ghost n: nat)
    requires |base| > 0
    ensures fresh(keep) && keep.Length == |base|
    ensures Cut(Masses(base), c, n) && 1 <= n <= |base|
    ensures forall j :: 0 <= j < |base| ==> (keep[j] <==> j < n)
  {
    keep := new bool[|base|](_ => true);
    n := |base|;
    if c.AppliesTopP() {
      if c.mode == Mtplx {
        n := KeepUntilReached(base, c.topP, keep);
      } else {
        n := KeepAboveTail(base, c.topP, keep);
      }
      if !keep[0] {
        keep[0] := true;
        n := 1;
      }
    }
  }

  method KeepUntilReached(base: seq<Float>, topP: real, keep: array<bool>) returns (ghost n: nat)
    requires 0 < |base| == keep.Length && 0.0 < topP
    modifies keep
    ensures ShortestReaching(Masses(base), topP, n)
    ensures forall j :: 0 <= j < |base| ==> (keep[j] <==> j < n)
  {
    ghost var b := Masses(base);
    var before := 0.0;
    n := 0;
    for j := 0 to |base|
      invariant before == Mass(b, j)
      invariant n <= j && (j > 0 ==> n > 0) && (n < j ==> Mass(b, n) >= topP)
      invariant forall m :: 0 <= m < n ==> Mass(b, m) < topP
      invariant forall i :: 0 <= i < j ==> (keep[i] <==> i < n)
    {
      keep[j] := before < topP;
      if keep[j] {
        if n < j { MassMonotone(b, n, j); }
        n := j + 1;
      }
      if base[j].Finite? && base[j].value > 0.0 {
        before := before + base[j].value;
      }
    }
    keep[0] := true;
  }

  /** The tail loop; `n` is 0 when no entry is above the threshold. */
  method KeepAboveTail(base: seq<Float>, topP: real, keep: array<bool>) returns (ghost n: nat)
    requires 0 < |base| == keep.Length
    modifies keep
    ensures n <= |base|
    ensures forall i :: 0 <= i < |base| ==> (i < n <==> TailMass(Masses(base), i) > TailThreshold(topP))
    ensures forall i :: 0 <= i < |base| ==> (keep[i] <==> i < n)
  {
    ghost var b := Masses(base);
    var threshold := TailThreshold(topP);
    var tail := 0.0;
    var j := |base|;
    n := 0;
    while j > 0
      invariant 0 <= j <= |base| && (n == 0 || j < n <= |base|)
      invariant tail == TailMass(b, j)
      invariant n > 0 ==> tail > threshold
      invariant forall i :: j <= i < |base| ==> (keep[i] <==> i < n)
      invariant forall i :: j <= i < |base| ==> (i < n <==> TailMass(b, i) > threshold)
    {
      j := j - 1;
      if base[j].Finite? && base[j].value > 0.0 {
        tail := tail + base[j].value;
      }
      keep[j] := tail > threshold;
      if keep[j] && n == 0 {
        n := j + 1;
      }
    }
  }

  lemma ShortestReachingUnique(b: seq<real>, topP: real, m: nat, n: nat)
    requires ShortestReaching(b, topP, m) && ShortestReaching(b, topP, n)
    ensures m == n
  {
  }

  /** At temperature 1 both modes see the same probabilities, and the current mode's prefix is never
      the longer one. */
  lemma CurrentWithinMtplx(b: seq<real>, topP: real, current: nat, mtplx: nat)
    requires 0.0 < topP < 1.0 && Mass(b, |b|) <= 1.0
    requires TailCut(b, topP, current) && ShortestReaching(b, topP, mtplx)
    ensures current <= mtplx
  {
    assert mtplx < |b| ==> TailMass(b, mtplx) <= TailThreshold(topP);
  }

  // ---------------------------------------------------------------- the softmax over the prefix

  function Divide(f: Float, temperature: real): Float
    requires temperature > 0.0
  {
    match f case Finite(v) => Finite(v / temperature) case other => other
  }

  function ScaledAt(value: Float, c: Config): Float
    requires c.temperature > 0.0
  {
    if c.mode == Mtplx then value else Divide(value, c.temperature)
  }

  ghost function ScaledValues(values: seq<Float>, c: Config): (s: seq<Float>)
    requires c.temperature > 0.0
    ensures |s| == |values| && forall j :: 0 <= j < |s| ==> s[j] == ScaledAt(values[j], c)
  {
    seq(|values|, j requires 0 <= j < |values| => ScaledAt(values[j], c))
  }

  /** The largest finite value of a prefix. */
  function MaxFinite(s: seq<Float>, n: nat): (m: Option<real>)
    requires n <= |s|
    ensures m.None? <==> forall j :: 0 <= j < n ==> !s[j].Finite?
    ensures m.Some? ==> exists j :: 0 <= j < n && s[j] == Finite(m.value)
    ensures m.Some? ==> forall j :: 0 <= j < n && s[j].Finite? ==> s[j].value <= m.value
  {
    if n == 0 then None
    else
      var m := MaxFinite(s, n - 1);
      if !s[n - 1].Finite? then m
      else if m.Some? && m.value >= s[n - 1].value then m
      else Some(s[n - 1].value)
  }

  ghost predicate PositiveFunction(exp: real -> real) {
    forall x :: exp(x) > 0.0
  }

  ghost function Weights(s: seq<Float>, n: nat, top: real, exp: real -> real): (w: seq<real>)
    requires n <= |s|
    ensures |w| == |s|
    ensures forall j :: 0 <= j < |w| ==> w[j] == if j < n && s[j].Finite? then exp(s[j].value - top) else 0.0
  {
    seq(|s|, j requires 0 <= j < |s| => if j < n && s[j].Finite? then exp(s[j].value - top) else 0.0)
  }

  /** The probabilities of one row: a softmax over the finite entries of the kept prefix, or all mass
      on the first entry when the prefix has none. */
  ghost function RowProbs(s: seq<Float>, n: nat, exp: real -> real): (p: seq<real>)
    requires 1 <= n <= |s| && PositiveFunction(exp)
    ensures |p| == |s|
  {
    match MaxFinite(s, n)
    case None => seq(|s|, j => if j == 0 then 1.0 else 0.0)
    case Some(top) =>
      WeightsHaveMass(s, n, top, exp);
      var w := Weights(s, n, top, exp);
      seq(|s|, j requires 0 <= j < |s| => w[j] / Mass(w, |w|))
  }

  lemma WeightsHaveMass(s: seq<Float>, n: nat, top: real, exp: real -> real)
    requires n <= |s| && MaxFinite(s, n) == Some(top) && PositiveFunction(exp)
    ensures Mass(Weights(s, n, top, exp), |s|) > 0.0
  {
    var w := Weights(s, n, top, exp);
    var j :| 0 <= j < n && s[j] == Finite(top);
    assert w[j] > 0.0;
    MassMonotone(w, j + 1, |s|);
  }

  lemma RowProbsEmpty(s: seq<Float>, n: nat, exp: real -> real, p: seq<real>)
    requires 1 <= n <= |s| == |p| && PositiveFunction(exp) && MaxFinite(s, n).None?
    requires p[0] == 1.0 && forall j :: 1 <= j < |p| ==> p[j] == 0.0
    ensures p == RowProbs(s, n, exp)
  {
  }

  lemma RowProbsScaled(s: seq<Float>, n: nat, exp: real -> real, top: real, p: seq<real>)
    requires 1 <= n <= |s| == |p| && PositiveFunction(exp) && MaxFinite(s, n) == Some(top)
    requires Mass(Weights(s, n, top, exp), |s|) > 0.0
    requires Scaled(Weights(s, n, top, exp), p, Mass(Weights(s, n, top, exp), |s|))
    ensures p == RowProbs(s, n, exp)
  {
    hide Mass, MaxFinite, PositiveFunction, Weights;
  }

  /** Every row is a distribution whose mass lies on finite entries of the kept prefix. */
  lemma RowIsDistribution(s: seq<Float>, n: nat, exp: real -> real)
    requires 1 <= n <= |s| && PositiveFunction(exp)
    ensures var p := RowProbs(s, n, exp);
            && (forall j :: 0 <= j < |p| ==> 0.0 <= p[j])
            && Mass(p, |p|) == 1.0
            && (forall j :: n <= j < |p| ==> p[j] == 0.0)
            && (forall j :: 0 <= j < n && MaxFinite(s, n).Some? ==> (p[j] > 0.0 <==> s[j].Finite?))
  {
    var p := RowProbs(s, n, exp);
    match MaxFinite(s, n) {
      case None => PointMass(p, |p|);
      case Some(top) =>
        WeightsHaveMass(s, n, top, exp);
        ScaledDistribution(Weights(s, n, top, exp), p, Mass(Weights(s, n, top, exp), |s|));
    }
  }

  lemma ScaledDistribution(w: seq<real>, p: seq<real>, total: real)
    requires total == Mass(w, |w|) > 0.0 && Scaled(w, p, total)
    requires forall j :: 0 <= j < |w| ==> 0.0 <= w[j]
    ensures Mass(p, |p|) == 1.0
    ensures forall j :: 0 <= j < |p| ==> 0.0 <= p[j] && (p[j] > 0.0 <==> w[j] > 0.0)
  {
    ScaledMass(w, p, total, |w|);
    UnitScale(total, 0.0);
    forall j | 0 <= j < |p| ensures 0.0 <= p[j] && (p[j] > 0.0 <==> w[j] > 0.0) {
      ScaleUp(w[j], 0.0, total);
      QuotientOfSum(0.0, w[j], total);
    }
  }

  lemma PointMass(p: seq<real>, n: nat)
    requires n <= |p| && forall j :: 0 <= j < |p| ==> p[j] == if j == 0 then 1.0 else 0.0
    ensures Mass(p, n) == if n == 0 then 0.0 else 1.0
  {
  }

  /** A row built here meets the hypotheses of the speculative-sampling theorem. */
  lemma RowIsNormalised(ids: seq<int>, vocab: nat, s: seq<Float>, n: nat, exp: real -> real)
    requires 1 <= n <= |s| == |ids| && PositiveFunction(exp)
    requires Distinct(ids) && forall k :: 0 <= k < |ids| ==> 0 <= ids[k] < vocab
    ensures Normalised(Row(ids, RowProbs(s, n, exp), vocab))
  {
    RowIsDistribution(s, n, exp);
  }

  /** Subtracting the maximum changes nothing: with an exponential that turns sums into products, a
      kept probability is `exp(s_j)` over the sum of `exp(s_k)` for kept finite `k`. */
  lemma RowIsSoftmax(s: seq<Float>, n: nat, exp: real -> real, j: nat)
    requires 1 <= n <= |s| && PositiveFunction(exp) && j < n && s[j].Finite?
    requires Exponential(exp)
    ensures IsQuotient(RowProbs(s, n, exp)[j], exp(s[j].value), Mass(Weights(s, n, 0.0, exp), |s|))
  {
    hide *;
    var top := RowProbAt(s, n, exp, j);
    ShiftedWeights(s, n, top, exp, j);
    CancelTotal(Weights(s, n, top, exp)[j], Mass(Weights(s, n, top, exp), |s|), exp(top),
                RowProbs(s, n, exp)[j], Mass(Weights(s, n, 0.0, exp), |s|), exp(s[j].value));
  }

  ghost predicate IsQuotient(q: real, x: real, total: real) {
    total > 0.0 && q == x / total
  }

  ghost predicate IsProduct(p: real, x: real, e: real) {
    e > 0.0 && p == x * e
  }

  lemma RowProbAt(s: seq<Float>, n: nat, exp: real -> real, j: nat) returns (top: real)
    requires 1 <= n <= |s| && PositiveFunction(exp) && j < n && s[j].Finite?
    ensures IsQuotient(RowProbs(s, n, exp)[j], Weights(s, n, top, exp)[j], Mass(Weights(s, n, top, exp), |s|))
  {
    top := MaxFinite(s, n).value;
    WeightsHaveMass(s, n, top, exp);
  }

  lemma ShiftedWeights(s: seq<Float>, n: nat, top: real, exp: real -> real, j: nat)
    requires j < n <= |s| && s[j].Finite? && PositiveFunction(exp) && Exponential(exp)
    ensures IsProduct(exp(s[j].value), Weights(s, n, top, exp)[j], exp(top))
    ensures IsProduct(Mass(Weights(s, n, 0.0, exp), |s|), Mass(Weights(s, n, top, exp), |s|), exp(top))
  {
    hide Exponential, Mass, PositiveFunction;
    PositiveAt(exp, top);
    var w, v := Weights(s, n, top, exp), Weights(s, n, 0.0, exp);
    forall k | 0 <= k < |s| ensures 0.0 <= w[k] && v[k] == w[k] * exp(top) {
      if k < n && s[k].Finite? {
        Shift(exp, s[k].value, top);
        PositiveAt(exp, s[k].value - top);
      }
    }
    MassScaled(w, v, exp(top), |s|);
  }

  ghost predicate Exponential(exp: real -> real) {
    forall x, y :: exp(x + y) == exp(x) * exp(y)
  }

  lemma PositiveAt(exp: real -> real, x: real)
    requires PositiveFunction(exp)
    ensures exp(x) > 0.0
  {
  }

  lemma Shift(exp: real -> real, x: real, top: real)
    requires Exponential(exp)
    ensures exp(x) == exp(x - top) * exp(top) && exp(x - 0.0) == exp(x)
  {
    assert exp((x - top) + top) == exp(x - top) * exp(top);
    assert (x - top) + top == x && x - 0.0 == x;
  }

  lemma CancelTotal(x: real, total: real, e: real, quotient: real, product: real, target: real)
    requires IsQuotient(quotient, x, total) && IsProduct(product, total, e) && IsProduct(target, x, e)
    ensures IsQuotient(quotient, target, product)
  {
    assert quotient * total == x && product > 0.0;
    assert quotient * product == target;
  }

  lemma {:induction false} MassScaled(w: seq<real>, v: seq<real>, e: real, n: nat)
    requires n <= |w| && n <= |v| && e > 0.0 && forall k :: 0 <= k < n ==> 0.0 <= w[k] && v[k] == w[k] * e
    ensures Mass(v, n) == Mass(w, n) * e
  {
    if n > 0 {
      MassScaled(w, v, e, n - 1);
      assert v[n - 1] >= 0.0;
      assert Mass(w, n) * e == Mass(w, n - 1) * e + w[n - 1] * e;
    }
  }

  // ---------------------------------------------------------------- the row loop

  method MaxKept(values: seq<Float>, c: Config, keep: array<bool>, ghost n: nat) returns (top: Option<real>)
    requires keep.Length == |values| && n <= |values| && c.temperature > 0.0
    requires forall j :: 0 <= j < |values| ==> (keep[j] <==> j < n)
    ensures top == MaxFinite(ScaledValues(values, c), n)
  {
    top := None;
    for j := 0 to |values|
      invariant top == MaxFinite(ScaledValues(values, c), if j < n then j else n)
    {
      if keep[j] {
        var scaled := ScaledAt(values[j], c);
        if scaled.Finite? {
          top := if top.Some? && top.value >= scaled.value then top else Some(scaled.value);
        }
      }
    }
  }

  ghost predicate Holds(a: seq<real>, start: nat, w: seq<real>) {
    start + |w| <= |a| && a[start..start + |w|] == w
  }

  /** `a` and `b` agree except on `start..end`. */
  ghost predicate SameOutside(a: seq<real>, b: seq<real>, start: nat, end: nat) {
    start <= end <= |a| == |b| && a[..start] == b[..start] && a[end..] == b[end..]
  }

  lemma NothingWritten(a: seq<real>, start: nat, end: nat)
    requires start <= end <= |a|
    ensures SameOutside(a, a, start, end)
  {
  }

  lemma OneWritten(a: seq<real>, b: seq<real>, start: nat, end: nat, at: nat, x: real)
    requires SameOutside(a, b, start, end) && start <= at < end
    ensures at < |a| && SameOutside(a[at := x], b, start, end)
  {
  }

  method WriteWeights(values: seq<Float>, c: Config, keep: array<bool>, ghost n: nat, top: real,
                      exp: real -> real, out: array<real>, start: nat)
    returns (total: real)
    requires keep.Length == |values| && n <= |values| && c.temperature > 0.0
    requires forall j :: 0 <= j < |values| ==> (keep[j] <==> j < n)
    requires PositiveFunction(exp) && start + |values| <= out.Length
    requires forall k :: start <= k < start + |values| ==> out[k] == 0.0
    modifies out
    ensures Holds(out[..], start, Weights(ScaledValues(values, c), n, top, exp))
    ensures total == Mass(Weights(ScaledValues(values, c), n, top, exp), |values|)
    ensures SameOutside(out[..], old(out[..]), start, start + |values|)
  {
    hide PositiveFunction, ScaledAt, SameOutside;
    ghost var s := ScaledValues(values, c);
    ghost var w := Weights(s, n, top, exp);
    total := 0.0;
    NothingWritten(out[..], start, start + |values|);
    for j := 0 to |values|
      invariant total == Mass(w, j)
      invariant forall k :: start <= k < start + j ==> out[k] == w[k - start]
      invariant forall k :: start + j <= k < start + |values| ==> out[k] == 0.0
      invariant SameOutside(out[..], old(out[..]), start, start + |values|)
    {
      if keep[j] {
        var scaled := ScaledAt(values[j], c);
        if scaled.Finite? {
          var weight := exp(scaled.value - top);
          PositiveAt(exp, scaled.value - top);
          if weight > 0.0 {
            OneWritten(out[..], old(out[..]), start, start + |values|, start + j, weight);
            out[start + j] := weight;
            total := total + weight;
          }
        }
      }
    }
  }

  method DivideRow(out: array<real>, start: nat, width: nat, total: real)
    requires start + width <= out.Length && total > 0.0
    modifies out
    ensures Scaled(old(out[start..start + width]), out[start..start + width], total)
    ensures SameOutside(out[..], old(out[..]), start, start + width)
  {
    for j := 0 to width
      invariant forall k :: start <= k < start + j ==> out[k] == old(out[k]) / total
      invariant forall k :: start + j <= k < start + width ==> out[k] == old(out[k])
      invariant SameOutside(out[..], old(out[..]), start, start + width)
    {
      out[start + j] := out[start + j] / total;
    }
  }

  /** The slice at `start` holds the finished row, cut at `n`. */
  ghost predicate RowFilled(a: seq<real>, start: nat, values: seq<Float>, base: seq<Float>, c: Config,
                            exp: real -> real, n: nat)
    requires c.temperature > 0.0 && PositiveFunction(exp) && |values| == |base|
  {
    && Cut(Masses(base), c, n) && 1 <= n <= |values|
    && Holds(a, start, RowProbs(ScaledValues(values, c), n, exp))
  }

  /** One iteration of the row loop, writing `out[start..start + width]`. */
  method FillRow(values: seq<Float>, base: seq<Float>, c: Config, exp: real -> real, out: array<real>, start: nat)
    returns (ghost n: nat)
    requires 0 < |values| == |base| && start + |values| <= out.Length
    requires c.temperature > 0.0 && PositiveFunction(exp)
    requires forall k :: start <= k < start + |values| ==> out[k] == 0.0
    modifies out
    ensures RowFilled(out[..], start, values, base, c, exp, n)
    ensures SameOutside(out[..], old(out[..]), start, start + |values|)
  {
    hide RowProbs, Weights, Mass, MaxFinite, PositiveFunction, ScaledAt, ScaledValues, Cut, Masses, Scaled;
    var keep;
    keep, n := KeepMask(base, c);
    var top := MaxKept(values, c, keep, n);
    ghost var s := ScaledValues(values, c);
    match top
    case None =>
      out[start] := 1.0;
      RowProbsEmpty(s, n, exp, out[start..start + |values|]);
    case Some(t) =>
      var total := WriteWeights(values, c, keep, n, t, exp, out, start);
      WeightsHaveMass(s, n, t, exp);
      DivideRow(out, start, |values|, total);
      RowProbsScaled(s, n, exp, t, out[start..start + |values|]);
  }

  /** The row loop over the flat output buffer. */
  method FillRows(values: seq<seq<Float>>, base: seq<seq<Float>>, width: nat, c: Config, exp: real -> real)
    returns (out: array<real>, ghost cuts: seq<nat>)
    requires 0 < width && |base| == |values| && c.temperature > 0.0 && PositiveFunction(exp)
    requires forall r :: 0 <= r < |values| ==> |values[r]| == |base[r]| == width
    ensures fresh(out) && out.Length == |values| * width && |cuts| == |values|
    ensures forall r :: 0 <= r < |values| ==> RowFilled(out[..], r * width, values[r], base[r], c, exp, cuts[r])
  {
    hide RowFilled, PositiveFunction, SameOutside;
    out := new real[|values| * width](_ => 0.0);
    cuts := [];
    ghost var zeros := out[..];
    for row := 0 to |values|
      invariant |cuts| == row && row * width <= out.Length
      invariant forall k :: row * width <= k < out.Length ==> out[k] == 0.0
      invariant forall r :: 0 <= r < row ==> RowFilled(out[..], r * width, values[r], base[r], c, exp, cuts[r])
    {
      ghost var before := out[..];
      RowBounds(row, |values|, width);
      ghost var n := FillRow(values[row], base[row], c, exp, out, row * width);
      forall r | 0 <= r < row ensures RowFilled(out[..], r * width, values[r], base[r], c, exp, cuts[r]) {
        RowBounds(r, row, width);
        FilledElsewhere(before, out[..], r * width, values[r], base[r], c, exp, cuts[r], row * width, row * width + width);
      }
      ZerosElsewhere(before, out[..], row * width, row * width + width);
      cuts := cuts + [n];
    }
  }

  lemma RowBounds(r: nat, rows: nat, width: nat)
    requires r < rows
    ensures 0 <= r * width && r * width + width == (r + 1) * width <= rows * width
  {
  }

  lemma ZerosElsewhere(a: seq<real>, b: seq<real>, start: nat, end: nat)
    requires SameOutside(b, a, start, end) && forall k :: start <= k < |a| ==> a[k] == 0.0
    ensures |a| == |b| && forall k :: end <= k < |b| ==> b[k] == 0.0
  {
    forall k | end <= k < |b| ensures b[k] == 0.0 {
      assert b[end..][k - end] == a[end..][k - end];
    }
  }

  lemma FilledElsewhere(a: seq<real>, b: seq<real>, at: nat, values: seq<Float>, base: seq<Float>, c: Config,
                        exp: real -> real, n: nat, start: nat, end: nat)
    requires c.temperature > 0.0 && PositiveFunction(exp) && |values| == |base|
    requires RowFilled(a, at, values, base, c, exp, n)
    requires SameOutside(b, a, start, end) && at + |values| <= start
    ensures RowFilled(b, at, values, base, c, exp, n)
  {
    hide RowProbs, Cut;
    assert b[at..at + |values|] == b[..start][at..at + |values|];
    assert a[at..at + |values|] == a[..start][at..at + |values|];
  }

  // ---------------------------------------------------------------- a row in terms of its logits

  /** Which entries the cut keeps: all without a proper top-p, the shortest prefix reaching it in MTPLX mode,
      and in the current mode those whose tail mass exceeds what top-p leaves, with its slack. */
  lemma CutInNumbers(b: seq<real>, c: Config, n: nat)
    requires Cut(b, c, n)
    ensures c.topP <= 0.0 || c.topP >= 1.0 ==> n == |b|
    ensures 0.0 < c.topP < 1.0 && c.mode == Mtplx ==>
              && 1 <= n <= |b|
              && (n == |b| || Mass(b, n) >= c.topP)
              && (forall m :: 1 <= m < n ==> Mass(b, m) < c.topP)
    ensures 0.0 < c.topP < 1.0 && c.mode == Current ==>
              && 1 <= n <= |b|
              && (forall j :: 1 <= j < |b| ==>
                    (j < n <==> Mass(b, |b|) - Mass(b, j) > if c.topP < 0.0000001 then 1.0 else 1.0000001 - c.topP))
  {
    hide Mass;
    if 0.0 < c.topP < 1.0 && c.mode == Current {
      var threshold := if c.topP < 0.0000001 then 1.0 else 1.0000001 - c.topP;
      assert TailThreshold(c.topP) == threshold;
      forall j | 1 <= j < |b| ensures j < n <==> Mass(b, |b|) - Mass(b, j) > threshold {
        assert TailMass(b, j) == Mass(b, |b|) - Mass(b, j);
      }
    }
  }

  /** Only finite positive probabilities have mass. */
  lemma MassesInNumbers(base: seq<Float>, j: nat)
    requires j < |base|
    ensures match base[j]
            case Finite(p) => if p > 0.0 then Masses(base)[j] == p else Masses(base)[j] == 0.0
            case _ => Masses(base)[j] == 0.0
  {
  }

  /** A finished row over the raw logits: nothing beyond the cut or on an infinite entry, all mass on the
      first entry when the kept prefix has no finite logit, and otherwise a distribution. */
  lemma RowSupport(a: seq<real>, start: nat, values: seq<Float>, base: seq<Float>, c: Config, exp: real -> real, n: nat, j: nat)
    requires c.temperature > 0.0 && PositiveFunction(exp) && |values| == |base| && j < |values|
    requires RowFilled(a, start, values, base, c, exp, n)
    ensures start + |values| <= |a| && 1 <= n <= |values|
    ensures Mass(a[start..start + |values|], |values|) == 1.0
    ensures (exists k :: 0 <= k < n && values[k].Finite?) ==> (a[start + j] > 0.0 <==> j < n && values[j].Finite?)
    ensures (forall k :: 0 <= k < n ==> !values[k].Finite?) ==> a[start + j] == if j == 0 then 1.0 else 0.0
    ensures a[start + j] >= 0.0
  {
    hide Mass, PositiveFunction, Cut, RowProbs, MaxFinite, ScaledValues;
    var s := ScaledValues(values, c);
    var row := a[start..start + |values|];
    RowIsDistribution(s, n, exp);
    FiniteIn(values, c, n);
    ScaledFinite(values, c, j);
    if MaxFinite(s, n).None? { AllOnFirst(s, n, exp); }
    assert row == RowProbs(s, n, exp) && row[j] == a[start + j];
  }

  lemma AllOnFirst(s: seq<Float>, n: nat, exp: real -> real)
    requires 1 <= n <= |s| && PositiveFunction(exp) && MaxFinite(s, n).None?
    ensures forall j :: 0 <= j < |s| ==> RowProbs(s, n, exp)[j] == if j == 0 then 1.0 else 0.0
  {
    hide MaxFinite, PositiveFunction;
  }

  lemma FiniteIn(values: seq<Float>, c: Config, n: nat)
    requires c.temperature > 0.0 && n <= |values|
    ensures MaxFinite(ScaledValues(values, c), n).Some? <==> exists k :: 0 <= k < n && values[k].Finite?
  {
    hide MaxFinite, ScaledValues, ScaledAt;
    forall k | 0 <= k < n ensures ScaledValues(values, c)[k].Finite? <==> values[k].Finite? {
      ScaledFinite(values, c, k);
    }
  }

  lemma ScaledFinite(values: seq<Float>, c: Config, j: nat)
    requires c.temperature > 0.0 && j < |values|
    ensures ScaledValues(values, c)[j].Finite? <==> values[j].Finite?
  {
  }

  /** Two kept entries are to each other as the exponentials of their logits, divided by the temperature in
      the current mode; in MTPLX mode the logits arrive scaled. */
  lemma RowRatio(a: seq<real>, start: nat, values: seq<Float>, base: seq<Float>, c: Config, exp: real -> real, n: nat, j: nat, k: nat)
    requires c.temperature > 0.0 && PositiveFunction(exp) && Exponential(exp) && |values| == |base|
    requires RowFilled(a, start, values, base, c, exp, n)
    requires j < n && k < n && j < |values| && k < |values| && values[j].Finite? && values[k].Finite?
    ensures start + |values| <= |a|
    ensures c.mode == Current ==>
              a[start + j] * exp(values[k].value / c.temperature) == a[start + k] * exp(values[j].value / c.temperature)
    ensures c.mode == Mtplx ==> a[start + j] * exp(values[k].value) == a[start + k] * exp(values[j].value)
  {
    hide Mass, PositiveFunction, Exponential, Cut, Weights, RowProbs;
    var s := ScaledValues(values, c);
    var row := a[start..start + |values|];
    assert row[j] == a[start + j] && row[k] == a[start + k];
    RowIsSoftmax(s, n, exp, j);
    RowIsSoftmax(s, n, exp, k);
    CrossProduct(row[j], row[k], exp(s[j].value), exp(s[k].value), Mass(Weights(s, n, 0.0, exp), |s|));
  }

  lemma CrossProduct(p: real, q: real, x: real, y: real, total: real)
    requires IsQuotient(p, x, total) && IsQuotient(q, y, total)
    ensures p * y == q * x
  {
    assert p * total == x && q * total == y;
  }
}
