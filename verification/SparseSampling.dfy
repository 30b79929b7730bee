/** The sparse speculative-decoding sampler of `sampling.rs`: inverse-CDF draws from a truncated
    probability row, and the accept / residual-resample step of speculative decoding. Probabilities
    are reals and every random number is an explicit coin. */
module SparseSampling {
  import opened Wrappers
  import opened Sequences

  datatype Result<+T> = Ok(value: T) | Err(error: SampleError)

  datatype SampleError = ShapeMismatch | NoPositiveMass | NegativeDraft | VocabMismatch

  /** One row of a sparse distribution: `probs[k]` is the mass of token `ids[k]`. */
  datatype Row = Row(ids: seq<int>, probs: seq<real>, vocab: nat)

  /** What the samplers demand of a row for the speculative-sampling theorem. */
  ghost predicate Normalised(r: Row) {
    && |r.ids| == |r.probs|
    && Distinct(r.ids)
    && (forall k :: 0 <= k < |r.ids| ==> 0 <= r.ids[k] < r.vocab)
    && (forall k :: 0 <= k < |r.probs| ==> 0.0 <= r.probs[k])
    && Mass(r.probs, |r.probs|) == 1.0
  }

  // ---------------------------------------------------------------- lookups and prefix masses

  function Positive(x: real): (r: real) {
    if x > 0.0 then x else 0.0
  }

  /** Mass of the first positive entry for `token`, and 0 when the row has none. */
  function Probability(ids: seq<int>, probs: seq<real>, token: int): (r: real)
    ensures 0.0 <= r
  {
    if ids == [] || probs == [] then 0.0
    else if ids[0] == token && probs[0] > 0.0 then probs[0]
    else Probability(ids[1..], probs[1..], token)
  }

  /** A lookup finds positive mass exactly when some entry of the token carries it. */
  lemma {:induction false} ProbabilityPositive(ids: seq<int>, probs: seq<real>, token: int)
    requires |ids| == |probs|
    ensures Probability(ids, probs, token) > 0.0
            <==> exists k :: 0 <= k < |ids| && ids[k] == token && probs[k] > 0.0
  {
    if ids != [] && !(ids[0] == token && probs[0] > 0.0) {
      ProbabilityPositive(ids[1..], probs[1..], token);
      forall k | 0 <= k < |ids| && ids[k] == token && probs[k] > 0.0
        ensures exists j :: 0 <= j < |ids[1..]| && ids[1..][j] == token && probs[1..][j] > 0.0
      {
        assert ids[1..][k - 1] == token && probs[1..][k - 1] > 0.0;
      }
    }
  }

  /** What the lookup returns is the first positive entry of the token. */
  lemma {:induction false} ProbabilityIsFirst(ids: seq<int>, probs: seq<real>, token: int, k: nat)
    requires |ids| == |probs| && k < |ids| && ids[k] == token && probs[k] > 0.0
    requires forall j :: 0 <= j < k && ids[j] == token ==> probs[j] <= 0.0
    ensures Probability(ids, probs, token) == probs[k]
  {
    if k > 0 { ProbabilityIsFirst(ids[1..], probs[1..], token, k - 1); }
  }

  function ProbabilityOf(r: Row, token: int): (m: real)
    ensures 0.0 <= m
  {
    Probability(r.ids, r.probs, token)
  }

  /** With distinct ids the entry that holds the token is the one that lookup finds. */
  lemma {:induction false} ProbabilityAt(ids: seq<int>, probs: seq<real>, k: nat)
    requires |ids| == |probs| && Distinct(ids) && k < |ids|
    ensures Probability(ids, probs, ids[k]) == Positive(probs[k])
  {
    if k == 0 {
      ProbabilityPositive(ids[1..], probs[1..], ids[0]);
    } else {
      ProbabilityAt(ids[1..], probs[1..], k - 1);
    }
  }

  /** Positive mass of the first `n` weights. */
  function Mass(w: seq<real>, n: nat): (m: real)
    requires n <= |w|
    ensures 0.0 <= m
  {
    if n == 0 then 0.0 else Mass(w, n - 1) + Positive(w[n - 1])
  }

  lemma MassMonotone(w: seq<real>, m: nat, n: nat)
    requires m <= n <= |w|
    ensures Mass(w, m) <= Mass(w, n)
    decreases n
  {
    if m < n { MassMonotone(w, m, n - 1); }
  }

  lemma MassOfPrefix(w: seq<real>, v: seq<real>, n: nat)
    requires n <= |w| && n <= |v| && forall k :: 0 <= k < n ==> w[k] == v[k]
    ensures Mass(w, n) == Mass(v, n)
  {
    if n > 0 { MassOfPrefix(w, v, n - 1); }
  }

  // ---------------------------------------------------------------- inverse-CDF sampling

  /** `k` owns the half-open interval of length `w[k]` that follows the preceding positive mass. */
  ghost predicate Selects(w: seq<real>, u: real, k: nat) {
    k < |w| && Mass(w, k) <= u < Mass(w, k + 1)
  }

  ghost predicate IsLastPositive(w: seq<real>, n: nat, k: nat)
    requires n <= |w|
  {
    k < n && w[k] > 0.0 && forall j :: k < j < n ==> w[j] <= 0.0
  }

  /** The intervals partition `[0, total)`: every point has exactly one owner, of positive weight. */
  lemma {:induction false} SelectionExists(w: seq<real>, u: real, n: nat) returns (k: nat)
    requires n <= |w| && 0.0 <= u < Mass(w, n)
    ensures k < n && Selects(w, u, k) && w[k] > 0.0
  {
    if u < Mass(w, n - 1) {
      k := SelectionExists(w, u, n - 1);
    } else {
      k := n - 1;
    }
  }

  lemma SelectionUnique(w: seq<real>, u: real, j: nat, k: nat)
    requires Selects(w, u, j) && Selects(w, u, k)
    ensures j == k
  {
    if j < k { MassMonotone(w, j + 1, k); }
    if k < j { MassMonotone(w, k + 1, j); }
  }

  lemma SelectionUniqueAll(w: seq<real>, u: real, k: nat)
    requires Selects(w, u, k)
    ensures forall j :: Selects(w, u, j) ==> j == k
  {
    forall j | Selects(w, u, j) ensures j == k { SelectionUnique(w, u, j, k); }
  }

  /** The index drawn at point `u`: the owner of `u`, or the last positive entry when rounding has
      pushed `u` up to the total. */
  ghost predicate Draws(w: seq<real>, u: real, k: nat) {
    || (Selects(w, u, k) && w[k] > 0.0)
    || (Mass(w, |w|) <= u && IsLastPositive(w, |w|, k))
  }

  /** A draw exists at every point, it is unique, and its entry has positive weight. */
  lemma DrawExists(w: seq<real>, u: real) returns (k: nat)
    requires 0.0 <= u && Mass(w, |w|) > 0.0
    ensures Draws(w, u, k)
    ensures forall j: nat :: Draws(w, u, j) ==> j == k
  {
    if u < Mass(w, |w|) {
      k := SelectionExists(w, u, |w|);
      SelectionUniqueAll(w, u, k);
    } else {
      k := LastPositive(w, |w|);
      forall j: nat | Draws(w, u, j) ensures j == k {
        if Selects(w, u, j) { MassMonotone(w, j + 1, |w|); }
      }
    }
  }

  lemma LastPositive(w: seq<real>, n: nat) returns (k: nat)
    requires n <= |w| && Mass(w, n) > 0.0
    ensures IsLastPositive(w, n, k)
  {
    if w[n - 1] > 0.0 {
      k := n - 1;
    } else {
      k := LastPositive(w, n - 1);
    }
  }

  /** The unique index drawn at point `u`. */
  ghost function Draw(w: seq<real>, u: real): (k: nat)
    requires 0.0 <= u && Mass(w, |w|) > 0.0
    ensures k < |w| && w[k] > 0.0 && Draws(w, u, k)
    ensures forall j: nat :: Draws(w, u, j) ==> j == k
    ensures u < Mass(w, |w|) ==> Selects(w, u, k)
  {
    assert exists k: nat :: Draws(w, u, k) by {
      var k := DrawExists(w, u);
    }
    var k: nat :| Draws(w, u, k);
    assert forall j: nat :: Draws(w, u, j) ==> j == k by {
      var k' := DrawExists(w, u);
    }
    k
  }

  /** Where a coin in `[0, 1]` lands on `[0, total]`. */
  function Point(coin: real, total: real): (u: real)
    requires 0.0 <= coin && 0.0 <= total
    ensures 0.0 <= u
    ensures coin < 1.0 && 0.0 < total ==> u < total
  {
    coin * total
  }

  /** The token `sample_sparse_slices` returns, as a function of the coin. */
  ghost function Sampled(ids: seq<int>, probs: seq<real>, coin: real): (r: Result<int>)
    requires 0.0 <= coin
  {
    if |ids| != |probs| || ids == [] then Err(ShapeMismatch)
    else if Mass(probs, |probs|) <= 0.0 then Err(NoPositiveMass)
    else Ok(ids[Draw(probs, Point(coin, Mass(probs, |probs|)))])
  }

  /** The draw of `sample_sparse_slices`, as a loop over the row. The coin is a random number in
      `[0, 1)`; the closed bound admits the rounding of `coin * total` up to `total`. */
  method SampleSparseSlices(ids: seq<int>, probs: seq<real>, coin: real) returns (r: Result<int>)
    requires 0.0 <= coin <= 1.0
    ensures r == Sampled(ids, probs, coin)
  {
    if |ids| != |probs| || |ids| == 0 {
      return Err(ShapeMismatch);
    }
    var total := Mass(probs, |probs|);
    if total <= 0.0 {
      return Err(NoPositiveMass);
    }
    var u := Point(coin, total);
    var cumulative := 0.0;
    var last: Option<nat> := None;
    for i := 0 to |ids|
      invariant cumulative == Mass(probs, i) <= u
      invariant last.None? ==> Mass(probs, i) == 0.0
      invariant last.Some? ==> IsLastPositive(probs, i, last.value)
    {
      if probs[i] <= 0.0 {
        continue;
      }
      cumulative := cumulative + probs[i];
      last := Some(i);
      if u < cumulative {
        assert Draws(probs, u, i);
        return Ok(ids[i]);
      }
    }
    match last
    case Some(k) =>
      assert Draws(probs, u, k);
      return Ok(ids[k]);
    case None =>
      assert false;
  }

  // ---------------------------------------------------------------- accept or resample

  function Min(x: real, y: real): (m: real) {
    if x <= y then x else y
  }

  function AcceptProbability(p: real, q: real): (a: real)
  {
    if q <= 0.0 then (if p > 0.0 then 1.0 else 0.0) else Min(p / q, 1.0)
  }

  /** The two facts the theorem needs: accepting moves exactly the common mass `min(p, q)`. */
  lemma AcceptedMass(p: real, q: real)
    requires 0.0 <= p && 0.0 <= q
    ensures 0.0 <= AcceptProbability(p, q) <= 1.0
    ensures AcceptProbability(p, q) > 0.0 ==> p > 0.0
    ensures q * AcceptProbability(p, q) == Min(p, q)
    ensures q * (1.0 - AcceptProbability(p, q)) == Positive(q - p)
  {
    if q > 0.0 {
      var a := p / q;
      assert q * a == p;
      assert a <= 1.0 <==> p <= q;
    }
  }

  /** `(p - q)+` over the positive entries of the target row, entry by entry. */
  ghost function Residual(p: Row, q: Row): (w: seq<real>)
    ensures |w| == |p.probs|
    ensures |p.ids| == |p.probs| ==> forall k :: 0 <= k < |w| ==> w[k] == ResidualAt(p, q, k)
  {
    seq(|p.probs|, k requires 0 <= k < |p.probs| => if k < |p.ids| then ResidualAt(p, q, k) else 0.0)
  }

  ghost function ResidualAt(p: Row, q: Row, k: nat): real
    requires k < |p.ids| && k < |p.probs|
  {
    if p.probs[k] <= 0.0 then 0.0 else Positive(p.probs[k] - ProbabilityOf(q, p.ids[k]))
  }

  /** The weights a rejected draft is replaced from: the residual, or the target row itself when the
      residual has no mass. */
  ghost function Correction(p: Row, q: Row): (w: seq<real>)
    ensures |w| == |p.probs|
  {
    var w := Residual(p, q);
    if Mass(w, |w|) <= 0.0 then p.probs else w
  }

  /** `accept_with_residual_sparse` as a function of its two coins. */
  ghost function Accepted(p: Row, q: Row, draft: int, coin: real, coin': real): (r: Result<(bool, int)>)
    requires 0.0 <= coin && 0.0 <= coin'
  {
    if draft < 0 then Err(NegativeDraft)
    else if draft >= p.vocab || p.vocab != q.vocab then Err(VocabMismatch)
    else if coin < AcceptProbability(ProbabilityOf(p, draft), ProbabilityOf(q, draft)) then Ok((true, draft))
    else match Sampled(p.ids, Correction(p, q), coin')
      case Ok(token) => Ok((false, token))
      case Err(e) => Err(e)
  }

  /** `v` lists the positive entries of the first `n` weights of `w`, in order; `at[j]` is where
      entry `j` came from. */
  ghost predicate Compacts(w: seq<real>, n: nat, v: seq<real>, at: seq<nat>) {
    && n <= |w| && |v| == |at|
    && Mass(v, |v|) == Mass(w, n)
    && (forall j :: 0 <= j < |v| ==> IsEntry(w, v, j, at[j]) && at[j] < n)
    && (forall k :: (if v == [] then 0 else at[|v| - 1] + 1) <= k < n ==> w[k] <= 0.0)
  }

  ghost predicate IsEntry(w: seq<real>, v: seq<real>, j: nat, k: nat) {
    j < |v| && k < |w| && v[j] == w[k] && v[j] > 0.0 && Mass(v, j) == Mass(w, k)
  }

  lemma CompactStart(w: seq<real>)
    ensures Compacts(w, 0, [], [])
  {
  }

  lemma CompactSkip(w: seq<real>, n: nat, v: seq<real>, at: seq<nat>)
    requires Compacts(w, n, v, at) && n < |w| && w[n] <= 0.0
    ensures Compacts(w, n + 1, v, at)
  {
  }

  lemma CompactPush(w: seq<real>, n: nat, v: seq<real>, at: seq<nat>)
    requires Compacts(w, n, v, at) && n < |w| && w[n] > 0.0
    ensures Compacts(w, n + 1, v + [w[n]], at + [n])
  {
    var v', at' := v + [w[n]], at + [n];
    MassOfPrefix(v', v, |v|);
    forall j | 0 <= j < |v'| ensures IsEntry(w, v', j, at'[j]) && at'[j] < n + 1 {
      if j < |v| {
        assert IsEntry(w, v, j, at[j]);
        MassOfPrefix(v', v, j);
      }
    }
  }

  ghost predicate Scaled(v: seq<real>, s: seq<real>, total: real)
    requires total > 0.0
  {
    |s| == |v| && forall k :: 0 <= k < |v| ==> s[k] == v[k] / total
  }

  lemma {:induction false} ScaledMass(v: seq<real>, s: seq<real>, total: real, n: nat)
    requires total > 0.0 && Scaled(v, s, total) && n <= |v|
    ensures Mass(s, n) == Mass(v, n) / total
  {
    if n > 0 {
      ScaledMass(v, s, total, n - 1);
      QuotientOfSum(Mass(v, n - 1), v[n - 1], total);
    }
  }

  lemma QuotientOfSum(a: real, x: real, total: real)
    requires total > 0.0
    ensures (a + Positive(x)) / total == a / total + Positive(x / total)
  {
    if x > 0.0 { assert x / total > 0.0; } else { assert x / total <= 0.0; }
  }

  /** Dropping the empty entries and dividing by the total moves no draw. */
  lemma CompactDraw(w: seq<real>, v: seq<real>, at: seq<nat>, s: seq<real>, total: real, coin: real, j: nat)
    requires Compacts(w, |w|, v, at) && Mass(w, |w|) == total > 0.0 && 0.0 <= coin
    requires Scaled(v, s, total) && Draws(s, coin, j)
    ensures j < |at| && Draws(w, Point(coin, total), at[j])
  {
    assert IsEntry(w, v, j, at[j]);
    if Selects(s, coin, j) {
      ScaledMass(v, s, total, j);
      ScaledMass(v, s, total, j + 1);
      ScaleUp(Mass(v, j), coin, total);
      ScaleUp(Mass(v, j + 1), coin, total);
      assert Mass(w, at[j] + 1) == Mass(v, j + 1);
    } else {
      ScaledMass(v, s, total, |v|);
      ScaleUp(Mass(v, |v|), coin, total);
      assert IsEntry(w, v, |v| - 1, at[|v| - 1]);
      ScaleUp(v[|v| - 1], 0.0, total);
      assert s[|s| - 1] > 0.0;
    }
  }

  lemma ScaleUp(x: real, coin: real, total: real)
    requires total > 0.0 && 0.0 <= coin
    ensures x / total <= coin <==> x <= Point(coin, total)
  {
    var a := x / total;
    assert a * total == x;
    if a <= coin { assert (coin - a) * total >= 0.0; } else { assert (a - coin) * total > 0.0; }
  }

  /** The residual loop: the positive part of `p - q` over the target's support. */
  method CollectResidual(p: Row, q: Row) returns (ids: seq<int>, probs: seq<real>, total: real, ghost at: seq<nat>)
    requires |p.ids| == |p.probs|
    ensures Compacts(Residual(p, q), |p.ids|, probs, at) && |ids| == |at|
    ensures forall j :: 0 <= j < |at| ==> at[j] < |p.ids| && ids[j] == p.ids[at[j]]
    ensures total == Mass(Residual(p, q), |p.ids|)
  {
    hide Compacts, Residual, Probability;
    ghost var w := Residual(p, q);
    ids, probs, total, at := [], [], 0.0, [];
    CompactStart(w);
    for i := 0 to |p.ids|
      invariant Compacts(w, i, probs, at) && |ids| == |at|
      invariant forall j :: 0 <= j < |at| ==> at[j] < i && ids[j] == p.ids[at[j]]
      invariant total == Mass(w, i)
    {
      if p.probs[i] <= 0.0 {
        CompactSkip(w, i, probs, at);
        continue;
      }
      var residual := Positive(p.probs[i] - ProbabilityOf(q, p.ids[i]));
      if residual > 0.0 {
        CompactPush(w, i, probs, at);
        ids, probs, total, at := ids + [p.ids[i]], probs + [residual], total + residual, at + [i];
      } else {
        CompactSkip(w, i, probs, at);
      }
    }
  }

  method DivideBy(probs: seq<real>, total: real) returns (scaled: seq<real>)
    requires total > 0.0
    ensures Scaled(probs, scaled, total)
  {
    scaled := probs;
    for i := 0 to |scaled|
      invariant |scaled| == |probs|
      invariant forall k :: 0 <= k < i ==> scaled[k] == probs[k] / total
      invariant forall k :: i <= k < |scaled| ==> scaled[k] == probs[k]
    {
      scaled := scaled[i := scaled[i] / total];
    }
  }

  method AcceptWithResidualSparse(p: Row, q: Row, draft: int, coin: real, coin': real)
    returns (r: Result<(bool, int)>)
    requires |p.ids| == |p.probs| && |q.ids| == |q.probs|
    requires 0.0 <= coin <= 1.0 && 0.0 <= coin' <= 1.0
    ensures r == Accepted(p, q, draft, coin, coin')
  {
    if draft < 0 {
      return Err(NegativeDraft);
    }
    if draft >= p.vocab || p.vocab != q.vocab {
      return Err(VocabMismatch);
    }
    if coin < AcceptProbability(ProbabilityOf(p, draft), ProbabilityOf(q, draft)) {
      return Ok((true, draft));
    }
    var ids, probs, total, at := CollectResidual(p, q);
    var s: Result<int>;
    if total <= 0.0 {
      s := SampleSparseSlices(p.ids, p.probs, coin');
    } else {
      var scaled := DivideBy(probs, total);
      s := SampleSparseSlices(ids, scaled, coin');
      DrawsAgree(Residual(p, q), probs, at, scaled, total, coin');
    }
    return match s case Ok(token) => Ok((false, token)) case Err(e) => Err(e);
  }

  lemma UnitScale(total: real, coin: real)
    requires total > 0.0 && 0.0 <= coin
    ensures total / total == 1.0 && Point(coin, 1.0) == coin
  {
  }

  /** `CompactDraw` for the draw the sampler makes. */
  lemma DrawsAgree(w: seq<real>, v: seq<real>, at: seq<nat>, s: seq<real>, total: real, coin: real)
    requires Compacts(w, |w|, v, at) && Mass(w, |w|) == total > 0.0 && 0.0 <= coin
    requires Scaled(v, s, total)
    ensures s != [] && Mass(s, |s|) == 1.0
    ensures var j := Draw(s, Point(coin, 1.0));
            j < |at| && Draw(w, Point(coin, total)) == at[j]
  {
    ScaledMass(v, s, total, |v|);
    UnitScale(total, coin);
    CompactDraw(w, v, at, s, total, coin, Draw(s, coin));
  }

  /** When a draft is kept: for every target, draft row and coin below 1, exactly when the coin's share of the
      draft's probability is less than the target's. So a draft that its own row gives no mass is kept
      exactly when the target gives it some. */
  lemma KeptExactlyWhen(p: Row, q: Row, draft: int, coin: real, coin': real)
    requires 0.0 <= coin < 1.0 && 0.0 <= coin' && 0 <= draft < p.vocab && p.vocab == q.vocab
    ensures Accepted(p, q, draft, coin, coin') == Ok((true, draft)) <==> coin * ProbabilityOf(q, draft) < ProbabilityOf(p, draft)
  {
    hide Sampled, Correction, Probability;
    CoinBelow(ProbabilityOf(p, draft), ProbabilityOf(q, draft), coin);
  }

  lemma CoinBelow(p: real, q: real, coin: real)
    requires 0.0 <= p && 0.0 <= q && 0.0 <= coin < 1.0
    ensures coin < AcceptProbability(p, q) <==> coin * q < p
  {
    if q > 0.0 {
      var a := p / q;
      assert a * q == p;
      ScaledOrder(coin, a, q);
    }
  }

  lemma ScaledOrder(x: real, y: real, q: real)
    requires q > 0.0
    ensures x < y <==> x * q < y * q
  {
  }
}
