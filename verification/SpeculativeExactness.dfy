/** The speculative-sampling theorem for the sparse sampler: drafting from `q`, accepting with
    probability `min(1, p/q)` and otherwise drawing from the positive part of `p - q` emits every
    token with exactly its target probability, although the two supports may differ.

    The coins of one step form the unit cube. Each cell below owns a box of the cube; the boxes
    partition the cube, the step emits the cell's token on the whole box, and the volumes of the
    boxes of a token add up to its target mass. */
module SpeculativeExactness {
  import opened Sequences
  import opened SparseSampling

  // ---------------------------------------------------------------- one step, and its cells

  datatype Coins = Coins(draft: real, accept: real, residual: real)

  ghost predicate InCube(c: Coins) {
    0.0 <= c.draft < 1.0 && 0.0 <= c.accept < 1.0 && 0.0 <= c.residual < 1.0
  }

  /** Draft a token from `q`, then accept it or replace it. */
  ghost function Speculate(p: Row, q: Row, c: Coins): Result<(bool, int)>
    requires InCube(c)
  {
    match Sampled(q.ids, q.probs, c.draft)
    case Err(e) => Err(e)
    case Ok(draft) => Accepted(p, q, draft, c.accept, c.residual)
  }

  /** Draft entry `d` accepted, or rejected and replaced by target entry `k`. */
  datatype Cell = Kept(d: nat) | Replaced(d: nat, k: nat)

  datatype Interval = Interval(lo: real, hi: real)

  datatype Box = Box(draft: Interval, accept: Interval, residual: Interval)

  ghost predicate Inside(x: real, i: Interval) {
    i.lo <= x < i.hi
  }

  ghost predicate Contains(b: Box, c: Coins) {
    Inside(c.draft, b.draft) && Inside(c.accept, b.accept) && Inside(c.residual, b.residual)
  }

  function Length(i: Interval): real {
    i.hi - i.lo
  }

  function Volume(b: Box): real {
    Length(b.draft) * Length(b.accept) * Length(b.residual)
  }

  ghost predicate IsCell(p: Row, q: Row, cell: Cell) {
    cell.d < |q.ids| && (cell.Replaced? ==> cell.k < |p.ids|)
  }

  ghost function Token(p: Row, q: Row, cell: Cell): int
    requires IsCell(p, q, cell)
  {
    match cell case Kept(d) => q.ids[d] case Replaced(_, k) => p.ids[k]
  }

  /** The share `[mass before k, mass through k) / total` of entry `k`. */
  ghost function Share(w: seq<real>, k: nat): Interval
    requires k < |w| && Mass(w, |w|) > 0.0
  {
    Interval(Mass(w, k) / Mass(w, |w|), Mass(w, k + 1) / Mass(w, |w|))
  }

  ghost function AcceptanceOf(p: Row, q: Row, d: nat): (a: real)
    requires d < |q.ids|
    ensures 0.0 <= a <= 1.0
  {
    AcceptedMass(ProbabilityOf(p, q.ids[d]), ProbabilityOf(q, q.ids[d]));
    AcceptProbability(ProbabilityOf(p, q.ids[d]), ProbabilityOf(q, q.ids[d]))
  }

  ghost function BoxOf(p: Row, q: Row, cell: Cell): Box
    requires Normalised(p) && Normalised(q) && IsCell(p, q, cell)
  {
    CorrectionHasMass(p, q);
    var a := AcceptanceOf(p, q, cell.d);
    match cell
    case Kept(d) => Box(Share(q.probs, d), Interval(0.0, a), Interval(0.0, 1.0))
    case Replaced(d, k) => Box(Share(q.probs, d), Interval(a, 1.0), Share(Correction(p, q), k))
  }

  lemma CorrectionHasMass(p: Row, q: Row)
    requires Normalised(p)
    ensures Mass(Correction(p, q), |Correction(p, q)|) > 0.0
  {
  }

  // ---------------------------------------------------------------- the boxes partition the cube

  /** A coin lies in the share of exactly the entry that the sampler draws. */
  lemma ShareOfDraw(w: seq<real>, coin: real)
    requires 0.0 <= coin < 1.0 && Mass(w, |w|) > 0.0
    ensures var k := Draw(w, Point(coin, Mass(w, |w|)));
            Inside(coin, Share(w, k)) && forall j: nat :: j < |w| && Inside(coin, Share(w, j)) ==> j == k
  {
    var total := Mass(w, |w|);
    var k := Draw(w, Point(coin, total));
    ScaleUp(Mass(w, k), coin, total);
    ScaleUp(Mass(w, k + 1), coin, total);
    forall j: nat | j < |w| && Inside(coin, Share(w, j)) ensures j == k {
      ScaleUp(Mass(w, j), coin, total);
      ScaleUp(Mass(w, j + 1), coin, total);
      SelectionUnique(w, Point(coin, total), j, k);
    }
  }

  ghost function CellOf(p: Row, q: Row, c: Coins): (cell: Cell)
    requires Normalised(p) && Normalised(q) && InCube(c)
    ensures IsCell(p, q, cell)
  {
    CorrectionHasMass(p, q);
    var d := Draw(q.probs, Point(c.draft, 1.0));
    if c.accept < AcceptanceOf(p, q, d) then Kept(d)
    else Replaced(d, Draw(Correction(p, q), Point(c.residual, Mass(Correction(p, q), |p.probs|))))
  }

  /** Every point of the cube lies in exactly one cell's box, and the step emits that cell's token. */
  lemma BoxesPartitionTheCube(p: Row, q: Row, c: Coins)
    requires Normalised(p) && Normalised(q) && p.vocab == q.vocab && InCube(c)
    ensures var cell := CellOf(p, q, c);
            && Contains(BoxOf(p, q, cell), c)
            && (forall other :: IsCell(p, q, other) && Contains(BoxOf(p, q, other), c) ==> other == cell)
            && Speculate(p, q, c) == Ok((cell.Kept?, Token(p, q, cell)))
  {
    var cell := CellOf(p, q, c);
    CorrectionHasMass(p, q);
    ShareOfDraw(q.probs, c.draft);
    ShareOfDraw(Correction(p, q), c.residual);
    forall other | IsCell(p, q, other) && Contains(BoxOf(p, q, other), c) ensures other == cell {
      assert Inside(c.draft, Share(q.probs, other.d));
      assert other.d == cell.d;
    }
  }

  // ---------------------------------------------------------------- the law of the emitted token

  ghost function Sum(v: seq<real>, n: nat): real
    requires n <= |v|
  {
    if n == 0 then 0.0 else Sum(v, n - 1) + v[n - 1]
  }

  /** Volume of a cell's box if the cell emits `token`. */
  ghost function Contribution(p: Row, q: Row, token: int, cell: Cell): real
    requires Normalised(p) && Normalised(q) && IsCell(p, q, cell)
  {
    if Token(p, q, cell) == token then Volume(BoxOf(p, q, cell)) else 0.0
  }

  ghost function KeptTerms(p: Row, q: Row, token: int): (v: seq<real>)
    requires Normalised(p) && Normalised(q)
    ensures |v| == |q.ids|
  {
    seq(|q.ids|, d requires 0 <= d < |q.ids| => Contribution(p, q, token, Kept(d)))
  }

  ghost function ReplacedTerms(p: Row, q: Row, token: int, d: nat): (v: seq<real>)
    requires Normalised(p) && Normalised(q) && d < |q.ids|
    ensures |v| == |p.ids|
  {
    seq(|p.ids|, k requires 0 <= k < |p.ids| => Contribution(p, q, token, Replaced(d, k)))
  }

  ghost function ReplacedSums(p: Row, q: Row, token: int): (v: seq<real>)
    requires Normalised(p) && Normalised(q)
    ensures |v| == |q.ids|
  {
    seq(|q.ids|, d requires 0 <= d < |q.ids| => Sum(ReplacedTerms(p, q, token, d), |p.ids|))
  }

  /** The probability of emitting `token`: the total volume of the boxes of its cells. */
  ghost function EmissionProbability(p: Row, q: Row, token: int): real
    requires Normalised(p) && Normalised(q)
  {
    Sum(KeptTerms(p, q, token), |q.ids|) + Sum(ReplacedSums(p, q, token), |q.ids|)
  }

  lemma ShareLength(w: seq<real>, k: nat)
    requires k < |w| && Mass(w, |w|) > 0.0
    ensures Length(Share(w, k)) == Positive(w[k]) / Mass(w, |w|)
  {
    QuotientOfSum(Mass(w, k), w[k], Mass(w, |w|));
    QuotientOfSum(0.0, w[k], Mass(w, |w|));
  }

  lemma DraftSide(q: Row, d: nat)
    requires Normalised(q) && d < |q.ids|
    ensures Length(Share(q.probs, d)) == q.probs[d]
  {
    ShareLength(q.probs, d);
  }

  /** The accept sides of a draft's cells, scaled by its probability. */
  lemma AcceptSides(p: Row, q: Row, d: nat)
    requires Normalised(q) && d < |q.ids|
    ensures q.probs[d] * AcceptanceOf(p, q, d) == Min(ProbabilityOf(p, q.ids[d]), q.probs[d])
    ensures q.probs[d] * (1.0 - AcceptanceOf(p, q, d)) == Positive(q.probs[d] - ProbabilityOf(p, q.ids[d]))
  {
    hide Probability, AcceptProbability, Mass;
    ProbabilityAt(q.ids, q.probs, d);
    AcceptedMass(ProbabilityOf(p, q.ids[d]), ProbabilityOf(q, q.ids[d]));
  }

  lemma IntervalLength(lo: real, hi: real)
    ensures Length(Interval(lo, hi)) == hi - lo
  {
  }

  lemma BoxVolume(b: Box, draft: real, accept: real, area: real, side: real)
    requires Length(b.draft) == draft && Length(b.accept) == accept && Length(b.residual) == side
    requires draft * accept == area
    ensures Volume(b) == area * side
  {
  }

  lemma KeptBox(p: Row, q: Row, d: nat)
    requires Normalised(p) && Normalised(q) && d < |q.ids|
    ensures Volume(BoxOf(p, q, Kept(d))) == Min(ProbabilityOf(p, q.ids[d]), q.probs[d])
  {
    hide Share, Length, AcceptanceOf, ProbabilityOf, Mass, Positive, Min, Volume;
    DraftSide(q, d);
    AcceptSides(p, q, d);
    IntervalLength(0.0, AcceptanceOf(p, q, d));
    IntervalLength(0.0, 1.0);
    BoxVolume(BoxOf(p, q, Kept(d)), q.probs[d], AcceptanceOf(p, q, d), Min(ProbabilityOf(p, q.ids[d]), q.probs[d]), 1.0);
  }

  lemma ReplacedBox(p: Row, q: Row, d: nat, k: nat)
    requires Normalised(p) && Normalised(q) && d < |q.ids| && k < |p.ids|
    requires Mass(Correction(p, q), |p.ids|) > 0.0
    ensures Volume(BoxOf(p, q, Replaced(d, k)))
            == Positive(q.probs[d] - ProbabilityOf(p, q.ids[d])) * Length(Share(Correction(p, q), k))
  {
    hide Share, Length, AcceptanceOf, ProbabilityOf, Mass, Positive, Min, Volume;
    DraftSide(q, d);
    AcceptSides(p, q, d);
    IntervalLength(AcceptanceOf(p, q, d), 1.0);
    BoxVolume(BoxOf(p, q, Replaced(d, k)), q.probs[d], 1.0 - AcceptanceOf(p, q, d),
              Positive(q.probs[d] - ProbabilityOf(p, q.ids[d])), Length(Share(Correction(p, q), k)));
  }

  lemma {:induction false} SumScaled(v: seq<real>, s: seq<real>, a: real, n: nat)
    requires n <= |v| && n <= |s| && forall k :: 0 <= k < n ==> v[k] == s[k] * a
    ensures Sum(v, n) == Sum(s, n) * a
  {
    if n > 0 {
      SumScaled(v, s, a, n - 1);
      assert Sum(s, n) * a == Sum(s, n - 1) * a + s[n - 1] * a;
    }
  }

  /** A sum whose only non-zero term is term `k`. */
  lemma {:induction false} SumSingle(v: seq<real>, n: nat, k: nat)
    requires n <= |v| && k < |v| && forall j :: 0 <= j < n && j != k ==> v[j] == 0.0
    ensures Sum(v, n) == if k < n then v[k] else 0.0
  {
    if n > 0 { SumSingle(v, n - 1, k); }
  }

  lemma SumZero(v: seq<real>, n: nat)
    requires n <= |v| && forall j :: 0 <= j < n ==> v[j] == 0.0
    ensures Sum(v, n) == 0.0
  {
  }

  /** The drafts' rejected masses, `(q - p)+` over the draft's support. */
  ghost function Rejected(p: Row, q: Row): (v: seq<real>)
    requires |q.ids| == |q.probs|
    ensures |v| == |q.ids|
  {
    seq(|q.ids|, d requires 0 <= d < |q.ids| => Positive(q.probs[d] - ProbabilityOf(p, q.ids[d])))
  }

  /** The shares of the correction that go to `token`. */
  ghost function CorrectionShares(p: Row, q: Row, token: int): (v: seq<real>)
    requires Normalised(p)
    ensures |v| == |p.ids|
  {
    CorrectionHasMass(p, q);
    seq(|p.ids|, k requires 0 <= k < |p.ids| =>
      if p.ids[k] == token then Length(Share(Correction(p, q), k)) else 0.0)
  }

  /** Volume of the replaced cells of one draft entry. */
  lemma ReplacedTermsSum(p: Row, q: Row, token: int, d: nat)
    requires Normalised(p) && Normalised(q) && d < |q.ids|
    ensures Sum(ReplacedTerms(p, q, token, d), |p.ids|)
            == Sum(CorrectionShares(p, q, token), |p.ids|) * Rejected(p, q)[d]
  {
    hide Volume, BoxOf, Share, Length, Positive, Mass, ProbabilityOf, Correction;
    CorrectionHasMass(p, q);
    forall k | 0 <= k < |p.ids|
      ensures ReplacedTerms(p, q, token, d)[k] == CorrectionShares(p, q, token)[k] * Rejected(p, q)[d]
    {
      ReplacedBox(p, q, d, k);
    }
    SumScaled(ReplacedTerms(p, q, token, d), CorrectionShares(p, q, token), Rejected(p, q)[d], |p.ids|);
  }

  /** Rejected mass times the share the correction gives to the token. */
  lemma ReplacedSum(p: Row, q: Row, token: int)
    requires Normalised(p) && Normalised(q)
    ensures Sum(ReplacedSums(p, q, token), |q.ids|)
            == Sum(Rejected(p, q), |q.ids|) * Sum(CorrectionShares(p, q, token), |p.ids|)
  {
    hide Mass, ProbabilityOf, Positive, CorrectionShares, Rejected, Sum, ReplacedTerms;
    var share := Sum(CorrectionShares(p, q, token), |p.ids|);
    forall d | 0 <= d < |q.ids| ensures ReplacedSums(p, q, token)[d] == Rejected(p, q)[d] * share {
      ReplacedTermsSum(p, q, token, d);
    }
    SumScaled(ReplacedSums(p, q, token), Rejected(p, q), share, |q.ids|);
  }

  /** Distinct ids: at most one draft entry is `token`, so the kept volume is `min(p, q)`. */
  lemma KeptSum(p: Row, q: Row, token: int)
    requires Normalised(p) && Normalised(q)
    ensures Sum(KeptTerms(p, q, token), |q.ids|) == Min(ProbabilityOf(p, token), ProbabilityOf(q, token))
  {
    var v := KeptTerms(p, q, token);
    if token in q.ids {
      var d :| 0 <= d < |q.ids| && q.ids[d] == token;
      KeptBox(p, q, d);
      ProbabilityAt(q.ids, q.probs, d);
      SumSingle(v, |v|, d);
    } else {
      SumZero(v, |v|);
      AbsentIsZero(q, token);
    }
  }

  lemma AbsentIsZero(r: Row, token: int)
    requires |r.ids| == |r.probs| && token !in r.ids
    ensures ProbabilityOf(r, token) == 0.0
  {
    ProbabilityPositive(r.ids, r.probs, token);
  }

  lemma CorrectionShareSum(p: Row, q: Row, token: int)
    requires Normalised(p) && Mass(Residual(p, q), |p.ids|) > 0.0
    ensures Sum(CorrectionShares(p, q, token), |p.ids|)
            == Positive(ProbabilityOf(p, token) - ProbabilityOf(q, token)) / Mass(Residual(p, q), |p.ids|)
  {
    hide Share, Length, Mass;
    var v := CorrectionShares(p, q, token);
    CorrectionHasMass(p, q);
    if token in p.ids {
      var k :| 0 <= k < |p.ids| && p.ids[k] == token;
      ShareLength(Residual(p, q), k);
      ProbabilityAt(p.ids, p.probs, k);
      SumSingle(v, |v|, k);
    } else {
      SumZero(v, |v|);
      AbsentIsZero(p, token);
    }
  }

  // ---------------------------------------------------------------- rejected mass equals residual mass

  /** Sum of `g` over the tokens `0..n`. */
  ghost function VocabSum(n: nat, g: int -> real): real {
    if n == 0 then 0.0 else VocabSum(n - 1, g) + g(n - 1)
  }

  ghost function SupportSum(ids: seq<int>, n: nat, g: int -> real): real
    requires n <= |ids|
  {
    if n == 0 then 0.0 else SupportSum(ids, n - 1, g) + g(ids[n - 1])
  }

  lemma {:induction false} VocabSumPoint(n: nat, g: int -> real, h: int -> real, x: int)
    requires 0 <= x < n && h(x) == 0.0 && forall y :: y != x ==> h(y) == g(y)
    ensures VocabSum(n, g) == VocabSum(n, h) + g(x)
  {
    if x < n - 1 {
      VocabSumPoint(n - 1, g, h, x);
    } else {
      VocabSumEqual(n - 1, g, h);
    }
  }

  lemma VocabSumEqual(n: nat, g: int -> real, h: int -> real)
    requires forall y :: 0 <= y < n ==> g(y) == h(y)
    ensures VocabSum(n, g) == VocabSum(n, h)
  {
  }

  lemma VocabSumDifference(n: nat, f: int -> real, g: int -> real, h: int -> real, e: int -> real)
    requires forall y :: f(y) - g(y) == h(y) - e(y)
    ensures VocabSum(n, f) - VocabSum(n, g) == VocabSum(n, h) - VocabSum(n, e)
  {
  }

  /** A function that vanishes off a distinct support sums to the same over support and vocabulary. */
  lemma {:induction false} SupportIsVocab(ids: seq<int>, n: nat, g: int -> real, vocab: nat)
    requires n <= |ids| && Distinct(ids)
    requires forall k :: 0 <= k < n ==> 0 <= ids[k] < vocab
    requires forall x :: x !in ids[..n] ==> g(x) == 0.0
    ensures SupportSum(ids, n, g) == VocabSum(vocab, g)
  {
    if n == 0 {
      ZeroSum(vocab, g);
    } else {
      var y := ids[n - 1];
      var h := x => if x == y then 0.0 else g(x);
      forall x | x !in ids[..n - 1] ensures h(x) == 0.0 {
        assert ids[..n] == ids[..n - 1] + [y];
      }
      SupportIsVocab(ids, n - 1, h, vocab);
      SupportSumEqual(ids, n - 1, g, h);
      VocabSumPoint(vocab, g, h, y);
    }
  }

  lemma ZeroSum(n: nat, g: int -> real)
    requires forall x :: g(x) == 0.0
    ensures VocabSum(n, g) == 0.0
  {
  }

  lemma SupportSumEqual(ids: seq<int>, n: nat, g: int -> real, h: int -> real)
    requires n <= |ids| && forall k :: 0 <= k < n ==> g(ids[k]) == h(ids[k])
    ensures SupportSum(ids, n, g) == SupportSum(ids, n, h)
  {
  }

  ghost function Law(r: Row): int -> real {
    x => ProbabilityOf(r, x)
  }

  ghost function Excess(r: Row, other: Row): int -> real {
    x => Positive(ProbabilityOf(r, x) - ProbabilityOf(other, x))
  }

  lemma {:induction false} SupportSumIsMass(ids: seq<int>, n: nat, g: int -> real, w: seq<real>)
    requires n <= |ids| && n <= |w| && forall k :: 0 <= k < n ==> g(ids[k]) == Positive(w[k])
    ensures SupportSum(ids, n, g) == Mass(w, n)
  {
    if n > 0 { SupportSumIsMass(ids, n - 1, g, w); }
  }

  lemma {:induction false} MassIsSum(w: seq<real>, n: nat)
    requires n <= |w| && forall k :: 0 <= k < n ==> 0.0 <= w[k]
    ensures Mass(w, n) == Sum(w, n)
  {
    if n > 0 { MassIsSum(w, n - 1); }
  }

  lemma SupportSums(r: Row, other: Row)
    requires Normalised(r)
    ensures SupportSum(r.ids, |r.ids|, Law(r)) == Mass(r.probs, |r.ids|)
    ensures SupportSum(r.ids, |r.ids|, Excess(r, other)) == Mass(Residual(r, other), |r.ids|)
    ensures Sum(Rejected(other, r), |r.ids|) == Mass(Residual(r, other), |r.ids|)
  {
    hide Probability, SupportSum, Mass, Sum;
    forall k | 0 <= k < |r.ids|
      ensures ProbabilityOf(r, r.ids[k]) == r.probs[k]
      ensures Residual(r, other)[k] == Rejected(other, r)[k]
    {
      ProbabilityAt(r.ids, r.probs, k);
    }
    SupportSumIsMass(r.ids, |r.ids|, Law(r), r.probs);
    SupportSumIsMass(r.ids, |r.ids|, Excess(r, other), Residual(r, other));
    assert Residual(r, other) == Rejected(other, r);
    MassIsSum(Rejected(other, r), |r.ids|);
  }

  /** Over the vocabulary a row sums to 1, and its excess over another row is at once the mass that
      row rejects and the residual mass. */
  lemma RowOnVocab(r: Row, other: Row)
    requires Normalised(r)
    ensures VocabSum(r.vocab, Law(r)) == 1.0
    ensures VocabSum(r.vocab, Excess(r, other)) == Sum(Rejected(other, r), |r.ids|)
    ensures VocabSum(r.vocab, Excess(r, other)) == Mass(Residual(r, other), |r.ids|)
  {
    SupportSums(r, other);
    assert r.ids[..|r.ids|] == r.ids;
    forall x | x !in r.ids ensures Law(r)(x) == 0.0 && Excess(r, other)(x) == 0.0 {
      ProbabilityPositive(r.ids, r.probs, x);
    }
    SupportIsVocab(r.ids, |r.ids|, Law(r), r.vocab);
    SupportIsVocab(r.ids, |r.ids|, Excess(r, other), r.vocab);
  }

  lemma ExcessDifference(p: Row, q: Row)
    ensures forall x :: Law(p)(x) - Law(q)(x) == Excess(p, q)(x) - Excess(q, p)(x)
  {
    hide ProbabilityOf;
  }

  lemma RejectedIsResidual(p: Row, q: Row)
    requires Normalised(p) && Normalised(q) && p.vocab == q.vocab
    ensures Sum(Rejected(p, q), |q.ids|) == Mass(Residual(p, q), |p.ids|)
  {
    hide Sum, Mass, Residual, Rejected, VocabSum;
    RowOnVocab(p, q);
    RowOnVocab(q, p);
    ExcessDifference(p, q);
    VocabSumDifference(p.vocab, Law(p), Law(q), Excess(p, q), Excess(q, p));
  }

  // ---------------------------------------------------------------- the theorems

  /** The emitted token has exactly the target law. */
  lemma SpeculationIsExact(p: Row, q: Row, token: int)
    requires Normalised(p) && Normalised(q) && p.vocab == q.vocab
    ensures EmissionProbability(p, q, token) == ProbabilityOf(p, token)
  {
    hide Mass, ProbabilityOf, CorrectionShares, Rejected, KeptTerms, ReplacedSums, Sum, Residual;
    KeptSum(p, q, token);
    ReplacedSum(p, q, token);
    RejectedIsResidual(p, q);
    var rejected, share := Sum(Rejected(p, q), |q.ids|), Sum(CorrectionShares(p, q, token), |p.ids|);
    if rejected > 0.0 {
      CorrectionShareSum(p, q, token);
      TimesQuotient(rejected, share, Positive(ProbabilityOf(p, token) - ProbabilityOf(q, token)));
    } else {
      NoResidualNoExcess(p, q, token);
      TimesZero(rejected, share);
    }
  }

  lemma TimesQuotient(total: real, share: real, x: real)
    requires total > 0.0 && share == x / total
    ensures total * share == x
  {
  }

  lemma TimesZero(total: real, share: real)
    requires total == 0.0
    ensures total * share == 0.0
  {
  }

  lemma NoResidualNoExcess(p: Row, q: Row, token: int)
    requires Normalised(p) && Mass(Residual(p, q), |p.ids|) <= 0.0
    ensures ProbabilityOf(p, token) <= ProbabilityOf(q, token)
  {
    ProbabilityPositive(p.ids, p.probs, token);
    if ProbabilityOf(p, token) > 0.0 {
      var k :| 0 <= k < |p.ids| && p.ids[k] == token && p.probs[k] > 0.0;
      ProbabilityAt(p.ids, p.probs, k);
      MassMonotone(Residual(p, q), k + 1, |p.ids|);
    }
  }

  lemma RatioAtLeastOne(p: real, q: real)
    requires 0.0 < q <= p
    ensures AcceptProbability(p, q) == 1.0
  {
    assert p / q >= 1.0;
  }

  /** The zero-residual fallback is never reached: without residual mass every draft is accepted. */
  lemma FallbackUnreached(p: Row, q: Row, c: Coins)
    requires Normalised(p) && Normalised(q) && p.vocab == q.vocab && InCube(c)
    requires Mass(Residual(p, q), |p.ids|) <= 0.0
    ensures CellOf(p, q, c).Kept?
  {
    var d := Draw(q.probs, Point(c.draft, 1.0));
    ProbabilityAt(q.ids, q.probs, d);
    RejectedIsResidual(p, q);
    SupportSums(q, p);
    NoResidualNoExcess(q, p, q.ids[d]);
    RatioAtLeastOne(ProbabilityOf(p, q.ids[d]), ProbabilityOf(q, q.ids[d]));
  }

  /** Whatever the draft and the coins, and without any normalisation, an emitted token has positive
      target mass. */
  lemma EmitsOnlySupport(p: Row, q: Row, draft: int, coin: real, coin': real)
    requires 0.0 <= coin && 0.0 <= coin'
    requires Accepted(p, q, draft, coin, coin').Ok?
    ensures var (kept, token) := Accepted(p, q, draft, coin, coin').value;
            ProbabilityOf(p, token) > 0.0 && (kept ==> token == draft)
  {
    var (kept, token) := Accepted(p, q, draft, coin, coin').value;
    if kept {
      AcceptedMass(ProbabilityOf(p, draft), ProbabilityOf(q, draft));
    } else {
      var w := Correction(p, q);
      var k := Draw(w, Point(coin', Mass(w, |w|)));
      assert p.probs[k] > 0.0;
      ProbabilityPositive(p.ids, p.probs, token);
    }
  }
}
