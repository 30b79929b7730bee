/** Round-robin interleaving and the multi-scenario dataset of `github-dataset.ts`. */
module Interleave {
  import opened Arithmetic
  import opened Decimals
  import opened Sequences
  import opened Shuffle

  datatype Result<+T> = Ok(value: T) | Err(error: DatasetError)

  datatype DatasetError = NoScenario | UnknownScenario(id: string)

  // ---------------------------------------------------------------- round robin

  /** The elements that round `i` takes from the first `n` arrays, in array order. */
  function Round<T>(arrays: seq<seq<T>>, i: nat, n: nat): seq<T>
    requires n <= |arrays|
  {
    if n == 0 then []
    else Round(arrays, i, n - 1) + Pick(arrays[n - 1], i)
  }

  function Rounds<T>(arrays: seq<seq<T>>, rounds: nat): seq<T> {
    if rounds == 0 then [] else Rounds(arrays, rounds - 1) + Round(arrays, rounds - 1, |arrays|)
  }

  function MaxLength<T>(arrays: seq<seq<T>>): (m: nat)
    ensures forall a :: a in arrays ==> |a| <= m
    ensures arrays == [] ==> m == 0
    ensures arrays != [] ==> exists a :: a in arrays && |a| == m
  {
    if arrays == [] then 0
    else
      var m := MaxLength(arrays[1..]);
      assert arrays == [arrays[0]] + arrays[1..];
      if |arrays[0]| >= m then |arrays[0]| else m
  }

  method InterleaveArrays<T>(arrays: seq<seq<T>>) returns (result: seq<T>)
    ensures result == Rounds(arrays, MaxLength(arrays))
  {
    hide MaxLength, Round;
    result := [];
    var maxLen := MaxLength(arrays);
    for i := 0 to maxLen
      invariant result == Rounds(arrays, i)
    {
      StartRound(arrays, i);
      for n := 0 to |arrays|
        invariant result == Rounds(arrays, i) + Round(arrays, i, n)
      {
        AppendRound(arrays, i, n, result);
        if i < |arrays[n]| {
          result := result + [arrays[n][i]];
        }
      }
    }
  }

  function Take<T>(a: seq<T>, k: nat): seq<T> {
    if k <= |a| then a[..k] else a
  }

  /** The first `k` elements of each of the first `n` arrays, as a bag. */
  ghost function Bag<T>(arrays: seq<seq<T>>, k: nat, n: nat): multiset<T>
    requires n <= |arrays|
  {
    if n == 0 then multiset{} else Bag(arrays, k, n - 1) + multiset(Take(arrays[n - 1], k))
  }

  lemma {:induction false} RoundAddsToBag<T>(arrays: seq<seq<T>>, i: nat, n: nat)
    requires n <= |arrays|
    ensures Bag(arrays, i + 1, n) == Bag(arrays, i, n) + multiset(Round(arrays, i, n))
  {
    hide *;
    if n == 0 {
      NoArrays(arrays, i);
    } else {
      RoundAddsToBag(arrays, i, n - 1);
      UnfoldBag(arrays, i, n);
      UnfoldBag(arrays, i + 1, n);
      UnfoldRound(arrays, i, n);
      TakeOneMore(arrays[n - 1], i);
      AddPiece(Bag(arrays, i, n - 1), multiset(Round(arrays, i, n - 1)),
               multiset(Take(arrays[n - 1], i)), multiset(Pick(arrays[n - 1], i)),
               Bag(arrays, i + 1, n - 1), multiset(Take(arrays[n - 1], i + 1)));
    }
  }

  lemma NoArrays<T>(arrays: seq<seq<T>>, i: nat)
    ensures Bag(arrays, i + 1, 0) == Bag(arrays, i, 0) + multiset(Round(arrays, i, 0))
  {
    hide Take, Pick;
  }

  lemma AddPiece<T>(bag: multiset<T>, round: multiset<T>, take: multiset<T>, pick: multiset<T>,
                    bag': multiset<T>, take': multiset<T>)
    requires bag' == bag + round && take' == take + pick
    ensures bag' + take' == (bag + take) + (round + pick)
  {
  }

  lemma UnfoldBag<T>(arrays: seq<seq<T>>, k: nat, n: nat)
    requires 0 < n <= |arrays|
    ensures Bag(arrays, k, n) == Bag(arrays, k, n - 1) + multiset(Take(arrays[n - 1], k))
  {
  }

  lemma UnfoldRound<T>(arrays: seq<seq<T>>, i: nat, n: nat)
    requires 0 < n <= |arrays|
    ensures multiset(Round(arrays, i, n)) == multiset(Round(arrays, i, n - 1)) + multiset(Pick(arrays[n - 1], i))
  {
    BagOfConcat(Round(arrays, i, n - 1), Pick(arrays[n - 1], i), Round(arrays, i, n));
  }

  function Pick<T>(a: seq<T>, i: nat): seq<T> {
    if i < |a| then [a[i]] else []
  }

  lemma TakeOneMore<T>(a: seq<T>, i: nat)
    ensures multiset(Take(a, i + 1)) == multiset(Take(a, i)) + multiset(Pick(a, i))
  {
    assert Take(a, i + 1) == Take(a, i) + Pick(a, i);
  }

  lemma {:induction false} RoundsAreBag<T>(arrays: seq<seq<T>>, rounds: nat)
    ensures multiset(Rounds(arrays, rounds)) == Bag(arrays, rounds, |arrays|)
  {
    hide *;
    if rounds == 0 {
      NoRounds(arrays);
    } else {
      RoundsAreBag(arrays, rounds - 1);
      AddRound(arrays, rounds - 1);
    }
  }

  lemma NoRounds<T>(arrays: seq<seq<T>>)
    ensures multiset(Rounds(arrays, 0)) == Bag(arrays, 0, |arrays|)
  {
    EmptyBag(arrays, |arrays|);
  }

  lemma AddRound<T>(arrays: seq<seq<T>>, r: nat)
    requires multiset(Rounds(arrays, r)) == Bag(arrays, r, |arrays|)
    ensures multiset(Rounds(arrays, r + 1)) == Bag(arrays, r + 1, |arrays|)
  {
    hide Bag, Round;
    RoundAddsToBag(arrays, r, |arrays|);
    BagOfConcat(Rounds(arrays, r), Round(arrays, r, |arrays|), Rounds(arrays, r + 1));
  }

  lemma EmptyBag<T>(arrays: seq<seq<T>>, n: nat)
    requires n <= |arrays|
    ensures Bag(arrays, 0, n) == multiset{}
  {
  }

  ghost function Concat<T>(arrays: seq<seq<T>>): seq<T> {
    if arrays == [] then [] else Concat(arrays[..|arrays| - 1]) + arrays[|arrays| - 1]
  }

  lemma UnfoldConcat<T>(arrays: seq<seq<T>>, n: nat)
    requires 0 < n <= |arrays|
    ensures multiset(Concat(arrays[..n])) == multiset(Concat(arrays[..n - 1])) + multiset(arrays[n - 1])
  {
    assert arrays[..n][..n - 1] == arrays[..n - 1];
    BagOfConcat(Concat(arrays[..n - 1]), arrays[n - 1], Concat(arrays[..n]));
  }

  lemma TakeAll<T>(a: seq<T>, k: nat)
    requires |a| <= k
    ensures Take(a, k) == a
  {
  }

  lemma {:induction false} FullBag<T>(arrays: seq<seq<T>>, k: nat, n: nat)
    requires n <= |arrays| && forall m :: 0 <= m < |arrays| ==> |arrays[m]| <= k
    ensures Bag(arrays, k, n) == multiset(Concat(arrays[..n]))
  {
    if n > 0 {
      hide *;
      FullBag(arrays, k, n - 1);
      UnfoldBag(arrays, k, n);
      UnfoldConcat(arrays, n);
      TakeAll(arrays[n - 1], k);
    }
  }

  /** Interleaving loses nothing and invents nothing. */
  lemma InterleavingConserves<T>(arrays: seq<seq<T>>)
    ensures multiset(Rounds(arrays, MaxLength(arrays))) == multiset(Concat(arrays))
  {
    RoundsAreBag(arrays, MaxLength(arrays));
    FullBag(arrays, MaxLength(arrays), |arrays|);
    assert arrays[..|arrays|] == arrays;
  }

  // ---------------------------------------------------------------- arrays of one length

  ghost predicate AllOfLength<T>(arrays: seq<seq<T>>, length: nat) {
    forall n :: 0 <= n < |arrays| ==> |arrays[n]| == length
  }

  lemma {:induction false} FullRound<T>(arrays: seq<seq<T>>, i: nat, length: nat, n: nat)
    requires AllOfLength(arrays, length) && i < length && n <= |arrays|
    ensures |Round(arrays, i, n)| == n && forall k :: 0 <= k < n ==> Round(arrays, i, n)[k] == arrays[k][i]
  {
    if n > 0 { FullRound(arrays, i, length, n - 1); }
  }

  lemma {:induction false} RoundsLength<T>(arrays: seq<seq<T>>, length: nat, rounds: nat)
    requires AllOfLength(arrays, length) && rounds <= length
    ensures |Rounds(arrays, rounds)| == rounds * |arrays|
  {
    if rounds > 0 {
      hide Round;
      RoundsLength(arrays, length, rounds - 1);
      FullRound(arrays, rounds - 1, length, |arrays|);
      assert rounds * |arrays| == (rounds - 1) * |arrays| + |arrays|;
    }
  }

  /** With arrays of one length, position `i * m + k` holds element `i` of array `k`. */
  lemma {:induction false} PositionLaw<T>(arrays: seq<seq<T>>, length: nat, rounds: nat, i: nat, k: nat)
    requires AllOfLength(arrays, length) && i < rounds <= length && k < |arrays|
    ensures |Rounds(arrays, rounds)| == rounds * |arrays| && 0 <= i * |arrays| + k < rounds * |arrays|
    ensures Rounds(arrays, rounds)[i * |arrays| + k] == arrays[k][i]
  {
    var m := |arrays|;
    RoundsLength(arrays, length, rounds);
    RoundsLength(arrays, length, rounds - 1);
    assert rounds * m == (rounds - 1) * m + m;
    if i == rounds - 1 {
      FullRound(arrays, i, length, m);
    } else {
      PositionLaw(arrays, length, rounds - 1, i, k);
    }
  }

  // ---------------------------------------------------------------- the scenario dataset

  datatype Category = Read | Write | Workflow

  datatype Scenario = Scenario(id: string, category: Category, prompt: string)

  datatype Template = Template(id: string, category: Category, prompts: seq<string>)

  /** The random content: the raw prompt at an index, filled in on the given call. */
  type Filler = (string, nat, nat) -> string

  function GenerateScenario(t: Template, promptIndex: nat, call: nat, fill: Filler): Scenario
    requires |t.prompts| > 0
  {
    Scenario(t.id + "-" + Decimal(promptIndex), t.category, fill(t.prompts[promptIndex % |t.prompts|], promptIndex, call))
  }

  /** Example number `i` of one template, which cycles through its prompts. */
  function Variation(t: Template, i: nat, fill: Filler): Scenario
    requires |t.prompts| > 0
  {
    GenerateScenario(t, i % |t.prompts|, i, fill)
  }

  predicate HasBase(s: Scenario, id: string) {
    id + "-" <= s.id
  }

  /** A scenario belongs to an id when its own id is that id, a dash, and anything behind it. */
  lemma HasBaseExactlyWhen(s: Scenario, id: string)
    ensures HasBase(s, id) <==> exists rest :: s.id == id + "-" + rest
  {
    if HasBase(s, id) {
      assert s.id == id + "-" + s.id[|id + "-"|..];
    }
  }

  ghost predicate AllBase(scenarios: seq<Scenario>, id: string) {
    forall s :: s in scenarios ==> HasBase(s, id)
  }

  ghost predicate ValidTemplates(templates: seq<Template>) {
    forall t :: t in templates ==> |t.prompts| > 0
  }

  function Find(templates: seq<Template>, id: string): (r: int)
    ensures -1 <= r < |templates|
    ensures r >= 0 ==> templates[r].id == id
    ensures r < 0 ==> forall t :: t in templates ==> t.id != id
  {
    if templates == [] then -1
    else if templates[0].id == id then 0
    else
      var r := Find(templates[1..], id);
      assert templates == [templates[0]] + templates[1..];
      if r < 0 then -1 else r + 1
  }

  method GenerateSingleScenarioDataset(templates: seq<Template>, id: string, numExamples: nat, fill: Filler, draws: seq<nat>)
    returns (result: Result<seq<Scenario>>)
    requires ValidTemplates(templates) && ValidChoices(draws, numExamples)
    ensures result.Err? <==> forall t :: t in templates ==> t.id != id
    ensures result.Err? ==> result.error == UnknownScenario(id)
    ensures result.Ok? ==> |result.value| == numExamples && AllBase(result.value, id)
    ensures result.Ok? ==> multiset(result.value) == multiset(Variations(templates, id, numExamples, fill))
    ensures result.Ok? ==> exists t :: EvenPrompts(result.value, t, id, numExamples, fill) && t in templates
  {
    hide HasBase, AllBase, Shuffled, EvenPrompts;
    var found := Find(templates, id);
    if found < 0 {
      return Err(UnknownScenario(id));
    }
    var scenarios: array<Scenario> := new Scenario[numExamples](i => Variation(templates[found], 0, fill));
    for i := 0 to numExamples
      invariant forall k :: 0 <= k < i ==> scenarios[k] == Variation(templates[found], k, fill)
    {
      scenarios[i] := Variation(templates[found], i, fill);
    }
    assert scenarios[..] == Variations(templates, id, numExamples, fill);
    ghost var generated := scenarios[..];
    VariationsHaveBase(templates, id, numExamples, fill);
    ShuffledPermutes(generated, draws, numExamples);
    ShuffleArray(scenarios, draws);
    PermutedBase(generated, scenarios[..], id);
    VariationsAreEven(templates, id, numExamples, fill);
    PermutedEven(generated, scenarios[..], templates[found], id, numExamples, fill);
    return Ok(scenarios[..]);
  }

  function WithId(id: string): Scenario -> bool {
    (s: Scenario) => s.id == id
  }

  /** Every prompt of the template is used as often as its turn comes, and every scenario is one of them. */
  ghost predicate EvenPrompts(s: seq<Scenario>, t: Template, id: string, n: nat, fill: Filler) {
    && t.id == id && |t.prompts| > 0
    && (forall k :: 0 <= k < |t.prompts| ==> CountWhere(s, WithId(id + "-" + Decimal(k))) == Turns(n, |t.prompts|, k))
    && (forall x :: x in s ==> FromPrompt(x, t, fill))
  }

  ghost predicate FromPrompt(x: Scenario, t: Template, fill: Filler) {
    exists k, call :: 0 <= k < |t.prompts| && 0 <= call && x == Scenario(t.id + "-" + Decimal(k), t.category, fill(t.prompts[k], k, call))
  }

  lemma PermutedEven(s: seq<Scenario>, s': seq<Scenario>, t: Template, id: string, n: nat, fill: Filler)
    requires multiset(s) == multiset(s') && EvenPrompts(s, t, id, n, fill)
    ensures EvenPrompts(s', t, id, n, fill)
  {
    hide FromPrompt, CountWhere, Decimal, Turns;
    forall k | 0 <= k < |t.prompts|
      ensures CountWhere(s', WithId(id + "-" + Decimal(k))) == Turns(n, |t.prompts|, k)
    {
      CountOfBag(s, s', WithId(id + "-" + Decimal(k)));
    }
    forall x | x in s' ensures FromPrompt(x, t, fill) {
      assert x in multiset(s);
    }
  }

  lemma {:induction false} VariationsAreEven(templates: seq<Template>, id: string, n: nat, fill: Filler)
    requires ValidTemplates(templates) && Find(templates, id) >= 0
    ensures EvenPrompts(Variations(templates, id, n, fill), templates[Find(templates, id)], id, n, fill)
  {
    hide Find, EvenPrompts, Variation;
    var t := templates[Find(templates, id)];
    assert t in templates && t.id == id;
    if n == 0 {
      NothingEven(t, fill);
      assert Variations(templates, id, 0, fill) == [];
    } else {
      VariationsAreEven(templates, id, n - 1, fill);
      EvenNext(Variations(templates, id, n - 1, fill), t, n - 1, fill);
      assert Variations(templates, id, n, fill) == Variations(templates, id, n - 1, fill) + [Variation(t, n - 1, fill)];
    }
  }

  lemma NothingEven(t: Template, fill: Filler)
    requires |t.prompts| > 0
    ensures EvenPrompts([], t, t.id, 0, fill)
  {
    hide Decimal;
    DivisionUnique(0, |t.prompts|, 0, 0);
  }

  lemma EvenNext(s: seq<Scenario>, t: Template, n: nat, fill: Filler)
    requires EvenPrompts(s, t, t.id, n, fill)
    ensures EvenPrompts(s + [Variation(t, n, fill)], t, t.id, n + 1, fill)
  {
    hide FromPrompt, CountWhere, Decimal, Turns, Variation;
    forall k | 0 <= k < |t.prompts|
      ensures CountWhere(s + [Variation(t, n, fill)], WithId(t.id + "-" + Decimal(k))) == Turns(n + 1, |t.prompts|, k)
    {
      NextTurn(n, |t.prompts|, k);
      CountConcat(s, [Variation(t, n, fill)], WithId(t.id + "-" + Decimal(k)));
      OneTurn(t, n, fill, k);
    }
    LastFromPrompt(t, n, fill);
  }

  lemma OneTurn(t: Template, n: nat, fill: Filler, k: nat)
    requires k < |t.prompts|
    ensures CountWhere([Variation(t, n, fill)], WithId(t.id + "-" + Decimal(k))) == if n % |t.prompts| == k then 1 else 0
  {
    hide Decimal;
    SameNumeral(t.id, n % |t.prompts|, k);
    assert [Variation(t, n, fill)][..0] == [];
  }

  lemma LastFromPrompt(t: Template, i: nat, fill: Filler)
    requires |t.prompts| > 0
    ensures FromPrompt(Variation(t, i, fill), t, fill)
  {
    var k := i % |t.prompts|;
    SmallRemainder(k, |t.prompts|);
    assert Variation(t, i, fill) == Scenario(t.id + "-" + Decimal(k), t.category, fill(t.prompts[k], k, i));
  }

  lemma SmallRemainder(k: nat, m: nat)
    requires k < m
    ensures k % m == k
  {
    DivisionUnique(k, m, 0, k);
  }

  /** Numerals are equal only for equal numbers. */
  lemma SameNumeral(id: string, j: nat, k: nat)
    ensures id + "-" + Decimal(j) == id + "-" + Decimal(k) <==> j == k
  {
    hide Decimal, Digits;
    if id + "-" + Decimal(j) == id + "-" + Decimal(k) {
      ConcatInjective(id + "-", Decimal(j), id + "-", Decimal(k));
    }
  }

  lemma VariationsHaveBase(templates: seq<Template>, id: string, n: nat, fill: Filler)
    requires ValidTemplates(templates)
    ensures AllBase(Variations(templates, id, n, fill), id)
  {
  }

  lemma PermutedBase(s: seq<Scenario>, t: seq<Scenario>, id: string)
    requires multiset(s) == multiset(t) && AllBase(s, id)
    ensures AllBase(t, id)
  {
    forall x | x in t ensures HasBase(x, id) {
      assert x in multiset(s);
    }
  }

  /** The examples generated for one id before they are shuffled. */
  ghost function Variations(templates: seq<Template>, id: string, n: nat, fill: Filler): seq<Scenario>
    requires ValidTemplates(templates)
  {
    var found := Find(templates, id);
    if found < 0 then [] else seq(n, i requires 0 <= i => Variation(templates[found], i, fill))
  }

  function WithBase(scenarios: seq<Scenario>, id: string): (r: seq<Scenario>)
    ensures forall s :: s in r ==> HasBase(s, id)
  {
    if scenarios == [] then []
    else WithBase(scenarios[..|scenarios| - 1], id)
         + if HasBase(scenarios[|scenarios| - 1], id) then [scenarios[|scenarios| - 1]] else []
  }

  function Groups(scenarios: seq<Scenario>, ids: seq<string>): (g: seq<seq<Scenario>>)
    ensures |g| == |ids| && forall n :: 0 <= n < |ids| ==> g[n] == WithBase(scenarios, ids[n])
  {
    seq(|ids|, n requires 0 <= n < |ids| => WithBase(scenarios, ids[n]))
  }

  lemma AppendRound<T>(arrays: seq<seq<T>>, i: nat, n: nat, prefix: seq<T>)
    requires n < |arrays| && prefix == Rounds(arrays, i) + Round(arrays, i, n)
    ensures prefix + Pick(arrays[n], i) == Rounds(arrays, i) + Round(arrays, i, n + 1)
  {
  }

  lemma StartRound<T>(arrays: seq<seq<T>>, i: nat)
    ensures Rounds(arrays, i) == Rounds(arrays, i) + Round(arrays, i, 0)
  {
  }

  /** Groups are keyed by id, so a repeated id meets the same group twice. */
  method InterleaveByScenarioId(scenarios: seq<Scenario>, ids: seq<string>) returns (result: seq<Scenario>)
    ensures result == Rounds(Groups(scenarios, ids), MaxLength(Groups(scenarios, ids)))
  {
    hide WithBase, HasBase, MaxLength, Round;
    var byId: map<string, seq<Scenario>> := map[];
    for n := 0 to |ids|
      invariant forall k :: 0 <= k < n ==> ids[k] in byId
      invariant forall id :: id in byId ==> byId[id] == WithBase(scenarios, id)
    {
      byId := byId[ids[n] := WithBase(scenarios, ids[n])];
    }
    ghost var groups := Groups(scenarios, ids);
    result := [];
    var maxLen := MaxLength(Groups(scenarios, ids));
    for i := 0 to maxLen
      invariant result == Rounds(groups, i)
    {
      StartRound(groups, i);
      for n := 0 to |ids|
        invariant result == Rounds(groups, i) + Round(groups, i, n)
      {
        var arr := byId[ids[n]];
        assert arr == groups[n];
        AppendRound(groups, i, n, result);
        if i < |arr| {
          result := result + [arr[i]];
        }
      }
    }
  }

  // ---------------------------------------------------------------- the multi-scenario dataset

  /** Distinct ids, none of which followed by `-` starts another followed by `-`. */
  ghost predicate Separated(ids: seq<string>) {
    forall a, b :: 0 <= a < |ids| && 0 <= b < |ids| && a != b ==> !(ids[a] + "-" <= ids[b] + "-")
  }

  /** A scenario belongs to at most one of separated ids. */
  lemma BaseIsUnique(s: Scenario, ids: seq<string>, a: nat)
    requires Separated(ids) && a < |ids| && HasBase(s, ids[a])
    ensures forall b :: 0 <= b < |ids| && HasBase(s, ids[b]) ==> a == b
  {
    forall b | 0 <= b < |ids| && HasBase(s, ids[b]) ensures a == b {
      var p, q := ids[a] + "-", ids[b] + "-";
      assert p == s.id[..|p|] && q == s.id[..|q|];
      assert p <= q || q <= p;
    }
  }

  lemma WithBaseAll(s: seq<Scenario>, id: string)
    requires AllBase(s, id)
    ensures WithBase(s, id) == s
  {
  }

  lemma WithBaseNone(s: seq<Scenario>, id: string)
    requires forall x :: x in s ==> !HasBase(x, id)
    ensures WithBase(s, id) == []
  {
  }

  lemma {:induction false} WithBaseConcat(s: seq<Scenario>, t: seq<Scenario>, id: string)
    ensures WithBase(s + t, id) == WithBase(s, id) + WithBase(t, id)
  {
    if t == [] {
      assert s + t == s;
    } else {
      var init, last := t[..|t| - 1], t[|t| - 1];
      var kept := if HasBase(last, id) then [last] else [];
      WithBaseConcat(s, init, id);
      assert (s + t)[..|s + t| - 1] == s + init && (s + t)[|s + t| - 1] == last;
      assert WithBase(s + t, id) == WithBase(s + init, id) + kept;
      assert (WithBase(s, id) + WithBase(init, id)) + kept == WithBase(s, id) + (WithBase(init, id) + kept);
    }
  }

  /** `parts[n]` holds `per` examples of `ids[n]`. */
  ghost predicate PartsOf(parts: seq<seq<Scenario>>, ids: seq<string>, per: nat) {
    && |parts| <= |ids|
    && (forall n :: 0 <= n < |parts| ==> |parts[n]| == per)
    && (forall n :: 0 <= n < |parts| ==> AllBase(parts[n], ids[n]))
  }

  /** Filtering the concatenation by one separated id gives back that id's part. */
  lemma {:induction false} FilterRecoversPart(parts: seq<seq<Scenario>>, ids: seq<string>, per: nat, n: nat, k: nat)
    requires Separated(ids) && PartsOf(parts, ids, per) && n <= |parts| && k < |ids|
    ensures WithBase(Concat(parts[..n]), ids[k]) == if k < n then parts[k] else []
  {
    hide *;
    if n == 0 {
      assert parts[..0] == [];
      NothingToFilter(ids[k]);
    } else {
      PartBases(parts, ids, per, n - 1);
      FilterRecoversPart(parts, ids, per, n - 1, k);
      FilterNext(parts, ids, n, k);
      var before := WithBase(Concat(parts[..n - 1]), ids[k]);
      assert before + [] == before;
      assert [] + parts[n - 1] == parts[n - 1];
    }
  }

  lemma NothingToFilter(id: string)
    ensures WithBase(Concat([]), id) == []
  {
  }

  lemma FilterNext(parts: seq<seq<Scenario>>, ids: seq<string>, n: nat, k: nat)
    requires Separated(ids) && 0 < n <= |parts| && n <= |ids| && k < |ids|
    requires AllBase(parts[n - 1], ids[n - 1])
    ensures WithBase(Concat(parts[..n]), ids[k])
            == WithBase(Concat(parts[..n - 1]), ids[k]) + if k == n - 1 then parts[n - 1] else []
  {
    hide WithBase;
    ConcatNext(parts, n);
    WithBaseConcat(Concat(parts[..n - 1]), parts[n - 1], ids[k]);
    FilterOnePart(parts[n - 1], ids, n - 1, k);
  }

  lemma PartBases(parts: seq<seq<Scenario>>, ids: seq<string>, per: nat, n: nat)
    requires PartsOf(parts, ids, per) && n < |parts|
    ensures n < |ids| && AllBase(parts[n], ids[n])
  {
  }

  lemma ConcatNext<T>(parts: seq<seq<T>>, n: nat)
    requires 0 < n <= |parts|
    ensures Concat(parts[..n]) == Concat(parts[..n - 1]) + parts[n - 1]
  {
    assert parts[..n][..n - 1] == parts[..n - 1];
  }

  lemma FilterOnePart(part: seq<Scenario>, ids: seq<string>, n: nat, k: nat)
    requires Separated(ids) && n < |ids| && k < |ids| && AllBase(part, ids[n])
    ensures WithBase(part, ids[k]) == if k == n then part else []
  {
    if k == n {
      WithBaseAll(part, ids[k]);
    } else {
      forall x | x in part ensures !HasBase(x, ids[k]) {
        BaseIsUnique(x, ids, n);
      }
      WithBaseNone(part, ids[k]);
    }
  }

  lemma GroupsAreParts(parts: seq<seq<Scenario>>, ids: seq<string>, per: nat)
    requires Separated(ids) && PartsOf(parts, ids, per) && |parts| == |ids|
    ensures Groups(Concat(parts), ids) == parts
    ensures ids != [] ==> MaxLength(parts) == per
  {
    hide Concat, WithBase, HasBase, AllBase, Separated;
    forall k | 0 <= k < |ids| ensures Groups(Concat(parts), ids)[k] == parts[k] {
      FilterRecoversPart(parts, ids, per, |parts|, k);
      assert parts[..|parts|] == parts;
    }
  }

  /** Entry `x` of the interleaving belongs to id `x % m`. */
  lemma EntryBase(parts: seq<seq<Scenario>>, ids: seq<string>, per: nat, x: nat)
    requires PartsOf(parts, ids, per) && |parts| == |ids| > 0 && x < per * |ids|
    ensures |Rounds(parts, per)| == per * |ids| && HasBase(Rounds(parts, per)[x], ids[x % |ids|])
  {
    var m := |ids|;
    var i, k := x / m, x % m;
    assert x == i * m + k;
    ScaleOrder(per, i, m);
    PositionLaw(parts, per, per, i, k);
    assert parts[k][i] in parts[k];
  }

  /** How often id `k` of `m` has had its turn among the first `t` entries. */
  function Turns(t: nat, m: nat, k: nat): nat
    requires m > 0
  {
    t / m + if k < t % m then 1 else 0
  }

  lemma NextTurn(t: nat, m: nat, k: nat)
    requires k < m
    ensures Turns(t + 1, m, k) == Turns(t, m, k) + if t % m == k then 1 else 0
  {
    var q, r := t / m, t % m;
    assert t == q * m + r;
    if r + 1 < m {
      DivisionUnique(t + 1, m, q, r + 1);
    } else {
      assert t + 1 == (q + 1) * m;
      DivisionUnique(t + 1, m, q + 1, 0);
    }
  }

  lemma {:induction false} CountsAreTurns(parts: seq<seq<Scenario>>, ids: seq<string>, per: nat, t: nat, k: nat)
    requires Separated(ids) && PartsOf(parts, ids, per) && |parts| == |ids|
    requires k < |ids| && t <= per * |ids|
    ensures |Rounds(parts, per)| == per * |ids|
    ensures |WithBase(Rounds(parts, per)[..t], ids[k])| == Turns(t, |ids|, k)
  {
    RoundsLength(parts, per, per);
    if t > 0 {
      var all := Rounds(parts, per);
      CountsAreTurns(parts, ids, per, t - 1, k);
      EntryBase(parts, ids, per, t - 1);
      assert all[..t][..t - 1] == all[..t - 1];
      BaseIsUnique(all[t - 1], ids, (t - 1) % |ids|);
      NextTurn(t - 1, |ids|, k);
    } else {
      DivisionUnique(0, |ids|, 0, 0);
    }
  }

  /** What the generated dataset promises. */
  ghost predicate BalancedSample(result: seq<Scenario>, generated: multiset<Scenario>, ids: seq<string>, total: nat) {
    && |result| == total
    && multiset(result) <= generated
    && (forall j, k :: 0 <= j < |ids| && 0 <= k < |ids|
          ==> |WithBase(result, ids[j])| <= |WithBase(result, ids[k])| + 1)
    && (forall s :: s in result ==> exists k :: 0 <= k < |ids| && HasBase(s, ids[k]))
  }

  lemma PrefixBag<T>(s: seq<T>, t: nat)
    requires t <= |s|
    ensures multiset(s[..t]) <= multiset(s)
  {
    assert s == s[..t] + s[t..];
  }

  lemma SliceIsBalanced(parts: seq<seq<Scenario>>, ids: seq<string>, per: nat, total: nat)
    requires Separated(ids) && PartsOf(parts, ids, per) && |parts| == |ids| > 0 && total <= per * |ids|
    ensures |Rounds(parts, per)| >= total
    ensures BalancedSample(Rounds(parts, per)[..total], multiset(Concat(parts)), ids, total)
  {
    hide *;
    var all := Rounds(parts, per);
    GroupsAreParts(parts, ids, per);
    PartsLength(parts, ids, per);
    InterleavingConserves(parts);
    PrefixBag(all, total);
    forall j, k | 0 <= j < |ids| && 0 <= k < |ids|
      ensures |WithBase(all[..total], ids[j])| <= |WithBase(all[..total], ids[k])| + 1
    {
      CountsAreTurns(parts, ids, per, total, j);
      CountsAreTurns(parts, ids, per, total, k);
      TurnsAreFair(total, |ids|, j, k);
    }
    forall s | s in all[..total] ensures exists k :: 0 <= k < |ids| && HasBase(s, ids[k]) {
      var x :| 0 <= x < total && all[x] == s;
      EntryBase(parts, ids, per, x);
    }
    Summarise(all[..total], multiset(Concat(parts)), ids, total);
  }

  lemma PartsLength(parts: seq<seq<Scenario>>, ids: seq<string>, per: nat)
    requires PartsOf(parts, ids, per) && |parts| == |ids|
    ensures |Rounds(parts, per)| == per * |ids|
  {
    RoundsLength(parts, per, per);
  }

  lemma TurnsAreFair(t: nat, m: nat, j: nat, k: nat)
    requires m > 0
    ensures Turns(t, m, j) <= Turns(t, m, k) + 1
  {
  }

  lemma Summarise(result: seq<Scenario>, generated: multiset<Scenario>, ids: seq<string>, total: nat)
    requires |result| == total && multiset(result) <= generated
    requires forall j, k :: 0 <= j < |ids| && 0 <= k < |ids|
               ==> |WithBase(result, ids[j])| <= |WithBase(result, ids[k])| + 1
    requires forall s :: s in result ==> exists k :: 0 <= k < |ids| && HasBase(s, ids[k])
    ensures BalancedSample(result, generated, ids, total)
  {
  }

  ghost function AllVariations(templates: seq<Template>, ids: seq<string>, per: nat, fill: Filler): multiset<Scenario>
    requires ValidTemplates(templates)
  {
    if ids == [] then multiset{}
    else AllVariations(templates, ids[..|ids| - 1], per, fill) + multiset(Variations(templates, ids[|ids| - 1], per, fill))
  }

  function PerScenario(total: nat, m: nat): (per: nat)
    requires m > 0
    ensures per * m >= total
  {
    var per := (total + m - 1) / m;
    assert total + m - 1 == per * m + (total + m - 1) % m;
    per
  }

  /** The generation loop: one shuffled dataset per id, concatenated; `parts` are the pieces. */
  method GenerateAll(templates: seq<Template>, ids: seq<string>, per: nat, fill: Filler, draws: seq<seq<nat>>)
    returns (result: Result<seq<Scenario>>, ghost parts: seq<seq<Scenario>>)
    requires ValidTemplates(templates) && |draws| == |ids|
    requires forall n :: 0 <= n < |ids| ==> ValidChoices(draws[n], per)
    ensures result.Err? ==> exists n :: 0 <= n < |ids| && result.error == UnknownScenario(ids[n])
                                        && Find(templates, ids[n]) < 0
    ensures result.Ok? ==> forall n :: 0 <= n < |ids| ==> Find(templates, ids[n]) >= 0
    ensures result.Ok? ==> result.value == Concat(parts) && PartsOf(parts, ids, per) && |parts| == |ids|
    ensures result.Ok? ==> multiset(result.value) == AllVariations(templates, ids, per, fill)
  {
    hide Find, Variations, ValidChoices, WithBase, HasBase, AllBase, AllVariations, Concat, PartsOf;
    NothingYet(templates, ids, per, fill);
    var all: seq<Scenario> := [];
    parts := [];
    for n := 0 to |ids|
      invariant |parts| == n && all == Concat(parts) && PartsOf(parts, ids, per)
      invariant multiset(all) == AllVariations(templates, ids[..n], per, fill)
      invariant forall k :: 0 <= k < n ==> Find(templates, ids[k]) >= 0
    {
      var single := GenerateSingleScenarioDataset(templates, ids[n], per, fill, draws[n]);
      match single
      case Err(e) =>
        UnknownId(templates, ids[n]);
        result := Err(e);
        return;
      case Ok(part) =>
        KnownId(templates, ids[n]);
        AddPart(templates, ids, per, fill, n, parts, part);
        all, parts := all + part, parts + [part];
    }
    assert ids[..|ids|] == ids;
    result := Ok(all);
  }

  lemma NothingYet(templates: seq<Template>, ids: seq<string>, per: nat, fill: Filler)
    requires ValidTemplates(templates)
    ensures Concat<Scenario>([]) == [] && PartsOf([], ids, per)
    ensures multiset(Concat<Scenario>([])) == AllVariations(templates, ids[..0], per, fill)
  {
  }

  lemma AddPart(templates: seq<Template>, ids: seq<string>, per: nat, fill: Filler, n: nat,
                parts: seq<seq<Scenario>>, part: seq<Scenario>)
    requires ValidTemplates(templates) && n == |parts| < |ids| && PartsOf(parts, ids, per)
    requires |part| == per && AllBase(part, ids[n])
    requires multiset(Concat(parts)) == AllVariations(templates, ids[..n], per, fill)
    requires multiset(part) == multiset(Variations(templates, ids[n], per, fill))
    ensures PartsOf(parts + [part], ids, per)
    ensures Concat(parts + [part]) == Concat(parts) + part
    ensures multiset(Concat(parts) + part) == AllVariations(templates, ids[..n + 1], per, fill)
  {
    hide AllVariations, WithBase, HasBase, AllBase, Variations;
    assert (parts + [part])[..n] == parts;
    NextVariations(templates, ids, per, fill, n);
    BagOfConcat(Concat(parts), part, Concat(parts) + part);
  }

  lemma NextVariations(templates: seq<Template>, ids: seq<string>, per: nat, fill: Filler, n: nat)
    requires ValidTemplates(templates) && n < |ids|
    ensures AllVariations(templates, ids[..n + 1], per, fill)
            == AllVariations(templates, ids[..n], per, fill) + multiset(Variations(templates, ids[n], per, fill))
  {
    assert ids[..n + 1][..n] == ids[..n];
  }

  method GenerateMultiScenarioDataset(templates: seq<Template>, ids: seq<string>, total: nat, fill: Filler,
                                      draws: seq<seq<nat>>)
    returns (result: Result<seq<Scenario>>)
    requires ValidTemplates(templates) && |draws| == |ids|
    requires forall n :: 0 <= n < |ids| ==> ValidChoices(draws[n], PerScenario(total, |ids|))
    ensures ids == [] ==> result == Err(NoScenario)
    ensures result.Err? && ids != [] ==> exists n :: 0 <= n < |ids| && result.error == UnknownScenario(ids[n])
                                                     && Find(templates, ids[n]) < 0
    ensures result.Ok? ==> forall n :: 0 <= n < |ids| ==> Find(templates, ids[n]) >= 0
    ensures result.Ok? && Separated(ids) ==>
              BalancedSample(result.value, AllVariations(templates, ids, PerScenario(total, |ids|), fill), ids, total)
  {
    if |ids| == 0 {
      return Err(NoScenario);
    }
    hide Find, AllVariations, ValidChoices, WithBase, Rounds, Groups, BalancedSample, PartsOf, Concat, MaxLength, Separated;
    var per := PerScenario(total, |ids|);
    var all, parts := GenerateAll(templates, ids, per, fill, draws);
    if all.Err? {
      return all;
    }
    var interleaved := InterleaveByScenarioId(all.value, ids);
    if Separated(ids) {
      GroupsAreParts(parts, ids, per);
      SliceIsBalanced(parts, ids, per, total);
    }
    return Ok(if total <= |interleaved| then interleaved[..total] else interleaved);
  }

  lemma UnknownId(templates: seq<Template>, id: string)
    requires forall t :: t in templates ==> t.id != id
    ensures Find(templates, id) < 0
  {
  }

  lemma KnownId(templates: seq<Template>, id: string)
    requires exists t :: t in templates && t.id == id
    ensures Find(templates, id) >= 0
  {
  }
}
