/** The curriculum of `github-dataset.ts`: fixed shares of read, write and workflow examples, shuffled
    within each category and interleaved. */
module Curriculum {
  import opened Arithmetic
  import opened Decimals
  import opened Sequences
  import opened Shuffle
  import opened Interleave

  function OfCategory(templates: seq<Template>, c: Category): (r: seq<Template>)
    ensures forall t :: t in r ==> t in templates && t.category == c
    ensures forall t :: t in templates && t.category == c ==> t in r
  {
    if templates == [] then []
    else
      var init, last := templates[..|templates| - 1], templates[|templates| - 1];
      assert templates == init + [last];
      OfCategory(init, c) + if last.category == c then [last] else []
  }

  /** Every category has a template, and every template a prompt. */
  ghost predicate CompleteTemplates(templates: seq<Template>) {
    ValidTemplates(templates) && forall c :: OfCategory(templates, c) != []
  }

  /** Example `i` of a category cycles through its templates first, then through their prompts. */
  function Example(ts: seq<Template>, i: nat, fill: Filler): Scenario
    requires ts != [] && ValidTemplates(ts)
  {
    GenerateScenario(ts[i % |ts|], i / |ts|, i, fill)
  }

  ghost function Examples(templates: seq<Template>, c: Category, n: nat, fill: Filler): (r: seq<Scenario>)
    requires CompleteTemplates(templates)
    ensures |r| == n && forall s :: s in r ==> s.category == c
  {
    var ts := OfCategory(templates, c);
    seq(n, i requires 0 <= i < n => Example(ts, i, fill))
  }

  /** Example `q * m + k` of `m` templates is template `k` with its prompt number `q`. */
  lemma ExampleAt(templates: seq<Template>, c: Category, n: nat, fill: Filler, q: nat, k: nat)
    requires CompleteTemplates(templates) && k < |OfCategory(templates, c)| && q * |OfCategory(templates, c)| + k < n
    ensures var ts := OfCategory(templates, c);
            0 < |ts[k].prompts| && 0 <= q * |ts| + k < n
            && Examples(templates, c, n, fill)[q * |ts| + k]
               == Scenario(ts[k].id + "-" + Decimal(q), c, fill(ts[k].prompts[q % |ts[k].prompts|], q, q * |ts| + k))
  {
    hide CompleteTemplates, OfCategory;
    var ts := OfCategory(templates, c);
    assert ts[k] in ts;
    AllValid(templates, c);
    DivisionUnique(q * |ts| + k, |ts|, q, k);
  }

  lemma AllValid(templates: seq<Template>, c: Category)
    requires CompleteTemplates(templates)
    ensures OfCategory(templates, c) != [] && ValidTemplates(OfCategory(templates, c)) && ValidTemplates(templates)
    ensures forall t :: t in OfCategory(templates, c) ==> t.category == c
  {
  }

  function InCategory(c: Category): Scenario -> bool {
    (s: Scenario) => s.category == c
  }

  /** How many scenarios of `s` belong to category `c`. */
  function CountByCategory(s: seq<Scenario>, c: Category): nat {
    CountWhere(s, InCategory(c))
  }

  lemma CountPure(s: seq<Scenario>, own: Category, c: Category)
    requires forall x :: x in s ==> x.category == own
    ensures CountByCategory(s, c) == if c == own then |s| else 0
  {
    CountAll(s, InCategory(c));
  }

  /** One category: its examples in some order. */
  method GenerateCategory(templates: seq<Template>, c: Category, n: nat, fill: Filler, draws: seq<nat>)
    returns (scenarios: array<Scenario>)
    requires CompleteTemplates(templates) && ValidChoices(draws, n)
    ensures fresh(scenarios) && multiset(scenarios[..]) == multiset(Examples(templates, c, n, fill))
  {
    hide Shuffled;
    var ts := OfCategory(templates, c);
    scenarios := new Scenario[n](i => Example(ts, 0, fill));
    for i := 0 to n
      invariant forall k :: 0 <= k < i ==> scenarios[k] == Example(ts, k, fill)
    {
      scenarios[i] := Example(ts, i, fill);
    }
    assert scenarios[..] == Examples(templates, c, n, fill);
    ShuffledPermutes(scenarios[..], draws, n);
    ShuffleArray(scenarios, draws);
  }

  function ReadCount(n: nat): nat {
    n / 4
  }

  function WriteCount(n: nat): nat {
    n * 45 / 100
  }

  lemma SharesFit(n: nat)
    ensures ReadCount(n) + WriteCount(n) <= n
  {
  }

  function WorkflowCount(n: nat): nat {
    SharesFit(n);
    n - ReadCount(n) - WriteCount(n)
  }

  /** A curriculum of `n` examples holds exactly the generated examples of each category in its share,
      whatever the shuffles. */
  method GenerateCurriculumDataset(templates: seq<Template>, n: nat, fill: Filler,
                                   readDraws: seq<nat>, writeDraws: seq<nat>, workflowDraws: seq<nat>)
    returns (result: seq<Scenario>)
    requires CompleteTemplates(templates)
    requires ValidChoices(readDraws, ReadCount(n)) && ValidChoices(writeDraws, WriteCount(n))
    requires ValidChoices(workflowDraws, WorkflowCount(n))
    ensures |result| == n
    ensures multiset(result) == multiset(Examples(templates, Read, ReadCount(n), fill))
                                + multiset(Examples(templates, Write, WriteCount(n), fill))
                                + multiset(Examples(templates, Workflow, WorkflowCount(n), fill))
    ensures 4 * CountByCategory(result, Read) <= n < 4 * CountByCategory(result, Read) + 4
    ensures 20 * CountByCategory(result, Write) <= 9 * n < 20 * CountByCategory(result, Write) + 20
    ensures CountByCategory(result, Read) + CountByCategory(result, Write) + CountByCategory(result, Workflow) == n
  {
    hide Examples, ReadCount, WriteCount, WorkflowCount, ValidChoices, CountByCategory, CompleteTemplates, MaxLength, Rounds;
    var read := GenerateCategory(templates, Read, ReadCount(n), fill, readDraws);
    var write := GenerateCategory(templates, Write, WriteCount(n), fill, writeDraws);
    var workflow := GenerateCategory(templates, Workflow, WorkflowCount(n), fill, workflowDraws);
    result := InterleaveArrays([read[..], write[..], workflow[..]]);
    ThreePartsConserved(read[..], write[..], workflow[..]);
    CountThree(result, Examples(templates, Read, ReadCount(n), fill), Examples(templates, Write, WriteCount(n), fill),
               Examples(templates, Workflow, WorkflowCount(n), fill));
    SharesAddUp(n);
  }

  lemma SharesAddUp(n: nat)
    ensures ReadCount(n) + WriteCount(n) + WorkflowCount(n) == n
    ensures 4 * ReadCount(n) <= n < 4 * ReadCount(n) + 4 && 20 * WriteCount(n) <= 9 * n < 20 * WriteCount(n) + 20
  {
  }

  lemma ThreePartsConserved(a: seq<Scenario>, b: seq<Scenario>, c: seq<Scenario>)
    ensures multiset(Rounds([a, b, c], MaxLength([a, b, c]))) == multiset(a) + multiset(b) + multiset(c)
  {
    hide Rounds, MaxLength, Concat;
    var arrays := [a, b, c];
    InterleavingConserves(arrays);
    UnfoldConcat(arrays, 1);
    UnfoldConcat(arrays, 2);
    UnfoldConcat(arrays, 3);
    assert arrays[..3] == arrays && arrays[..0] == [];
    NoneConcat();
  }

  lemma NoneConcat()
    ensures multiset(Concat<Scenario>([])) == multiset{}
  {
  }

  lemma BagByCategory(result: seq<Scenario>, a: seq<Scenario>, b: seq<Scenario>, d: seq<Scenario>, c: Category)
    requires multiset(result) == multiset(a + b + d)
    ensures CountByCategory(result, c) == CountByCategory(a, c) + CountByCategory(b, c) + CountByCategory(d, c)
  {
    CountOfBag(result, a + b + d, InCategory(c));
    CountConcat(a + b, d, InCategory(c));
    CountConcat(a, b, InCategory(c));
  }

  lemma CountThree(result: seq<Scenario>, readPart: seq<Scenario>, writePart: seq<Scenario>, workflowPart: seq<Scenario>)
    requires multiset(result) == multiset(readPart) + multiset(writePart) + multiset(workflowPart)
    requires forall s :: s in readPart ==> s.category == Read
    requires forall s :: s in writePart ==> s.category == Write
    requires forall s :: s in workflowPart ==> s.category == Workflow
    ensures |result| == |readPart| + |writePart| + |workflowPart|
    ensures CountByCategory(result, Read) == |readPart|
    ensures CountByCategory(result, Write) == |writePart|
    ensures CountByCategory(result, Workflow) == |workflowPart|
  {
    hide CountByCategory;
    var all := readPart + writePart + workflowPart;
    BagOfConcat(readPart, writePart, readPart + writePart);
    BagOfConcat(readPart + writePart, workflowPart, all);
    assert |multiset(result)| == |multiset(all)|;
    forall c ensures CountByCategory(result, c) == CountByCategory(readPart, c) + CountByCategory(writePart, c) + CountByCategory(workflowPart, c)
      ensures CountByCategory(readPart, c) == if c == Read then |readPart| else 0
      ensures CountByCategory(writePart, c) == if c == Write then |writePart| else 0
      ensures CountByCategory(workflowPart, c) == if c == Workflow then |workflowPart| else 0
    {
      BagByCategory(result, readPart, writePart, workflowPart, c);
      CountPure(readPart, Read, c);
      CountPure(writePart, Write, c);
      CountPure(workflowPart, Workflow, c);
    }
  }
}
