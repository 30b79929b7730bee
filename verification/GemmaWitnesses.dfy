/** Inputs on which the importer of `convert_gemma_import.rs` does not do what its callers may expect. */
module GemmaWitnesses {
  import opened Wrappers
  import opened Sequences
  import opened GemmaKeys
  import opened GemmaImport
  import opened GemmaImporter
  import opened GemmaConfluence

  lemma ContainsNeedsFirst(s: string, part: string)
    requires part != "" && part[0] !in s
    ensures !Contains(s, part)
  {
    forall i | 0 <= i <= |s| - |part| ensures !(part <= s[i..]) {
      assert s[i..][0] == s[i];
    }
  }

  /** A bare `lm_head` key without the letter r: not wrapped, not skipped. */
  lemma HeadKey(rest: string)
    requires 'r' !in rest
    ensures var key := "lm_head" + rest;
            && StripHfPrefix(key) == key
            && !Contains(key, "relative_k_proj") && !Contains(key, "rotary_emb")
            && !("audio_tower." <= key) && !("audio_encoder." <= key) && !("embed_audio." <= key)
  {
    hide Contains;
    var key := "lm_head" + rest;
    assert key[0] == 'l' && key[1] == 'm' && 'r' !in "lm_head";
    HeadUnwrapped(key);
    FirstTwo(key, "audio_tower.");
    FirstTwo(key, "audio_encoder.");
    FirstTwo(key, "embed_audio.");
    ContainsNeedsFirst(key, "relative_k_proj");
    ContainsNeedsFirst(key, "rotary_emb");
  }

  lemma HeadUnwrapped(key: string)
    requires |key| >= 2 && key[0] == 'l' && key[1] == 'm'
    ensures StripHfPrefix(key) == key
  {
    FirstTwo(key, "model.language_model.model.");
    FirstTwo(key, "model.language_model.");
    FirstTwo(key, "language_model.model.");
    FirstTwo(key, "language_model.");
    FirstTwo(key, "model.");
  }

  /** The dropped and skipped suffixes all end in `_scale` after a letter that the kept keys do not
      have there. */
  lemma KeptSuffix(key: string, k: nat)
    requires |key| >= 14 && ((k == 0 && key[|key| - 1] != 'e') || (k == 6 && key[|key| - 7] in ['t', 'g']))
    ensures !IsDropped(key) && !EndsWith(key, ".per_dim_scale")
  {
    hide EndsWith;
    SuffixLast(key, ".input_activation_scale", k);
    SuffixLast(key, ".output_activation_scale", k);
    SuffixLast(key, ".k_cache_scale", k);
    SuffixLast(key, ".v_cache_scale", k);
    SuffixLast(key, ".per_dim_scale", k);
  }

  const PACKED := "lm_head" + ".weight"
  const SCALE := "lm_head" + ".weight_scale"
  const EMBEDDED := "lm_head" + ".embedding_quantized"
  const EMBEDDING_SCALE := "lm_head" + ".embedding_scale"

  lemma PackedRoute(t: Tensor)
    ensures Route(PACKED, t) == if t.dtype == Uint8 || t.dtype == Int8 then WeightCell("lm_head") else OutCell(NamespacedKey(PACKED))
  {
    hide StripHfPrefix, IsDropped, Contains, NamespacedKey, EndsWith;
    HeadKey(".weight");
    KeptSuffix(PACKED, 0);
    SuffixLast(PACKED, ".weight_scale", 0);
    SuffixLast(PACKED, ".embedding_scale", 0);
    SuffixLast(PACKED, ".embedding_quantized", 0);
    SplitEnd(PACKED, "lm_head", ".weight");
  }

  lemma ScaleRoute(t: Tensor)
    ensures Route(SCALE, t) == ScaleCell("lm_head")
  {
    hide StripHfPrefix, IsDropped, Contains, NamespacedKey, EndsWith;
    HeadKey(".weight_scale");
    assert SCALE[|SCALE| - 7] == ".weight_scale"[6] == 't';
    KeptSuffix(SCALE, 6);
    SplitEnd(SCALE, "lm_head", ".weight_scale");
  }

  lemma EmbeddedRoute(t: Tensor)
    ensures Route(EMBEDDED, t) == WeightCell("lm_head")
  {
    hide StripHfPrefix, IsDropped, Contains, NamespacedKey, EndsWith;
    HeadKey(".embedding_quantized");
    KeptSuffix(EMBEDDED, 0);
    SuffixLast(EMBEDDED, ".weight_scale", 0);
    SuffixLast(EMBEDDED, ".embedding_scale", 0);
    SplitEnd(EMBEDDED, "lm_head", ".embedding_quantized");
  }

  lemma EmbeddingScaleRoute(t: Tensor)
    ensures Route(EMBEDDING_SCALE, t) == ScaleCell("lm_head")
  {
    hide StripHfPrefix, IsDropped, Contains, NamespacedKey, EndsWith;
    HeadKey(".embedding_scale");
    assert EMBEDDING_SCALE[|EMBEDDING_SCALE| - 7] == ".embedding_scale"[9] == 'g';
    KeptSuffix(EMBEDDING_SCALE, 6);
    SuffixLast(EMBEDDING_SCALE, ".weight_scale", 6);
    SplitEnd(EMBEDDING_SCALE, "lm_head", ".embedding_scale");
  }

  lemma HeadRoutes(t: Tensor)
    ensures Route(PACKED, t) == if t.dtype == Uint8 || t.dtype == Int8 then WeightCell("lm_head") else OutCell(NamespacedKey(PACKED))
    ensures Route(SCALE, t) == ScaleCell("lm_head")
    ensures Route(EMBEDDED, t) == WeightCell("lm_head")
    ensures Route(EMBEDDING_SCALE, t) == ScaleCell("lm_head")
  {
    hide Route, NamespacedKey;
    PackedRoute(t);
    ScaleRoute(t);
    EmbeddedRoute(t);
    EmbeddingScaleRoute(t);
  }

  function Zeros(n: nat): (z: seq<int>)
    ensures |z| == n
  {
    if n == 0 then [] else Zeros(n - 1) + [0]
  }

  /** One row of 128 two-bit columns: one group of the output. */
  const WEIGHT := Tensor(Uint8, [1, 32], Zeros(32))

  function ScaleTensor(x: int): Tensor {
    Tensor(Float32, [1], [x])
  }

  lemma WeightFillsWords()
    ensures IsPacked(WEIGHT) && InFeatures(WEIGHT, 2) == 128 && FillsWords(InFeatures(WEIGHT, 2), 2, LINEAR_GROUP_SIZE)
  {
  }

  lemma HeadResolves(x: int)
    ensures Resolve("lm_head", Parts(Some(WEIGHT), Some(ScaleTensor(x)))) == Triplet("lm_head", WEIGHT, ScaleTensor(x), 2, LINEAR_GROUP_SIZE)
  {
    WeightFillsWords();
    assert Product([]) == 1;
    assert [1][..0] == [];
    assert Product([1]) == 1;
  }

  lemma TripletWeight(name: string, weight: Tensor, scale: Tensor, bits: nat, groupSize: nat)
    ensures var r := Triplet(name, weight, scale, bits, groupSize);
            var key := NamespacedKey(name) + ".weight";
            r.Resolved? && key in r.out && r.out[key] == Affine(PackedWeight, weight, scale, bits, groupSize)
  {
    hide NamespacedKey;
    var n := |NamespacedKey(name)|;
    assert (NamespacedKey(name) + ".weight")[n + 1] == 'w';
    assert (NamespacedKey(name) + ".scales")[n + 1] == 's';
    assert (NamespacedKey(name) + ".biases")[n + 1] == 'b';
  }

  lemma HeadFinishes(b: Buffer, x: int)
    requires b.quant == map["lm_head" := Parts(Some(WEIGHT), Some(ScaleTensor(x)))]
    requires forall key :: key in b.out ==> !EndsWith(key, ".scales")
    ensures IsOrder(["lm_head"], b.quant.Keys)
    ensures FinishOf(b, ["lm_head"]).Some? && Covered(FinishOf(b, ["lm_head"]).value)
    ensures var key := NamespacedKey("lm_head") + ".weight";
            var f := FinishOf(b, ["lm_head"]).value;
            key in f.out && f.out[key] == Affine(PackedWeight, WEIGHT, ScaleTensor(x), 2, LINEAR_GROUP_SIZE)
  {
    hide Resolve, NamespacedKey, EndsWith, Triplet, FinishOf;
    HeadResolves(x);
    TripletWeight("lm_head", WEIGHT, ScaleTensor(x), 2, LINEAR_GROUP_SIZE);
    assert b.quant.Keys == {"lm_head"};
    FinishOfIs(b, ["lm_head"]);
    CoverageFailure(b, FinishOf(b, ["lm_head"]).value);
  }

  function TwoScales(): map<string, Tensor> {
    map[PACKED := WEIGHT, SCALE := ScaleTensor(1), EMBEDDING_SCALE := ScaleTensor(2)]
  }

  /** One step of the first pass on each of the four names. */
  lemma HeadPuts(b: Buffer, t: Tensor)
    ensures var parts := PartsOf(b, "lm_head");
            && (t.dtype == Uint8 ==> Put(b, PACKED, t) == b.(quant := b.quant["lm_head" := parts.(weight := Some(t))]))
            && Put(b, EMBEDDED, t) == b.(quant := b.quant["lm_head" := parts.(weight := Some(t))])
            && Put(b, SCALE, t) == b.(quant := b.quant["lm_head" := parts.(scale := Some(t))])
            && Put(b, EMBEDDING_SCALE, t) == b.(quant := b.quant["lm_head" := parts.(scale := Some(t))])
  {
    hide Route;
    HeadRoutes(t);
  }

  /** Whichever scale comes last is the one that is buffered. */
  lemma TwoScalesBuffer(x: seq<string>, last: int)
    requires (x == [PACKED, SCALE, EMBEDDING_SCALE] && last == 2) || (x == [PACKED, EMBEDDING_SCALE, SCALE] && last == 1)
    ensures IsOrder(x, TwoScales().Keys)
    ensures BufferOf(TwoScales(), x) == HeadBuffer(map[], WEIGHT, last)
  {
    hide Put, Fill;
    DistinctNames();
    ThreePuts(TwoScales(), x);
    var b1 := Buffer(map[], map["lm_head" := Parts(Some(WEIGHT), None)]);
    HeadPuts(EMPTY, WEIGHT);
    assert Put(EMPTY, PACKED, WEIGHT) == b1;
    var first := 3 - last;
    HeadPuts(b1, ScaleTensor(first));
    assert Put(b1, x[1], TwoScales()[x[1]]) == HeadBuffer(map[], WEIGHT, first);
    HeadPuts(HeadBuffer(map[], WEIGHT, first), ScaleTensor(last));
    assert Put(HeadBuffer(map[], WEIGHT, first), x[2], TwoScales()[x[2]]) == HeadBuffer(map[], WEIGHT, last);
  }

  function HeadBuffer(out: map<string, Out>, weight: Tensor, scale: int): Buffer {
    Buffer(out, map["lm_head" := Parts(Some(weight), Some(ScaleTensor(scale)))])
  }

  /** Distinct raw names are not enough for confluence: with both a `weight_scale` and an
      `embedding_scale`, a module is paired with whichever is visited last. */
  lemma TwoScalesDiverge() returns (x: seq<string>, x': seq<string>, y: seq<string>)
    ensures ValidOrders(TwoScales(), x, y) && ValidOrders(TwoScales(), x', y)
    ensures ResultOf(TwoScales(), x, y).Some? && ResultOf(TwoScales(), x', y).Some?
    ensures ResultOf(TwoScales(), x, y) != ResultOf(TwoScales(), x', y)
  {
    hide BufferOf, FinishOf, ResultOf, Covered, EndsWith, NamespacedKey, TwoScales, IsOrder, ScaleTensor;
    x, x', y := [PACKED, SCALE, EMBEDDING_SCALE], [PACKED, EMBEDDING_SCALE, SCALE], ["lm_head"];
    TwoScalesBuffer(x, 2);
    TwoScalesBuffer(x', 1);
    HeadFinishes(HeadBuffer(map[], WEIGHT, 2), 2);
    HeadFinishes(HeadBuffer(map[], WEIGHT, 1), 1);
    ResultIs(TwoScales(), x, y);
    ResultIs(TwoScales(), x', y);
    ScalesDiffer();
  }

  lemma ScalesDiffer()
    ensures ScaleTensor(1) != ScaleTensor(2)
  {
    assert ScaleTensor(1).content[0] != ScaleTensor(2).content[0];
  }

  lemma DistinctNames()
    ensures PACKED != SCALE && PACKED != EMBEDDED && PACKED != EMBEDDING_SCALE && SCALE != EMBEDDING_SCALE && EMBEDDED != EMBEDDING_SCALE
  {
    assert |PACKED| == 14 && |SCALE| == 20 && |EMBEDDED| == 27 && |EMBEDDING_SCALE| == 23;
  }

  lemma ThreePuts(raw: map<string, Tensor>, x: seq<string>)
    requires |x| == 3 && x[0] in raw && x[1] in raw && x[2] in raw
    ensures forall k :: k in x ==> k in raw
    ensures Fill(raw, x, 3) == Put(Put(Put(EMPTY, x[0], raw[x[0]]), x[1], raw[x[1]]), x[2], raw[x[2]])
  {
    hide Put;
    assert Fill(raw, x, 1) == Put(EMPTY, x[0], raw[x[0]]);
    assert Fill(raw, x, 2) == Put(Fill(raw, x, 1), x[1], raw[x[1]]);
  }

  /** A float `weight` beside a quantised embedding of the same module. */
  function Overwriting(t: Tensor): map<string, Tensor> {
    map[PACKED := t, EMBEDDED := WEIGHT, EMBEDDING_SCALE := ScaleTensor(1)]
  }

  lemma OverwritingRoutes(t: Tensor)
    requires t.dtype == BFloat16
    ensures var raw := Overwriting(t);
            && PACKED in raw && raw[PACKED] == t && Route(PACKED, t) == OutCell(NamespacedKey(PACKED)) && NoClash(raw)
  {
    hide Route, Written, NamespacedKey;
    DistinctNames();
    HeadRoutes(t);
    HeadRoutes(WEIGHT);
    HeadRoutes(ScaleTensor(1));
  }

  lemma OverwritingBuffer(t: Tensor, x: seq<string>)
    requires t.dtype == BFloat16 && x == [PACKED, EMBEDDED, EMBEDDING_SCALE]
    ensures IsOrder(x, Overwriting(t).Keys)
    ensures BufferOf(Overwriting(t), x) == HeadBuffer(map[NamespacedKey(PACKED) := PassThrough(PACKED, t)], WEIGHT, 1)
  {
    hide Put, Fill, NamespacedKey, PassThrough;
    DistinctNames();
    ThreePuts(Overwriting(t), x);
    FloatPut(t);
    var b1 := Buffer(map[NamespacedKey(PACKED) := PassThrough(PACKED, t)], map[]);
    HeadPuts(b1, WEIGHT);
    HeadPuts(b1.(quant := map["lm_head" := Parts(Some(WEIGHT), None)]), ScaleTensor(1));
  }

  lemma FloatPut(t: Tensor)
    requires t.dtype == BFloat16
    ensures Put(EMPTY, PACKED, t) == Buffer(map[NamespacedKey(PACKED) := PassThrough(PACKED, t)], map[])
  {
    hide Route, NamespacedKey, PassThrough, StripHfPrefix;
    HeadRoutes(t);
    HeadUnwrapped(PACKED);
  }

  lemma OverwritingOnce(t: Tensor) returns (x: seq<string>, y: seq<string>)
    requires t.dtype == BFloat16
    ensures ValidOrders(Overwriting(t), x, y) && ResultOf(Overwriting(t), x, y).Some?
    ensures var out := ResultOf(Overwriting(t), x, y).value.out;
            NamespacedKey(PACKED) in out && out[NamespacedKey(PACKED)].Affine?
  {
    hide BufferOf, FinishOf, ResultOf, Covered, EndsWith, PassThrough, NamespacedKey, IsOrder, Overwriting;
    x, y := [PACKED, EMBEDDED, EMBEDDING_SCALE], ["lm_head"];
    OverwritingBuffer(t, x);
    HeadName();
    HeadFinishes(HeadBuffer(map[NamespacedKey(PACKED) := PassThrough(PACKED, t)], WEIGHT, 1), 1);
    ResultIs(Overwriting(t), x, y);
  }

  /** Nor is every pass-through tensor kept: this one is overwritten by the module's packed weight, in every
      pair of visit orders. */
  lemma PassThroughOverwritten(t: Tensor)
    requires t.dtype == BFloat16
    ensures Overwriting(t)[PACKED] == t && Route(PACKED, t) == OutCell(NamespacedKey(PACKED))
    ensures forall x, y :: ValidOrders(Overwriting(t), x, y) ==>
              && ResultOf(Overwriting(t), x, y).Some?
              && NamespacedKey(PACKED) in ResultOf(Overwriting(t), x, y).value.out
              && ResultOf(Overwriting(t), x, y).value.out[NamespacedKey(PACKED)].Affine?
  {
    hide Route, NoClash, ValidOrders, ResultOf, NamespacedKey;
    OverwritingRoutes(t);
    var x, y := OverwritingOnce(t);
    forall x', y' | ValidOrders(Overwriting(t), x', y')
      ensures ResultOf(Overwriting(t), x', y') == ResultOf(Overwriting(t), x, y)
    {
      ResultsAgree(Overwriting(t), x', y', x, y);
    }
  }

  lemma ResultsAgree(raw: map<string, Tensor>, x: seq<string>, y: seq<string>, x': seq<string>, y': seq<string>)
    requires NoClash(raw) && ValidOrders(raw, x, y) && ValidOrders(raw, x', y')
    ensures ResultOf(raw, x, y) == ResultOf(raw, x', y')
  {
    hide NoClash, Import;
    ImportConfluent(raw, x, y, x', y');
  }

  // ---------------------------------------------------------------- a tensor named `scales`

  const BARE_SCALES := "scales"

  lemma BareScalesRoute(t: Tensor)
    ensures Route(BARE_SCALES, t) == OutCell(NamespacedKey(BARE_SCALES)) && EndsWith(NamespacedKey(BARE_SCALES), ".scales")
  {
    hide StripHfPrefix, IsDropped, IsSkipped, NamespacedKey, EndsWith;
    BareScalesKept();
    TooShort(BARE_SCALES, ".weight_scale");
    TooShort(BARE_SCALES, ".embedding_scale");
    TooShort(BARE_SCALES, ".embedding_quantized");
    TooShort(BARE_SCALES, ".weight");
    ScalesName(BARE_SCALES);
  }

  lemma TooShort(s: string, suffix: string)
    requires |s| < |suffix|
    ensures !EndsWith(s, suffix)
  {
  }

  lemma BareScalesKept()
    ensures StripHfPrefix(BARE_SCALES) == BARE_SCALES && !IsDropped(BARE_SCALES) && !IsSkipped(BARE_SCALES)
  {
    assert BARE_SCALES[0] == 's' && 'r' !in BARE_SCALES;
    NoWrapper(BARE_SCALES);
    FirstTwo(BARE_SCALES, "audio_tower.");
    FirstTwo(BARE_SCALES, "audio_encoder.");
    FirstTwo(BARE_SCALES, "embed_audio.");
    ContainsNeedsFirst(BARE_SCALES, "relative_k_proj");
    ContainsNeedsFirst(BARE_SCALES, "rotary_emb");
  }

  /** A checkpoint whose only tensor is named `scales` is rejected by the coverage check, in every pair of
      visit orders, although no module fails. */
  lemma BareScalesRejected(t: Tensor)
    ensures forall x, y :: ValidOrders(map[BARE_SCALES := t], x, y) ==>
              FinishOf(BufferOf(map[BARE_SCALES := t], x), y).Some? && ResultOf(map[BARE_SCALES := t], x, y) == None
  {
    hide BufferOf, FinishOf, ResultOf;
    forall x, y | ValidOrders(map[BARE_SCALES := t], x, y)
      ensures FinishOf(BufferOf(map[BARE_SCALES := t], x), y).Some? && ResultOf(map[BARE_SCALES := t], x, y) == None
    {
      RejectedOnce(t, x, y);
    }
  }

  lemma RejectedOnce(t: Tensor, x: seq<string>, y: seq<string>)
    requires ValidOrders(map[BARE_SCALES := t], x, y)
    ensures FinishOf(BufferOf(map[BARE_SCALES := t], x), y).Some? && ResultOf(map[BARE_SCALES := t], x, y) == None
  {
    hide BufferOf, FinishOf, ResultOf, Covered, FinishedOut, FinishedOverrides, EndsWith, NamespacedKey, Resolve;
    var raw := map[BARE_SCALES := t];
    BareScalesRoute(t);
    BareBuffer(t, x);
    assert BufferOf(raw, x).quant.Keys == {};
    FinishOfIs(BufferOf(raw, x), y);
    ResultIs(raw, x, y);
    Uncoverable(BufferOf(raw, x), FinishOf(BufferOf(raw, x), y).value, NamespacedKey(BARE_SCALES));
  }

  lemma SingleOrder(x: seq<string>, key: string)
    requires IsOrder(x, {key})
    ensures x == [key]
  {
    assert key in x;
    var last := |x| - 1;
    assert x[last] in x && x[0] in x;
    assert last == 0;
  }

  lemma BareBuffer(t: Tensor, x: seq<string>)
    requires IsOrder(x, {BARE_SCALES})
    ensures IsOrder(x, map[BARE_SCALES := t].Keys)
    ensures BufferOf(map[BARE_SCALES := t], x).quant == map[]
    ensures NamespacedKey(BARE_SCALES) in BufferOf(map[BARE_SCALES := t], x).out
  {
    hide Route, NamespacedKey;
    var raw := map[BARE_SCALES := t];
    BareScalesRoute(t);
    SingleOrder(x, BARE_SCALES);
    assert Fill(raw, x, 0) == EMPTY;
  }

  /** Without modules a passed-through `.scales` tensor has no override. */
  lemma Uncoverable(b: Buffer, f: Final, key: string)
    requires FinishedOut(b, {}, f) && FinishedOverrides(b, {}, f) && b.quant == map[]
    requires key in b.out && EndsWith(key, ".scales")
    ensures !Covered(f)
  {
    hide EndsWith, NamespacedKey;
    assert !CoveredKey(f, key);
  }

  lemma HeadName()
    ensures NamespacedKey(PACKED) == NamespacedKey("lm_head") + ".weight"
    ensures !EndsWith(NamespacedKey(PACKED), ".scales")
  {
    FirstTwo(PACKED, "vision_tower.");
    FirstTwo(PACKED, "vision_encoder.");
    FirstTwo(PACKED, "embed_vision.");
    FirstTwo(PACKED, "multi_modal_projector.");
    FirstTwo("lm_head", "vision_tower.");
    FirstTwo("lm_head", "vision_encoder.");
    FirstTwo("lm_head", "embed_vision.");
    FirstTwo("lm_head", "multi_modal_projector.");
    assert PACKED == "lm_head" + ".weight";
    assert NAMESPACE + ("lm_head" + ".weight") == NAMESPACE + "lm_head" + ".weight";
    SuffixLast(NamespacedKey(PACKED), ".scales", 0);
  }
}
