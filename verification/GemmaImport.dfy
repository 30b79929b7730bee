/** `import_gemma_prequantized` of `convert_gemma_import.rs`: two passes over unordered maps that
    buffer, pair, route and rename the tensors of a checkpoint. A tensor is its dtype, shape and
    content; repacked and dequantised tensors are terms over the tensors they are made from. */
module GemmaImport {
  import opened Arithmetic
  import opened Wrappers
  import opened Sequences
  import opened Decimals
  import opened GemmaKeys

  datatype DType = Float32 | Float16 | BFloat16 | Uint8 | Int8 | OtherType

  datatype Tensor = Tensor(dtype: DType, shape: seq<nat>, content: seq<int>)

  datatype Layout = Plain | Conv1d | Conv2d

  datatype Part = PackedWeight | Scales | Biases

  datatype Out =
    | Passed(source: Tensor, layout: Layout, cast: bool)
    | Affine(part: Part, weight: Tensor, scale: Tensor, bits: nat, groupSize: nat)
    | Dequantised(weight: Tensor, scale: Tensor)

  datatype Override = Override(bits: int, groupSize: int, mode: string)

  const LINEAR_GROUP_SIZE: nat := 128
  const PLE_GROUP_SIZE: nat := 128
  const PLE_SRC_GROUP_SIZE: nat := 256
  const PLE_MODULE := "embed_tokens_per_layer"

  // ---------------------------------------------------------------- first pass: routing

  /** The cell a raw tensor is written to. */
  datatype Cell = Nowhere | OutCell(key: string) | WeightCell(name: string) | ScaleCell(name: string)

  function Route(key: string, t: Tensor): Cell {
    var stripped := StripHfPrefix(key);
    if IsDropped(stripped) || IsSkipped(stripped) then Nowhere
    else if EndsWith(stripped, ".weight_scale") then ScaleCell(stripped[..|stripped| - |".weight_scale"|])
    else if EndsWith(stripped, ".embedding_scale") then ScaleCell(stripped[..|stripped| - |".embedding_scale"|])
    else if EndsWith(stripped, ".embedding_quantized") then WeightCell(stripped[..|stripped| - |".embedding_quantized"|])
    else if EndsWith(stripped, ".weight") && (t.dtype == Uint8 || t.dtype == Int8) then
      WeightCell(stripped[..|stripped| - |".weight"|])
    else OutCell(NamespacedKey(stripped))
  }

  predicate Kept(stripped: string) {
    !IsDropped(stripped) && !IsSkipped(stripped)
  }

  predicate Quantised(t: Tensor) {
    t.dtype == Uint8 || t.dtype == Int8
  }

  predicate NamesScale(stripped: string, m: string) {
    stripped == m + ".weight_scale" || stripped == m + ".embedding_scale"
  }

  predicate NamesWeight(stripped: string, t: Tensor, m: string) {
    stripped == m + ".embedding_quantized" || (stripped == m + ".weight" && Quantised(t))
  }

  /** What the routing means by name: a kept tensor is the scale of module `m`, or its weight, exactly
      when it carries the module's name and one of the suffixes; every other kept tensor is passed on. */
  lemma RouteByName(key: string, t: Tensor, m: string)
    ensures var stripped := StripHfPrefix(key);
            && (Route(key, t) == ScaleCell(m) <==> Kept(stripped) && NamesScale(stripped, m))
            && (Route(key, t) == WeightCell(m) <==> Kept(stripped) && NamesWeight(stripped, t, m))
            && (Route(key, t) == Nowhere <==> !Kept(stripped))
            && (Route(key, t).OutCell? ==> Route(key, t) == OutCell(NamespacedKey(stripped)))
  {
    hide StripHfPrefix, IsDropped, IsSkipped, EndsWith, NamespacedKey;
    var s := StripHfPrefix(key);
    OneSuffix(s);
    SuffixIs(s, m, ".weight_scale");
    SuffixIs(s, m, ".embedding_scale");
    SuffixIs(s, m, ".embedding_quantized");
    SuffixIs(s, m, ".weight");
  }

  lemma SuffixIs(s: string, m: string, suffix: string)
    ensures s == m + suffix <==> EndsWith(s, suffix) && s[..|s| - |suffix|] == m
  {
  }

  /** A name ends in at most one of the four suffixes. */
  lemma OneSuffix(s: string)
    ensures EndsWith(s, ".weight_scale") ==> !EndsWith(s, ".embedding_scale")
    ensures EndsWith(s, ".weight_scale") || EndsWith(s, ".embedding_scale") ==> !EndsWith(s, ".embedding_quantized")
    ensures EndsWith(s, ".weight") ==> !EndsWith(s, ".weight_scale") && !EndsWith(s, ".embedding_scale")
    ensures EndsWith(s, ".weight") ==> !EndsWith(s, ".embedding_quantized")
  {
    hide EndsWith;
    Apart(s, ".weight_scale", ".embedding_scale", 6);
    Apart(s, ".weight_scale", ".embedding_quantized", 0);
    Apart(s, ".embedding_scale", ".embedding_quantized", 0);
    Apart(s, ".weight", ".weight_scale", 0);
    Apart(s, ".weight", ".embedding_scale", 0);
    Apart(s, ".weight", ".embedding_quantized", 0);
  }

  lemma Apart(s: string, a: string, b: string, k: nat)
    requires k < |a| && k < |b| && a[|a| - 1 - k] != b[|b| - 1 - k]
    ensures !(EndsWith(s, a) && EndsWith(s, b))
  {
    if EndsWith(s, a) {
      assert s[|s| - |a|..][|a| - 1 - k] == s[|s| - 1 - k];
      SuffixLast(s, b, k);
    }
  }

  function LayoutOf(stripped: string, ndim: nat): Layout {
    if Contains(stripped, "depthwise_conv1d.weight") && ndim == 3 then Conv1d
    else if Contains(stripped, "subsample_conv_projection") && Contains(stripped, "conv.weight") && ndim == 4 then Conv2d
    else Plain
  }

  function PassThrough(stripped: string, t: Tensor): Out {
    Passed(t, LayoutOf(stripped, |t.shape|), t.dtype == Float32 || t.dtype == Float16 || t.dtype == BFloat16)
  }

  /** What happens to a tensor that is passed on: two kinds of convolution weights are transposed, and exactly
      the tensors of floating type are cast. */
  lemma PassThroughByName(stripped: string, t: Tensor)
    ensures var o, ndim := PassThrough(stripped, t), |t.shape|;
            && o.Passed? && o.source == t
            && (o.layout == Conv1d <==> ndim == 3 && Mentions(stripped, "depthwise_conv1d.weight"))
            && (o.layout == Conv2d <==> ndim == 4 && Mentions(stripped, "subsample_conv_projection") && Mentions(stripped, "conv.weight"))
            && (o.cast <==> t.dtype in {Float32, Float16, BFloat16})
  {
    hide Contains, Mentions;
    MentionsIs(stripped, "depthwise_conv1d.weight");
    MentionsIs(stripped, "subsample_conv_projection");
    MentionsIs(stripped, "conv.weight");
  }

  datatype Parts = Parts(weight: Option<Tensor>, scale: Option<Tensor>)

  datatype Buffer = Buffer(out: map<string, Out>, quant: map<string, Parts>)

  const EMPTY := Buffer(map[], map[])

  function PartsOf(b: Buffer, name: string): Parts {
    if name in b.quant then b.quant[name] else Parts(None, None)
  }

  /** One step of the first pass. */
  function Put(b: Buffer, key: string, t: Tensor): Buffer {
    match Route(key, t)
    case Nowhere => b
    case OutCell(k) => b.(out := b.out[k := PassThrough(StripHfPrefix(key), t)])
    case WeightCell(m) => b.(quant := b.quant[m := PartsOf(b, m).(weight := Some(t))])
    case ScaleCell(m) => b.(quant := b.quant[m := PartsOf(b, m).(scale := Some(t))])
  }

  /** A visit order of the keys: each key once. */
  ghost predicate IsOrder(order: seq<string>, keys: set<string>) {
    && (forall i, j :: 0 <= i < j < |order| ==> order[i] != order[j])
    && (forall k :: k in order <==> k in keys)
  }

  ghost function Fill(raw: map<string, Tensor>, order: seq<string>, n: nat): Buffer
    requires n <= |order| && forall k :: k in order ==> k in raw
  {
    if n == 0 then EMPTY else Put(Fill(raw, order, n - 1), order[n - 1], raw[order[n - 1]])
  }

  // ---------------------------------------------------------------- cells of the buffer

  datatype Value = OutValue(out: Out) | TensorValue(tensor: Tensor)

  ghost function Read(b: Buffer, cell: Cell): Option<Value> {
    match cell
    case Nowhere => None
    case OutCell(k) => if k in b.out then Some(OutValue(b.out[k])) else None
    case WeightCell(m) => if PartsOf(b, m).weight.Some? then Some(TensorValue(PartsOf(b, m).weight.value)) else None
    case ScaleCell(m) => if PartsOf(b, m).scale.Some? then Some(TensorValue(PartsOf(b, m).scale.value)) else None
  }

  /** What a raw tensor writes into its cell. */
  ghost function Written(key: string, t: Tensor): Value {
    if Route(key, t).OutCell? then OutValue(PassThrough(StripHfPrefix(key), t)) else TensorValue(t)
  }

  /** Every buffered module holds at least one part. */
  ghost predicate NoEmptyModule(b: Buffer) {
    forall m :: m in b.quant ==> b.quant[m].weight.Some? || b.quant[m].scale.Some?
  }

  lemma PutRead(b: Buffer, key: string, t: Tensor, cell: Cell)
    requires cell != Nowhere
    ensures Read(Put(b, key, t), cell) == if Route(key, t) == cell then Some(Written(key, t)) else Read(b, cell)
    ensures NoEmptyModule(b) ==> NoEmptyModule(Put(b, key, t))
  {
    hide Route, PassThrough;
  }

  predicate IsPartCell(cell: Cell) {
    cell.WeightCell? || cell.ScaleCell?
  }

  lemma QuantsEqual(a: Buffer, b: Buffer)
    requires NoEmptyModule(a) && NoEmptyModule(b) && forall cell :: IsPartCell(cell) ==> Read(a, cell) == Read(b, cell)
    ensures a.quant == b.quant
  {
    forall m ensures PartsOf(a, m) == PartsOf(b, m) {
      assert Read(a, WeightCell(m)) == Read(b, WeightCell(m));
      assert Read(a, ScaleCell(m)) == Read(b, ScaleCell(m));
    }
    forall m ensures m in a.quant <==> m in b.quant {
      assert PartsOf(a, m) == PartsOf(b, m);
    }
    forall m | m in a.quant ensures a.quant[m] == b.quant[m] {
      assert PartsOf(a, m) == PartsOf(b, m);
    }
  }

  lemma BuffersEqual(a: Buffer, b: Buffer)
    requires NoEmptyModule(a) && NoEmptyModule(b) && forall cell :: cell != Nowhere ==> Read(a, cell) == Read(b, cell)
    ensures a == b
  {
    forall k ensures k in a.out <==> k in b.out {
      assert Read(a, OutCell(k)) == Read(b, OutCell(k));
    }
    forall k | k in a.out ensures a.out[k] == b.out[k] {
      assert Read(a, OutCell(k)) == Read(b, OutCell(k));
    }
    assert a.out == b.out;
    QuantsEqual(a, b);
  }

  /** Some key among the first `n` writes `value` to `cell`. */
  ghost predicate WrittenBy(raw: map<string, Tensor>, order: seq<string>, n: nat, cell: Cell, value: Value) {
    exists i :: 0 <= i < n && i < |order| && order[i] in raw && Route(order[i], raw[order[i]]) == cell
                && Written(order[i], raw[order[i]]) == value
  }

  /** The first pass leaves in every cell what one of its writers wrote, and nothing else. */
  lemma {:induction false} FillRead(raw: map<string, Tensor>, order: seq<string>, n: nat, cell: Cell)
    requires n <= |order| && cell != Nowhere && forall k :: k in order ==> k in raw
    ensures NoEmptyModule(Fill(raw, order, n))
    ensures match Read(Fill(raw, order, n), cell)
            case Some(value) => WrittenBy(raw, order, n, cell, value)
            case None => forall i :: 0 <= i < n ==> Route(order[i], raw[order[i]]) != cell
  {
    hide Route, Written, Put, Read, NoEmptyModule;
    if n == 0 {
      EmptyReads(cell);
    } else {
      FillRead(raw, order, n - 1, cell);
      PutRead(Fill(raw, order, n - 1), order[n - 1], raw[order[n - 1]], cell);
    }
  }

  lemma EmptyReads(cell: Cell)
    ensures Read(EMPTY, cell) == None && NoEmptyModule(EMPTY)
  {
  }

  /** No two raw tensors write different values to one cell. */
  ghost predicate NoClash(raw: map<string, Tensor>) {
    forall cell :: cell != Nowhere ==> AgreeAt(raw, cell)
  }

  /** All raw tensors that are written to `cell` write one value. */
  ghost predicate AgreeAt(raw: map<string, Tensor>, cell: Cell) {
    forall k, l :: k in raw && l in raw && Route(k, raw[k]) == cell && Route(l, raw[l]) == cell
      ==> Written(k, raw[k]) == Written(l, raw[l])
  }

  /** Without clashes the first pass does not depend on the visit order. */
  lemma FillConfluent(raw: map<string, Tensor>, a: seq<string>, b: seq<string>)
    requires NoClash(raw) && IsOrder(a, raw.Keys) && IsOrder(b, raw.Keys)
    ensures Fill(raw, a, |a|) == Fill(raw, b, |b|)
  {
    hide Route, Written, Put, Read, NoEmptyModule, Fill;
    FillRead(raw, a, |a|, OutCell(""));
    FillRead(raw, b, |b|, OutCell(""));
    forall cell | cell != Nowhere ensures Read(Fill(raw, a, |a|), cell) == Read(Fill(raw, b, |b|), cell) {
      FillRead(raw, a, |a|, cell);
      FillRead(raw, b, |b|, cell);
      SameWriters(raw, a, b, cell, Read(Fill(raw, a, |a|), cell), Read(Fill(raw, b, |b|), cell));
    }
    BuffersEqual(Fill(raw, a, |a|), Fill(raw, b, |b|));
  }

  ghost predicate LeftBy(raw: map<string, Tensor>, order: seq<string>, cell: Cell, left: Option<Value>) {
    match left
    case Some(value) => WrittenBy(raw, order, |order|, cell, value)
    case None => forall i :: 0 <= i < |order| && order[i] in raw ==> Route(order[i], raw[order[i]]) != cell
  }

  lemma SameWriters(raw: map<string, Tensor>, a: seq<string>, b: seq<string>, cell: Cell, x: Option<Value>, y: Option<Value>)
    requires AgreeAt(raw, cell) && IsOrder(a, raw.Keys) && IsOrder(b, raw.Keys)
    requires LeftBy(raw, a, cell, x) && LeftBy(raw, b, cell, y)
    ensures x == y
  {
    hide Route, Written;
    if x.Some? {
      var i :| 0 <= i < |a| && Route(a[i], raw[a[i]]) == cell && Written(a[i], raw[a[i]]) == x.value;
      assert a[i] in b;
    }
    if y.Some? {
      var j :| 0 <= j < |b| && Route(b[j], raw[b[j]]) == cell && Written(b[j], raw[b[j]]) == y.value;
      assert b[j] in a;
    }
  }

  /** A visit order that ends with a given key. */
  lemma OrderEndingIn(keys: set<string>, last: string) returns (order: seq<string>)
    requires last in keys
    ensures IsOrder(order, keys) && |order| > 0 && order[|order| - 1] == last
  {
    var rest := Enumerate(keys - {last});
    order := rest + [last];
  }

  lemma Enumerate(keys: set<string>) returns (order: seq<string>)
    ensures IsOrder(order, keys)
    decreases |keys|
  {
    if keys == {} {
      order := [];
    } else {
      var k :| k in keys;
      var rest := Enumerate(keys - {k});
      order := rest + [k];
    }
  }

  /** The condition is exact: with a clash, two visit orders leave different buffers. */
  lemma ClashDiverges(raw: map<string, Tensor>) returns (a: seq<string>, b: seq<string>)
    requires !NoClash(raw)
    ensures IsOrder(a, raw.Keys) && IsOrder(b, raw.Keys)
    ensures Fill(raw, a, |a|) != Fill(raw, b, |b|)
  {
    hide Route, Written, Put, Read;
    var cell :| cell != Nowhere && !AgreeAt(raw, cell);
    var k, l :| k in raw && l in raw && Route(k, raw[k]) == cell && Route(l, raw[l]) == cell
                && Written(k, raw[k]) != Written(l, raw[l]);
    a := OrderEndingIn(raw.Keys, k);
    b := OrderEndingIn(raw.Keys, l);
    PutRead(Fill(raw, a, |a| - 1), k, raw[k], cell);
    PutRead(Fill(raw, b, |b| - 1), l, raw[l], cell);
  }

  /** The first pass is independent of the visit order exactly when no two raw tensors write
      different values to one cell. */
  lemma FirstPassConfluence(raw: map<string, Tensor>)
    ensures NoClash(raw) <==>
            forall a, b :: IsOrder(a, raw.Keys) && IsOrder(b, raw.Keys) ==> Fill(raw, a, |a|) == Fill(raw, b, |b|)
  {
    hide NoClash, Fill;
    if NoClash(raw) {
      forall a, b | IsOrder(a, raw.Keys) && IsOrder(b, raw.Keys) ensures Fill(raw, a, |a|) == Fill(raw, b, |b|) {
        FillConfluent(raw, a, b);
      }
    } else {
      var a, b := ClashDiverges(raw);
    }
  }

  // ---------------------------------------------------------------- second pass: resolving modules

  /** `RepackAborts` is a failed assertion of the repack, the others are returned errors; `BadShape` also
      stands for the wrong dtype. */
  datatype ImportError =
    | MissingWeight(name: string) | MissingScale(name: string) | BadShape(name: string)
    | RepackAborts(name: string) | Unrouted(name: string) | Uncovered(key: string)

  datatype Resolution = Failed(error: ImportError) | Resolved(out: map<string, Out>, overrides: map<string, Override>)

  function Product(shape: seq<nat>): nat {
    if shape == [] then 1 else Product(shape[..|shape| - 1]) * shape[|shape| - 1]
  }

  function Triplet(name: string, weight: Tensor, scale: Tensor, bits: nat, groupSize: nat): Resolution {
    var prefix := NamespacedKey(name);
    Resolved(map[prefix + ".weight" := Affine(PackedWeight, weight, scale, bits, groupSize),
                 prefix + ".scales" := Affine(Scales, weight, scale, bits, groupSize),
                 prefix + ".biases" := Affine(Biases, weight, scale, bits, groupSize)],
             map[name := Override(bits, groupSize, "affine")])
  }

  /** Columns of a packed 2- or 4-bit weight. */
  function InFeatures(weight: Tensor, bits: nat): nat
    requires |weight.shape| == 2 && bits > 0
  {
    weight.shape[1] * (8 / bits)
  }

  /** What reading a packed weight needs: two dimensions of raw bytes. */
  predicate IsPacked(weight: Tensor) {
    |weight.shape| == 2 && weight.dtype == Uint8
  }

  /** What the repack asserts of a row: whole 32-bit words and whole groups. */
  predicate FillsWords(inFeatures: nat, bits: nat, groupSize: nat)
    requires 0 < bits <= 32 && groupSize > 0
  {
    inFeatures % (32 / bits) == 0 && inFeatures % groupSize == 0
  }

  function ResolveEmbedding(name: string, weight: Tensor, scale: Tensor): Resolution {
    if |scale.shape| != 2 || !IsPacked(weight) then Failed(BadShape(name))
    else if scale.shape[0] != weight.shape[0] then Failed(BadShape(name))
    else if InFeatures(weight, 4) != scale.shape[1] * PLE_SRC_GROUP_SIZE then Failed(BadShape(name))
    else Triplet(name, weight, scale, 4, PLE_GROUP_SIZE)
  }

  /** A source group of the embedding is two groups of the output, so its rows always fill them. */
  lemma EmbeddingFillsWords(name: string, weight: Tensor, scale: Tensor)
    requires ResolveEmbedding(name, weight, scale).Resolved?
    ensures FillsWords(InFeatures(weight, 4), 4, PLE_GROUP_SIZE)
    ensures InFeatures(weight, 4) % PLE_SRC_GROUP_SIZE == 0
    ensures Product(scale.shape) == weight.shape[0] * (InFeatures(weight, 4) / PLE_SRC_GROUP_SIZE)
  {
    hide NamespacedKey;
    MultipleOf(scale.shape[1], InFeatures(weight, 4));
    ProductOfTwo(scale.shape);
  }

  lemma MultipleOf(groups: nat, n: nat)
    requires n == groups * 256
    ensures n % 8 == 0 && n % 128 == 0 && n % 256 == 0 && n / 256 == groups
  {
  }

  lemma ProductOfTwo(shape: seq<nat>)
    requires |shape| == 2
    ensures Product(shape) == shape[0] * shape[1]
  {
    assert shape[..1][..0] == [];
    assert Product(shape[..1]) == Product([]) * shape[0];
  }

  /** One scale per row. */
  predicate RowScaled(weight: Tensor, scale: Tensor) {
    |weight.shape| == 2 && Product(scale.shape) == weight.shape[0]
  }

  function ResolveAffine(name: string, weight: Tensor, scale: Tensor, bits: nat): Resolution
    requires 0 < bits <= 8
  {
    if !IsPacked(weight) || !RowScaled(weight, scale) then Failed(BadShape(name))
    else if !FillsWords(InFeatures(weight, bits), bits, LINEAR_GROUP_SIZE) then Failed(RepackAborts(name))
    else Triplet(name, weight, scale, bits, LINEAR_GROUP_SIZE)
  }

  function BitsOf(name: string): (bits: Option<nat>)
    ensures bits.Some? ==> bits.value == 2 || bits.value == 4
  {
    if name == "lm_head" || name == "embed_tokens" then Some(2) else TextLinearBits(name)
  }

  function Resolve(name: string, parts: Parts): Resolution {
    match parts
    case Parts(None, _) => Failed(MissingWeight(name))
    case Parts(_, None) => Failed(MissingScale(name))
    case Parts(Some(weight), Some(scale)) =>
      if name == PLE_MODULE then ResolveEmbedding(name, weight, scale)
      else if weight.dtype == Int8 then
        if RowScaled(weight, scale) then Resolved(map[NamespacedKey(name) + ".weight" := Dequantised(weight, scale)], map[])
        else Failed(BadShape(name))
      else
        match BitsOf(name)
        case None => Failed(Unrouted(name))
        case Some(bits) => ResolveAffine(name, weight, scale, bits)
  }

  datatype Final = Final(out: map<string, Out>, overrides: map<string, Override>)

  /** The second pass over the first `n` modules of a visit order; none once a module has failed. */
  ghost function Finish(b: Buffer, order: seq<string>, n: nat): Option<Final>
    requires n <= |order| && forall m :: m in order ==> m in b.quant
  {
    if n == 0 then Some(Final(b.out, map[]))
    else
      match Finish(b, order, n - 1)
      case None => None
      case Some(f) => Extend(f, Resolve(order[n - 1], b.quant[order[n - 1]]))
  }

  function Extend(f: Final, r: Resolution): Option<Final> {
    match r
    case Failed(_) => None
    case Resolved(out, overrides) => Some(Final(f.out + out, f.overrides + overrides))
  }

  /** Modules write disjoint output keys. */
  lemma DisjointModules(a: string, b: string, pa: Parts, pb: Parts, key: string)
    requires Resolve(a, pa).Resolved? && Resolve(b, pb).Resolved?
    requires key in Resolve(a, pa).out && key in Resolve(b, pb).out
    ensures a == b
  {
    hide NamespacedKey, BitsOf, Product, FillsWords, InFeatures;
    var x := ModuleKey(a, pa, key);
    var y := ModuleKey(b, pb, key);
    assert NamespacedKey(a) == key[..|key| - 7] == NamespacedKey(b);
    NamespaceInjective(a, b);
  }

  predicate ModuleSuffix(suffix: string) {
    suffix == ".weight" || suffix == ".scales" || suffix == ".biases"
  }

  lemma ModuleKey(name: string, parts: Parts, key: string) returns (suffix: string)
    requires Resolve(name, parts).Resolved? && key in Resolve(name, parts).out
    ensures ModuleSuffix(suffix) && |suffix| == 7 && key == NamespacedKey(name) + suffix
  {
    hide NamespacedKey, BitsOf, Product, FillsWords, InFeatures;
    suffix := if key == NamespacedKey(name) + ".weight" then ".weight"
              else if key == NamespacedKey(name) + ".scales" then ".scales" else ".biases";
  }

  /** What the second pass leaves under a key, without reference to a visit order. */
  ghost predicate FinishedOut(b: Buffer, modules: set<string>, f: Final) {
    && (forall m :: m in modules ==> m in b.quant && Resolve(m, b.quant[m]).Resolved?)
    && (forall m, key :: m in modules && key in Resolve(m, b.quant[m]).out
          ==> key in f.out && f.out[key] == Resolve(m, b.quant[m]).out[key])
    && (forall key :: key in f.out ==> key in b.out || exists m :: m in modules && key in Resolve(m, b.quant[m]).out)
    && (forall key :: key in b.out && (forall m :: m in modules ==> key !in Resolve(m, b.quant[m]).out)
          ==> key in f.out && f.out[key] == b.out[key])
    && b.out.Keys <= f.out.Keys
  }

  ghost predicate FinishedOverrides(b: Buffer, modules: set<string>, f: Final) {
    && (forall m :: m in modules ==> m in b.quant && Resolve(m, b.quant[m]).Resolved?)
    && (forall m :: m in f.overrides <==> m in modules && m in Resolve(m, b.quant[m]).overrides)
    && (forall m :: m in f.overrides ==> f.overrides[m] == Resolve(m, b.quant[m]).overrides[m])
  }

  lemma OwnOverride(name: string, parts: Parts)
    requires Resolve(name, parts).Resolved?
    ensures forall m :: m in Resolve(name, parts).overrides ==> m == name
  {
  }

  lemma ExtendOut(b: Buffer, modules: set<string>, f: Final, m: string)
    requires FinishedOut(b, modules, f) && m !in modules && m in b.quant && Resolve(m, b.quant[m]).Resolved?
    ensures FinishedOut(b, modules + {m}, Extend(f, Resolve(m, b.quant[m])).value)
  {
    hide Resolve;
    var r := Resolve(m, b.quant[m]);
    var f' := Extend(f, r).value;
    forall k, key | k in modules && key in Resolve(k, b.quant[k]).out ensures key !in r.out {
      if key in r.out { DisjointModules(k, m, b.quant[k], b.quant[m], key); }
    }
  }

  lemma ExtendOverrides(b: Buffer, modules: set<string>, f: Final, m: string)
    requires FinishedOverrides(b, modules, f) && m !in modules && m in b.quant && Resolve(m, b.quant[m]).Resolved?
    ensures FinishedOverrides(b, modules + {m}, Extend(f, Resolve(m, b.quant[m])).value)
  {
    hide Resolve;
    OwnOverride(m, b.quant[m]);
  }

  ghost function Visited(order: seq<string>, n: nat): set<string>
    requires n <= |order|
  {
    set i | 0 <= i < n :: order[i]
  }

  ghost predicate AllResolve(b: Buffer, modules: set<string>) {
    forall m :: m in modules ==> m in b.quant && Resolve(m, b.quant[m]).Resolved?
  }

  lemma {:induction false} FinishIs(b: Buffer, order: seq<string>, n: nat)
    requires n <= |order| && IsOrder(order, b.quant.Keys)
    ensures Finish(b, order, n).Some? <==> AllResolve(b, Visited(order, n))
    ensures Finish(b, order, n).Some? ==> FinishedOut(b, Visited(order, n), Finish(b, order, n).value)
    ensures Finish(b, order, n).Some? ==> FinishedOverrides(b, Visited(order, n), Finish(b, order, n).value)
  {
    hide Resolve, FinishedOut, FinishedOverrides, AllResolve;
    if n == 0 {
      NothingFinished(b);
      assert Visited(order, 0) == {};
    } else {
      FinishIs(b, order, n - 1);
      var m, before := order[n - 1], Visited(order, n - 1);
      assert Visited(order, n) == before + {m};
      assert m !in before;
      OneMoreResolves(b, before, m);
      if Finish(b, order, n).Some? {
        ExtendOut(b, before, Finish(b, order, n - 1).value, m);
        ExtendOverrides(b, before, Finish(b, order, n - 1).value, m);
      }
    }
  }

  lemma OneMoreResolves(b: Buffer, before: set<string>, m: string)
    requires m in b.quant
    ensures AllResolve(b, before + {m}) <==> AllResolve(b, before) && Resolve(m, b.quant[m]).Resolved?
  {
    hide Resolve;
  }

  lemma NothingFinished(b: Buffer)
    ensures FinishedOut(b, {}, Final(b.out, map[])) && FinishedOverrides(b, {}, Final(b.out, map[])) && AllResolve(b, {})
  {
  }

  lemma FinishedUnique(b: Buffer, modules: set<string>, f: Final, g: Final)
    requires FinishedOut(b, modules, f) && FinishedOverrides(b, modules, f)
    requires FinishedOut(b, modules, g) && FinishedOverrides(b, modules, g)
    ensures f == g
  {
    hide FinishedOut, Resolve;
    forall key ensures key in f.out ==> key in g.out && f.out[key] == g.out[key] {
      if key in f.out { FinishedAt(b, modules, f, g, key); }
    }
    forall key ensures key in g.out ==> key in f.out {
      if key in g.out { FinishedAt(b, modules, g, f, key); }
    }
    assert f.out == g.out;
    assert f.overrides == g.overrides;
  }

  lemma FinishedAt(b: Buffer, modules: set<string>, f: Final, g: Final, key: string)
    requires FinishedOut(b, modules, f) && FinishedOut(b, modules, g) && key in f.out
    ensures key in g.out && f.out[key] == g.out[key]
  {
    hide Resolve;
    if m :| m in modules && key in Resolve(m, b.quant[m]).out {
      assert f.out[key] == Resolve(m, b.quant[m]).out[key] == g.out[key];
    }
  }

  /** The second pass never depends on the visit order: it always fails, or always gives one result. */
  lemma SecondPassConfluent(b: Buffer, x: seq<string>, y: seq<string>)
    requires IsOrder(x, b.quant.Keys) && IsOrder(y, b.quant.Keys)
    ensures Finish(b, x, |x|) == Finish(b, y, |y|)
  {
    hide Resolve, FinishedOut, FinishedOverrides, AllResolve, Finish;
    FinishIs(b, x, |x|);
    FinishIs(b, y, |y|);
    assert Visited(x, |x|) == b.quant.Keys == Visited(y, |y|);
    if Finish(b, x, |x|).Some? {
      FinishedUnique(b, b.quant.Keys, Finish(b, x, |x|).value, Finish(b, y, |y|).value);
    }
  }

  // ---------------------------------------------------------------- the whole import

  /** Every `.scales` output belongs to a module with an override. */
  ghost predicate Covered(f: Final) {
    forall key :: key in f.out && EndsWith(key, ".scales") ==> CoveredKey(f, key)
  }

  ghost predicate CoveredKey(f: Final, key: string) {
    exists m :: m in f.overrides && key == NamespacedKey(m) + ".scales"
  }

  /** The import for given visit orders of the raw tensors and of the buffered modules. */
  ghost function Import(raw: map<string, Tensor>, x: seq<string>, y: seq<string>): Option<Final>
    requires IsOrder(x, raw.Keys) && IsOrder(y, Fill(raw, x, |x|).quant.Keys)
  {
    match Finish(Fill(raw, x, |x|), y, |y|)
    case None => None
    case Some(f) => if Covered(f) then Some(f) else None
  }

  /** Without clashes the import gives the same outputs and overrides for every pair of visit orders,
      or fails for every pair. */
  lemma ImportConfluent(raw: map<string, Tensor>, x: seq<string>, y: seq<string>, x': seq<string>, y': seq<string>)
    requires NoClash(raw)
    requires IsOrder(x, raw.Keys) && IsOrder(y, Fill(raw, x, |x|).quant.Keys)
    requires IsOrder(x', raw.Keys) && IsOrder(y', Fill(raw, x', |x'|).quant.Keys)
    ensures Import(raw, x, y) == Import(raw, x', y')
  {
    hide NoClash, Fill, Finish, Covered;
    FillConfluent(raw, x, x');
    SecondPassConfluent(Fill(raw, x, |x|), y, y');
  }

  lemma TripletCovered(name: string, parts: Parts, key: string)
    requires Resolve(name, parts).Resolved? && key in Resolve(name, parts).out && EndsWith(key, ".scales")
    ensures name in Resolve(name, parts).overrides && key == NamespacedKey(name) + ".scales"
  {
    hide NamespacedKey, BitsOf, Product, FillsWords, InFeatures;
    var suffix := ModuleKey(name, parts, key);
    assert key[|key| - 7..] == suffix;
  }

  /** The coverage check fails exactly when a pass-through tensor is named `*.scales` and its module
      has no override; modules resolved here are always covered. */
  lemma CoverageFailure(b: Buffer, f: Final)
    requires FinishedOut(b, b.quant.Keys, f) && FinishedOverrides(b, b.quant.Keys, f)
    ensures !Covered(f) <==> exists key :: key in b.out && EndsWith(key, ".scales") && !CoveredKey(f, key)
  {
    hide Resolve, EndsWith, CoveredKey;
    forall key | key in f.out && EndsWith(key, ".scales") && !CoveredKey(f, key) ensures key in b.out {
      if key !in b.out {
        var m :| m in b.quant.Keys && key in Resolve(m, b.quant[m]).out;
        TripletCovered(m, b.quant[m], key);
        CoveredBy(f, key, m);
        assert false;
      }
    }
  }

  lemma CoveredBy(f: Final, key: string, m: string)
    requires m in f.overrides && key == NamespacedKey(m) + ".scales"
    ensures CoveredKey(f, key)
  {
  }

  /** An output key that ends in `.scales` was passed through under such a name, or is `scales`. */
  lemma ScalesName(stripped: string)
    ensures EndsWith(NamespacedKey(stripped), ".scales") <==> EndsWith(stripped, ".scales") || stripped == "scales"
  {
    var key := NamespacedKey(stripped);
    if KeepsBareKey(stripped) {
      BareKeyStart(stripped);
      assert stripped != "scales";
    } else if |stripped| >= 7 {
      assert key[|key| - 7..] == stripped[|stripped| - 7..];
    } else {
      ShortName(stripped);
    }
  }

  lemma ShortName(stripped: string)
    requires |stripped| < 7
    ensures EndsWith(NAMESPACE + stripped, ".scales") <==> stripped == "scales"
  {
    var key := NAMESPACE + stripped;
    var tail := key[|key| - 7..];
    assert tail[6 - |stripped|] == NAMESPACE[|NAMESPACE| - 1] == '.';
    assert tail[7 - |stripped|..] == stripped;
    assert ".scales"[0] == '.' && ".scales"[1..] == "scales";
    assert forall i :: 1 <= i < 7 ==> ".scales"[i] != '.';
    if |stripped| == 6 {
      assert tail == ['.'] + stripped;
      assert ".scales" == ['.'] + "scales";
    }
  }

  /** So only a raw tensor that is itself named like a scales table can make the check fail. */
  lemma UncoveredIsNamedScales(raw: map<string, Tensor>, x: seq<string>, f: Final)
    requires IsOrder(x, raw.Keys) && !Covered(f)
    requires FinishedOut(Fill(raw, x, |x|), Fill(raw, x, |x|).quant.Keys, f)
    requires FinishedOverrides(Fill(raw, x, |x|), Fill(raw, x, |x|).quant.Keys, f)
    ensures exists k :: k in raw && Route(k, raw[k]).OutCell? && NamedScales(StripHfPrefix(k))
  {
    hide Route, Fill, Resolve, FinishedOut, FinishedOverrides, Covered, CoveredKey, EndsWith, NamespacedKey, StripHfPrefix, PassThrough;
    var b := Fill(raw, x, |x|);
    CoverageFailure(b, f);
    var key :| key in b.out && EndsWith(key, ".scales") && !CoveredKey(f, key);
    var k := OutWriter(raw, x, key);
    OutCellIsNamespaced(k, raw[k]);
    ScalesName(StripHfPrefix(k));
  }

  /** The raw tensor that a passed-through output comes from. */
  lemma OutWriter(raw: map<string, Tensor>, x: seq<string>, key: string) returns (k: string)
    requires IsOrder(x, raw.Keys) && key in Fill(raw, x, |x|).out
    ensures k in raw && Route(k, raw[k]) == OutCell(key)
    ensures Fill(raw, x, |x|).out[key] == PassThrough(StripHfPrefix(k), raw[k])
  {
    hide Route, Fill, PassThrough, StripHfPrefix;
    FillRead(raw, x, |x|, OutCell(key));
    var i :| 0 <= i < |x| && Route(x[i], raw[x[i]]) == OutCell(key)
             && Written(x[i], raw[x[i]]) == OutValue(Fill(raw, x, |x|).out[key]);
    k := x[i];
  }

  ghost predicate NamedScales(stripped: string) {
    EndsWith(stripped, ".scales") || stripped == "scales"
  }

  lemma OutCellIsNamespaced(key: string, t: Tensor)
    requires Route(key, t).OutCell?
    ensures Route(key, t).key == NamespacedKey(StripHfPrefix(key))
  {
    hide StripHfPrefix, IsDropped, IsSkipped, EndsWith, NamespacedKey;
  }

  // ---------------------------------------------------------------- metadata matches tensors

  /** Output `key` is the given part of the affine triplet that override `o` describes. */
  ghost predicate IsPart(f: Final, key: string, part: Part, o: Override) {
    && key in f.out && f.out[key].Affine? && f.out[key].part == part
    && o == Override(f.out[key].bits, f.out[key].groupSize, "affine")
  }

  /** The module's three output tensors are there, made from one weight and one scale, and its override
      says how they are packed. */
  ghost predicate Describes(f: Final, m: string) {
    && m in f.overrides
    && IsPart(f, NamespacedKey(m) + ".weight", PackedWeight, f.overrides[m])
    && IsPart(f, NamespacedKey(m) + ".scales", Scales, f.overrides[m])
    && IsPart(f, NamespacedKey(m) + ".biases", Biases, f.overrides[m])
  }

  lemma ResolvedDescribes(m: string, parts: Parts, suffix: string)
    requires Resolve(m, parts).Resolved? && m in Resolve(m, parts).overrides && ModuleSuffix(suffix)
    ensures var r := Resolve(m, parts);
            && NamespacedKey(m) + suffix in r.out
            && r.out[NamespacedKey(m) + suffix].Affine?
            && r.out[NamespacedKey(m) + suffix].part
               == (if suffix == ".weight" then PackedWeight else if suffix == ".scales" then Scales else Biases)
            && r.overrides[m] == Override(r.out[NamespacedKey(m) + suffix].bits, r.out[NamespacedKey(m) + suffix].groupSize, "affine")
  {
    hide NamespacedKey, BitsOf, Product, FillsWords, InFeatures;
    var prefix := NamespacedKey(m);
    assert (prefix + ".weight")[|prefix|..] == ".weight";
    assert (prefix + ".scales")[|prefix|..] == ".scales";
    assert (prefix + ".biases")[|prefix|..] == ".biases";
  }

  /** Every override describes the tensors that were written for its module. */
  lemma OverrideIsHonest(b: Buffer, f: Final, m: string)
    requires FinishedOut(b, b.quant.Keys, f) && FinishedOverrides(b, b.quant.Keys, f) && m in f.overrides
    ensures Describes(f, m)
  {
    hide Resolve, NamespacedKey;
    ResolvedDescribes(m, b.quant[m], ".weight");
    ResolvedDescribes(m, b.quant[m], ".scales");
    ResolvedDescribes(m, b.quant[m], ".biases");
  }

  lemma AffineIsDescribed(m: string, parts: Parts, key: string)
    requires Resolve(m, parts).Resolved? && key in Resolve(m, parts).out && Resolve(m, parts).out[key].Affine?
    ensures m in Resolve(m, parts).overrides
  {
  }

  lemma BufferedIsPassed(raw: map<string, Tensor>, x: seq<string>, key: string)
    requires IsOrder(x, raw.Keys) && key in Fill(raw, x, |x|).out
    ensures Fill(raw, x, |x|).out[key].Passed?
  {
    hide Fill, Route, PassThrough, StripHfPrefix;
    var k := OutWriter(raw, x, key);
    PassesThrough(StripHfPrefix(k), raw[k]);
  }

  /** And every affine tensor in the output is one of the three of a module with an override. */
  lemma AffineHasOverride(raw: map<string, Tensor>, x: seq<string>, f: Final, key: string) returns (m: string, suffix: string)
    requires IsOrder(x, raw.Keys) && key in f.out && f.out[key].Affine?
    requires FinishedOut(Fill(raw, x, |x|), Fill(raw, x, |x|).quant.Keys, f)
    requires FinishedOverrides(Fill(raw, x, |x|), Fill(raw, x, |x|).quant.Keys, f)
    ensures Describes(f, m) && ModuleSuffix(suffix) && key == NamespacedKey(m) + suffix
  {
    hide Resolve, Fill, NamespacedKey, Describes, Route;
    var b := Fill(raw, x, |x|);
    if key in b.out { BufferedIsPassed(raw, x, key); }
    m :| m in b.quant.Keys && key in Resolve(m, b.quant[m]).out;
    AffineIsDescribed(m, b.quant[m], key);
    suffix := ModuleKey(m, b.quant[m], key);
    OverrideIsHonest(b, f, m);
  }

  // ---------------------------------------------------------------- bits by name

  /** The layers whose attention and MLP the checkpoint's schedule names: the digits after `layers.`. */
  ghost predicate IsLayerModule(name: string, layer: string, tail: string) {
    name == "layers." + layer + "." + tail && '.' !in layer
  }

  ghost predicate AttentionModule(tail: string) {
    || "self_attn.q_proj" <= tail || "self_attn.k_proj" <= tail
    || "self_attn.v_proj" <= tail || "self_attn.o_proj" <= tail
  }

  ghost predicate MlpModule(tail: string) {
    "mlp.gate_proj" <= tail || "mlp.up_proj" <= tail || "mlp.down_proj" <= tail
  }

  /** `name` is a layer's attention module, packed in 4 bits, or MLP module, packed in 4 bits up to layer 14 and
      in 2 beyond. */
  ghost predicate HasLayerBits(name: string, bits: int) {
    exists layer, tail :: LayerHasBits(name, layer, tail, bits)
  }

  ghost predicate LayerHasBits(name: string, layer: string, tail: string, bits: int) {
    && IsLayerModule(name, layer, tail) && ParseUsize(layer).Some?
    && ((AttentionModule(tail) && bits == 4)
        || (MlpModule(tail) && bits == if ParseUsize(layer).value <= 14 then 4 else 2))
  }

  lemma LayerForm(name: string) returns (layer: string, tail: string)
    requires TextLinearBits(name).Some?
    ensures IsLayerModule(name, layer, tail)
  {
    hide FindDot, ParseUsize, IsAttention, IsMlp;
    var rest := name[|"layers."|..];
    var dot := FindDot(rest).value;
    layer, tail := rest[..dot], rest[dot + 1..];
    assert rest == layer + "." + tail;
    assert name == "layers." + rest;
    assert name == "layers." + layer + "." + tail;
  }

  /** The importer gives a module bits exactly when it is a layer's attention or MLP module by name. */
  lemma TextLinearBitsByName(name: string, bits: nat)
    ensures TextLinearBits(name) == Some(bits) <==> HasLayerBits(name, bits)
  {
    hide TextLinearBits, ParseUsize, IsAttention, IsMlp, AttentionModule, MlpModule;
    if TextLinearBits(name).Some? {
      var layer, tail := LayerForm(name);
      TextLinearRoute(layer, tail);
      SameModules(tail);
      assert LayerHasBits(name, layer, tail, TextLinearBits(name).value);
    }
    if HasLayerBits(name, bits) {
      var layer, tail :| LayerHasBits(name, layer, tail, bits);
      TextLinearRoute(layer, tail);
      SameModules(tail);
      if IsMlp(tail) { MlpIsNotAttention(tail); }
    }
  }

  lemma SameModules(tail: string)
    ensures IsAttention(tail) <==> AttentionModule(tail)
    ensures IsMlp(tail) <==> MlpModule(tail)
  {
  }

  /** Every override of a finished import says 128 columns to a group, affine, and the bits of its module's
      name: 2 for the head and the embedding, 4 for the per-layer embedding, and the layer rule otherwise. */
  lemma OverrideBitsByName(b: Buffer, f: Final, m: string)
    requires FinishedOverrides(b, b.quant.Keys, f) && m in f.overrides
    ensures f.overrides[m].groupSize == 128 && f.overrides[m].mode == "affine"
    ensures m == "lm_head" || m == "embed_tokens" ==> f.overrides[m].bits == 2
    ensures m == "embed_tokens_per_layer" ==> f.overrides[m].bits == 4
    ensures m == "lm_head" || m == "embed_tokens" || m == "embed_tokens_per_layer" || HasLayerBits(m, f.overrides[m].bits)
  {
    hide TextLinearBits, HasLayerBits, NamespacedKey, Product, FillsWords, InFeatures;
    TextLinearBitsByName(m, 2);
    TextLinearBitsByName(m, 4);
  }

  // ---------------------------------------------------------------- which modules are imported

  ghost predicate RowPerScale(weight: Tensor, scale: Tensor) {
    |weight.shape| == 2 && Product(scale.shape) == weight.shape[0]
  }

  /** What a weight and a scale must be for their module to be imported: for the per-layer embedding raw bytes
      with a scale for every 256 columns; for an 8-bit weight one scale per row; otherwise raw bytes with one
      scale per row, a module with bits, and rows that fill groups of 128 columns. */
  ghost predicate Importable(name: string, weight: Tensor, scale: Tensor) {
    if name == "embed_tokens_per_layer" then
      && weight.dtype == Uint8 && |weight.shape| == 2 && |scale.shape| == 2
      && scale.shape[0] == weight.shape[0] && 2 * weight.shape[1] == 256 * scale.shape[1]
    else if weight.dtype == Int8 then RowPerScale(weight, scale)
    else
      && weight.dtype == Uint8 && RowPerScale(weight, scale)
      && if name == "lm_head" || name == "embed_tokens" || HasLayerBits(name, 2) then weight.shape[1] % 32 == 0
         else HasLayerBits(name, 4) && weight.shape[1] % 64 == 0
  }

  lemma ResolvesExactlyWhen(name: string, parts: Parts)
    ensures Resolve(name, parts).Resolved?
            <==> parts.weight.Some? && parts.scale.Some? && Importable(name, parts.weight.value, parts.scale.value)
  {
    hide TextLinearBits, HasLayerBits, NamespacedKey, Product, FillsWords;
    TextLinearBitsByName(name, 2);
    TextLinearBitsByName(name, 4);
    if parts.weight.Some? && |parts.weight.value.shape| == 2 {
      WordsFilled(parts.weight.value.shape[1]);
    }
  }

  lemma WordsFilled(bytes: nat)
    ensures FillsWords(bytes * (8 / 2), 2, LINEAR_GROUP_SIZE) <==> bytes % 32 == 0
    ensures FillsWords(bytes * (8 / 4), 4, LINEAR_GROUP_SIZE) <==> bytes % 64 == 0
  {
    var q, r := bytes / 32, bytes % 32;
    DivisionUnique(4 * bytes, 128, q, 4 * r);
    if r == 0 { DivisionUnique(4 * bytes, 16, 8 * q, 0); }
    var q', r' := bytes / 64, bytes % 64;
    DivisionUnique(2 * bytes, 128, q', 2 * r');
    if r' == 0 { DivisionUnique(2 * bytes, 8, 16 * q', 0); }
  }

  ghost predicate HasBitsByName(name: string) {
    name == "lm_head" || name == "embed_tokens" || HasLayerBits(name, 2) || HasLayerBits(name, 4)
  }

  /** Why a module is not imported: a missing weight is reported first, then a missing scale, then a module
      without bits, then a wrong shape or dtype, and last a row that does not fill its words and groups. */
  lemma FailsAs(name: string, parts: Parts)
    requires Resolve(name, parts).Failed?
    ensures var e := Resolve(name, parts).error;
            if parts.weight.None? then e == MissingWeight(name)
            else if parts.scale.None? then e == MissingScale(name)
            else
              var weight, scale := parts.weight.value, parts.scale.value;
              if name == "embed_tokens_per_layer" || weight.dtype == Int8 then e == BadShape(name)
              else if !HasBitsByName(name) then e == Unrouted(name)
              else if weight.dtype == Uint8 && RowPerScale(weight, scale) then e == RepackAborts(name)
              else e == BadShape(name)
  {
    hide TextLinearBits, HasLayerBits, NamespacedKey, Product, FillsWords;
    TextLinearBitsByName(name, 2);
    TextLinearBitsByName(name, 4);
  }

  /** What an imported module writes: an 8-bit weight is dequantised and described by no override, any other
      becomes the three parts of a triplet under one override. */
  lemma ResolvedAs(name: string, weight: Tensor, scale: Tensor)
    requires Resolve(name, Parts(Some(weight), Some(scale))).Resolved?
    ensures var r, prefix := Resolve(name, Parts(Some(weight), Some(scale))), NamespacedKey(name);
            if weight.dtype == Int8 then
              r.overrides == map[] && r.out == map[prefix + ".weight" := Dequantised(weight, scale)]
            else
              && r.overrides.Keys == {name}
              && r.out.Keys == {prefix + ".weight", prefix + ".scales", prefix + ".biases"}
              && forall key :: key in r.out ==> r.out[key].Affine? && r.out[key].weight == weight && r.out[key].scale == scale
  {
    hide NamespacedKey, BitsOf, Product, FillsWords, InFeatures;
  }

  // ---------------------------------------------------------------- conservation

  /** A buffered module was put together from one raw weight and one raw scale. */
  lemma ModuleFromRaw(raw: map<string, Tensor>, x: seq<string>, m: string) returns (w: string, s: string)
    requires IsOrder(x, raw.Keys) && m in Fill(raw, x, |x|).quant
    requires Resolve(m, Fill(raw, x, |x|).quant[m]).Resolved?
    ensures w in raw && Route(w, raw[w]) == WeightCell(m)
    ensures s in raw && Route(s, raw[s]) == ScaleCell(m)
    ensures Fill(raw, x, |x|).quant[m] == Parts(Some(raw[w]), Some(raw[s]))
  {
    hide Route, Fill;
    var b := Fill(raw, x, |x|);
    BothParts(m, b.quant[m]);
    FillRead(raw, x, |x|, WeightCell(m));
    FillRead(raw, x, |x|, ScaleCell(m));
    var i :| 0 <= i < |x| && Route(x[i], raw[x[i]]) == WeightCell(m)
             && Written(x[i], raw[x[i]]) == TensorValue(b.quant[m].weight.value);
    var j :| 0 <= j < |x| && Route(x[j], raw[x[j]]) == ScaleCell(m)
             && Written(x[j], raw[x[j]]) == TensorValue(b.quant[m].scale.value);
    w, s := x[i], x[j];
  }

  lemma BothParts(m: string, parts: Parts)
    requires Resolve(m, parts).Resolved?
    ensures parts.weight.Some? && parts.scale.Some?
  {
  }

  /** Key `key` is written by a module, over whatever was passed through under it. */
  ghost predicate WrittenByModule(b: Buffer, key: string) {
    exists m :: m in b.quant && Resolve(m, b.quant[m]).Resolved? && key in Resolve(m, b.quant[m]).out
  }

  /** What becomes of each kept raw tensor: a part of a module is consumed by that module's outputs, and
      a pass-through tensor is in the output under its key unless a module writes the same key. */
  lemma EveryKeptTensorIsUsed(raw: map<string, Tensor>, x: seq<string>, f: Final, key: string)
    requires IsOrder(x, raw.Keys) && key in raw && AgreeAt(raw, Route(key, raw[key]))
    requires FinishedOut(Fill(raw, x, |x|), Fill(raw, x, |x|).quant.Keys, f)
    ensures var b := Fill(raw, x, |x|);
            match Route(key, raw[key])
            case Nowhere => true
            case WeightCell(m) => m in b.quant && b.quant[m].weight == Some(raw[key]) && Resolve(m, b.quant[m]).Resolved?
            case ScaleCell(m) => m in b.quant && b.quant[m].scale == Some(raw[key]) && Resolve(m, b.quant[m]).Resolved?
            case OutCell(k) =>
              && k in f.out
              && (f.out[k] == PassThrough(StripHfPrefix(key), raw[key]) <==> !WrittenByModule(b, k))
  {
    hide Route, Fill, Resolve, PassThrough;
    var b := Fill(raw, x, |x|);
    var cell := Route(key, raw[key]);
    if cell != Nowhere {
      FillRead(raw, x, |x|, cell);
      CellHolds(raw, x, key, Read(b, cell));
    }
    if cell.OutCell? && WrittenByModule(b, cell.key) {
      var m :| m in b.quant && Resolve(m, b.quant[m]).Resolved? && cell.key in Resolve(m, b.quant[m]).out;
      ModuleNeverPasses(m, b.quant[m], cell.key);
      PassesThrough(StripHfPrefix(key), raw[key]);
    }
  }

  lemma PassesThrough(stripped: string, t: Tensor)
    ensures PassThrough(stripped, t).Passed?
  {
  }

  lemma ModuleNeverPasses(m: string, parts: Parts, key: string)
    requires Resolve(m, parts).Resolved? && key in Resolve(m, parts).out
    ensures !Resolve(m, parts).out[key].Passed?
  {
  }

  lemma CellHolds(raw: map<string, Tensor>, x: seq<string>, key: string, left: Option<Value>)
    requires IsOrder(x, raw.Keys) && key in raw && AgreeAt(raw, Route(key, raw[key]))
    requires LeftBy(raw, x, Route(key, raw[key]), left)
    ensures left == Some(Written(key, raw[key]))
  {
    hide Route, Written;
    assert key in x;
  }

  /** A module writes over a pass-through tensor exactly when it emits a part under that tensor's own
      stripped name. */
  lemma OverwriteByName(m: string, stripped: string, suffix: string)
    requires NamespacedKey(stripped) == NamespacedKey(m) + suffix
    ensures stripped == m + suffix
  {
    StripUndoesNamespace(stripped, "");
    StripUndoesNamespace(m, suffix);
    assert NamespacedKey(stripped) + "" == NamespacedKey(stripped) && stripped + "" == stripped;
  }

  /** Nothing is invented: every output is a raw tensor passed through, or a part of the module that one
      raw weight and one raw scale were paired into. */
  lemma EveryOutputComesFromRaw(raw: map<string, Tensor>, x: seq<string>, f: Final, key: string)
    requires IsOrder(x, raw.Keys) && key in f.out
    requires FinishedOut(Fill(raw, x, |x|), Fill(raw, x, |x|).quant.Keys, f)
    ensures || (exists k :: k in raw && Route(k, raw[k]) == OutCell(key) && f.out[key] == PassThrough(StripHfPrefix(k), raw[k]))
            || (exists m, w, s :: Paired(raw, m, w, s)
                  && key in Resolve(m, Parts(Some(raw[w]), Some(raw[s]))).out
                  && f.out[key] == Resolve(m, Parts(Some(raw[w]), Some(raw[s]))).out[key])
  {
    hide Route, Fill, Resolve, PassThrough;
    var b := Fill(raw, x, |x|);
    if m :| m in b.quant.Keys && key in Resolve(m, b.quant[m]).out {
      var w, s := ModuleFromRaw(raw, x, m);
      assert Paired(raw, m, w, s);
    } else {
      assert key in b.out && f.out[key] == b.out[key];
      var k := OutWriter(raw, x, key);
    }
  }

  ghost predicate Paired(raw: map<string, Tensor>, m: string, w: string, s: string) {
    && w in raw && s in raw && Route(w, raw[w]) == WeightCell(m) && Route(s, raw[s]) == ScaleCell(m)
    && Resolve(m, Parts(Some(raw[w]), Some(raw[s]))).Resolved?
  }
}
