/** When the import of `convert_gemma_import.rs` does not depend on the visit order of its two unordered
    maps. Outputs are compared as terms over the tensors they are made from. */
module GemmaConfluence {
  import opened Wrappers
  import opened GemmaKeys
  import opened GemmaImport

  /** The buffer after the first pass, for one visit order. */
  ghost function BufferOf(raw: map<string, Tensor>, x: seq<string>): Buffer
    requires IsOrder(x, raw.Keys)
  {
    Fill(raw, x, |x|)
  }

  ghost function FinishOf(b: Buffer, y: seq<string>): Option<Final>
    requires IsOrder(y, b.quant.Keys)
  {
    Finish(b, y, |y|)
  }

  /** The result of the whole import, for one pair of visit orders. */
  ghost function ResultOf(raw: map<string, Tensor>, x: seq<string>, y: seq<string>): Option<Final>
    requires ValidOrders(raw, x, y)
  {
    Import(raw, x, y)
  }

  lemma ResultIs(raw: map<string, Tensor>, x: seq<string>, y: seq<string>)
    requires ValidOrders(raw, x, y)
    ensures ResultOf(raw, x, y)
            == match FinishOf(BufferOf(raw, x), y) case None => None case Some(f) => if Covered(f) then Some(f) else None
  {
  }

  lemma AllVisited(order: seq<string>, keys: set<string>)
    requires IsOrder(order, keys)
    ensures Visited(order, |order|) == keys
  {
  }

  lemma FinishOfIs(b: Buffer, y: seq<string>)
    requires IsOrder(y, b.quant.Keys)
    ensures FinishOf(b, y).Some? <==> AllResolve(b, b.quant.Keys)
    ensures FinishOf(b, y).Some? ==> FinishedOut(b, b.quant.Keys, FinishOf(b, y).value)
    ensures FinishOf(b, y).Some? ==> FinishedOverrides(b, b.quant.Keys, FinishOf(b, y).value)
  {
    hide Finish, FinishedOut, FinishedOverrides, AllResolve;
    FinishIs(b, y, |y|);
    AllVisited(y, b.quant.Keys);
  }

  ghost predicate ValidOrders(raw: map<string, Tensor>, x: seq<string>, y: seq<string>) {
    IsOrder(x, raw.Keys) && IsOrder(y, BufferOf(raw, x).quant.Keys)
  }

  /** No module is offered two different weights or two different scales. */
  ghost predicate PartsAgree(raw: map<string, Tensor>) {
    forall cell :: IsPartCell(cell) ==> AgreeAt(raw, cell)
  }

  /** A raw weight and a raw scale make a module that writes output `key`. */
  ghost predicate ModuleWrites(raw: map<string, Tensor>, key: string) {
    exists m, w, s :: Paired(raw, m, w, s) && key in Resolve(m, Parts(Some(raw[w]), Some(raw[s]))).out
  }

  /** Passed-through tensors that clash are all overwritten by a module. */
  ghost predicate ClashesAreOverwritten(raw: map<string, Tensor>) {
    forall key :: !AgreeAt(raw, OutCell(key)) ==> ModuleWrites(raw, key)
  }

  ghost predicate OrderFree(raw: map<string, Tensor>) {
    PartsAgree(raw) && ClashesAreOverwritten(raw)
  }

  // ---------------------------------------------------------------- the condition suffices

  lemma QuantConfluent(raw: map<string, Tensor>, a: seq<string>, b: seq<string>)
    requires PartsAgree(raw) && IsOrder(a, raw.Keys) && IsOrder(b, raw.Keys)
    ensures BufferOf(raw, a).quant == BufferOf(raw, b).quant
  {
    hide Read, BufferOf, NoEmptyModule, AgreeAt, IsOrder;
    NoneEmpty(raw, a);
    NoneEmpty(raw, b);
    forall cell | IsPartCell(cell) ensures Read(BufferOf(raw, a), cell) == Read(BufferOf(raw, b), cell) {
      CellConfluent(raw, a, b, cell);
    }
    QuantsEqual(BufferOf(raw, a), BufferOf(raw, b));
  }

  lemma NoneEmpty(raw: map<string, Tensor>, a: seq<string>)
    requires IsOrder(a, raw.Keys)
    ensures NoEmptyModule(BufferOf(raw, a))
  {
    hide Fill, NoEmptyModule, Read;
    FillRead(raw, a, |a|, OutCell(""));
  }

  lemma CellConfluent(raw: map<string, Tensor>, a: seq<string>, b: seq<string>, cell: Cell)
    requires cell != Nowhere && AgreeAt(raw, cell) && IsOrder(a, raw.Keys) && IsOrder(b, raw.Keys)
    ensures Read(BufferOf(raw, a), cell) == Read(BufferOf(raw, b), cell)
  {
    hide Route, Written, Read, Fill, NoEmptyModule, AgreeAt;
    FillRead(raw, a, |a|, cell);
    FillRead(raw, b, |b|, cell);
    SameWriters(raw, a, b, cell, Read(BufferOf(raw, a), cell), Read(BufferOf(raw, b), cell));
  }

  /** Where the parts agree, a pair of raw tensors that makes a module is the buffered one. */
  lemma PairedIsBuffered(raw: map<string, Tensor>, x: seq<string>, m: string, w: string, s: string)
    requires PartsAgree(raw) && IsOrder(x, raw.Keys) && Paired(raw, m, w, s)
    ensures m in BufferOf(raw, x).quant && BufferOf(raw, x).quant[m] == Parts(Some(raw[w]), Some(raw[s]))
  {
    hide Route, Fill, Resolve, AgreeAt;
    var b := BufferOf(raw, x);
    FillRead(raw, x, |x|, WeightCell(m));
    CellHolds(raw, x, w, Read(b, WeightCell(m)));
    FillRead(raw, x, |x|, ScaleCell(m));
    CellHolds(raw, x, s, Read(b, ScaleCell(m)));
  }

  lemma SameAt(raw: map<string, Tensor>, x: seq<string>, x': seq<string>, f: Final, f': Final, key: string)
    requires OrderFree(raw) && IsOrder(x, raw.Keys) && IsOrder(x', raw.Keys) && key in f.out
    requires BufferOf(raw, x).quant == BufferOf(raw, x').quant
    requires FinishedOut(BufferOf(raw, x), BufferOf(raw, x).quant.Keys, f)
    requires FinishedOut(BufferOf(raw, x'), BufferOf(raw, x).quant.Keys, f')
    ensures key in f'.out && f'.out[key] == f.out[key]
  {
    hide Route, BufferOf, Resolve, AgreeAt, PartsAgree, IsOrder;
    var b, b' := BufferOf(raw, x), BufferOf(raw, x');
    if m :| m in b.quant.Keys && key in Resolve(m, b.quant[m]).out {
      assert f'.out[key] == Resolve(m, b.quant[m]).out[key];
    } else {
      if !AgreeAt(raw, OutCell(key)) {
        var m, w, s :| Paired(raw, m, w, s) && key in Resolve(m, Parts(Some(raw[w]), Some(raw[s]))).out;
        PairedIsBuffered(raw, x, m, w, s);
      }
      CellConfluent(raw, x, x', OutCell(key));
    }
  }

  lemma SameFinal(raw: map<string, Tensor>, x: seq<string>, x': seq<string>, f: Final, f': Final)
    requires OrderFree(raw) && IsOrder(x, raw.Keys) && IsOrder(x', raw.Keys)
    requires BufferOf(raw, x).quant == BufferOf(raw, x').quant
    requires FinishedOut(BufferOf(raw, x), BufferOf(raw, x).quant.Keys, f)
    requires FinishedOut(BufferOf(raw, x'), BufferOf(raw, x).quant.Keys, f')
    requires FinishedOverrides(BufferOf(raw, x), BufferOf(raw, x).quant.Keys, f)
    requires FinishedOverrides(BufferOf(raw, x'), BufferOf(raw, x).quant.Keys, f')
    ensures f == f'
  {
    hide OrderFree, BufferOf, FinishedOut, IsOrder, Resolve;
    forall key ensures key in f.out ==> key in f'.out && f'.out[key] == f.out[key] {
      if key in f.out { SameAt(raw, x, x', f, f', key); }
    }
    forall key ensures key in f'.out ==> key in f.out {
      if key in f'.out { SameAt(raw, x', x, f', f, key); }
    }
    assert f.out == f'.out;
    assert f.overrides == f'.overrides;
  }

  /** One successful pair of visit orders decides for all. */
  lemma OrderFreeImports(raw: map<string, Tensor>, x: seq<string>, y: seq<string>, x': seq<string>, y': seq<string>)
    requires OrderFree(raw) && ValidOrders(raw, x, y) && ValidOrders(raw, x', y') && ResultOf(raw, x, y).Some?
    ensures ResultOf(raw, x', y') == ResultOf(raw, x, y)
  {
    hide BufferOf, FinishOf, ResultOf, FinishedOut, FinishedOverrides, Covered, AllResolve, ClashesAreOverwritten, PartsAgree, IsOrder;
    QuantConfluent(raw, x, x');
    var b, b' := BufferOf(raw, x), BufferOf(raw, x');
    ResultIs(raw, x, y);
    ResultIs(raw, x', y');
    FinishOfIs(b, y);
    FinishOfIs(b', y');
    SameResolve(b, b', b.quant.Keys);
    SameFinal(raw, x, x', FinishOf(b, y).value, FinishOf(b', y').value);
  }

  lemma SameResolve(b: Buffer, b': Buffer, modules: set<string>)
    requires b.quant == b'.quant
    ensures AllResolve(b, modules) <==> AllResolve(b', modules)
  {
  }

  // ---------------------------------------------------------------- the condition is necessary

  /** The parts a module's `.weight` output is made from. */
  function MadeFrom(o: Out): Parts {
    match o
    case Affine(_, weight, scale, _, _) => Parts(Some(weight), Some(scale))
    case Dequantised(weight, scale) => Parts(Some(weight), Some(scale))
    case Passed(_, _, _) => Parts(None, None)
  }

  lemma WeightShowsParts(m: string, parts: Parts)
    requires Resolve(m, parts).Resolved?
    ensures var key := NamespacedKey(m) + ".weight"; key in Resolve(m, parts).out && MadeFrom(Resolve(m, parts).out[key]) == parts
  {
    hide NamespacedKey, BitsOf, Product, FillsWords, InFeatures;
    var prefix := NamespacedKey(m);
    assert (prefix + ".weight")[|prefix|..] == ".weight";
    assert (prefix + ".scales")[|prefix|..] == ".scales";
    assert (prefix + ".biases")[|prefix|..] == ".biases";
  }

  /** What a successful import says about the buffer it went through. */
  lemma ImportFinished(raw: map<string, Tensor>, x: seq<string>, y: seq<string>)
    requires ValidOrders(raw, x, y) && ResultOf(raw, x, y).Some?
    ensures FinishedOut(BufferOf(raw, x), BufferOf(raw, x).quant.Keys, ResultOf(raw, x, y).value)
  {
    hide BufferOf, FinishOf, ResultOf, FinishedOut, FinishedOverrides, Covered, AllResolve, IsOrder;
    ResultIs(raw, x, y);
    FinishOfIs(BufferOf(raw, x), y);
  }

  /** A visit order that ends with `k`, and what it leaves in the cell of `k`. */
  lemma LastWriter(raw: map<string, Tensor>, k: string) returns (x: seq<string>, y: seq<string>)
    requires k in raw && Route(k, raw[k]) != Nowhere
    ensures ValidOrders(raw, x, y)
    ensures Read(BufferOf(raw, x), Route(k, raw[k])) == Some(Written(k, raw[k]))
  {
    hide Route, Written, Put, Read;
    x := OrderEndingIn(raw.Keys, k);
    PutRead(Fill(raw, x, |x| - 1), k, raw[k], Route(k, raw[k]));
    y := Enumerate(BufferOf(raw, x).quant.Keys);
  }

  ghost predicate AlwaysGives(raw: map<string, Tensor>, f: Final) {
    forall x, y :: ValidOrders(raw, x, y) ==> ResultOf(raw, x, y) == Some(f)
  }

  /** The parts of a module can be read off its output. */
  lemma PartDetermined(raw: map<string, Tensor>, f: Final, m: string, k: string)
    requires AlwaysGives(raw, f) && k in raw
    requires Route(k, raw[k]) == WeightCell(m) || Route(k, raw[k]) == ScaleCell(m)
    ensures var key := NamespacedKey(m) + ".weight";
            && key in f.out
            && Some(raw[k]) == if Route(k, raw[k]).WeightCell? then MadeFrom(f.out[key]).weight else MadeFrom(f.out[key]).scale
  {
    hide Route, BufferOf, ResultOf, Resolve, NamespacedKey, IsOrder;
    var x, y := LastWriter(raw, k);
    ImportFinished(raw, x, y);
    var b := BufferOf(raw, x);
    assert m in b.quant.Keys;
    WeightShowsParts(m, b.quant[m]);
  }

  lemma NecessaryParts(raw: map<string, Tensor>, f: Final)
    requires AlwaysGives(raw, f)
    ensures PartsAgree(raw)
  {
    hide Route, NamespacedKey, AlwaysGives, MadeFrom;
    forall cell | IsPartCell(cell) ensures AgreeAt(raw, cell) {
      forall k, l | k in raw && l in raw && Route(k, raw[k]) == cell && Route(l, raw[l]) == cell
        ensures Written(k, raw[k]) == Written(l, raw[l])
      {
        PartDetermined(raw, f, cell.name, k);
        PartDetermined(raw, f, cell.name, l);
      }
    }
  }

  lemma PairOf(raw: map<string, Tensor>, x: seq<string>, m: string) returns (w: string, s: string)
    requires IsOrder(x, raw.Keys) && m in BufferOf(raw, x).quant && Resolve(m, BufferOf(raw, x).quant[m]).Resolved?
    ensures Paired(raw, m, w, s) && BufferOf(raw, x).quant[m] == Parts(Some(raw[w]), Some(raw[s]))
  {
    hide Route, Fill, Resolve, IsOrder;
    w, s := ModuleFromRaw(raw, x, m);
  }

  /** A passed-through tensor that no module overwrites can be read off its output. */
  lemma OutDetermined(raw: map<string, Tensor>, f: Final, key: string, k: string)
    requires AlwaysGives(raw, f) && k in raw && Route(k, raw[k]) == OutCell(key) && !ModuleWrites(raw, key)
    ensures key in f.out && Written(k, raw[k]) == OutValue(f.out[key])
  {
    hide Route, BufferOf, ResultOf, Resolve, IsOrder, PassThrough;
    var x, y := LastWriter(raw, k);
    ImportFinished(raw, x, y);
    var b := BufferOf(raw, x);
    if m :| m in b.quant.Keys && key in Resolve(m, b.quant[m]).out {
      var w, s := PairOf(raw, x, m);
    }
  }

  lemma NecessaryOutputs(raw: map<string, Tensor>, f: Final)
    requires AlwaysGives(raw, f)
    ensures ClashesAreOverwritten(raw)
  {
    hide Route, Written, AlwaysGives, ModuleWrites;
    forall key | !ModuleWrites(raw, key) ensures AgreeAt(raw, OutCell(key)) {
      forall k, l | k in raw && l in raw && Route(k, raw[k]) == OutCell(key) && Route(l, raw[l]) == OutCell(key)
        ensures Written(k, raw[k]) == Written(l, raw[l])
      {
        OutDetermined(raw, f, key, k);
        OutDetermined(raw, f, key, l);
      }
    }
  }

  // ---------------------------------------------------------------- the theorem

  /** When some pair of visit orders imports, all pairs give the same result exactly when no module is
      offered two weights or two scales and every clash of passed-through tensors is overwritten. */
  lemma ImportConfluence(raw: map<string, Tensor>, x: seq<string>, y: seq<string>)
    requires ValidOrders(raw, x, y) && ResultOf(raw, x, y).Some?
    ensures OrderFree(raw) <==> forall x', y' :: ValidOrders(raw, x', y') ==> ResultOf(raw, x', y') == ResultOf(raw, x, y)
  {
    hide ResultOf, ValidOrders, PartsAgree, ClashesAreOverwritten;
    if OrderFree(raw) {
      forall x', y' | ValidOrders(raw, x', y') ensures ResultOf(raw, x', y') == ResultOf(raw, x, y) {
        OrderFreeImports(raw, x, y, x', y');
      }
    }
    if forall x', y' :: ValidOrders(raw, x', y') ==> ResultOf(raw, x', y') == ResultOf(raw, x, y) {
      assert AlwaysGives(raw, ResultOf(raw, x, y).value);
      NecessaryParts(raw, ResultOf(raw, x, y).value);
      NecessaryOutputs(raw, ResultOf(raw, x, y).value);
    }
  }

  ghost predicate NeverImports(raw: map<string, Tensor>) {
    forall x, y :: ValidOrders(raw, x, y) ==> ResultOf(raw, x, y) == None
  }

  /** For every checkpoint: the visit orders agree exactly when they all fail or the condition holds. */
  lemma OrdersAgree(raw: map<string, Tensor>)
    ensures (forall x, y, x', y' :: ValidOrders(raw, x, y) && ValidOrders(raw, x', y') ==> ResultOf(raw, x, y) == ResultOf(raw, x', y'))
            <==> NeverImports(raw) || OrderFree(raw)
  {
    hide ResultOf, ValidOrders, OrderFree;
    if !NeverImports(raw) {
      var x, y :| ValidOrders(raw, x, y) && ResultOf(raw, x, y).Some?;
      ImportConfluence(raw, x, y);
    }
  }
}
