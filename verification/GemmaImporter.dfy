/** The loops of the gemma-QAT checkpoint importer `convert_gemma_import.rs`, over maps whose visit
    order is not determined. */
module GemmaImporter {
  import opened Wrappers
  import opened Sequences
  import opened GemmaKeys
  import opened GemmaImport

  datatype ImportResult = Imported(final: Final) | Rejected(error: ImportError)

  ghost predicate Adds(order: seq<string>, keys: set<string>, todo: set<string>) {
    && todo <= keys && IsOrder(order, keys - todo)
  }

  lemma AddsNext(order: seq<string>, keys: set<string>, todo: set<string>, key: string)
    requires Adds(order, keys, todo) && key in todo
    ensures Adds(order + [key], keys, todo - {key})
  {
  }

  lemma {:induction false} FillPrefix(raw: map<string, Tensor>, a: seq<string>, b: seq<string>, n: nat)
    requires n <= |a| && n <= |b| && a[..n] == b[..n]
    requires (forall k :: k in a ==> k in raw) && (forall k :: k in b ==> k in raw)
    ensures Fill(raw, a, n) == Fill(raw, b, n)
  {
    if n > 0 {
      assert a[n - 1] == a[..n][n - 1] == b[n - 1];
      assert a[..n - 1] == a[..n][..n - 1] == b[..n - 1];
      FillPrefix(raw, a, b, n - 1);
    }
  }

  lemma {:induction false} FinishPrefix(b: Buffer, x: seq<string>, y: seq<string>, n: nat)
    requires n <= |x| && n <= |y| && x[..n] == y[..n]
    requires (forall m :: m in x ==> m in b.quant) && (forall m :: m in y ==> m in b.quant)
    ensures Finish(b, x, n) == Finish(b, y, n)
  {
    if n > 0 {
      assert x[n - 1] == x[..n][n - 1] == y[n - 1];
      assert x[..n - 1] == x[..n][..n - 1] == y[..n - 1];
      FinishPrefix(b, x, y, n - 1);
    }
  }

  /** `b` is what the first pass leaves for the visit order `order`. */
  ghost predicate FilledBy(raw: map<string, Tensor>, order: seq<string>, b: Buffer) {
    IsOrder(order, raw.Keys) && b == Fill(raw, order, |order|)
  }

  /** The first pass, over the raw map in any order. */
  method FirstPass(raw: map<string, Tensor>) returns (b: Buffer)
    ensures exists order :: FilledBy(raw, order, b)
  {
    hide Put, Fill, IsOrder;
    NothingVisited(raw);
    b := EMPTY;
    ghost var order: seq<string> := [];
    var todo := raw.Keys;
    while todo != {}
      invariant Adds(order, raw.Keys, todo) && (forall k :: k in order ==> k in raw)
      invariant b == Fill(raw, order, |order|)
    {
      var key :| key in todo;
      AddsNext(order, raw.Keys, todo, key);
      FillNext(raw, order, key);
      b := Put(b, key, raw[key]);
      order := order + [key];
      todo := todo - {key};
    }
    assert raw.Keys - {} == raw.Keys;
    assert FilledBy(raw, order, b);
  }

  lemma NothingVisited(raw: map<string, Tensor>)
    ensures Adds([], raw.Keys, raw.Keys) && Fill(raw, [], 0) == EMPTY
  {
  }

  lemma FillNext(raw: map<string, Tensor>, order: seq<string>, key: string)
    requires key in raw && forall k :: k in order ==> k in raw
    ensures Fill(raw, order + [key], |order| + 1) == Put(Fill(raw, order, |order|), key, raw[key])
  {
    hide Put;
    FillPrefix(raw, order + [key], order, |order|);
  }

  function FinalOf(r: ImportResult): Option<Final> {
    if r.Imported? then Some(r.final) else None
  }

  /** `r` is how the second pass ends for the visit order `order`. */
  ghost predicate FinishedBy(b: Buffer, order: seq<string>, r: ImportResult) {
    IsOrder(order, b.quant.Keys) && Finish(b, order, |order|) == FinalOf(r)
  }

  /** The second pass, over the buffered modules in any order, stopping at the first failure. */
  method SecondPass(b: Buffer) returns (r: ImportResult)
    ensures exists order :: FinishedBy(b, order, r)
    ensures r.Rejected? ==> exists m :: m in b.quant && Resolve(m, b.quant[m]) == Failed(r.error)
  {
    hide Resolve, Finish, IsOrder;
    NothingFinishedYet(b);
    var f := Final(b.out, map[]);
    ghost var order: seq<string> := [];
    var todo := b.quant.Keys;
    while todo != {}
      invariant Adds(order, b.quant.Keys, todo) && (forall m :: m in order ==> m in b.quant)
      invariant Finish(b, order, |order|) == Some(f)
    {
      var name :| name in todo;
      AddsNext(order, b.quant.Keys, todo, name);
      FinishNext(b, order, name);
      var resolution := Resolve(name, b.quant[name]);
      order := order + [name];
      todo := todo - {name};
      match resolution
      case Failed(e) =>
        order := RestAfterFailure(b, order, todo);
        assert FinishedBy(b, order, Rejected(e));
        return Rejected(e);
      case Resolved(out, overrides) =>
        f := Final(f.out + out, f.overrides + overrides);
    }
    assert b.quant.Keys - {} == b.quant.Keys;
    assert FinishedBy(b, order, Imported(f));
    return Imported(f);
  }

  lemma NothingFinishedYet(b: Buffer)
    ensures Adds([], b.quant.Keys, b.quant.Keys) && Finish(b, [], 0) == Some(Final(b.out, map[]))
  {
  }

  lemma FinishNext(b: Buffer, order: seq<string>, name: string)
    requires name in b.quant && forall m :: m in order ==> m in b.quant
    ensures Finish(b, order + [name], |order| + 1)
            == match Finish(b, order, |order|) case None => None case Some(f) => Extend(f, Resolve(name, b.quant[name]))
  {
    hide Resolve;
    FinishPrefix(b, order + [name], order, |order|);
  }

  /** Once a module has failed, visiting the rest changes nothing. */
  lemma RestAfterFailure(b: Buffer, order: seq<string>, todo: set<string>) returns (all: seq<string>)
    requires Adds(order, b.quant.Keys, todo) && (forall m :: m in order ==> m in b.quant)
    requires Finish(b, order, |order|) == None
    ensures IsOrder(all, b.quant.Keys) && Finish(b, all, |all|) == None
    decreases |todo|
  {
    hide Resolve, Finish;
    if todo == {} {
      all := order;
      assert b.quant.Keys - {} == b.quant.Keys;
    } else {
      var name :| name in todo;
      AddsNext(order, b.quant.Keys, todo, name);
      FinishNext(b, order, name);
      all := RestAfterFailure(b, order + [name], todo - {name});
    }
  }

  method VerifyOverrideCoverage(f: Final) returns (uncovered: Option<string>)
    ensures uncovered.None? <==> Covered(f)
    ensures uncovered.Some? ==> uncovered.value in f.out && EndsWith(uncovered.value, ".scales") && !CoveredKey(f, uncovered.value)
  {
    hide EndsWith, NamespacedKey;
    var covered := set m | m in f.overrides :: NamespacedKey(m) + ".scales";
    var todo := f.out.Keys;
    while todo != {}
      invariant forall key :: key in f.out && key !in todo && EndsWith(key, ".scales") ==> CoveredKey(f, key)
    {
      var key :| key in todo;
      if EndsWith(key, ".scales") && key !in covered {
        assert !CoveredKey(f, key);
        return Some(key);
      }
      todo := todo - {key};
    }
    return None;
  }

  /** `r` is the result of the import for some pair of visit orders. */
  ghost predicate ImportedBy(raw: map<string, Tensor>, x: seq<string>, y: seq<string>, r: ImportResult) {
    && IsOrder(x, raw.Keys) && IsOrder(y, Fill(raw, x, |x|).quant.Keys)
    && Import(raw, x, y) == FinalOf(r)
  }

  /** The import, over both maps in any order. For an input without clashes its verdict and its outputs are
      those of every pair of visit orders. */
  method ImportGemmaPrequantized(raw: map<string, Tensor>) returns (r: ImportResult)
    ensures exists x, y :: ImportedBy(raw, x, y, r)
    ensures NoClash(raw) ==>
              forall x, y :: IsOrder(x, raw.Keys) && IsOrder(y, Fill(raw, x, |x|).quant.Keys)
                ==> Import(raw, x, y) == FinalOf(r)
  {
    hide Fill, Finish, Covered, IsOrder, NoClash, Import;
    var b := FirstPass(raw);
    ghost var x :| FilledBy(raw, x, b);
    r := SecondPass(b);
    ghost var y :| FinishedBy(b, y, r);
    ghost var finished := r;
    if r.Imported? {
      var uncovered := VerifyOverrideCoverage(r.final);
      if uncovered.Some? {
        r := Rejected(Uncovered(uncovered.value));
      }
    }
    BothPasses(raw, x, y, b, finished, r);
    if NoClash(raw) { ResultIsOrderFree(raw, r, x, y); }
  }

  lemma BothPasses(raw: map<string, Tensor>, x: seq<string>, y: seq<string>, b: Buffer, finished: ImportResult, r: ImportResult)
    requires FilledBy(raw, x, b) && FinishedBy(b, y, finished)
    requires finished.Rejected? ==> r == finished
    requires finished.Imported? ==> if Covered(finished.final) then r == finished else r.Rejected?
    ensures ImportedBy(raw, x, y, r)
  {
    hide Fill, Finish, Covered, IsOrder;
  }

  lemma ResultIsOrderFree(raw: map<string, Tensor>, r: ImportResult, x: seq<string>, y: seq<string>)
    requires NoClash(raw) && ImportedBy(raw, x, y, r)
    ensures forall x', y' :: IsOrder(x', raw.Keys) && IsOrder(y', Fill(raw, x', |x'|).quant.Keys)
              ==> Import(raw, x', y') == FinalOf(r)
  {
    hide NoClash, Fill, Import;
    forall x', y' | IsOrder(x', raw.Keys) && IsOrder(y', Fill(raw, x', |x'|).quant.Keys)
      ensures Import(raw, x', y') == FinalOf(r)
    {
      ImportConfluent(raw, x, y, x', y');
    }
  }

  // ---------------------------------------------------------------- top-level metadata

  datatype Metadata = Metadata(bits: int, groupSize: int, mode: string)

  ghost function WithBits(overrides: map<string, Override>, done: set<string>, bits: int): set<string> {
    set k | k in done && k in overrides && overrides[k].bits == bits
  }

  ghost predicate Uniform(overrides: map<string, Override>, done: set<string>, groupSize: int, mode: string) {
    forall k :: k in done && k in overrides ==> overrides[k].groupSize == groupSize && overrides[k].mode == mode
  }

  ghost predicate NoMoreFrequent(overrides: map<string, Override>, other: int, bits: int) {
    var n, m := |WithBits(overrides, overrides.Keys, bits)|, |WithBits(overrides, overrides.Keys, other)|;
    m < n || (m == n && other <= bits)
  }

  /** `bits` is the most frequent width, the wider one on a tie. */
  ghost predicate IsModalWidth(overrides: map<string, Override>, bits: int) {
    forall k :: k in overrides ==> NoMoreFrequent(overrides, overrides[k].bits, bits)
  }

  /** In an import's result every override says 128 columns to a group, affine, and its module's bits. So the
      top-level metadata exists for every import with an override. */
  lemma ImportedOverrides(raw: map<string, Tensor>, x: seq<string>, y: seq<string>, r: ImportResult)
    requires ImportedBy(raw, x, y, r) && r.Imported?
    ensures Uniform(r.final.overrides, r.final.overrides.Keys, 128, "affine")
    ensures forall m :: m in r.final.overrides ==>
              && (m == "lm_head" || m == "embed_tokens" ==> r.final.overrides[m].bits == 2)
              && (m == "embed_tokens_per_layer" ==> r.final.overrides[m].bits == 4)
              && (m == "lm_head" || m == "embed_tokens" || m == "embed_tokens_per_layer" || HasLayerBits(m, r.final.overrides[m].bits))
  {
    hide Fill, Finish, FinishedOut, FinishedOverrides, Covered, HasLayerBits, AllResolve;
    var b := Fill(raw, x, |x|);
    FinishIs(b, y, |y|);
    assert Visited(y, |y|) == b.quant.Keys;
    forall m | m in r.final.overrides
      ensures r.final.overrides[m].groupSize == 128 && r.final.overrides[m].mode == "affine"
      ensures m == "lm_head" || m == "embed_tokens" ==> r.final.overrides[m].bits == 2
      ensures m == "embed_tokens_per_layer" ==> r.final.overrides[m].bits == 4
      ensures m == "lm_head" || m == "embed_tokens" || m == "embed_tokens_per_layer" || HasLayerBits(m, r.final.overrides[m].bits)
    {
      OverrideBitsByName(b, r.final, m);
    }
  }

  method TopLevelQuantMetadata(overrides: map<string, Override>) returns (r: Option<Metadata>)
    ensures r.Some? <==> exists k :: k in overrides && Uniform(overrides, overrides.Keys, overrides[k].groupSize, overrides[k].mode)
    ensures r.Some? ==> Uniform(overrides, overrides.Keys, r.value.groupSize, r.value.mode)
    ensures r.Some? ==> IsModalWidth(overrides, r.value.bits) && exists k :: k in overrides && overrides[k].bits == r.value.bits
  {
    hide IsModalWidth;
    var seen: Option<Override> := None;
    var counts: map<int, nat>, widths: seq<int> := map[], [];
    var todo := overrides.Keys;
    while todo != {}
      invariant todo <= overrides.Keys
      invariant seen.None? <==> todo == overrides.Keys
      invariant seen.Some? ==> Uniform(overrides, overrides.Keys - todo, seen.value.groupSize, seen.value.mode)
      invariant Counted(overrides, overrides.Keys - todo, counts)
      invariant Lists(widths, counts)
    {
      var key :| key in todo;
      var o := overrides[key];
      if seen.Some? && (seen.value.mode != o.mode || seen.value.groupSize != o.groupSize) {
        MixedIsNotUniform(overrides, overrides.Keys - todo, key, seen.value);
        return None;
      }
      if seen.None? {
        seen := Some(o);
      }
      CountNext(overrides, overrides.Keys - todo, key, counts);
      ListsNext(widths, counts, o.bits, (if o.bits in counts then counts[o.bits] else 0) + 1);
      if o.bits !in counts {
        widths := widths + [o.bits];
      }
      counts := counts[o.bits := (if o.bits in counts then counts[o.bits] else 0) + 1];
      assert overrides.Keys - (todo - {key}) == (overrides.Keys - todo) + {key};
      todo := todo - {key};
    }
    if seen.None? {
      return None;
    }
    assert overrides.Keys - {} == overrides.Keys;
    ghost var some :| some in overrides;
    assert some in overrides.Keys && overrides[some].bits in counts;
    var bits := MaxByCount(counts, widths);
    ModalWidth(overrides, counts, bits);
    return Some(Metadata(bits, seen.value.groupSize, seen.value.mode));
  }

  ghost predicate Counted(overrides: map<string, Override>, done: set<string>, counts: map<int, nat>) {
    && (forall k :: k in done && k in overrides ==> overrides[k].bits in counts)
    && (forall bits :: bits in counts ==> counts[bits] == |WithBits(overrides, done, bits)| > 0)
  }

  lemma CountNext(overrides: map<string, Override>, done: set<string>, key: string, counts: map<int, nat>)
    requires Counted(overrides, done, counts) && key in overrides && key !in done
    ensures var bits := overrides[key].bits;
            Counted(overrides, done + {key}, counts[bits := (if bits in counts then counts[bits] else 0) + 1])
  {
    var bits := overrides[key].bits;
    forall w ensures |WithBits(overrides, done + {key}, w)| == |WithBits(overrides, done, w)| + if w == bits then 1 else 0 {
      WithBitsNext(overrides, done, key, w);
    }
    if bits !in counts {
      assert WithBits(overrides, done, bits) == {};
    }
    hide WithBits;
  }

  lemma WithBitsNext(overrides: map<string, Override>, done: set<string>, key: string, w: int)
    requires key in overrides && key !in done
    ensures |WithBits(overrides, done + {key}, w)| == |WithBits(overrides, done, w)| + if w == overrides[key].bits then 1 else 0
  {
    if w == overrides[key].bits {
      assert WithBits(overrides, done + {key}, w) == WithBits(overrides, done, w) + {key};
    } else {
      assert WithBits(overrides, done + {key}, w) == WithBits(overrides, done, w);
    }
  }

  lemma MixedIsNotUniform(overrides: map<string, Override>, done: set<string>, key: string, seen: Override)
    requires key in overrides && done <= overrides.Keys && done != {}
    requires Uniform(overrides, done, seen.groupSize, seen.mode)
    requires seen.mode != overrides[key].mode || seen.groupSize != overrides[key].groupSize
    ensures forall k :: k in overrides ==> !Uniform(overrides, overrides.Keys, overrides[k].groupSize, overrides[k].mode)
  {
    var d :| d in done;
    assert d in overrides && key in overrides.Keys;
  }

  ghost predicate Lists(widths: seq<int>, counts: map<int, nat>) {
    && (forall j :: 0 <= j < |widths| ==> widths[j] in counts)
    && (forall b :: b in counts ==> exists j :: 0 <= j < |widths| && widths[j] == b)
  }

  lemma ListsNext(widths: seq<int>, counts: map<int, nat>, bits: int, n: nat)
    requires Lists(widths, counts)
    ensures Lists(if bits in counts then widths else widths + [bits], counts[bits := n])
  {
    if bits !in counts {
      assert (widths + [bits])[|widths|] == bits;
      forall b | b in counts ensures exists j :: 0 <= j < |widths + [bits]| && (widths + [bits])[j] == b {
        var j :| 0 <= j < |widths| && widths[j] == b;
        assert (widths + [bits])[j] == b;
      }
    }
  }

  /** `max_by_key` over the counts, listed in any order. */
  method MaxByCount(counts: map<int, nat>, widths: seq<int>) returns (best: int)
    requires widths != [] && Lists(widths, counts)
    ensures best in counts && forall b :: b in counts ==> counts[b] < counts[best] || (counts[b] == counts[best] && b <= best)
  {
    best := widths[0];
    for i := 0 to |widths|
      invariant best in counts
      invariant forall j :: 0 <= j < i ==> counts[widths[j]] < counts[best] || (counts[widths[j]] == counts[best] && widths[j] <= best)
    {
      var bits := widths[i];
      if counts[bits] > counts[best] || (counts[bits] == counts[best] && bits >= best) {
        best := bits;
      }
    }
  }

  lemma ModalWidth(overrides: map<string, Override>, counts: map<int, nat>, bits: int)
    requires Counted(overrides, overrides.Keys, counts) && bits in counts
    requires forall b :: b in counts ==> counts[b] < counts[bits] || (counts[b] == counts[bits] && b <= bits)
    ensures IsModalWidth(overrides, bits) && exists k :: k in overrides && overrides[k].bits == bits
  {
    forall k | k in overrides
      ensures |WithBits(overrides, overrides.Keys, overrides[k].bits)| < |WithBits(overrides, overrides.Keys, bits)|
              || (|WithBits(overrides, overrides.Keys, overrides[k].bits)| == |WithBits(overrides, overrides.Keys, bits)| && overrides[k].bits <= bits)
    {
      assert k in overrides.Keys && overrides[k].bits in counts;
    }
    assert WithBits(overrides, overrides.Keys, bits) != {};
    var k :| k in WithBits(overrides, overrides.Keys, bits);
  }
}
