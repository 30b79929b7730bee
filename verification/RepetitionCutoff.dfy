/** `check_repetition_cutoff` of `sampling.rs`: detection of degenerate repetition at the end of the
    generated tokens. */
module RepetitionCutoff {

  datatype Limits = Limits(maxConsecutive: int, maxNgramRepeats: int, ngramSize: int)

  /** The last `m` tokens are all equal. */
  predicate TailEqual(tokens: seq<int>, m: nat) {
    m <= |tokens| && forall i :: |tokens| - m <= i < |tokens| ==> tokens[i] == tokens[|tokens| - 1]
  }

  /** The last `length * repeats` tokens have period `length`. */
  ghost predicate PeriodicTail(tokens: seq<int>, length: nat, repeats: nat) {
    && length * repeats <= |tokens|
    && PeriodicFrom(tokens, length, |tokens| - length * repeats)
  }

  ghost predicate PeriodicFrom(tokens: seq<int>, length: nat, start: int) {
    forall i :: 0 <= start <= i < |tokens| - length ==> tokens[i] == tokens[i + length]
  }

  /** The tail is degenerate: a run of equal tokens, or a repeated pattern of some length. A run limit
      of 1 still needs two equal tokens. */
  ghost predicate Degenerate(tokens: seq<int>, l: Limits) {
    || (l.maxConsecutive > 0 && TailEqual(tokens, if l.maxConsecutive < 2 then 2 else l.maxConsecutive))
    || (l.maxNgramRepeats > 0 && exists length :: 2 <= length <= l.ngramSize && PeriodicTail(tokens, length, l.maxNgramRepeats))
  }

  method CheckRepetitionCutoff(tokens: seq<int>, l: Limits) returns (fires: bool)
    ensures fires <==> Degenerate(tokens, l)
  {
    var len := |tokens|;
    if len < 2 {
      forall length | 2 <= length <= l.ngramSize && l.maxNgramRepeats > 0
        ensures !PeriodicTail(tokens, length, l.maxNgramRepeats)
      {
        assert length * l.maxNgramRepeats >= 2 * l.maxNgramRepeats;
      }
      return false;
    }
    if l.maxConsecutive > 0 {
      var run := LongRun(tokens, l.maxConsecutive);
      if run {
        return true;
      }
    }
    if l.maxNgramRepeats > 0 && l.ngramSize > 0 {
      var length := 2;
      while length <= l.ngramSize
        invariant 2 <= length
        invariant forall m :: 2 <= m < length && m <= l.ngramSize ==> !PeriodicTail(tokens, m, l.maxNgramRepeats)
        decreases l.ngramSize - length
      {
        var repeated := RepeatsPattern(tokens, length, l.maxNgramRepeats);
        if repeated {
          return true;
        }
        length := length + 1;
      }
    }
    return false;
  }

  /** The scan for equal tokens, from the end. */
  method LongRun(tokens: seq<int>, limit: int) returns (found: bool)
    requires |tokens| >= 2 && limit > 0
    ensures found <==> TailEqual(tokens, if limit < 2 then 2 else limit)
  {
    var len := |tokens|;
    var last := tokens[len - 1];
    var consecutive := 1;
    var i := len - 1;
    while i > 0
      invariant 0 <= i < len && consecutive == len - i
      invariant forall k :: i <= k < len ==> tokens[k] == last
      invariant consecutive == 1 || consecutive < limit
    {
      i := i - 1;
      if tokens[i] == last {
        consecutive := consecutive + 1;
        if consecutive >= limit {
          return true;
        }
      } else {
        return false;
      }
    }
    return false;
  }

  /** The block-by-block comparison with the last block. */
  method RepeatsPattern(tokens: seq<int>, length: nat, minCount: nat) returns (found: bool)
    requires 2 <= length && 1 <= minCount
    ensures found <==> PeriodicTail(tokens, length, minCount)
  {
    var len := |tokens|;
    if len < length * minCount {
      return false;
    }
    BlockFits(length, 1, minCount);
    var pattern := tokens[len - length..];
    var repeats := 1;
    var pos := len - length;
    while repeats < minCount && pos >= length
      invariant 1 <= repeats <= minCount && 0 <= pos <= len - length
      invariant len - pos == length * repeats
      invariant tokens[pos..pos + length] == pattern
      invariant PeriodicFrom(tokens, length, pos)
      decreases pos
    {
      BlockFits(length, repeats + 1, minCount);
      if tokens[pos - length..pos] == pattern {
        ExtendPeriod(tokens, length, pos);
        repeats, pos := repeats + 1, pos - length;
      } else {
        BreakPeriod(tokens, length, pos, len - length * minCount);
        return false;
      }
    }
    if repeats < minCount {
      BlockFits(length, repeats + 1, minCount);
    }
    return true;
  }

  lemma BlockFits(length: nat, m: nat, n: nat)
    requires 1 <= m <= n
    ensures length * m <= length * n && length * m == length * (m - 1) + length
  {
  }

  lemma ExtendPeriod(tokens: seq<int>, length: nat, pos: nat)
    requires length <= pos <= |tokens| - length
    requires tokens[pos - length..pos] == tokens[pos..pos + length] && PeriodicFrom(tokens, length, pos)
    ensures PeriodicFrom(tokens, length, pos - length)
  {
    forall i | pos - length <= i < pos ensures tokens[i] == tokens[i + length] {
      assert tokens[pos - length..pos][i - (pos - length)] == tokens[pos..pos + length][i - (pos - length)];
    }
  }

  lemma BreakPeriod(tokens: seq<int>, length: nat, pos: nat, start: int)
    requires 0 <= start <= pos - length && pos <= |tokens| - length
    requires tokens[pos - length..pos] != tokens[pos..pos + length]
    ensures !PeriodicFrom(tokens, length, start)
  {
    var k := DifferAt(tokens[pos - length..pos], tokens[pos..pos + length]);
    var i := pos - length + k;
    assert tokens[i] != tokens[i + length];
  }

  lemma DifferAt(a: seq<int>, b: seq<int>) returns (k: nat)
    requires |a| == |b| && a != b
    ensures k < |a| && a[k] != b[k]
  {
    k :| k < |a| && a[k] != b[k];
  }

  /** Block `b` counted from the end. */
  function BlockFromEnd(tokens: seq<int>, length: nat, b: nat): seq<int>
    requires length * (b + 1) <= |tokens|
  {
    var end := |tokens| - length * b;
    BlockFits(length, b + 1, b + 1);
    tokens[end - length..end]
  }

  ghost predicate SameAsLast(tokens: seq<int>, length: nat, b: nat) {
    length <= length * (b + 1) <= |tokens| && BlockFromEnd(tokens, length, b) == tokens[|tokens| - length..]
  }

  /** Periodicity of the tail is the same as its last `repeats` blocks all being equal. */
  lemma {:induction false} PeriodicTailMeansEqualBlocks(tokens: seq<int>, length: nat, repeats: nat)
    requires length * repeats <= |tokens| && 1 <= repeats
    ensures PeriodicTail(tokens, length, repeats)
            <==> forall b: nat :: b < repeats ==> SameAsLast(tokens, length, b)
  {
    hide SameAsLast, PeriodicFrom;
    if repeats > 1 {
      BlockFits(length, repeats - 1, repeats);
      BlockFits(length, repeats, repeats);
      PeriodicTailMeansEqualBlocks(tokens, length, repeats - 1);
      AddBlock(tokens, length, repeats - 1);
    } else {
      FirstBlock(tokens, length);
    }
  }

  lemma FirstBlock(tokens: seq<int>, length: nat)
    requires length <= |tokens|
    ensures length * 1 == length && SameAsLast(tokens, length, 0)
    ensures PeriodicFrom(tokens, length, |tokens| - length)
  {
  }

  /** One more block: equal to the last one exactly when the period reaches one block further. */
  lemma AddBlock(tokens: seq<int>, length: nat, n: nat)
    requires 1 <= n && length * n <= length * (n + 1) <= |tokens|
    requires length * n == length * (n - 1) + length && length * (n + 1) == length * n + length
    ensures SameAsLast(tokens, length, n - 1) ==>
              (PeriodicFrom(tokens, length, |tokens| - length * (n + 1))
               <==> PeriodicFrom(tokens, length, |tokens| - length * n) && SameAsLast(tokens, length, n))
    ensures PeriodicFrom(tokens, length, |tokens| - length * (n + 1)) ==> PeriodicFrom(tokens, length, |tokens| - length * n)
  {
    PeriodStep(tokens, length, |tokens| - length * (n + 1));
  }

  lemma PeriodStep(tokens: seq<int>, length: nat, start: nat)
    requires start + length + length <= |tokens|
    ensures PeriodicFrom(tokens, length, start)
            <==> PeriodicFrom(tokens, length, start + length)
                 && tokens[start..start + length] == tokens[start + length..start + length + length]
  {
    var mid := start + length;
    if tokens[start..mid] != tokens[mid..mid + length] {
      BreakPeriod(tokens, length, mid, start);
    } else if PeriodicFrom(tokens, length, mid) {
      ExtendPeriod(tokens, length, mid);
    }
  }
}
