/** The scan of `metallib-select.ts` that reads the metallib path baked into an addon binary. The
    binary is a string of byte-valued characters; `decode` is the lossy UTF-8 decoding of a slice. */
module MetallibScan {
  import opened Arithmetic
  import opened Wrappers
  import opened Sequences

  const NEEDLE := "mlx.metallib"
  const MAX_BAKED_PATH_BYTES: nat := 4096
  const NUL: char := '\0'

  predicate OccursAt(s: string, at: int) {
    0 <= at <= |s| - |NEEDLE| && s[at..at + |NEEDLE|] == NEEDLE
  }

  /** The first occurrence of the needle at or after `from`. */
  function IndexOf(s: string, from: nat): (r: Option<nat>)
    ensures r.Some? ==> from <= r.value && OccursAt(s, r.value) && forall i :: from <= i < r.value ==> !OccursAt(s, i)
    ensures r.None? ==> forall i :: from <= i ==> !OccursAt(s, i)
    decreases |s| - from
  {
    if from + |NEEDLE| > |s| then None
    else if OccursAt(s, from) then Some(from)
    else IndexOf(s, from + 1)
  }

  /** An occurrence is the needle with something, or nothing, before and behind it. */
  lemma OccursExactlyWhen(s: string, at: nat)
    ensures OccursAt(s, at) <==> exists before, behind :: |before| == at && s == before + "mlx.metallib" + behind
  {
    if OccursAt(s, at) {
      assert s == s[..at] + NEEDLE + s[at + |NEEDLE|..];
    }
    if before, behind :| |before| == at && s == before + "mlx.metallib" + behind {
      assert s[at..at + |NEEDLE|] == NEEDLE;
    }
  }

  lemma HitInRange(s: string, at: nat)
    requires OccursAt(s, at)
    ensures at + |NEEDLE| <= |s|
  {
  }

  /** No proper suffix of the needle is a prefix of it, so two occurrences cannot overlap. */
  lemma OccurrencesAreApart(s: string, a: int, b: int)
    requires OccursAt(s, a) && OccursAt(s, b) && a < b
    ensures a + |NEEDLE| <= b
  {
    forall k | 0 <= k < |NEEDLE| ensures s[a + k] == NEEDLE[k] && s[b + k] == NEEDLE[k] {
      assert s[a..a + |NEEDLE|][k] == s[a + k] && s[b..b + |NEEDLE|][k] == s[b + k];
    }
    NeedleHasNoBorder(b - a);
  }

  lemma NeedleHasNoBorder(d: int)
    ensures 0 < d < |NEEDLE| ==> NEEDLE[d] != NEEDLE[0] || (d + 1 < |NEEDLE| && NEEDLE[d + 1] != NEEDLE[1])
  {
    assert NEEDLE == ['m', 'l', 'x', '.', 'm', 'e', 't', 'a', 'l', 'l', 'i', 'b'];
  }

  // ---------------------------------------------------------------- the path pattern

  const TAIL := "/build/mlx/backend/metal/kernels/mlx.metallib"
  const TAIL_DOUBLE_SLASH := "/build/mlx/backend/metal/kernels//mlx.metallib"
  const SYS := "/mlx-sys-"
  const OUT := "/out"

  predicate IsLineTerminator(c: char) {
    c == '\n' || c == '\r' || c as int == 0x2028 || c as int == 0x2029
  }

  predicate IsHex(c: char) {
    '0' <= c <= '9' || 'a' <= c <= 'f'
  }

  predicate AllHex(s: string) {
    forall i :: 0 <= i < |s| ==> IsHex(s[i])
  }

  predicate OneLine(s: string) {
    forall i :: 0 <= i < |s| ==> !IsLineTerminator(s[i])
  }

  /** The captured group of the pattern: a slash, one or more characters on one line, a directory
      `mlx-sys-<hex>`, and `out`. */
  ghost predicate IsOutDir(d: string) {
    exists x, h :: OutDirParts(d, x, h)
  }

  ghost predicate OutDirParts(d: string, x: string, h: string) {
    && d == "/" + x + "/mlx-sys-" + h + "/out"
    && |x| >= 1 && (forall i :: 0 <= i < |x| ==> x[i] !in LINE_TERMINATORS)
    && |h| >= 1 && (forall i :: 0 <= i < |h| ==> h[i] in HEX_DIGITS)
  }

  const HEX_DIGITS := "0123456789abcdef"
  const LINE_TERMINATORS := "\n\r\U{2028}\U{2029}"

  lemma HexIs(s: string)
    ensures AllHex(s) <==> forall i :: 0 <= i < |s| ==> s[i] in HEX_DIGITS
  {
    forall i | 0 <= i < |s| ensures IsHex(s[i]) <==> s[i] in HEX_DIGITS {
      HexDigitIs(s[i]);
    }
  }

  lemma HexDigitIs(c: char)
    ensures IsHex(c) <==> c in HEX_DIGITS
  {
    var d := HEX_DIGITS;
    assert d == ['0', '1', '2', '3', '4', '5', '6', '7', '8', '9', 'a', 'b', 'c', 'd', 'e', 'f'];
    if '0' <= c <= '9' {
      assert d[c as int - '0' as int] == c;
    } else if 'a' <= c <= 'f' {
      assert d[c as int - 'a' as int + 10] == c;
    }
  }

  lemma OneLineIs(s: string)
    ensures OneLine(s) <==> forall i :: 0 <= i < |s| ==> s[i] !in LINE_TERMINATORS
  {
    var t := LINE_TERMINATORS;
    assert t == ['\n', '\r', '\U{2028}', '\U{2029}'];
    forall i | 0 <= i < |s| ensures IsLineTerminator(s[i]) <==> s[i] in t {
      assert t[0] == '\n' && t[1] == '\r' && t[2] as int == 0x2028 && t[3] as int == 0x2029;
    }
  }

  /** The pattern, anchored at both ends. */
  ghost predicate Matches(s: string, d: string) {
    && IsOutDir(d)
    && (s == d + "/build/mlx/backend/metal/kernels/mlx.metallib" || s == d + "/build/mlx/backend/metal/kernels//mlx.metallib")
  }

  function HexSuffix(s: string): (n: nat)
    ensures n <= |s| && AllHex(s[|s| - n..]) && (n < |s| ==> !IsHex(s[|s| - n - 1]))
  {
    if s == "" || !IsHex(s[|s| - 1]) then 0
    else
      var n := HexSuffix(s[..|s| - 1]);
      OneMoreHex(s, n);
      n + 1
  }

  lemma OneMoreHex(s: string, n: nat)
    requires n < |s| && IsHex(s[|s| - 1]) && AllHex(s[..|s| - 1][|s| - 1 - n..])
    ensures AllHex(s[|s| - 1 - n..])
  {
    hide IsHex;
    var tail := s[..|s| - 1][|s| - 1 - n..];
    assert s[|s| - 1 - n..] == tail + [s[|s| - 1]];
  }

  /** The group matched deterministically, from its end. */
  predicate CheckOutDir(d: string) {
    EndsWith(d, OUT) &&
    var body := d[..|d| - |OUT|];
    var n := HexSuffix(body);
    n >= 1 && EndsWith(body[..|body| - n], SYS) &&
    var front := body[..|body| - n - |SYS|];
    |front| >= 2 && front[0] == '/' && OneLine(front[1..])
  }

  lemma CheckedIsOutDir(d: string)
    ensures CheckOutDir(d) <==> IsOutDir(d)
  {
    if CheckOutDir(d) {
      var body := d[..|d| - |OUT|];
      var n := HexSuffix(body);
      var front := body[..|body| - n - |SYS|];
      assert body == body[..|body| - n] + body[|body| - n..];
      assert body[..|body| - n] == front + SYS;
      assert front == "/" + front[1..];
      OneLineIs(front[1..]);
      HexIs(body[|body| - n..]);
      assert OutDirParts(d, front[1..], body[|body| - n..]);
    }
    if IsOutDir(d) {
      var x, h :| OutDirParts(d, x, h);
      OutDirIsChecked(d, x, h);
    }
  }

  lemma OutDirIsChecked(d: string, x: string, h: string)
    requires OutDirParts(d, x, h)
    ensures CheckOutDir(d)
  {
    hide CheckOutDir, EndsWith, OneLine, AllHex, HexSuffix;
    OneLineIs(x);
    HexIs(h);
    var front := "/" + x;
    var body := front + SYS + h;
    SplitEnd(d, body, OUT);
    HexSuffixIs(front + SYS, h);
    SplitEnd(body, front + SYS, h);
    SplitEnd(front + SYS, front, SYS);
    assert body[..|body| - |h| - |SYS|] == front;
    assert front[1..] == x;
    CheckFrom(d, body, |h|, front);
  }

  lemma CheckFrom(d: string, body: string, n: nat, front: string)
    requires EndsWith(d, OUT) && |OUT| <= |d| && d[..|d| - |OUT|] == body
    requires HexSuffix(body) == n && 1 <= n && n + |SYS| <= |body| && EndsWith(body[..|body| - n], SYS)
    requires body[..|body| - n - |SYS|] == front && |front| >= 2 && front[0] == '/' && OneLine(front[1..])
    ensures CheckOutDir(d)
  {
    hide EndsWith, OneLine, HexSuffix, OUT, SYS;
  }

  /** After a character that is not a hex digit, the hex suffix is all of the hex that follows. */
  lemma {:induction false} HexSuffixIs(stem: string, h: string)
    requires AllHex(h) && |stem| > 0 && !IsHex(stem[|stem| - 1])
    ensures HexSuffix(stem + h) == |h|
  {
    if h == "" {
      assert stem + h == stem;
    } else {
      var init := h[..|h| - 1];
      HexSuffixIs(stem, init);
      assert (stem + h)[..|stem + h| - 1] == stem + init;
      assert (stem + h)[|stem + h| - 1] == h[|h| - 1];
    }
  }

  /** The directory a candidate names, if it matches the pattern. */
  function MatchOutDir(s: string): Option<string> {
    if EndsWith(s, TAIL) && CheckOutDir(s[..|s| - |TAIL|]) then Some(s[..|s| - |TAIL|])
    else if EndsWith(s, TAIL_DOUBLE_SLASH) && CheckOutDir(s[..|s| - |TAIL_DOUBLE_SLASH|]) then
      Some(s[..|s| - |TAIL_DOUBLE_SLASH|])
    else None
  }

  /** The match is complete and the captured directory is unique. */
  lemma MatchIsPattern(s: string, d: string)
    ensures MatchOutDir(s) == Some(d) <==> Matches(s, d)
  {
    hide CheckOutDir, IsOutDir;
    CheckedIsOutDir(d);
    if Matches(s, d) {
      PatternIsMatched(s, d);
    } else if MatchOutDir(s) == Some(d) {
      MatchedIsPattern(s, d);
    }
  }

  lemma PatternIsMatched(s: string, d: string)
    requires CheckOutDir(d) && (s == d + TAIL || s == d + TAIL_DOUBLE_SLASH)
    ensures MatchOutDir(s) == Some(d)
  {
    hide CheckOutDir;
    if s == d + TAIL {
      assert s[..|s| - |TAIL|] == d && s[|s| - |TAIL|..] == TAIL;
    } else {
      assert s[..|s| - |TAIL_DOUBLE_SLASH|] == d && s[|s| - |TAIL_DOUBLE_SLASH|..] == TAIL_DOUBLE_SLASH;
      NotSingleSlash(s, d);
    }
  }

  lemma MatchedIsPattern(s: string, d: string)
    requires MatchOutDir(s) == Some(d)
    ensures CheckOutDir(d) && (s == d + TAIL || s == d + TAIL_DOUBLE_SLASH)
  {
    hide CheckOutDir, EndsWith;
    JoinEnd(s, TAIL);
    JoinEnd(s, TAIL_DOUBLE_SLASH);
  }

  lemma NotSingleSlash(s: string, d: string)
    requires s == d + TAIL_DOUBLE_SLASH
    ensures !EndsWith(s, TAIL)
  {
    var k := |"mlx.metallib"| + 1;
    assert TAIL_DOUBLE_SLASH[|TAIL_DOUBLE_SLASH| - 1 - k] == '/';
    assert TAIL[|TAIL| - 1 - k] == 's';
    if |TAIL| <= |s| {
      assert s[|s| - |TAIL|..][|TAIL| - 1 - k] == s[|s| - 1 - k] == TAIL_DOUBLE_SLASH[|TAIL_DOUBLE_SLASH| - 1 - k];
    }
  }

  // ---------------------------------------------------------------- the scan

  /** How far back and ahead of an occurrence the cursors may go. */
  function StartFloor(at: nat): nat {
    if at < MAX_BAKED_PATH_BYTES then 0 else at - MAX_BAKED_PATH_BYTES
  }

  function EndCap(s: string, end: nat): nat {
    Min(|s|, end + MAX_BAKED_PATH_BYTES)
  }

  /** Start of the string around `at`: the cursor walks back to a NUL or to `floor`. */
  function StartOf(s: string, at: nat, floor: nat): (r: nat)
    requires floor <= at <= |s|
    ensures floor <= r <= at && (forall i :: r <= i < at ==> s[i] != NUL)
    ensures r == floor || s[r - 1] == NUL
  {
    if at > floor && s[at - 1] != NUL then StartOf(s, at - 1, floor) else at
  }

  function EndOf(s: string, at: nat, cap: nat): (r: nat)
    requires at <= cap <= |s|
    ensures at <= r <= cap && (forall i :: at <= i < r ==> s[i] != NUL)
    ensures r == cap || s[r] == NUL
    decreases cap - at
  {
    if at < cap && s[at] != NUL then EndOf(s, at + 1, cap) else at
  }

  /** The bounded NUL-terminated string around an occurrence. */
  function Candidate(s: string, at: nat): string
    requires OccursAt(s, at)
  {
    var end := at + |NEEDLE|;
    s[StartOf(s, at, StartFloor(at))..EndOf(s, end, EndCap(s, end))]
  }

  datatype Binding = Binding(candidate: string, outDir: string)

  datatype ScanResult = Undefined | Bound(binding: Binding) | Ambiguous(count: nat)

  /** The distinct decoded candidates, over all occurrences, that match the pattern. */
  ghost function MatchingCandidates(s: string, decode: string -> string): set<string> {
    set at | 0 <= at < |s| && OccursAt(s, at) && MatchOutDir(decode(Candidate(s, at))).Some? :: decode(Candidate(s, at))
  }

  /** What zero, one or several distinct matching candidates mean. */
  ghost predicate Verdict(candidates: set<string>, r: ScanResult) {
    match r
    case Undefined => candidates == {}
    case Bound(b) => candidates == {b.candidate} && MatchOutDir(b.candidate) == Some(b.outDir)
    case Ambiguous(n) => |candidates| == n > 1
  }

  /** The two cursors around an occurrence. */
  method ExpandHit(s: string, at: nat) returns (run: string)
    requires OccursAt(s, at)
    ensures run == Candidate(s, at)
  {
    hide OccursAt;
    HitInRange(s, at);
    var start := StartCursor(s, at);
    var end := EndCursor(s, at + |NEEDLE|);
    return s[start..end];
  }

  method StartCursor(s: string, at: nat) returns (start: nat)
    requires at <= |s|
    ensures start == StartOf(s, at, StartFloor(at))
  {
    start := at;
    var startFloor := StartFloor(at);
    while start > startFloor && s[start - 1] != NUL
      invariant startFloor <= start <= at
      invariant StartOf(s, start, startFloor) == StartOf(s, at, startFloor)
    {
      start := start - 1;
    }
  }

  method EndCursor(s: string, from: nat) returns (end: nat)
    requires from <= |s|
    ensures end == EndOf(s, from, EndCap(s, from))
  {
    end := from;
    var endCap := EndCap(s, from);
    while end < endCap && s[end] != NUL
      invariant from <= end <= endCap
      invariant EndOf(s, end, endCap) == EndOf(s, from, endCap)
    {
      end := end + 1;
    }
  }

  method ExtractBakedMetallibBinding(addonBinary: string, decode: string -> string) returns (r: ScanResult)
    ensures Verdict(MatchingCandidates(addonBinary, decode), r)
  {
    hide MatchOutDir, OccursAt, Candidate, MatchingCandidates, IndexOf, Found, Bindings, Verdict;
    NothingFound(addonBinary, decode);
    var bindings: map<string, Binding> := map[];
    assert Bindings(bindings) by { NoBindings(); }
    var at := IndexOf(addonBinary, 0);
    ghost var next: nat := 0;
    while at.Some?
      invariant next <= |addonBinary| + |NEEDLE|
      invariant at == IndexOf(addonBinary, next)
      invariant bindings.Keys == Found(addonBinary, decode, next) && Bindings(bindings)
      decreases |addonBinary| + |NEEDLE| - next
    {
      HitInRange(addonBinary, at.value);
      var run := ExpandHit(addonBinary, at.value);
      var candidate := decode(run);
      var outDir := MatchOutDir(candidate);
      FoundNext(addonBinary, decode, next, at.value);
      if outDir.Some? {
        OneMoreBinding(bindings, Binding(candidate, outDir.value));
        bindings := bindings[candidate := Binding(candidate, outDir.value)];
      }
      next := at.value + |NEEDLE|;
      at := IndexOf(addonBinary, at.value + |NEEDLE|);
    }
    FoundAll(addonBinary, decode, next);
    OtherVerdicts(bindings.Keys);
    if |bindings| == 0 {
      return Undefined;
    }
    if |bindings| > 1 {
      return Ambiguous(|bindings|);
    }
    var only :| only in bindings;
    OnlyBinding(bindings, only);
    return Bound(bindings[only]);
  }

  ghost predicate Bindings(bindings: map<string, Binding>) {
    forall c :: c in bindings ==> bindings[c].candidate == c && MatchOutDir(c) == Some(bindings[c].outDir)
  }

  lemma NoBindings()
    ensures Bindings(map[])
  {
  }

  lemma OneMoreBinding(bindings: map<string, Binding>, b: Binding)
    requires Bindings(bindings) && MatchOutDir(b.candidate) == Some(b.outDir)
    ensures Bindings(bindings[b.candidate := b])
  {
    hide MatchOutDir;
  }

  lemma OtherVerdicts(candidates: set<string>)
    ensures |candidates| == 0 ==> Verdict(candidates, Undefined)
    ensures |candidates| > 1 ==> Verdict(candidates, Ambiguous(|candidates|))
  {
  }

  lemma OnlyBinding(bindings: map<string, Binding>, only: string)
    requires only in bindings && |bindings| == 1 && Bindings(bindings)
    ensures bindings.Keys == {only} && Verdict(bindings.Keys, Bound(bindings[only]))
  {
    hide MatchOutDir;
    assert |bindings.Keys - {only}| == 0;
  }

  /** The matching candidates of the occurrences before `n`. */
  ghost function Found(s: string, decode: string -> string, n: nat): set<string> {
    set at | 0 <= at < n && at < |s| && OccursAt(s, at) && MatchOutDir(decode(Candidate(s, at))).Some? :: decode(Candidate(s, at))
  }

  lemma NothingFound(s: string, decode: string -> string)
    ensures Found(s, decode, 0) == {}
  {
  }

  /** Jumping from one occurrence to its end misses no occurrence. */
  lemma FoundNext(s: string, decode: string -> string, n: nat, at: nat)
    requires OccursAt(s, at) && n <= at && forall i :: n <= i < at ==> !OccursAt(s, i)
    ensures Found(s, decode, at + |NEEDLE|)
            == Found(s, decode, n) + if MatchOutDir(decode(Candidate(s, at))).Some? then {decode(Candidate(s, at))} else {}
  {
    hide MatchOutDir, OccursAt, Candidate;
    HitInRange(s, at);
    forall i | at < i < at + |NEEDLE| ensures !OccursAt(s, i) {
      if OccursAt(s, i) { OccurrencesAreApart(s, at, i); }
    }
  }

  lemma FoundAll(s: string, decode: string -> string, n: nat)
    requires forall i :: n <= i ==> !OccursAt(s, i)
    ensures Found(s, decode, n) == MatchingCandidates(s, decode)
  {
    hide MatchOutDir, OccursAt, Candidate;
  }

  // ---------------------------------------------------------------- runs between NULs

  /** A maximal NUL-free run. */
  ghost predicate MaximalRun(s: string, i: int, j: int) {
    && 0 <= i <= j <= |s| && (forall k :: i <= k < j ==> s[k] != NUL)
    && (i == 0 || s[i - 1] == NUL) && (j == |s| || s[j] == NUL)
  }

  ghost predicate HoldsNeedle(s: string, i: int, j: int, at: int) {
    i <= at && at + |NEEDLE| <= j && OccursAt(s, at)
  }

  /** The run `i..j` ends within the reach of the cursors on either side of its needle at `at`. */
  predicate WithinReach(i: int, j: int, at: int) {
    at - i <= 4096 && j - (at + |NEEDLE|) <= 4096
  }

  /** Every run that holds the needle is within the reach of the bounded cursors. */
  ghost predicate RunsAreBounded(s: string) {
    forall i, j, at :: MaximalRun(s, i, j) && HoldsNeedle(s, i, j, at) ==> WithinReach(i, j, at)
  }

  /** The distinct decoded runs that hold the needle and match the pattern. */
  ghost function MatchingRuns(s: string, decode: string -> string): set<string> {
    set i, j, at | 0 <= i <= |s| && 0 <= j <= |s| && 0 <= at < |s| && MaximalRun(s, i, j) && HoldsNeedle(s, i, j, at)
                   && MatchOutDir(decode(s[i..j])).Some? :: decode(s[i..j])
  }

  lemma {:induction false} SameStart(s: string, at: nat, floor: nat)
    requires floor <= at <= |s| && floor <= StartOf(s, at, 0)
    ensures StartOf(s, at, floor) == StartOf(s, at, 0)
  {
    if at > floor && s[at - 1] != NUL { SameStart(s, at - 1, floor); }
  }

  lemma {:induction false} SameEnd(s: string, at: nat, cap: nat)
    requires at <= cap <= |s| && EndOf(s, at, |s|) <= cap
    ensures EndOf(s, at, cap) == EndOf(s, at, |s|)
    decreases |s| - at
  {
    if at < cap && s[at] != NUL { SameEnd(s, at + 1, cap); }
  }

  lemma NeedleHasNoNul(s: string, at: nat)
    requires OccursAt(s, at)
    ensures forall k :: at <= k < at + |NEEDLE| ==> s[k] != NUL
  {
    assert NEEDLE == ['m', 'l', 'x', '.', 'm', 'e', 't', 'a', 'l', 'l', 'i', 'b'];
    forall k | at <= k < at + |NEEDLE| ensures s[k] != NUL {
      assert s[at..at + |NEEDLE|][k - at] == s[k];
    }
  }

  /** The maximal run around an occurrence; the cursors cut out all of it exactly when it is within their
      reach. */
  lemma RunAround(s: string, at: nat) returns (i: nat, j: nat)
    requires OccursAt(s, at)
    ensures MaximalRun(s, i, j) && HoldsNeedle(s, i, j, at)
    ensures Candidate(s, at) == s[i..j] <==> WithinReach(i, j, at)
  {
    hide OccursAt;
    HitInRange(s, at);
    var end := at + |NEEDLE|;
    i, j := StartOf(s, at, 0), EndOf(s, end, |s|);
    NeedleHasNoNul(s, at);
    StartReaches(s, at);
    EndReaches(s, end);
    var start', end' := StartOf(s, at, StartFloor(at)), EndOf(s, end, EndCap(s, end));
    assert i <= start' && end' <= j;
    assert |s[start'..end']| == |s[i..j]| <==> start' == i && end' == j;
  }

  lemma StartReaches(s: string, at: nat)
    requires at <= |s|
    ensures StartOf(s, at, 0) <= StartOf(s, at, StartFloor(at))
    ensures StartOf(s, at, StartFloor(at)) == StartOf(s, at, 0) <==> at - StartOf(s, at, 0) <= MAX_BAKED_PATH_BYTES
  {
    if at - StartOf(s, at, 0) <= MAX_BAKED_PATH_BYTES { SameStart(s, at, StartFloor(at)); }
    hide StartOf;
  }

  lemma EndReaches(s: string, end: nat)
    requires end <= |s|
    ensures EndOf(s, end, EndCap(s, end)) <= EndOf(s, end, |s|)
    ensures EndOf(s, end, EndCap(s, end)) == EndOf(s, end, |s|) <==> EndOf(s, end, |s|) - end <= MAX_BAKED_PATH_BYTES
  {
    if EndOf(s, end, |s|) - end <= MAX_BAKED_PATH_BYTES { SameEnd(s, end, EndCap(s, end)); }
    hide EndOf;
  }

  lemma RunIsUnique(s: string, i: int, j: int, i': int, j': int, at: int)
    requires MaximalRun(s, i, j) && MaximalRun(s, i', j') && HoldsNeedle(s, i, j, at) && HoldsNeedle(s, i', j', at)
    ensures i == i' && j == j'
  {
    hide OccursAt;
    assert |NEEDLE| > 0;
  }

  /** Within the bound, the scan sees exactly the distinct NUL-terminated strings that match. */
  lemma CandidatesAreRuns(s: string, decode: string -> string)
    requires RunsAreBounded(s)
    ensures MatchingCandidates(s, decode) == MatchingRuns(s, decode)
  {
    hide MatchOutDir, OccursAt, Candidate;
    forall c | c in MatchingCandidates(s, decode) ensures c in MatchingRuns(s, decode) {
      var at :| 0 <= at < |s| && OccursAt(s, at) && MatchOutDir(decode(Candidate(s, at))).Some? && c == decode(Candidate(s, at));
      var i, j := RunAround(s, at);
      assert MaximalRun(s, i, j) && HoldsNeedle(s, i, j, at);
    }
    forall c | c in MatchingRuns(s, decode) ensures c in MatchingCandidates(s, decode) {
      var i, j, at :| 0 <= i <= |s| && 0 <= j <= |s| && 0 <= at < |s| && MaximalRun(s, i, j) && HoldsNeedle(s, i, j, at)
                      && MatchOutDir(decode(s[i..j])).Some? && c == decode(s[i..j]);
      var i', j' := RunAround(s, at);
      RunIsUnique(s, i, j, i', j', at);
    }
  }

  /** Soundness and completeness: no, one or several distinct matching strings in the binary give no
      binding, that string's binding, or an error. */
  lemma ScanDecides(s: string, decode: string -> string, r: ScanResult)
    requires RunsAreBounded(s) && Verdict(MatchingCandidates(s, decode), r)
    ensures r == Undefined <==> MatchingRuns(s, decode) == {}
    ensures r.Bound? <==> |MatchingRuns(s, decode)| == 1
    ensures r.Ambiguous? <==> |MatchingRuns(s, decode)| > 1
    ensures r.Bound? ==> r.binding.candidate in MatchingRuns(s, decode) && Matches(r.binding.candidate, r.binding.outDir)
  {
    hide MatchingRuns, MatchingCandidates, MatchOutDir, Matches, RunsAreBounded;
    CandidatesAreRuns(s, decode);
    if r.Bound? {
      MatchIsPattern(r.binding.candidate, r.binding.outDir);
    }
  }
}
