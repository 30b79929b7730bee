/** The deployment-floor gate of `metallib-select.ts`: the min-OS stamp is read out of a binary header,
    printed as a dotted version, parsed back and compared with the intended floor. */
module MetallibFloor {
  import opened Wrappers
  import opened Decimals

  newtype u8 = x: int | 0 <= x < 256

  // ---------------------------------------------------------------- dotted versions

  function Split(s: string): (parts: seq<string>)
    ensures parts != []
    decreases |s|
  {
    match FindDot(s)
    case None => [s]
    case Some(dot) => [s[..dot]] + Split(s[dot + 1..])
  }

  predicate IsSpace(c: char) {
    || 0x9 <= c as int <= 0xd || c == ' ' || c as int == 0xa0 || c as int == 0x1680 || 0x2000 <= c as int <= 0x200a
    || c as int == 0x2028 || c as int == 0x2029 || c as int == 0x202f || c as int == 0x205f || c as int == 0x3000
    || c as int == 0xfeff
  }

  function SkipSpace(s: string): string {
    if s != "" && IsSpace(s[0]) then SkipSpace(s[1..]) else s
  }

  /** The longest prefix of digits. */
  function DigitPrefix(s: string): (d: string)
    ensures d <= s && AllDigits(d) && (|d| < |s| ==> !IsDigit(s[|d|]))
  {
    if s != "" && IsDigit(s[0]) then [s[0]] + DigitPrefix(s[1..]) else ""
  }

  /** `Number.parseInt(s, 10)`: a sign and the digits that follow, whatever comes after; none is not a
      number. */
  function ParseInt(s: string): Option<int> {
    var t := SkipSpace(s);
    var negative := "-" <= t;
    var digits := DigitPrefix(if negative || "+" <= t then t[1..] else t);
    if digits == "" then None
    else
      var n: int := Digits(digits);
      Some(if negative then -n else n)
  }

  // ---------------------------------------------------------------- numbers as they are written

  /** White space of ECMAScript: tab to carriage return, the space separators, the line separators, and the
      byte order mark. */
  const SPACES := "\t\n\U{0B}\U{0C}\r \U{A0}\U{1680}\U{2000}\U{2001}\U{2002}\U{2003}\U{2004}\U{2005}\U{2006}\U{2007}\U{2008}\U{2009}\U{200A}\U{2028}\U{2029}\U{202F}\U{205F}\U{3000}\U{FEFF}"

  ghost predicate AllSpaces(s: string) {
    forall i :: 0 <= i < |s| ==> s[i] in SPACES
  }

  /** `s` is the number `n` as it may be written: white space, a sign, digits, and anything but a digit behind
      them. */
  ghost predicate Written(s: string, space: string, sign: string, digits: string, rest: string, n: int) {
    && s == space + (sign + (digits + rest))
    && AllSpaces(space) && (sign == "" || sign == "+" || sign == "-")
    && digits != "" && AllDigits(digits) && (rest == "" || rest[0] !in "0123456789")
    && (if sign == "-" then -n else n) == Digits(digits)
  }

  lemma SpacesAre()
    ensures |SPACES| == 25
    ensures forall i :: 0 <= i < 5 ==> SPACES[i] as int == 0x9 + i
    ensures SPACES[5] == ' ' && SPACES[6] as int == 0xa0 && SPACES[7] as int == 0x1680
    ensures forall i :: 8 <= i < 19 ==> SPACES[i] as int == 0x2000 + (i - 8)
    ensures SPACES[19] as int == 0x2028 && SPACES[20] as int == 0x2029 && SPACES[21] as int == 0x202f
    ensures SPACES[22] as int == 0x205f && SPACES[23] as int == 0x3000 && SPACES[24] as int == 0xfeff
  {
  }

  lemma SpaceIs(c: char)
    ensures IsSpace(c) <==> c in SPACES
  {
    hide SPACES;
    SpacesAre();
    if 0x9 <= c as int <= 0xd {
      assert SPACES[c as int - 0x9] == c;
    } else if 0x2000 <= c as int <= 0x200a {
      assert SPACES[c as int - 0x2000 + 8] == c;
    }
    if i :| 0 <= i < 25 && SPACES[i] == c {
      assert i < 5 || 8 <= i < 19 || i in {5, 6, 7, 19, 20, 21, 22, 23, 24};
    }
  }

  lemma {:induction false} SkipsSpaces(space: string, t: string)
    requires AllSpaces(space) && (t == "" || t[0] !in SPACES)
    ensures SkipSpace(space + t) == t
  {
    hide SPACES;
    if space == "" {
      assert space + t == t;
      if t != "" { SpaceIs(t[0]); }
    } else {
      SpaceIs(space[0]);
      assert (space + t)[1..] == space[1..] + t;
      SkipsSpaces(space[1..], t);
    }
  }

  lemma {:induction false} SkippedSpaces(s: string) returns (space: string)
    ensures AllSpaces(space) && s == space + SkipSpace(s)
  {
    hide SPACES;
    if s != "" && IsSpace(s[0]) {
      SpaceIs(s[0]);
      var tail := SkippedSpaces(s[1..]);
      space := [s[0]] + tail;
    } else {
      space := "";
    }
  }

  lemma {:induction false} DigitPrefixIs(digits: string, rest: string)
    requires AllDigits(digits) && (rest == "" || rest[0] !in "0123456789")
    ensures DigitPrefix(digits + rest) == digits
  {
    if digits == "" {
      assert digits + rest == rest;
      if rest != "" { DigitIs(rest[0]); }
    } else {
      assert digits[0] in digits;
      assert (digits + rest)[1..] == digits[1..] + rest;
      DigitPrefixIs(digits[1..], rest);
    }
  }

  lemma NoSpace(c: char)
    requires c in "0123456789" || c == '+' || c == '-'
    ensures c !in SPACES
  {
    DigitIs(c);
    SpaceIs(c);
  }

  /** Reading a number gives what was written, whatever stands behind it. */
  lemma WrittenIsRead(s: string, space: string, sign: string, digits: string, rest: string, n: int)
    requires Written(s, space, sign, digits, rest, n)
    ensures ParseInt(s) == Some(n)
  {
    hide SPACES, Digits, SkipSpace, DigitPrefix, IsSpace, AllSpaces;
    var t := sign + (digits + rest);
    assert digits[0] in digits;
    DigitIs(digits[0]);
    assert t[0] == if sign == "" then digits[0] else sign[0];
    NoSpace(t[0]);
    SkipsSpaces(space, t);
    DigitPrefixIs(digits, rest);
    if sign == "" {
      assert t == digits + rest;
    } else {
      assert t[1..] == digits + rest;
    }
  }

  lemma DigitsBehind(body: string) returns (digits: string, rest: string)
    ensures digits == DigitPrefix(body) && AllDigits(digits) && body == digits + rest && (rest == "" || rest[0] !in "0123456789")
  {
    hide AllDigits;
    digits := DigitPrefix(body);
    rest := body[|digits|..];
    if rest != "" {
      assert rest[0] == body[|digits|];
      DigitIs(rest[0]);
    }
  }

  lemma SignInFront(t: string) returns (sign: string, body: string)
    ensures t == sign + body && (sign == "" || sign == "+" || sign == "-") && (sign == "-" <==> "-" <= t)
    ensures body == if "-" <= t || "+" <= t then t[1..] else t
  {
    sign := if "-" <= t then "-" else if "+" <= t then "+" else "";
    body := t[|sign|..];
  }

  /** And whatever reads as a number is written as one. */
  lemma ReadIsWritten(s: string, n: int) returns (space: string, sign: string, digits: string, rest: string)
    requires ParseInt(s) == Some(n)
    ensures Written(s, space, sign, digits, rest, n)
  {
    hide SPACES, Digits, SkipSpace, DigitPrefix, AllDigits, AllSpaces;
    space := SkippedSpaces(s);
    var body;
    sign, body := SignInFront(SkipSpace(s));
    digits, rest := DigitsBehind(body);
  }

  /** A component is the number it is written as; one that is not written as a number counts as zero. */
  lemma ComponentInNumbers(s: string, n: int)
    ensures Component(s) == n
            <==> (exists space, sign, digits, rest :: Written(s, space, sign, digits, rest, n))
                 || (n == 0 && forall k, space, sign, digits, rest :: !Written(s, space, sign, digits, rest, k))
  {
    hide Written, ParseInt;
    forall k, space, sign, digits, rest | Written(s, space, sign, digits, rest, k) ensures ParseInt(s) == Some(k) {
      WrittenIsRead(s, space, sign, digits, rest, k);
    }
    if ParseInt(s).Some? {
      var space, sign, digits, rest := ReadIsWritten(s, ParseInt(s).value);
    }
  }

  function Component(s: string): int {
    match ParseInt(s)
    case None => 0
    case Some(n) => n
  }

  function Components(version: string): (p: seq<int>)
    ensures |p| == |Split(version)| && forall i :: 0 <= i < |p| ==> p[i] == Component(Split(version)[i])
  {
    var parts := Split(version);
    seq(|parts|, i requires 0 <= i < |parts| => Component(parts[i]))
  }

  /** A missing component counts as zero. */
  function At(p: seq<int>, i: nat): int {
    if i < |p| then p[i] else 0
  }

  ghost predicate AgreeTo(p: seq<int>, q: seq<int>, n: nat) {
    forall j: nat :: j < n ==> At(p, j) == At(q, j)
  }

  /** `p` is the older version: smaller where the two first differ. */
  ghost predicate Older(p: seq<int>, q: seq<int>) {
    exists i: nat :: AgreeTo(p, q, i) && At(p, i) < At(q, i)
  }

  /** Equal up to trailing zeros. */
  ghost predicate Same(p: seq<int>, q: seq<int>) {
    forall i: nat :: At(p, i) == At(q, i)
  }

  method CompareVersions(a: string, b: string) returns (diff: int)
    ensures diff < 0 <==> Older(Components(a), Components(b))
    ensures diff > 0 <==> Older(Components(b), Components(a))
    ensures diff == 0 <==> Same(Components(a), Components(b))
  {
    hide Components, Older, Same, AgreeTo, At;
    var pa, pb := Components(a), Components(b);
    var len := if |pa| < |pb| then |pb| else |pa|;
    AgreeAtStart(pa, pb);
    for i := 0 to len
      invariant AgreeTo(pa, pb, i)
    {
      diff := At(pa, i) - At(pb, i);
      if diff != 0 {
        FirstDifference(pa, pb, i);
        FirstDifference(pb, pa, i);
        return;
      }
      AgreeOneMore(pa, pb, i);
    }
    AgreeThroughout(pa, pb, len);
    return 0;
  }

  lemma AgreeAtStart(p: seq<int>, q: seq<int>)
    ensures AgreeTo(p, q, 0)
  {
  }

  lemma AgreeOneMore(p: seq<int>, q: seq<int>, i: nat)
    requires AgreeTo(p, q, i) && At(p, i) == At(q, i)
    ensures AgreeTo(p, q, i + 1)
  {
  }

  lemma AgreeThroughout(p: seq<int>, q: seq<int>, len: nat)
    requires |p| <= len && |q| <= len && AgreeTo(p, q, len)
    ensures Same(p, q) && !Older(p, q) && !Older(q, p)
  {
    SameExcludes(p, q);
  }

  lemma FirstDifference(p: seq<int>, q: seq<int>, i: nat)
    requires AgreeTo(p, q, i) && At(p, i) != At(q, i)
    ensures Older(p, q) <==> At(p, i) < At(q, i)
    ensures !Same(p, q) && AgreeTo(q, p, i)
  {
    if k: nat :| AgreeTo(p, q, k) && At(p, k) < At(q, k) {
      assert k <= i && i <= k;
    }
  }

  lemma SameExcludes(p: seq<int>, q: seq<int>)
    requires AgreeTo(p, q, |p|) && AgreeTo(p, q, |q|)
    ensures Same(p, q) && !Older(p, q) && !Older(q, p)
  {
    forall i: nat ensures At(p, i) == At(q, i) {
      if i < |p| { assert AgreeTo(p, q, |p|); } else if i < |q| { assert AgreeTo(p, q, |q|); }
    }
  }

  /** The order is total: of two versions one is older, or they are the same. */
  lemma OlderIsTotal(p: seq<int>, q: seq<int>)
    ensures Older(p, q) || Older(q, p) || Same(p, q)
    ensures !(Older(p, q) && Older(q, p)) && !(Older(p, q) && Same(p, q))
  {
    var len := if |p| < |q| then |q| else |p|;
    for i := 0 to len
      invariant AgreeTo(p, q, i)
    {
      if At(p, i) != At(q, i) {
        FirstDifference(p, q, i);
        FirstDifference(q, p, i);
        return;
      }
    }
    SameExcludes(p, q);
  }

  lemma OlderTransitive(p: seq<int>, q: seq<int>, r: seq<int>)
    ensures Older(p, q) && Older(q, r) ==> Older(p, r)
    ensures Older(p, q) && Same(q, r) ==> Older(p, r)
    ensures Same(p, q) && Older(q, r) ==> Older(p, r)
  {
    if Older(p, q) && Older(q, r) {
      var i: nat :| AgreeTo(p, q, i) && At(p, i) < At(q, i);
      var k: nat :| AgreeTo(q, r, k) && At(q, k) < At(r, k);
      var n := if i < k then i else k;
      assert AgreeTo(p, r, n);
    } else if Older(p, q) && Same(q, r) {
      var i: nat :| AgreeTo(p, q, i) && At(p, i) < At(q, i);
      assert AgreeTo(p, r, i);
    } else if Same(p, q) && Older(q, r) {
      var k: nat :| AgreeTo(q, r, k) && At(q, k) < At(r, k);
      assert AgreeTo(p, r, k);
    }
  }

  /** Of two versions that first differ at a common position the smaller one there is older. */
  lemma OlderAtDifference(p: seq<int>, x: int, r: seq<int>, y: int, r': seq<int>)
    requires x != y
    ensures Older(p + [x] + r, p + [y] + r') <==> x < y
  {
    var a, b := p + [x] + r, p + [y] + r';
    forall j: nat | j < |p| ensures At(a, j) == At(b, j) {
      assert a[j] == p[j] == b[j];
    }
    assert At(a, |p|) == x && At(b, |p|) == y;
    FirstDifference(a, b, |p|);
  }

  ghost predicate AllZero(p: seq<int>) {
    forall i :: 0 <= i < |p| ==> p[i] == 0
  }

  /** Trailing zeros do not matter; the first other component that only one version has decides by its sign. */
  lemma OlderByExtension(p: seq<int>, zeros: seq<int>, y: int, r: seq<int>)
    requires AllZero(zeros) && y != 0
    ensures Same(p, p + zeros)
    ensures Older(p, p + zeros + [y] + r) <==> y > 0
    ensures Older(p + zeros + [y] + r, p) <==> y < 0
  {
    var b, n := p + zeros + [y] + r, |p| + |zeros|;
    forall j: nat | j < n ensures At(p, j) == At(b, j) {
      assert b[j] == (p + zeros)[j];
    }
    assert At(p, n) == 0 && At(b, n) == y;
    FirstDifference(p, b, n);
    FirstDifference(b, p, n);
  }

  // ---------------------------------------------------------------- the stamp

  datatype Version = Version(major: nat, minor: u8, update: u8)

  function Triple(v: Version): seq<int> {
    [v.major, v.minor as int, v.update as int]
  }

  const MTLB: seq<u8> := [0x4d, 0x54, 0x4c, 0x42]

  /** The first sixteen bytes of a container stamped with `v`, for a container minor version `c0`, `c1`. */
  ghost function Header(v: Version, c0: u8, c1: u8): seq<u8>
    requires v.major < 0x1_0000
  {
    MTLB + [0x01, 0x80, 0x02, 0x00, c0, c1, 0x00, 0x81, (v.major % 256) as u8, (v.major / 256) as u8, v.minor, v.update]
  }

  ghost predicate Stamped(metallib: seq<u8>, v: Version) {
    10 <= v.major <= 99 && exists c0, c1 :: Header(v, c0, c1) <= metallib
  }

  function ReadUInt16Le(b: seq<u8>, at: nat): nat
    requires at + 1 < |b|
  {
    b[at] as nat + 256 * b[at + 1] as nat
  }

  function StampText(v: Version): string {
    var short := Decimal(v.major) + "." + Decimal(v.minor as nat);
    if v.update == 0 then short else short + "." + Decimal(v.update as nat)
  }

  function ParseMetallibMinOs(metallib: seq<u8>): Option<string> {
    if |metallib| < 16 then None
    else if metallib[..4] != MTLB then None
    else if ReadUInt16Le(metallib, 4) != 0x8001 then None
    else if ReadUInt16Le(metallib, 6) != 2 then None
    else if metallib[10] != 0x00 || metallib[11] != 0x81 then None
    else
      var major := ReadUInt16Le(metallib, 12);
      if major < 10 || major > 99 then None else Some(StampText(Version(major, metallib[14], metallib[15])))
  }

  /** A container stamped with `v` reads as the text of `v`. */
  lemma StampIsRead(metallib: seq<u8>, v: Version)
    requires Stamped(metallib, v)
    ensures ParseMetallibMinOs(metallib) == Some(StampText(v))
  {
    hide StampText;
    var c0, c1 :| Header(v, c0, c1) <= metallib;
    var h := Header(v, c0, c1);
    assert forall i :: 0 <= i < 16 ==> metallib[i] == h[i];
    assert metallib[..4] == h[..4] == MTLB;
  }

  /** Whatever reads as a stamp is the header of some version. */
  lemma ReadIsStamped(metallib: seq<u8>) returns (v: Version)
    requires ParseMetallibMinOs(metallib).Some?
    ensures Stamped(metallib, v) && ParseMetallibMinOs(metallib) == Some(StampText(v))
  {
    hide StampText;
    v := Version(ReadUInt16Le(metallib, 12), metallib[14], metallib[15]);
    var h := Header(v, metallib[8], metallib[9]);
    assert forall i :: 0 <= i < 4 ==> metallib[i] == metallib[..4][i];
    assert forall i :: 0 <= i < 16 ==> metallib[i] == h[i];
    assert h == metallib[..16];
  }

  lemma {:induction false} DigitPrefixAll(s: string)
    requires AllDigits(s)
    ensures DigitPrefix(s) == s
  {
    if s != "" {
      assert s[0] in s;
      DigitPrefixAll(s[1..]);
    }
  }

  lemma ComponentOfDecimal(n: nat)
    ensures Component(Decimal(n)) == n && '.' !in Decimal(n)
  {
    var s := Decimal(n);
    assert s[0] in s && IsDigit(s[0]);
    DigitPrefixAll(s);
  }

  lemma SplitFirst(first: string, rest: string)
    requires '.' !in first
    ensures Split(first + "." + rest) == [first] + Split(rest)
  {
    hide FindDot;
    FirstDot(first, rest);
    var s := first + "." + rest;
    assert s[..|first|] == first && s[|first| + 1..] == rest;
  }

  lemma SplitLast(last: string)
    requires '.' !in last
    ensures Split(last) == [last]
  {
    hide FindDot;
  }

  /** A printed stamp parses back to the version it was printed from. */
  lemma StampReadsBack(v: Version)
    ensures Same(Components(StampText(v)), Triple(v))
  {
    hide Decimal, Component, Split, FindDot;
    var major, minor, update := Decimal(v.major), Decimal(v.minor as nat), Decimal(v.update as nat);
    ComponentOfDecimal(v.major);
    ComponentOfDecimal(v.minor as nat);
    ComponentOfDecimal(v.update as nat);
    if v.update == 0 {
      SplitFirst(major, minor);
      SplitLast(minor);
    } else {
      SplitFirst(major, minor + "." + update);
      SplitFirst(minor, update);
      SplitLast(update);
      assert major + "." + (minor + "." + update) == major + "." + minor + "." + update;
    }
  }

  // ---------------------------------------------------------------- the gates

  datatype Gate = Passed | Skipped | Unverifiable | AboveFloor(stamp: string)

  /** The gate refuses a recognised stamp exactly when the stamped version is newer than the floor; an
      unrecognised header is refused only in strict mode. */
  method AssertMetallibFloor(metallib: seq<u8>, deploymentFloor: string, strict: bool) returns (gate: Gate)
    ensures gate.Unverifiable? || gate.Skipped? <==> forall v :: !Stamped(metallib, v)
    ensures (gate.Unverifiable? ==> strict) && (gate.Skipped? ==> !strict)
    ensures forall v :: Stamped(metallib, v) ==> (gate.AboveFloor? <==> Older(Components(deploymentFloor), Triple(v)))
    ensures gate.AboveFloor? ==> ParseMetallibMinOs(metallib) == Some(gate.stamp)
  {
    hide Components, StampText, ParseMetallibMinOs, Older, Same, Stamped;
    var stamped := ParseMetallibMinOs(metallib);
    forall v | Stamped(metallib, v) ensures stamped == Some(StampText(v)) {
      StampIsRead(metallib, v);
    }
    if stamped.None? {
      return if strict then Unverifiable else Skipped;
    }
    ghost var _ := ReadIsStamped(metallib);
    forall v | Stamped(metallib, v)
      ensures Older(Components(deploymentFloor), Components(stamped.value)) <==> Older(Components(deploymentFloor), Triple(v))
    {
      AsOld(Components(deploymentFloor), stamped.value, v);
    }
    var diff := CompareVersions(stamped.value, deploymentFloor);
    if diff > 0 {
      return AboveFloor(stamped.value);
    }
    return Passed;
  }

  const NAX_SDK := Version(26, 2, 0)
  const NAX_TARGET := Version(26, 0, 0)

  /** NAX kernels are expected exactly when neither the SDK nor the effective deployment target is too old;
      an empty target counts as unset. */
  method ShouldExpectNaxKernels(sdk: string, host: string, target: Option<string>) returns (expected: bool)
    ensures var effective := if target.Some? && target.value != "" then target.value else host;
            expected <==> !Older(Components(sdk), Triple(NAX_SDK)) && !Older(Components(effective), Triple(NAX_TARGET))
  {
    hide Components, Older, Same;
    var effective := if target.Some? && target.value != "" then target.value else host;
    NaxVersions();
    AsOld(Components(sdk), "26.2", NAX_SDK);
    AsOld(Components(effective), "26.0", NAX_TARGET);
    var sdkDiff := CompareVersions(sdk, "26.2");
    var targetDiff := CompareVersions(effective, "26.0");
    return sdkDiff >= 0 && targetDiff >= 0;
  }

  lemma NaxVersions()
    ensures StampText(NAX_SDK) == "26.2" && StampText(NAX_TARGET) == "26.0"
  {
    assert Decimal(2) == "2" && Decimal(0) == "0";
    assert Decimal(26) == Decimal(2) + "6";
  }

  lemma AsOld(p: seq<int>, text: string, v: Version)
    requires text == StampText(v)
    ensures Older(p, Components(text)) <==> Older(p, Triple(v))
  {
    StampReadsBack(v);
    SameSymmetric(Components(text), Triple(v));
    OlderTransitive(p, Components(text), Triple(v));
    OlderTransitive(p, Triple(v), Components(text));
  }

  lemma SameSymmetric(p: seq<int>, q: seq<int>)
    ensures Same(p, q) <==> Same(q, p)
  {
  }
}
