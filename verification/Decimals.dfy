/** Decimal numerals and dotted names. */
module Decimals {
  import opened Wrappers

  predicate IsDigit(c: char) {
    '0' <= c <= '9'
  }

  predicate AllDigits(s: string) {
    forall c :: c in s ==> IsDigit(c)
  }

  /** Numerals are written in the ten digits. */
  lemma DigitIs(c: char)
    ensures IsDigit(c) <==> c in "0123456789"
  {
    var digits := "0123456789";
    assert |digits| == 10 && forall i :: 0 <= i < 10 ==> digits[i] as int == '0' as int + i;
    if IsDigit(c) {
      assert digits[c as int - '0' as int] == c;
    }
  }

  function Digits(s: string): nat
    requires AllDigits(s)
  {
    if s == "" then 0 else
      assert IsDigit(s[|s| - 1]);
      10 * Digits(s[..|s| - 1]) + (s[|s| - 1] as int - '0' as int)
  }

  /** The canonical numeral of `n`. */
  function Decimal(n: nat): (s: string)
    ensures s != "" && AllDigits(s) && Digits(s) == n
  {
    var last := [(n % 10 + '0' as int) as char];
    if n < 10 then
      OneDigit(last, n);
      last
    else
      var front := Decimal(n / 10);
      NextDigit(front, last, n);
      front + last
  }

  lemma OneDigit(last: string, n: nat)
    requires n < 10 && last == [(n % 10 + '0' as int) as char]
    ensures AllDigits(last) && Digits(last) == n
  {
    assert last[..0] == "";
  }

  lemma NextDigit(front: string, last: string, n: nat)
    requires AllDigits(front) && Digits(front) == n / 10 && last == [(n % 10 + '0' as int) as char]
    ensures AllDigits(front + last) && Digits(front + last) == n
  {
    assert (front + last)[..|front|] == front;
  }

  function FindDot(s: string): (r: Option<nat>)
    ensures r.Some? ==> r.value < |s| && s[r.value] == '.' && '.' !in s[..r.value]
    ensures r.None? ==> '.' !in s
  {
    if s == "" then None
    else if s[0] == '.' then Some(0)
    else
      var r := FindDot(s[1..]);
      assert s == [s[0]] + s[1..];
      match r
      case None => None
      case Some(i) =>
        assert s[..i + 1] == [s[0]] + s[1..][..i];
        Some(i + 1)
  }

  lemma {:induction false} FirstDot(s: string, rest: string)
    requires '.' !in s
    ensures FindDot(s + "." + rest) == Some(|s|)
  {
    if s == "" {
      assert s + "." + rest == "." + rest;
    } else {
      assert s[0] in s;
      assert (s + "." + rest)[1..] == s[1..] + "." + rest;
      FirstDot(s[1..], rest);
    }
  }
}
