/** Rust's `i64::from_str`: an optional single `+` or `-`, then one or more
    ASCII digits, whose value must lie in the `i64` range. Everything else
    (the empty string, a lone sign, any other byte, an out-of-range value)
    is an error. `FormatInt` is its inverse on the `i64` range. */
module IntParse {
  import opened Primitives

  predicate IsDigit(b: byte) {
    ZERO <= b <= NINE
  }

  predicate AllDigits(s: Text) {
    forall i | 0 <= i < |s| :: IsDigit(s[i])
  }

  /** The decimal value of a digit string, most significant digit first. */
  function DigitsValue(s: Text): nat
    requires AllDigits(s)
  {
    if s == [] then 0 else DigitsValue(s[..|s| - 1]) * 10 + (s[|s| - 1] - ZERO) as int
  }

  /** The decimal digits of `n`, without leading zeros. */
  function Digits(n: nat): (s: Text)
    ensures |s| > 0 && AllDigits(s)
  {
    if n < 10 then [ZERO + n as byte] else Digits(n / 10) + [ZERO + (n % 10) as byte]
  }

  /** `n` as exactly two digits (used for the cents of an amount). */
  function TwoDigits(n: nat): (s: Text)
    requires n < 100
    ensures |s| == 2 && AllDigits(s)
  {
    [ZERO + (n / 10) as byte, ZERO + (n % 10) as byte]
  }

  predicate IsSign(b: byte) {
    b == PLUS || b == MINUS
  }

  /** The text has the shape `i64::from_str` accepts, ignoring the range. */
  predicate IsNumeral(s: Text) {
    if |s| > 0 && IsSign(s[0]) then |s| > 1 && AllDigits(s[1..])
    else |s| > 0 && AllDigits(s)
  }

  /** The signed value of a numeral. */
  function NumeralValue(s: Text): int
    requires IsNumeral(s)
  {
    if IsSign(s[0]) then (if s[0] == MINUS then -(DigitsValue(s[1..]) as int) else DigitsValue(s[1..]))
    else DigitsValue(s)
  }

  /** Model of `i64::from_str`. */
  function ParseInt(s: Text): Option<i64> {
    if IsNumeral(s) && I64_MIN <= NumeralValue(s) <= I64_MAX then Some(NumeralValue(s) as i64)
    else None
  }

  /** The canonical decimal rendering of an integer. */
  function FormatInt(v: int): Text {
    if v < 0 then [MINUS] + Digits(-v) else Digits(v)
  }

  lemma {:induction false} DigitsValueOfDigits(n: nat)
    ensures DigitsValue(Digits(n)) == n
  {
    if n >= 10 {
      DigitsValueOfDigits(n / 10);
      var s := Digits(n);
      assert s[..|s| - 1] == Digits(n / 10);
    }
  }

  lemma TwoDigitsValue(n: nat)
    requires n < 100
    ensures DigitsValue(TwoDigits(n)) == n
  {
    var s := TwoDigits(n);
    assert s[..1][..0] == [];
    assert DigitsValue(s[..1]) == n / 10;
    assert s[..|s| - 1] == s[..1];
  }

  /** Parsing the rendering of any `i64` gives it back. */
  lemma ParseFormat(v: int)
    requires I64_MIN <= v <= I64_MAX
    ensures ParseInt(FormatInt(v)) == Some(v as i64)
  {
    if v < 0 {
      var s := FormatInt(v);
      assert s[1..] == Digits(-v);
      DigitsValueOfDigits(-v);
    } else {
      DigitsValueOfDigits(v);
    }
  }

  lemma ParseTwoDigits(n: nat)
    requires n < 100
    ensures ParseInt(TwoDigits(n)) == Some(n as i64)
  {
    TwoDigitsValue(n);
  }

  /** A `-` before the digits of any magnitude up to 2^63 parses to its
      negation; `-0` is 0. */
  lemma ParseNegatedDigits(n: nat)
    requires n <= I64_MAX + 1
    ensures ParseInt([MINUS] + Digits(n)) == Some((-(n as int)) as i64)
  {
    var s := [MINUS] + Digits(n);
    assert s[1..] == Digits(n);
    DigitsValueOfDigits(n);
  }

  /** Whatever `ParseInt` accepts is a numeral whose value is the result;
      in particular it contains no `.`. */
  lemma ParseIntAccepts(s: Text)
    requires ParseInt(s).Some?
    ensures IsNumeral(s) && ParseInt(s).value as int == NumeralValue(s)
    ensures DOT !in s
  {
    forall i | 0 <= i < |s|
      ensures s[i] != DOT
    {
      if IsSign(s[0]) && i > 0 {
        assert s[1..][i - 1] == s[i];
      }
    }
  }

  /** A lone sign or the empty string is rejected. */
  lemma ParseIntRejectsEmpty()
    ensures ParseInt([]) == None
    ensures ParseInt([MINUS]) == None
    ensures ParseInt([PLUS]) == None
  {
  }

  /** Negating the digits of an unsigned numeral negates its value, except
      at 2^63, which only the negative side can represent. */
  lemma ParseIntNegated(d: Text)
    requires AllDigits(d) && d != []
    requires DigitsValue(d) != I64_MAX + 1
    ensures ParseInt([MINUS] + d).GetOr(0) as int == -(ParseInt(d).GetOr(0) as int)
  {
    var m := [MINUS] + d;
    assert m[1..] == d;
  }

  /** `-` followed by anything but a non-empty digit string is rejected. */
  lemma ParseIntNegatedOther(d: Text)
    requires !AllDigits(d) || d == []
    ensures ParseInt([MINUS] + d) == None
  {
    var m := [MINUS] + d;
    assert m[1..] == d;
  }
}
