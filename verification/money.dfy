/** `parse_cents`: a decimal amount such as `-12.01` to a signed count of
    cents. The text is split on `.`; a short fractional part is padded with
    `0`; a segment that `i64::from_str` rejects counts as 0; a whole part
    starting with `-` negates the fractional part too. It never reports an
    error. */
module Money {
  import opened Primitives
  import opened IntParse
  import opened Pieces

  /** The text `"0"`, the default of both segments. */
  const ZERO_TEXT: Text := [ZERO]

  function Zeros(n: nat): (z: Text)
    ensures |z| == n && forall i | 0 <= i < n :: z[i] == ZERO
  {
    if n == 0 then [] else Zeros(n - 1) + [ZERO]
  }

  /** The fractional segment right-padded with `0` up to two bytes; a longer
      one is kept as it is. */
  function PadFraction(f: Text): Text {
    if |f| < 2 then f + Zeros(2 - |f|) else f
  }

  /** The whole-part text: the only piece, the first of two, else `"0"`. */
  function DollarsText(s: Text): Text {
    var parts := Split(s, DOT);
    if |parts| <= 2 then parts[0] else ZERO_TEXT
  }

  /** The fractional text: the padded second of two pieces, else `"0"`. */
  function CentsText(s: Text): Text {
    var parts := Split(s, DOT);
    if |parts| == 2 then PadFraction(parts[1]) else ZERO_TEXT
  }

  /** The sign test: the whole-part text starts with `-`. */
  predicate IsNegative(s: Text) {
    var d := DollarsText(s);
    |d| > 0 && d[0] == MINUS
  }

  function DollarsValue(s: Text): int {
    ParseInt(DollarsText(s)).GetOr(0) as int
  }

  function FractionValue(s: Text): int {
    ParseInt(CentsText(s)).GetOr(0) as int
  }

  /** The fractional contribution, negated when the whole part is. */
  function SignedFraction(s: Text): int {
    if IsNegative(s) then -FractionValue(s) else FractionValue(s)
  }

  /** The amount `parse_cents` computes, over unbounded integers. */
  function Cents(s: Text): int {
    DollarsValue(s) * 100 + SignedFraction(s)
  }

  /** The inputs on which `parse_cents` does not panic: the one-byte slice
      of the whole part must fall on a character boundary, and the negation,
      the multiplication by 100 and the final sum must stay within `i64`. */
  predicate NoPanic(s: Text) {
    var d := DollarsText(s);
    (|d| == 0 || d[0] < 0x80)
    && I64_MIN <= SignedFraction(s) <= I64_MAX
    && I64_MIN <= DollarsValue(s) * 100 <= I64_MAX
    && I64_MIN <= Cents(s) <= I64_MAX
  }

  /** The first half of `parse_cents`: split on `.` and pick the two
      segment strings, padding a short fraction with `0` one byte at a time. */
  method Destructure(text: Text) returns (dollarsStr: Text, centsStr: Text)
    ensures dollarsStr == DollarsText(text) && centsStr == CentsText(text)
  {
    var destructured := Split(text, DOT);
    dollarsStr := ZERO_TEXT;
    centsStr := ZERO_TEXT;
    if |destructured| == 2 {
      dollarsStr := destructured[0];
      centsStr := destructured[1];
      while |centsStr| < 2
        invariant |destructured[1]| <= |centsStr|
        invariant centsStr == destructured[1] + Zeros(|centsStr| - |destructured[1]|)
        invariant |centsStr| <= 2 || centsStr == destructured[1]
        decreases 2 - |centsStr|
      {
        centsStr := centsStr + [ZERO];
      }
    } else if |destructured| == 1 {
      dollarsStr := destructured[0];
    }
  }

  /** Model of `parse_cents`: the segments parsed with `i64::from_str`,
      a failed parse replaced by 0, the fraction negated under a `-` whole
      part, and the two combined in `i64` arithmetic. The result is always
      `Ok`, and it is the amount `Cents` describes. */
  method ParseCents(text: Text) returns (r: Result<i64>)
    requires NoPanic(text)
    ensures r.Ok? && r.value as int == Cents(text)
  {
    var dollarsStr, centsStr := Destructure(text);
    var dollars: i64 := match ParseInt(dollarsStr)
      case Some(v) => v
      case None => 0;
    var cents: i64 := match ParseInt(centsStr)
      case Some(v) => v
      case None => 0;
    if |dollarsStr| > 0 && dollarsStr[0] == MINUS {
      cents := -1 * cents;
    }
    r := Ok(dollars * 100 + cents);
  }

  /** The canonical rendering of an amount of cents: an optional `-`, the
      whole units, `.` and exactly two digits of cents. */
  function FormatCents(v: int): Text {
    var a := if v < 0 then -v else v;
    (if v < 0 then [MINUS] else []) + Digits(a / 100) + [DOT] + TwoDigits(a % 100)
  }

  lemma ParseZero()
    ensures ParseInt(ZERO_TEXT) == Some(0)
  {
    assert ZERO_TEXT[..0] == [];
    assert AllDigits(ZERO_TEXT) && DigitsValue(ZERO_TEXT) == 0;
  }

  /** The amount of a text with exactly one `.`, from its two segments. */
  lemma CentsOfTwoSegments(d: Text, f: Text)
    requires DOT !in d && DOT !in f
    ensures DollarsText(d + [DOT] + f) == d
    ensures CentsText(d + [DOT] + f) == PadFraction(f)
    ensures Cents(d + [DOT] + f) ==
      ParseInt(d).GetOr(0) as int * 100
      + (if |d| > 0 && d[0] == MINUS then -1 else 1) * ParseInt(PadFraction(f)).GetOr(0) as int
  {
    SplitWithout(f, DOT);
    SplitAfter(d, DOT, f);
  }

  /** Without a `.`, the whole text is the dollar part and there are no
      cents: the result is the dollars times 100. */
  lemma CentsOfWhole(d: Text)
    requires DOT !in d
    ensures Cents(d) == ParseInt(d).GetOr(0) as int * 100
  {
    SplitWithout(d, DOT);
  }

  /** With two or more `.`, both segments stay `"0"`: the result is 0. */
  lemma CentsOfManyDots(s: Text)
    requires Count(s, DOT) >= 2
    ensures DollarsText(s) == ZERO_TEXT && CentsText(s) == ZERO_TEXT
    ensures Cents(s) == 0
  {
    ParseZero();
  }

  /** A fraction shorter than two digits reads as if padded with `0`:
      `.2` is `.20`, and `12.` is `12.00`. */
  lemma ShortFractionPadded(d: Text, f: Text)
    requires DOT !in d && DOT !in f && |f| < 2
    ensures Cents(d + [DOT] + f) == Cents(d + [DOT] + (f + Zeros(2 - |f|)))
  {
    var g := f + Zeros(2 - |f|);
    assert DOT !in g by {
      forall i | 0 <= i < |g| ensures g[i] != DOT {
        if i < |f| { assert g[i] == f[i]; }
      }
    }
    CentsOfTwoSegments(d, f);
    CentsOfTwoSegments(d, g);
  }

  /** A whole part that is exactly `-` parses as 0 yet still negates the
      fraction: `-.02` is -2. */
  lemma LoneMinusNegates(f: Text)
    requires DOT !in f
    ensures Cents([MINUS, DOT] + f) == -(ParseInt(PadFraction(f)).GetOr(0) as int)
  {
    assert [MINUS, DOT] + f == [MINUS] + [DOT] + f;
    CentsOfTwoSegments([MINUS], f);
  }

  /** Prefixing `-` to an unsigned amount negates it: the sign is read from
      the whole part and applied to both segments. The one exception is a
      whole part of exactly 2^63, which only `i64::MIN` can represent. */
  lemma NegatedAmount(s: Text)
    requires s == [] || !IsSign(s[0])
    requires !(AllDigits(DollarsText(s)) && DigitsValue(DollarsText(s)) == I64_MAX + 1)
    ensures Cents([MINUS] + s) == -Cents(s)
  {
    var parts := Split(s, DOT);
    SplitPrefixed(s);
    if |parts| <= 2 {
      var d := parts[0];
      assert DollarsText([MINUS] + s) == [MINUS] + d;
      assert CentsText([MINUS] + s) == CentsText(s);
      FirstPieceStart(s);
      if AllDigits(d) && d != [] {
        ParseIntNegated(d);
      } else {
        ParseIntNegatedOther(d);
      }
    }
  }

  lemma SplitPrefixed(s: Text)
    ensures var parts := Split(s, DOT);
      Split([MINUS] + s, DOT) == [[MINUS] + parts[0]] + parts[1..]
  {
    var m := [MINUS] + s;
    assert m[1..] == s;
  }

  /** The first piece is a prefix of the text. */
  lemma FirstPieceStart(s: Text)
    ensures var d := Split(s, DOT)[0]; |d| > 0 ==> |s| > 0 && d[0] == s[0]
  {
    var parts := Split(s, DOT);
    var d := parts[0];
    if |d| > 0 {
      if |parts| >= 2 {
        assert Join(parts, DOT) == d + [DOT] + Join(parts[1..], DOT);
      }
      assert s[0] == d[0];
    }
  }

  /** Parsing the rendering of any `i64` amount gives it back, without
      panicking. */
  lemma CentsRoundTrip(v: int)
    requires I64_MIN <= v <= I64_MAX
    ensures NoPanic(FormatCents(v))
    ensures Cents(FormatCents(v)) == v
  {
    var a := if v < 0 then -v else v;
    var q, m := a / 100, a % 100;
    var d := (if v < 0 then [MINUS] else []) + Digits(q);
    var f := TwoDigits(m);
    var s := FormatCents(v);
    assert s == d + [DOT] + f;
    FormattedWholeHasNoDot(v < 0, q);
    CentsOfTwoSegments(d, f);
    assert DollarsText(s) == d && CentsText(s) == f;
    ParseTwoDigits(m);
    assert FractionValue(s) == m;
    if v < 0 {
      ParseNegatedDigits(q);
      assert DollarsValue(s) == -q && IsNegative(s);
    } else {
      assert d == FormatInt(q);
      ParseFormat(q);
      assert DollarsValue(s) == q;
      assert IsDigit(d[0]) && !IsNegative(s);
    }
    assert q * 100 + m == a;
  }

  lemma FormattedWholeHasNoDot(negative: bool, n: nat)
    ensures DOT !in (if negative then [MINUS] else []) + Digits(n)
  {
    var d := (if negative then [MINUS] else []) + Digits(n);
    forall i | 0 <= i < |d| ensures d[i] != DOT {
      if negative && i > 0 { assert d[i] == Digits(n)[i - 1]; }
      if !negative { assert d[i] == Digits(n)[i]; }
    }
  }

  /** A canonically rendered amount reads back as itself. */
  lemma CanonicalCase(s: Text, v: int)
    requires I64_MIN <= v <= I64_MAX && s == FormatCents(v)
    ensures Cents(s) == v
  {
    CentsRoundTrip(v);
  }

  /** A rendered integer without a `.` reads as that many dollars. */
  lemma WholeCase(s: Text, v: int)
    requires I64_MIN <= v <= I64_MAX && s == FormatInt(v)
    ensures Cents(s) == v * 100
  {
    ParseFormat(v);
    ParseIntAccepts(s);
    CentsOfWhole(s);
  }

  /** `d.f` with both segments rendered integers and a fraction of at
      least two digits, which is used unchanged. */
  lemma LongFractionCase(s: Text, d: int, f: nat, v: int)
    requires I64_MIN <= d <= I64_MAX && 10 <= f <= I64_MAX
    requires s == FormatInt(d) + [DOT] + FormatInt(f)
    requires v == d * 100 + (if d < 0 then -(f as int) else f)
    ensures Cents(s) == v
  {
    ParseFormat(d);
    ParseIntAccepts(FormatInt(d));
    ParseFormat(f);
    ParseIntAccepts(FormatInt(f));
    assert Digits(f) == Digits(f / 10) + [ZERO + (f % 10) as byte];
    CentsOfTwoSegments(FormatInt(d), FormatInt(f));
  }

  /** The non-negative literal cases of the source's unit test whose text
      is the canonical rendering of the amount. */
  lemma CanonicalExamples(s: Text)
    ensures s == AsciiBytes("0.23") ==> Cents(s) == 23
    ensures s == AsciiBytes("12.01") ==> Cents(s) == 1201
  {
    if s == AsciiBytes("0.23") {
      CanonicalCase(s, 23);
    } else if s == AsciiBytes("12.01") {
      assert Digits(12) == [ZERO + 1, ZERO + 2];
      CanonicalCase(s, 1201);
    }
  }

  /** The negative literal cases of the source's unit test with a `.`: the
      `-` of the whole part applies to the cents as well. */
  lemma NegativeExamples(s: Text)
    ensures s == AsciiBytes("-12.01") ==> Cents(s) == -1201
    ensures s == AsciiBytes("-0.01") ==> Cents(s) == -1
  {
    if s == AsciiBytes("-12.01") {
      assert Digits(12) == [ZERO + 1, ZERO + 2];
      CanonicalCase(s, -1201);
    } else if s == AsciiBytes("-0.01") {
      CanonicalCase(s, -1);
    }
  }

  /** The literal cases of the source's unit test without a `.`. */
  lemma WholeExamples(s: Text)
    ensures s == AsciiBytes("0") ==> Cents(s) == 0
    ensures s == AsciiBytes("12") ==> Cents(s) == 1200
    ensures s == AsciiBytes("-12") ==> Cents(s) == -1200
    ensures s == AsciiBytes("2") ==> Cents(s) == 200
    ensures s == AsciiBytes("-2") ==> Cents(s) == -200
  {
    if s == AsciiBytes("0") {
      WholeCase(s, 0);
    } else if s == AsciiBytes("12") {
      assert Digits(12) == [ZERO + 1, ZERO + 2];
      WholeCase(s, 12);
    } else if s == AsciiBytes("-12") {
      assert Digits(12) == [ZERO + 1, ZERO + 2];
      WholeCase(s, -12);
    } else if s == AsciiBytes("2") {
      WholeCase(s, 2);
    } else if s == AsciiBytes("-2") {
      WholeCase(s, -2);
    }
  }

  /** The literal case `1.0` of the source's unit test: a one-digit
      fraction is padded to `1.00`. */
  lemma PaddedExample(s: Text)
    ensures s == AsciiBytes("1.0") ==> Cents(s) == 100
  {
    if s == AsciiBytes("1.0") {
      assert s == FormatInt(1) + [DOT] + [ZERO];
      ShortFractionPadded(FormatInt(1), [ZERO]);
      assert FormatInt(1) + [DOT] + ([ZERO] + Zeros(1)) == FormatCents(100);
      CanonicalCase(FormatCents(100), 100);
    }
  }

  /** The literal case `.2` of the source's unit test: the empty whole part
      counts as 0 and the fraction is padded to `20`. */
  lemma EmptyWholeExample(s: Text)
    ensures s == AsciiBytes(".2") ==> Cents(s) == 20
  {
    if s == AsciiBytes(".2") {
      assert s == [] + [DOT] + [ZERO + 2];
      CentsOfTwoSegments([], [ZERO + 2]);
      assert PadFraction([ZERO + 2]) == FormatInt(20);
      ParseFormat(20);
    }
  }

  /** The literal case `-.02` of the source's unit test: the whole part `-`
      counts as 0 but still negates the fraction. */
  lemma LoneMinusExample(s: Text)
    ensures s == AsciiBytes("-.02") ==> Cents(s) == -2
  {
    if s == AsciiBytes("-.02") {
      assert s == [MINUS, DOT] + TwoDigits(2);
      LoneMinusNegates(TwoDigits(2));
      ParseTwoDigits(2);
    }
  }

  /** Beyond the unit test: a fraction longer than two digits is used
      unchanged, so `1.234` is 100 + 234. */
  lemma LongFractionExample(s: Text)
    ensures s == AsciiBytes("1.234") ==> Cents(s) == 334
  {
    if s == AsciiBytes("1.234") {
      LongFractionCase(s, 1, 234, 334);
    }
  }

  /** Beyond the unit test: a segment that does not parse counts as 0, and
      two dots give 0. */
  lemma MalformedExamples(s: Text)
    ensures s == AsciiBytes("x.5") ==> Cents(s) == 50
    ensures s == AsciiBytes("3.x") ==> Cents(s) == 300
    ensures s == AsciiBytes("1.2.3") ==> Cents(s) == 0
  {
    if s == AsciiBytes("x.5") {
      assert s == [s[0]] + [DOT] + FormatInt(5);
      CentsOfTwoSegments([s[0]], FormatInt(5));
      assert PadFraction(FormatInt(5)) == FormatInt(50);
      ParseFormat(50);
    } else if s == AsciiBytes("3.x") {
      assert s == FormatInt(3) + [DOT] + [s[2]];
      CentsOfTwoSegments(FormatInt(3), [s[2]]);
      ParseFormat(3);
    } else if s == AsciiBytes("1.2.3") {
      assert s == [s[0]] + ([DOT] + ([s[2]] + ([DOT] + [s[4]])));
      CountConcat([s[0]], [DOT] + ([s[2]] + ([DOT] + [s[4]])), DOT);
      CountConcat([DOT], [s[2]] + ([DOT] + [s[4]]), DOT);
      CountConcat([s[2]], [DOT] + [s[4]], DOT);
      CountConcat([DOT], [s[4]], DOT);
      CentsOfManyDots(s);
    }
  }
}
