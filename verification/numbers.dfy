/** Java's decimal text forms of numbers: `Integer.valueOf`, `Long.valueOf`,
    `new BigDecimal(String)` on the parsing side, and `toString` of the
    integral boxes and of `BigDecimal` on the printing side. The parsers read
    digits through `Character.digit(ch, 10)`, so every decimal digit of the
    Basic Multilingual Plane counts, not only '0'..'9'; printing only ever
    writes '0'..'9'. */
module JavaNumbers {
  import opened Results
  import opened Chars

  const INT_MIN: int := -0x8000_0000
  const INT_MAX: int := 0x7FFF_FFFF
  const LONG_MIN: int := -0x8000_0000_0000_0000
  const LONG_MAX: int := 0x7FFF_FFFF_FFFF_FFFF

  predicate InInt(n: int) { INT_MIN <= n <= INT_MAX }

  predicate InLong(n: int) { LONG_MIN <= n <= LONG_MAX }

  /** How many runs of ten decimal digits the Basic Multilingual Plane
      holds. */
  const RUNS: nat := 37

  /** The zero of each run of ten decimal digits (general category Nd) in
      the Basic Multilingual Plane, in code point order: ASCII, Arabic-Indic,
      Extended Arabic-Indic, NKo, Devanagari, Bengali, Gurmukhi, Gujarati,
      Oriya, Tamil, Telugu, Kannada, Malayalam, Sinhala Lith, Thai, Lao,
      Tibetan, Myanmar, Myanmar Shan, Khmer, Mongolian, Limbu, New Tai Lue,
      Tai Tham Hora, Tai Tham Tham, Balinese, Sundanese, Lepcha, Ol Chiki,
      Vai, Saurashtra, Kayah Li, Javanese, Myanmar Tai Laing, Cham,
      Meetei Mayek and Fullwidth. The parsers work on UTF-16 code units, so
      the digits outside this plane are not digits to them. */
  function RunZero(k: nat): int
    requires k < RUNS
  {
    match k
    case 0 => 0x0030 case 1 => 0x0660 case 2 => 0x06F0 case 3 => 0x07C0
    case 4 => 0x0966 case 5 => 0x09E6 case 6 => 0x0A66 case 7 => 0x0AE6
    case 8 => 0x0B66 case 9 => 0x0BE6 case 10 => 0x0C66 case 11 => 0x0CE6
    case 12 => 0x0D66 case 13 => 0x0DE6 case 14 => 0x0E50 case 15 => 0x0ED0
    case 16 => 0x0F20 case 17 => 0x1040 case 18 => 0x1090 case 19 => 0x17E0
    case 20 => 0x1810 case 21 => 0x1946 case 22 => 0x19D0 case 23 => 0x1A80
    case 24 => 0x1A90 case 25 => 0x1B50 case 26 => 0x1BB0 case 27 => 0x1C40
    case 28 => 0x1C50 case 29 => 0xA620 case 30 => 0xA8D0 case 31 => 0xA900
    case 32 => 0xA9D0 case 33 => 0xA9F0 case 34 => 0xAA50 case 35 => 0xABF0
    case 36 => 0xFF10
    case _ => assert false; 0
  }

  /** Code point `c` lies in the run of ten digits starting at `z`. */
  predicate InRun(c: int, z: int) {
    z <= c < z + 10
  }

  /** The zero of the digit run holding code point `c`, searching the runs
      from index `k` on, or -1 when none of them holds it. Naming `c` in the
      measure keeps the search shut for a code point a proof does not know:
      it then sees the first two runs, not all of them. */
  function ZeroFrom(c: int, k: nat): (z: int)
    ensures z == -1 || InRun(c, z)
    decreases RUNS - k, c
  {
    if k >= RUNS then -1
    else if InRun(c, RunZero(k)) then RunZero(k)
    else ZeroFrom(c, k + 1)
  }

  /** `Character.isDigit` on a `char`. */
  predicate IsDecimalDigit(c: char) {
    IsAsciiDigit(c) || ZeroFrom(c as int, 1) != -1
  }

  /** The search finds a run exactly when one of the runs it looks at
      holds the code point. */
  lemma {:induction false} ZeroFromFinds(c: int, k: nat)
    ensures ZeroFrom(c, k) == -1 <==> forall j :: k <= j < RUNS ==> !InRun(c, RunZero(j))
    decreases RUNS - k
  {
    if k < RUNS {
      ZeroFromFinds(c, k + 1);
    }
  }

  /** A character is a decimal digit exactly when one of the runs holds it. */
  lemma DigitRuns(c: char)
    ensures IsDecimalDigit(c) <==> exists j :: 0 <= j < RUNS && InRun(c as int, RunZero(j))
  {
    ZeroFromFinds(c as int, 1);
    if IsAsciiDigit(c) {
      assert InRun(c as int, RunZero(0));
    }
  }

  /** Below U+0660 the only decimal digits are '0'..'9'. */
  lemma LowDigits(c: char)
    requires c < '\U{0660}'
    ensures IsDecimalDigit(c) <==> IsAsciiDigit(c)
  {
    ZeroFromFinds(c as int, 1);
    assert forall j :: 1 <= j < RUNS ==> RunZero(j) >= 0x0660;
  }

  predicate AllDigits(s: string) {
    forall i :: 0 <= i < |s| ==> IsDecimalDigit(s[i])
  }

  predicate AsciiDigits(s: string) {
    forall i :: 0 <= i < |s| ==> IsAsciiDigit(s[i])
  }

  /** `Character.digit(c, 10)` on a decimal digit: its place in its run. */
  function DigitValue(c: char): (d: nat)
    requires IsDecimalDigit(c)
    ensures d < 10
    ensures IsAsciiDigit(c) ==> d == c as int - '0' as int
  {
    if IsAsciiDigit(c) then c as int - '0' as int
    else c as int - ZeroFrom(c as int, 1)
  }

  function DigitChar(d: nat): (c: char)
    requires d < 10
    ensures IsAsciiDigit(c) && IsDecimalDigit(c) && DigitValue(c) == d
  {
    ('0' as int + d) as char
  }

  /** The number a string of decimal digits denotes, most significant first. */
  function DigitsValue(s: string): nat
    requires AllDigits(s)
  {
    if s == [] then 0 else DigitsValue(s[..|s| - 1]) * 10 + DigitValue(s[|s| - 1])
  }

  /** The shortest decimal digit string of `n` (no leading zeros except "0"). */
  function NatToString(n: nat): (s: string)
    ensures |s| > 0 && AsciiDigits(s) && AllDigits(s)
    ensures |s| > 1 ==> s[0] != '0'
    decreases n
  {
    if n < 10 then [DigitChar(n)] else NatToString(n / 10) + [DigitChar(n % 10)]
  }

  /** `Integer.toString`, `Long.toString` and `BigInteger.toString`. */
  function IntToString(n: int): string {
    if n < 0 then "-" + NatToString(-n) else NatToString(n)
  }

  lemma {:induction false} NatToStringValue(n: nat)
    ensures DigitsValue(NatToString(n)) == n
    decreases n
  {
    var s := NatToString(n);
    if n >= 10 {
      NatToStringValue(n / 10);
      assert s[..|s| - 1] == NatToString(n / 10);
    }
  }

  /** The integer parse shared by `Integer.parseInt` and `Long.parseLong`:
      an optional '+' or '-', then one or more digits, and the value must lie
      in [lo, hi]; anything else is a NumberFormatException (None). */
  function ParseInteger(s: string, lo: int, hi: int): (r: Option<int>)
    ensures r.Some? ==> lo <= r.value <= hi
  {
    if s == [] then None
    else
      var negative := s[0] == '-';
      var body := if s[0] == '-' || s[0] == '+' then s[1..] else s;
      if body == [] || !AllDigits(body) then None
      else
        var magnitude: int := DigitsValue(body);
        var n := if negative then -magnitude else magnitude;
        if lo <= n <= hi then Some(n) else None
  }

  /** `Integer.valueOf(String)`. */
  function ParseInt(s: string): (r: Option<int>)
    ensures r.Some? ==> InInt(r.value)
  {
    ParseInteger(s, INT_MIN, INT_MAX)
  }

  /** `Long.valueOf(String)`. */
  function ParseLong(s: string): (r: Option<int>)
    ensures r.Some? ==> InLong(r.value)
  {
    ParseInteger(s, LONG_MIN, LONG_MAX)
  }

  /** Printing an integer and parsing it back gives the same integer whenever
      it lies in the accepted range, and nothing otherwise. */
  lemma IntToStringParses(n: int, lo: int, hi: int)
    ensures ParseInteger(IntToString(n), lo, hi) == if lo <= n <= hi then Some(n) else None
  {
    if n < 0 {
      NegativeParses(n, lo, hi);
    } else {
      NatToStringValue(n);
      var s := NatToString(n);
      assert IsAsciiDigit(s[0]);
    }
  }

  /** The negative case: a minus sign before the magnitude's digits. */
  lemma NegativeParses(n: int, lo: int, hi: int)
    requires n < 0
    ensures ParseInteger(IntToString(n), lo, hi) == if lo <= n <= hi then Some(n) else None
  {
    var s := IntToString(n);
    NatToStringValue(-n);
    assert s[0] == '-' && s[1..] == NatToString(-n);
  }

  /** Which decimal digits and exponent a `BigDecimal` text denotes, before
      the sign is applied: `digits` are the significand's digits with the
      point removed, `fraction` how many of them follow the point. */
  datatype Significand = Significand(digits: string, fraction: nat)

  /** The significand part of `new BigDecimal(String)`: digits with at most
      one '.', and at least one digit. */
  function ParseSignificand(s: string): (r: Option<Significand>)
    ensures r.Some? ==> |r.value.digits| > 0 && AllDigits(r.value.digits)
  {
    SignificandStage(s, 0)
  }

  /** The body of `ParseSignificand`, one stage removed (stage 1 holds it),
      so that the solver opens it only where a proof names stage 1. */
  function SignificandStage(s: string, stage: nat): (r: Option<Significand>)
    requires stage <= 1
    ensures r.Some? ==> |r.value.digits| > 0 && AllDigits(r.value.digits)
    decreases 1 - stage, |s|
  {
    if stage == 0 then SignificandStage(s, 1)
    else
      var dots := CountChar(s, '.');
      if dots > 1 then None
      else
        var point := IndexOf(s, '.');
        var intPart := s[..point];
        var fracPart := if point < |s| then s[point + 1..] else [];
        if !AllDigits(intPart) || !AllDigits(fracPart) || |intPart| + |fracPart| == 0 then None
        else Some(Significand(intPart + fracPart, |fracPart|))
  }

  function CountChar(s: string, c: char): nat {
    if s == [] then 0 else (if s[0] == c then 1 else 0) + CountChar(s[1..], c)
  }

  /** The index of the first `c` in `s`, or |s| when there is none. */
  function IndexOf(s: string, c: char): (i: nat)
    ensures i <= |s|
    ensures forall j :: 0 <= j < i ==> s[j] != c
    ensures i < |s| ==> s[i] == c
  {
    if s == [] then 0 else if s[0] == c then 0 else 1 + IndexOf(s[1..], c)
  }

  /** The index of the first 'e' or 'E' in `s`, or |s| when there is none. */
  function ExponentMark(s: string): (i: nat)
    ensures i <= |s|
    ensures forall j :: 0 <= j < i ==> s[j] != 'e' && s[j] != 'E'
    ensures i < |s| ==> s[i] == 'e' || s[i] == 'E'
  {
    if s == [] then 0 else if s[0] == 'e' || s[0] == 'E' then 0 else 1 + ExponentMark(s[1..])
  }

  /** `new BigDecimal(String)` as the pair (unscaled value, scale) it builds:
      an optional sign, a significand, and an optional exponent 'e' or 'E'
      with an optional sign and at least one digit. The exponent must fit in
      an int and so must the resulting scale; otherwise, or on any other
      character, it is a NumberFormatException (None). */
  function ParseDecimal(s: string): (r: Option<(int, int)>)
    ensures r.Some? ==> InInt(r.value.1)
  {
    if s == [] then None
    else
      var negative := s[0] == '-';
      var body := if s[0] == '-' || s[0] == '+' then s[1..] else s;
      var mark := ExponentMark(body);
      var exponent := if mark == |body| then Some(0) else ParseExponent(body[mark + 1..]);
      match ParseSignificand(body[..mark])
      case None => None
      case Some(sig) =>
        match exponent
        case None => None
        case Some(e) =>
          var magnitude: int := DigitsValue(sig.digits);
          var scale := sig.fraction - e;
          if InInt(scale) then Some((if negative then -magnitude else magnitude, scale)) else None
  }

  /** The exponent after the 'e' or 'E': an int, as `Integer.parseInt`
      reads it. */
  function ParseExponent(s: string): (r: Option<int>)
    ensures r.Some? ==> InInt(r.value)
  {
    ExponentStage(s, 0)
  }

  /** The body of `ParseExponent`, one stage removed (stage 1 holds it). */
  function ExponentStage(s: string, stage: nat): (r: Option<int>)
    requires stage <= 1
    ensures r.Some? ==> InInt(r.value)
    decreases 1 - stage, |s|
  {
    if stage == 0 then ExponentStage(s, 1) else ParseInteger(s, INT_MIN, INT_MAX)
  }

  /** A leading-zero-free digit string of |n| and the sign. */
  function Abs(n: int): nat { if n < 0 then -n else n }

  function Zeros(n: nat): (s: string)
    ensures |s| == n && AllDigits(s)
    ensures forall i :: 0 <= i < n ==> s[i] == '0'
  {
    if n == 0 then [] else "0" + Zeros(n - 1)
  }

  /** `BigDecimal.toString()`: plain notation when the scale is not negative
      and the adjusted exponent is at least -6, scientific notation
      otherwise. */
  function DecimalToString(unscaled: int, scale: int): string {
    DecimalStage(unscaled, scale, 0)
  }

  /** The body of `DecimalToString`, one stage removed (stage 1 holds it). */
  function DecimalStage(unscaled: int, scale: int, stage: nat): string
    requires stage <= 1
    decreases 1 - stage, Abs(unscaled)
  {
    if stage == 0 then DecimalStage(unscaled, scale, 1)
    else if scale == 0 then IntToString(unscaled)
    else
      var coeff := NatToString(Abs(unscaled));
      var adjusted := -scale + (|coeff| - 1);
      var sign := if unscaled < 0 then "-" else "";
      if scale >= 0 && adjusted >= -6 then
        var pad := scale - |coeff|;
        if pad >= 0 then sign + "0." + Zeros(pad) + coeff
        else sign + coeff[..-pad] + "." + coeff[-pad..]
      else
        var mantissa := if |coeff| > 1 then coeff[..1] + "." + coeff[1..] else coeff;
        var exponent :=
          if adjusted == 0 then ""
          else "E" + (if adjusted > 0 then "+" else "") + IntToString(adjusted);
        sign + mantissa + exponent
  }

  // The decimal round trip: `new BigDecimal(x.toString())` gives back the
  // unscaled value and scale of `x`.

  lemma {:induction false} CountCharAppend(a: string, b: string, c: char)
    ensures CountChar(a + b, c) == CountChar(a, c) + CountChar(b, c)
    decreases |a|
  {
    if a == [] {
      assert a + b == b;
    } else {
      CountCharAppend(a[1..], b, c);
      assert (a + b)[1..] == a[1..] + b;
    }
  }

  lemma {:induction false} CountCharDigits(a: string)
    requires AsciiDigits(a)
    ensures CountChar(a, '.') == 0
    decreases |a|
  {
    if a != [] {
      CountCharDigits(a[1..]);
    }
  }

  /** A significand without a point: all its digits, none after a point. */
  lemma SignificandWhole(a: string)
    requires |a| > 0 && AsciiDigits(a)
    ensures ParseSignificand(a) == Some(Significand(a, 0))
  {
    assert ParseSignificand(a) == SignificandStage(a, 1);
    CountCharDigits(a);
    assert forall j :: 0 <= j < |a| ==> a[j] != '.' by {
      assert forall j :: 0 <= j < |a| ==> IsAsciiDigit(a[j]);
    }
    var i := IndexOf(a, '.');
    assert i == |a|;
    assert a[..i] == a && a + [] == a;
    assert AllDigits(a) && AllDigits([]);
  }

  /** A significand with a point: the digits on both sides, and as many
      fraction digits as follow the point. */
  lemma SignificandPoint(a: string, b: string)
    requires |a| > 0 && AsciiDigits(a) && AsciiDigits(b)
    ensures ParseSignificand(a + "." + b) == Some(Significand(a + b, |b|))
  {
    var t := a + "." + b;
    assert ParseSignificand(t) == SignificandStage(t, 1);
    CountCharAppend(a + ".", b, '.');
    CountCharAppend(a, ".", '.');
    CountCharDigits(a);
    CountCharDigits(b);
    assert CountChar(".", '.') == 1;
    assert t[|a|] == '.';
    assert forall j :: 0 <= j < |a| ==> t[j] != '.' by {
      assert forall j :: 0 <= j < |a| ==> t[j] == a[j] && IsAsciiDigit(a[j]);
    }
    var i := IndexOf(t, '.');
    assert i == |a|;
    assert t[..i] == a && t[i + 1..] == b;
    assert AllDigits(a) && AllDigits(b);
  }

  /** No 'e' or 'E' anywhere in `s`. */
  predicate NoMark(s: string)
    decreases |s|
  {
    s == [] || (s[0] != 'e' && s[0] != 'E' && NoMark(s[1..]))
  }

  lemma {:induction false} DigitsNoMark(s: string)
    requires AsciiDigits(s)
    ensures NoMark(s)
    decreases |s|
  {
    if s != [] {
      assert AsciiDigits(s[1..]) by {
        assert forall i :: 0 <= i < |s| - 1 ==> s[1..][i] == s[i + 1];
      }
      DigitsNoMark(s[1..]);
    }
  }

  lemma {:induction false} NoMarkAppend(a: string, b: string)
    requires NoMark(a) && NoMark(b)
    ensures NoMark(a + b)
    decreases |a|
  {
    if a == [] {
      assert a + b == b;
    } else {
      assert (a + b)[1..] == a[1..] + b;
      NoMarkAppend(a[1..], b);
    }
  }

  /** A mark-free text before an optional `E...` part: the mark is found
      where that part begins. */
  lemma {:induction false} MarkAt(m: string, x: string)
    requires NoMark(m)
    requires x == [] || x[0] == 'E'
    ensures ExponentMark(m + x) == |m|
    decreases |m|
  {
    if m == [] {
      assert m + x == x;
    } else {
      assert (m + x)[1..] == m[1..] + x;
      MarkAt(m[1..], x);
    }
  }

  /** Leading zeros do not change the value of a digit string. */
  lemma {:induction false} LeadingZeros(k: nat, s: string)
    requires AllDigits(s)
    ensures AllDigits(Zeros(k) + s) && DigitsValue(Zeros(k) + s) == DigitsValue(s)
    decreases |s|, k
  {
    var t := Zeros(k) + s;
    assert AllDigits(t) by {
      forall i | 0 <= i < |t| ensures IsDecimalDigit(t[i]) {
        if i >= k { assert t[i] == s[i - k]; }
      }
    }
    if s == [] {
      assert t == Zeros(k);
      if k > 0 {
        assert t[..|t| - 1] == Zeros(k - 1) + [] by {
          assert Zeros(k)[..k - 1] == Zeros(k - 1) by {
            assert Zeros(k) == "0" + Zeros(k - 1);
            ZerosSplit(k - 1);
          }
        }
        LeadingZeros(k - 1, []);
        assert Zeros(k - 1) + [] == Zeros(k - 1);
      }
    } else {
      assert t[..|t| - 1] == Zeros(k) + s[..|s| - 1];
      LeadingZeros(k, s[..|s| - 1]);
    }
  }

  /** All but the last of `1 + n` zeros are `n` zeros. */
  lemma ZerosSplit(n: nat)
    ensures ("0" + Zeros(n))[..n] == Zeros(n)
  {
  }

  /** The sign of a printed decimal: `-` exactly for a negative value, and
      the text after it is the body `ParseDecimal` reads. */
  lemma SignedBody(u: int, m: string, x: string)
    requires |m| > 0 && IsAsciiDigit(m[0])
    ensures var s := (if u < 0 then "-" else "") + m + x;
            s != [] && (s[0] == '-' <==> u < 0) &&
            (if s[0] == '-' || s[0] == '+' then s[1..] else s) == m + x
  {
    var s := (if u < 0 then "-" else "") + m + x;
    if u < 0 {
      assert s[1..] == m + x;
    } else {
      assert s == m + x && s[0] == m[0];
    }
  }

  /** The exponent part of a printed decimal: the mark is found after the
      significand text, and what follows it parses as the exponent. */
  lemma ExponentPart(m: string, x: string, e: int)
    requires InInt(e)
    requires NoMark(m)
    requires x == [] ==> e == 0
    requires x != [] ==> x[0] == 'E' && ParseExponent(x[1..]) == Some(e)
    ensures var body := m + x;
            var mark := ExponentMark(body);
            mark == |m| && body[..mark] == m &&
            (if mark == |body| then Some(0) else ParseExponent(body[mark + 1..])) == Some(e)
  {
    var body := m + x;
    MarkAt(m, x);
    assert body[..|m|] == m;
    if x != [] {
      assert body[|m| + 1..] == x[1..];
    }
  }

  /** What `ParseDecimal` needs of a significand text `m` and an exponent
      part `x` (empty, or `E` and the exponent's digits) to read back the
      unscaled value `u` and the scale `sc`. */
  predicate Parts(u: int, sc: int, m: string, x: string, sig: Significand, e: int) {
    && InInt(sc) && InInt(e)
    && |m| > 0 && IsAsciiDigit(m[0])
    && NoMark(m)
    && (x == [] ==> e == 0)
    && (x != [] ==> x[0] == 'E' && ParseExponent(x[1..]) == Some(e))
    && ParseSignificand(m) == Some(sig)
    && DigitsValue(sig.digits) == Abs(u) && sig.fraction - e == sc
  }

  /** `ParseDecimal` on a sign, a significand text and an exponent part. */
  lemma ParseParts(u: int, sc: int, m: string, x: string, sig: Significand, e: int)
    requires Parts(u, sc, m, x, sig, e)
    ensures ParseDecimal((if u < 0 then "-" else "") + m + x) == Some((u, sc))
  {
    assert |m| > 0 && IsAsciiDigit(m[0]);
    SignedBody(u, m, x);
    ExponentPart(m, x, e);
  }

  /** The digits of |u| hold no exponent mark. */
  lemma CoefficientDigits(u: int)
    ensures DigitsValue(NatToString(Abs(u))) == Abs(u)
    ensures NoMark(NatToString(Abs(u)))
  {
    NatToStringValue(Abs(u));
    DigitsNoMark(NatToString(Abs(u)));
  }

  /** Scale 0 prints the unscaled value as an integer. */
  lemma WholeLayout(u: int) returns (m: string, x: string, sig: Significand, e: int)
    ensures DecimalToString(u, 0) == (if u < 0 then "-" else "") + m + x
    ensures Parts(u, 0, m, x, sig, e)
  {
    m, x, sig, e := NatToString(Abs(u)), [], Significand(NatToString(Abs(u)), 0), 0;
    assert Parts(u, 0, m, x, sig, e) by {
      CoefficientDigits(u);
      SignificandWhole(m);
    }
    assert DecimalToString(u, 0) == DecimalStage(u, 0, 1);
    if u < 0 { assert NatToString(-u) == m; }
  }

  /** How `toString` lays out a scale past the digits: "0.", zeros, digits. */
  lemma PaddedText(u: int, sc: int)
    requires 0 < sc && sc >= |NatToString(Abs(u))|
    requires -sc + (|NatToString(Abs(u))| - 1) >= -6
    ensures DecimalToString(u, sc) == (if u < 0 then "-" else "") +
              ("0" + "." + (Zeros(sc - |NatToString(Abs(u))|) + NatToString(Abs(u)))) + []
  {
    assert DecimalToString(u, sc) == DecimalStage(u, sc, 1);
  }

  /** How `toString` lays out a scale inside the digits. */
  lemma SplitText(u: int, sc: int)
    requires 0 < sc < |NatToString(Abs(u))|
    ensures var coeff := NatToString(Abs(u));
            DecimalToString(u, sc) == (if u < 0 then "-" else "") +
              (coeff[..|coeff| - sc] + "." + coeff[|coeff| - sc..]) + []
  {
    assert DecimalToString(u, sc) == DecimalStage(u, sc, 1);
  }

  /** How `toString` lays out several digits in scientific notation. */
  lemma ScientificText(u: int, sc: int)
    requires 0 < sc && -sc + (|NatToString(Abs(u))| - 1) < -6
    requires |NatToString(Abs(u))| > 1
    ensures var coeff := NatToString(Abs(u));
            DecimalToString(u, sc) == (if u < 0 then "-" else "") +
              (coeff[..1] + "." + coeff[1..]) + ("E" + IntToString(-sc + (|coeff| - 1)))
  {
    assert DecimalToString(u, sc) == DecimalStage(u, sc, 1);
  }

  /** How `toString` lays out one digit in scientific notation. */
  lemma DigitText(u: int, sc: int)
    requires 0 < sc && -sc + (|NatToString(Abs(u))| - 1) < -6
    requires |NatToString(Abs(u))| == 1
    ensures DecimalToString(u, sc) == (if u < 0 then "-" else "") +
              NatToString(Abs(u)) + ("E" + IntToString(-sc + (|NatToString(Abs(u))| - 1)))
  {
    assert DecimalToString(u, sc) == DecimalStage(u, sc, 1);
  }

  /** Zeros before ASCII digits keep them ASCII digits. */
  lemma PaddedDigits(coeff: string, pad: nat)
    requires AsciiDigits(coeff)
    ensures AsciiDigits(Zeros(pad) + coeff)
  {
    var b := Zeros(pad) + coeff;
    forall i | 0 <= i < |b| ensures IsAsciiDigit(b[i]) {
      if i >= pad { assert b[i] == coeff[i - pad]; }
    }
  }

  /** "0." before ASCII digits holds no exponent mark. */
  lemma PointNoMark(b: string)
    requires AsciiDigits(b)
    ensures NoMark("0" + "." + b)
  {
    assert NoMark("0" + ".");
    DigitsNoMark(b);
    NoMarkAppend("0" + ".", b);
  }

  /** "0.", `pad` zeros and the digits: the same value as the digits. */
  lemma PaddedMantissa(coeff: string, pad: nat)
    requires AsciiDigits(coeff) && AllDigits(coeff)
    ensures var b := Zeros(pad) + coeff;
            var m := "0" + "." + b;
            |m| > 0 && IsAsciiDigit(m[0]) &&
            NoMark(m) &&
            ParseSignificand(m) == Some(Significand("0" + b, |b|)) &&
            DigitsValue("0" + b) == DigitsValue(coeff)
  {
    var b := Zeros(pad) + coeff;
    PaddedDigits(coeff, pad);
    PointNoMark(b);
    SignificandPoint("0", b);
    assert DigitsValue("0" + b) == DigitsValue(coeff) by {
      assert "0" + b == Zeros(pad + 1) + coeff;
      LeadingZeros(pad + 1, coeff);
    }
  }

  /** Plain notation with the digits after "0." and `pad` zeros. */
  lemma PaddedLayout(u: int, sc: int) returns (m: string, x: string, sig: Significand, e: int)
    requires 0 < sc <= INT_MAX && sc >= |NatToString(Abs(u))|
    requires -sc + (|NatToString(Abs(u))| - 1) >= -6
    ensures DecimalToString(u, sc) == (if u < 0 then "-" else "") + m + x
    ensures Parts(u, sc, m, x, sig, e)
  {
    var coeff := NatToString(Abs(u));
    var b := Zeros(sc - |coeff|) + coeff;
    m, x, sig, e := "0" + "." + b, [], Significand("0" + b, sc), 0;
    assert Parts(u, sc, m, x, sig, e) by {
      CoefficientDigits(u);
      PaddedMantissa(coeff, sc - |coeff|);
    }
    PaddedText(u, sc);
  }

  /** A point after the first `k` of several digits. */
  lemma PointMantissa(coeff: string, k: nat)
    requires AsciiDigits(coeff) && 0 < k < |coeff|
    ensures var m := coeff[..k] + "." + coeff[k..];
            |m| > 0 && IsAsciiDigit(m[0]) &&
            NoMark(m) &&
            ParseSignificand(m) == Some(Significand(coeff, |coeff| - k))
  {
    var a := coeff[..k];
    var b := coeff[k..];
    var m := a + "." + b;
    assert AsciiDigits(a) && AsciiDigits(b);
    SignificandPoint(a, b);
    assert a + b == coeff;
    DigitsNoMark(a);
    DigitsNoMark(b);
    assert NoMark(".");
    NoMarkAppend(a, ".");
    NoMarkAppend(a + ".", b);
  }

  /** Plain notation with the point inside the digits. */
  lemma SplitLayout(u: int, sc: int) returns (m: string, x: string, sig: Significand, e: int)
    requires 0 < sc <= INT_MAX && sc < |NatToString(Abs(u))|
    ensures DecimalToString(u, sc) == (if u < 0 then "-" else "") + m + x
    ensures Parts(u, sc, m, x, sig, e)
  {
    var coeff := NatToString(Abs(u));
    m, x, sig, e := coeff[..|coeff| - sc] + "." + coeff[|coeff| - sc..], [], Significand(coeff, sc), 0;
    assert Parts(u, sc, m, x, sig, e) by {
      CoefficientDigits(u);
      PointMantissa(coeff, |coeff| - sc);
    }
    SplitText(u, sc);
  }

  /** The exponent scientific notation prints after the mantissa: negative,
      since only a large scale leads there. */
  lemma ExponentText(adjusted: int)
    requires INT_MIN <= adjusted < 0
    ensures ("E" + IntToString(adjusted))[0] == 'E'
    ensures ParseExponent(("E" + IntToString(adjusted))[1..]) == Some(adjusted)
  {
    var x := "E" + IntToString(adjusted);
    assert x[1..] == IntToString(adjusted);
    IntToStringParses(adjusted, INT_MIN, INT_MAX);
    assert ParseExponent(x[1..]) == ExponentStage(x[1..], 1);
  }

  /** Scientific notation with a point after the first of several digits;
      a scale this large makes the adjusted exponent negative. */
  lemma ScientificLayout(u: int, sc: int) returns (m: string, x: string, sig: Significand, e: int)
    requires 0 < sc <= INT_MAX && -sc + (|NatToString(Abs(u))| - 1) < -6
    requires |NatToString(Abs(u))| > 1
    ensures DecimalToString(u, sc) == (if u < 0 then "-" else "") + m + x
    ensures Parts(u, sc, m, x, sig, e)
  {
    var coeff := NatToString(Abs(u));
    e := -sc + (|coeff| - 1);
    x := "E" + IntToString(e);
    m, sig := coeff[..1] + "." + coeff[1..], Significand(coeff, |coeff| - 1);
    assert Parts(u, sc, m, x, sig, e) by {
      CoefficientDigits(u);
      ExponentText(e);
      PointMantissa(coeff, 1);
    }
    ScientificText(u, sc);
  }

  /** Scientific notation of a single digit, which has no point. */
  lemma DigitLayout(u: int, sc: int) returns (m: string, x: string, sig: Significand, e: int)
    requires 0 < sc <= INT_MAX && -sc + (|NatToString(Abs(u))| - 1) < -6
    requires |NatToString(Abs(u))| == 1
    ensures DecimalToString(u, sc) == (if u < 0 then "-" else "") + m + x
    ensures Parts(u, sc, m, x, sig, e)
  {
    m, sig := NatToString(Abs(u)), Significand(NatToString(Abs(u)), 0);
    e := -sc + (|m| - 1);
    x := "E" + IntToString(e);
    assert Parts(u, sc, m, x, sig, e) by {
      CoefficientDigits(u);
      ExponentText(e);
      SignificandWhole(m);
    }
    DigitText(u, sc);
  }

  /** `new BigDecimal(x.toString())` gives back `x` for every scale that
      is not negative: whichever of its four layouts `toString` prints. */
  lemma DecimalToStringParses(u: int, sc: int)
    requires 0 <= sc <= INT_MAX
    ensures ParseDecimal(DecimalToString(u, sc)) == Some((u, sc))
  {
    var digits := |NatToString(Abs(u))|;
    var m, x, sig, e;
    if sc == 0 {
      m, x, sig, e := WholeLayout(u);
    } else if -sc + (digits - 1) < -6 && digits > 1 {
      m, x, sig, e := ScientificLayout(u, sc);
    } else if -sc + (digits - 1) < -6 {
      m, x, sig, e := DigitLayout(u, sc);
    } else if sc >= digits {
      m, x, sig, e := PaddedLayout(u, sc);
    } else {
      m, x, sig, e := SplitLayout(u, sc);
    }
    ParseParts(u, sc, m, x, sig, e);
  }
}
