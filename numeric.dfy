/** Numeric coercion of a sheet cell (`num`), over exact rationals, with
    JavaScript's `parseFloat` modelled as a decimal-prefix parser. */
module Numeric {
  import opened JsString

  predicate IsDigit(c: char) {
    '0' <= c <= '9'
  }

  predicate AllDigits(s: string) {
    forall k :: 0 <= k < |s| ==> IsDigit(s[k])
  }

  /** The length of the longest run of digits at the head of `s`. */
  function DigitRun(s: string): (n: nat)
    ensures n <= |s|
    ensures n < |s| ==> !IsDigit(s[n])
  {
    if s != [] && IsDigit(s[0]) then
      1 + DigitRun(s[1..])
    else 0
  }

  /** The value of a string of decimal digits, most significant first (only
      ever applied to a run of digits). */
  function DigitsValue(d: string): int {
    if d == [] then 0
    else 10 * DigitsValue(d[..|d| - 1]) + (d[|d| - 1] as int - '0' as int)
  }

  /** `x * 10^e`, written with multiplications and divisions by ten only. */
  function Shift(x: real, e: int): real
    decreases if e >= 0 then e else -e
  {
    if e == 0 then x
    else if e > 0 then 10.0 * Shift(x, e - 1)
    else Shift(x, e + 1) / 10.0
  }

  /** The exponent of an exponent part (`e` or `E`, an optional sign, at least
      one digit) at the head of `s`; 0 when `s` does not start with one. */
  function ExponentOf(s: string): int {
    if s != [] && (s[0] == 'e' || s[0] == 'E') then
      var signed := |s| > 1 && (s[1] == '+' || s[1] == '-');
      var digits := if signed then s[2..] else s[1..];
      var k := DigitRun(digits);
      if k == 0 then 0
      else if signed && s[1] == '-' then -DigitsValue(digits[..k])
      else DigitsValue(digits[..k])
    else 0
  }

  /** The longest unsigned decimal literal at the head of `s` — digits, an
      optional `.` and fraction digits (at least one digit in all), an optional
      exponent part — or None when there is none. Its value is that of all its
      digits, shifted by the exponent less the number of fraction digits. */
  function ParseUnsigned(s: string): Option<real> {
    var n := DigitRun(s);
    var whole := s[..n];
    var afterInt := s[n..];
    if afterInt != [] && afterInt[0] == '.' then
      var afterDot := afterInt[1..];
      var f := DigitRun(afterDot);
      var fraction := afterDot[..f];
      if n == 0 && f == 0 then None
      else Some(Shift(DigitsValue(whole + fraction) as real, ExponentOf(afterDot[f..]) - f))
    else if n == 0 then None
    else Some(Shift(DigitsValue(whole) as real, ExponentOf(afterInt)))
  }

  /** `parseFloat(s)`: leading white space is skipped, an optional sign is read,
      then the longest decimal literal; None stands for NaN (`ParseFloatNaN`). */
  function ParseFloat(s: string): Option<real> {
    ParseSigned(TrimStart(s))
  }

  /** `parseFloat` gives NaN exactly when, after the leading white space and
      an optional sign, neither a digit nor `.` followed by a digit comes next. */
  lemma {:induction false} ParseFloatNaN(s: string)
    ensures ParseFloat(s).None? <==> !StartsLiteral(Unsigned(TrimStart(s)))
  {
    ParseUnsignedNone(Unsigned(TrimStart(s)));
  }

  /** The text with one leading sign, if any, removed. */
  function Unsigned(t: string): string {
    if t != [] && (t[0] == '-' || t[0] == '+') then t[1..] else t
  }

  /** The text starts a decimal literal: a digit, or `.` followed by a digit. */
  predicate StartsLiteral(u: string) {
    (u != [] && IsDigit(u[0])) || (|u| >= 2 && u[0] == '.' && IsDigit(u[1]))
  }

  /** The unsigned parser fails exactly when no literal starts the text. */
  lemma {:induction false} ParseUnsignedNone(u: string)
    ensures ParseUnsigned(u).None? <==> !StartsLiteral(u)
  {
    var n := DigitRun(u);
    assert n > 0 <==> u != [] && IsDigit(u[0]);
    if n == 0 && u != [] && u[0] == '.' {
      var afterDot := u[n..][1..];
      assert afterDot == u[1..];
      assert DigitRun(afterDot) > 0 <==> |u| >= 2 && IsDigit(u[1]);
    }
  }

  /** An optional sign followed by an unsigned decimal literal. */
  function ParseSigned(t: string): Option<real> {
    if t != [] && t[0] == '-' then Negate(ParseUnsigned(t[1..]))
    else if t != [] && t[0] == '+' then ParseUnsigned(t[1..])
    else ParseUnsigned(t)
  }

  function Negate(v: Option<real>): Option<real> {
    match v
    case None => None
    case Some(x) => Some(-x)
  }

  /** The characters `num` removes before parsing: `["'€$£,%\s]`. */
  predicate Stripped(c: char) {
    c == '"' || c == '\'' || c == '\U{20AC}' || c == '$' || c == '\U{00A3}'
    || c == ',' || c == '%' || IsSpace(c)
  }

  /** `val.replace(/["'€$£,%\s]/g, "")`: the characters of `s` that are not
      stripped, in order (`CleanAppend`): every stripped character is gone
      (here) and every other one occurs as often as in `s` (`CleanKeepsOthers`). */
  function Clean(s: string): (r: string)
    ensures |r| <= |s|
    ensures forall k :: 0 <= k < |r| ==> !Stripped(r[k])
  {
    if s == [] then []
    else
      var head := if Stripped(s[0]) then [] else [s[0]];
      head + Clean(s[1..])
  }

  /** Cleaning keeps every character that is not stripped, as often as it occurs. */
  lemma {:induction false} CleanKeepsOthers(s: string)
    ensures forall c :: !Stripped(c) ==> Count(Clean(s), c) == Count(s, c)
  {
    if s != [] {
      var head := if Stripped(s[0]) then [] else [s[0]];
      CleanKeepsOthers(s[1..]);
      CountAppendAll(head, Clean(s[1..]));
      assert s == [s[0]] + s[1..];
      CountAppendAll([s[0]], s[1..]);
    }
  }

  /** `num(val)`: a missing, empty or `-` cell and text that does not parse are
      0; otherwise the parsed value of the cleaned text, divided by 100 when the
      cell holds a `%`. */
  function Num(val: Option<string>): (n: real)
    ensures val.None? || val.value == "" || val.value == "-" ==> n == 0.0
    ensures val.Some? && ParseFloat(Clean(val.value)).None? ==> n == 0.0
  {
    if val.None? || val.value == "" || val.value == "-" then 0.0
    else
      match ParseFloat(Clean(val.value))
      case None => 0.0
      case Some(v) => if '%' in val.value then v / 100.0 else v
  }

  // ---------------------------------------------------------------------------
  // Properties

  /** Cleaning twice is cleaning once. */
  lemma {:induction false} CleanIdempotent(s: string)
    ensures Clean(Clean(s)) == Clean(s)
  {
    if s != [] {
      CleanIdempotent(s[1..]);
      if !Stripped(s[0]) {
        var c := Clean(s);
        assert c == [s[0]] + Clean(s[1..]);
        assert c[0] == s[0] && c[1..] == Clean(s[1..]);
        assert Clean(c) == [c[0]] + Clean(c[1..]);
      } else {
        assert Clean(s) == Clean(s[1..]);
      }
    }
  }

  /** Neither the empty text nor a lone minus sign parses. */
  lemma {:induction false} NothingToParse()
    ensures ParseFloat("").None?
    ensures ParseFloat("-").None?
  {
    UnsignedOfEmpty();
    assert TrimStart("") == "";
    SignAlone();
  }

  lemma {:induction false} SignAlone()
    ensures ParseFloat("-").None?
  {
    TrimSign();
    SignedAlone();
  }

  lemma {:induction false} CleanSign()
    ensures Clean("-") == "-"
  {
    CleanCons('-', "");
    assert ['-'] + "" == "-";
    assert !Stripped('-');
  }

  lemma {:induction false} TrimSign()
    ensures TrimStart("-") == "-"
  {
    assert !IsSpace('-');
  }

  lemma {:induction false} SignedAlone()
    ensures ParseSigned("-") == None
  {
    UnsignedOfEmpty();
    assert "-"[1..] == "";
  }

  lemma {:induction false} UnsignedOfEmpty()
    ensures ParseUnsigned("") == None
  {
    assert DigitRun("") == 0;
    assert ""[0..] == "";
  }

  /** Removing or adding characters of `["'€$£,\s]` never changes `num`, and
      `%` matters only through whether it occurs at all: two cells that clean to
      the same text and agree on holding a `%` coerce to the same number. */
  lemma {:induction false} NumIgnoresStripped(s: string, t: string)
    requires Clean(s) == Clean(t)
    requires ('%' in s) == ('%' in t)
    ensures Num(Some(s)) == Num(Some(t))
  {
    if s == "" || s == "-" {
      CleanPlaceholder(s);
      assert Num(Some(t)) == 0.0;
    } else if t == "" || t == "-" {
      CleanPlaceholder(t);
      assert Num(Some(s)) == 0.0;
    }
  }

  /** The placeholders clean to themselves, and neither parses. */
  lemma {:induction false} CleanPlaceholder(s: string)
    requires s == "" || s == "-"
    ensures Clean(s) == s && ParseFloat(s).None?
  {
    NothingToParse();
    CleanSign();
  }

  /** A cell's number is that of its cleaned text, divided by 100 exactly when
      the cell holds a `%`. */
  lemma {:induction false} NumPercentScaling(s: string)
    ensures '%' in s ==> Num(Some(s)) == Num(Some(Clean(s))) / 100.0
    ensures '%' !in s ==> Num(Some(s)) == Num(Some(Clean(s)))
  {
    var c := Clean(s);
    CleanIdempotent(s);
    assert '%' !in c;
    if c == "" || c == "-" {
      CleanPlaceholder(c);
    } else if s == "" || s == "-" {
      CleanPlaceholder(s);
    }
  }

  // ---------------------------------------------------------------------------
  // A decimal rendering, the partner of ParseFloat

  function DigitChar(d: nat): (c: char)
    requires d < 10
    ensures IsDigit(c) && c as int - '0' as int == d
  {
    ('0' as int + d) as char
  }

  /** The decimal digits of `n`, most significant first. */
  function Show(n: nat): (s: string)
    ensures |s| > 0 && AllDigits(s)
  {
    (if n < 10 then "" else Show(n / 10)) + [DigitChar(n % 10)]
  }

  lemma {:induction false} ShowValue(n: nat)
    ensures DigitsValue(Show(n)) == n
  {
    var s := Show(n);
    var prefix := if n < 10 then "" else Show(n / 10);
    assert s[..|s| - 1] == prefix;
    assert s[|s| - 1] as int - '0' as int == n % 10;
    if n >= 10 {
      ShowValue(n / 10);
    }
    assert DigitsValue(s) == 10 * DigitsValue(prefix) + n % 10;
  }

  /** The digits of a natural number parse back to that number. */
  lemma {:induction false} ParseShow(n: nat)
    ensures ParseFloat(Show(n)) == Some(n as real)
  {
    ParseDigits(Show(n));
    ShowValue(n);
  }

  /** A non-empty string of digits parses to its value. */
  lemma {:induction false} ParseDigits(s: string)
    requires s != [] && AllDigits(s)
    ensures ParseFloat(s) == Some(DigitsValue(s) as real)
  {
    assert TrimStart(s) == s by {
      assert !IsSpace(s[0]);
    }
    assert s[0] != '+' && s[0] != '-';
    DigitRunAll(s);
    assert s[..|s|] == s && s[|s|..] == [];
    assert ExponentOf("") == 0;
  }

  lemma {:induction false} DigitRunAll(s: string)
    requires AllDigits(s)
    ensures DigitRun(s) == |s|
  {
    if s != [] {
      DigitRunAll(s[1..]);
    }
  }

  // ---------------------------------------------------------------------------
  // Decimal fractions and signs

  function Pow10(n: nat): (p: nat)
    ensures p >= 1
  {
    if n == 0 then 1 else 10 * Pow10(n - 1)
  }

  /** The value of the literal `w.f`: the whole digits plus the fraction digits
      scaled down by their count. */
  function DecimalValue(w: string, f: string): real {
    DigitsValue(w) as real + DigitsValue(f) as real / Pow10(|f|) as real
  }

  /** Shifting down by `n` places divides by `10^n`. */
  lemma {:induction false} ShiftDown(x: real, n: nat)
    ensures Shift(x, -(n as int)) == x / Pow10(n) as real
  {
    if n > 0 {
      ShiftDown(x, n - 1);
      var p := Pow10(n - 1) as real;
      assert Shift(x, -(n as int)) == (x / p) / 10.0;
      assert Pow10(n) as real == p * 10.0;
    }
  }

  /** Digits written after others shift the others up by their count. */
  lemma {:induction false} DigitsValueAppend(w: string, f: string)
    ensures DigitsValue(w + f) == DigitsValue(w) * Pow10(|f|) + DigitsValue(f)
    decreases |f|
  {
    if f == [] {
      assert w + f == w;
    } else {
      var g := f[..|f| - 1];
      var d := f[|f| - 1] as int - '0' as int;
      assert (w + f)[..|w + f| - 1] == w + g;
      assert (w + f)[|w + f| - 1] == f[|f| - 1];
      DigitsValueAppend(w, g);
      calc {
        DigitsValue(w + f);
        10 * DigitsValue(w + g) + d;
        10 * (DigitsValue(w) * Pow10(|g|) + DigitsValue(g)) + d;
        { assert 10 * (DigitsValue(w) * Pow10(|g|)) == DigitsValue(w) * (10 * Pow10(|g|)); }
        DigitsValue(w) * Pow10(|f|) + (10 * DigitsValue(g) + d);
      }
    }
  }

  /** A run of digits stops at the first character that is not a digit. */
  lemma {:induction false} DigitRunPrefix(w: string, rest: string)
    requires AllDigits(w)
    requires rest == [] || !IsDigit(rest[0])
    ensures DigitRun(w + rest) == |w|
  {
    if w != [] {
      assert (w + rest)[1..] == w[1..] + rest;
      DigitRunPrefix(w[1..], rest);
    } else {
      assert w + rest == rest;
    }
  }

  /** `w.f` with digits on either side of the point (at least one in all)
      parses as an unsigned literal to its decimal value. */
  lemma {:induction false} UnsignedDecimal(w: string, f: string)
    requires AllDigits(w) && AllDigits(f) && w + f != []
    ensures ParseUnsigned(w + "." + f) == Some(DecimalValue(w, f))
  {
    UnsignedDecimalShift(w, f);
    DigitsValueAppend(w, f);
    ShiftDown(DigitsValue(w + f) as real, |f|);
    DecimalArith(DigitsValue(w), DigitsValue(f), Pow10(|f|));
  }

  lemma {:induction false} DecimalArith(a: int, b: int, p: nat)
    requires p >= 1
    ensures (a * p + b) as real / p as real == a as real + b as real / p as real
  {
    assert (a * p) as real == a as real * p as real;
  }

  /** The literal `w.f` is read as all its digits shifted down by the number
      of fraction digits. */
  lemma {:induction false} UnsignedDecimalShift(w: string, f: string)
    requires AllDigits(w) && AllDigits(f) && w + f != []
    ensures ParseUnsigned(w + "." + f) == Some(Shift(DigitsValue(w + f) as real, -(|f| as int)))
  {
    var tail := "." + f;
    var s := w + tail;
    AppendAssoc(w, ".", f);
    DigitRunPrefix(w, tail);
    assert s[..|w|] == w && s[|w|..] == tail;
    assert tail[1..] == f;
    DigitRunAll(f);
    assert f[..|f|] == f && f[|f|..] == [];
    ParseUnsignedPoint(s, |w|, f);
  }

  /** A literal with a decimal point after the run of whole digits. */
  lemma {:induction false} ParseUnsignedPoint(s: string, n: nat, f: string)
    requires n == DigitRun(s) && n < |s| && s[n..][0] == '.'
    requires s[n..][1..] == f && DigitRun(f) == |f| && (n > 0 || |f| > 0)
    ensures ParseUnsigned(s) == Some(Shift(DigitsValue(s[..n] + f) as real, -(|f| as int)))
  {
    assert f[..|f|] == f && f[|f|..] == [];
    assert ExponentOf([]) == 0;
  }

  /** A decimal literal `w.f` parses to its value. */
  lemma {:induction false} ParseDecimal(w: string, f: string)
    requires AllDigits(w) && AllDigits(f) && w + f != []
    ensures ParseFloat(w + "." + f) == Some(DecimalValue(w, f))
  {
    var s := w + "." + f;
    assert s[0] == '.' || IsDigit(s[0]);
    ParseFloatOfDigit(s);
    UnsignedDecimal(w, f);
  }

  /** A minus sign in front of a decimal literal `w.f` negates its value. */
  lemma {:induction false} ParseNegativeDecimal(w: string, f: string)
    requires AllDigits(w) && AllDigits(f) && w + f != []
    ensures ParseFloat("-" + w + "." + f) == Some(-DecimalValue(w, f))
  {
    var d := w + "." + f;
    var s := "-" + d;
    AppendAssoc("-", w + ".", f);
    AppendAssoc("-", w, ".");
    assert s[0] == '-' && s[1..] == d;
    ParseFloatOfMinus(s);
    UnsignedDecimal(w, f);
  }

  /** Shifting a whole number up by `n` places multiplies it by `10^n`. */
  lemma {:induction false} ShiftUp(x: int, n: nat)
    ensures Shift(x as real, n) == (x * Pow10(n)) as real
  {
    if n > 0 {
      ShiftUp(x, n - 1);
      assert x * Pow10(n) == 10 * (x * Pow10(n - 1));
    }
  }

  /** Digits, `e` and exponent digits worth `e` parse to the digits' value
      times `10^e`. */
  lemma {:induction false} ParseExponent(w: string, g: string, e: nat)
    requires AllDigits(w) && w != []
    requires AllDigits(g) && g != [] && DigitsValue(g) == e
    ensures ParseFloat(w + "e" + g) == Some((DigitsValue(w) * Pow10(e)) as real)
  {
    var s := w + "e" + g;
    assert s[0] == w[0];
    ParseFloatOfDigit(s);
    UnsignedExponent(w, g);
    ShiftUp(DigitsValue(w), e);
  }

  /** Text starting with a digit is read without sign. */
  lemma {:induction false} ParseFloatOfDigit(s: string)
    requires s != [] && (IsDigit(s[0]) || s[0] == '.')
    ensures ParseFloat(s) == ParseUnsigned(s)
  {
    assert TrimStart(s) == s by { assert !IsSpace(s[0]); }
  }

  /** Text starting with a minus sign is read as a negated literal. */
  lemma {:induction false} ParseFloatOfMinus(s: string)
    requires s != [] && s[0] == '-'
    ensures ParseFloat(s) == Negate(ParseUnsigned(s[1..]))
  {
    assert TrimStart(s) == s by { assert !IsSpace(s[0]); }
  }

  lemma {:induction false} UnsignedExponent(w: string, g: string)
    requires AllDigits(w) && w != [] && AllDigits(g) && g != []
    ensures ParseUnsigned(w + "e" + g) == Some(Shift(DigitsValue(w) as real, DigitsValue(g)))
  {
    var s := w + "e" + g;
    DigitRunPrefix(w, "e" + g);
    assert s == w + ("e" + g);
    assert s[..|w|] == w && s[|w|..] == "e" + g;
    ExponentDigits(g);
  }

  lemma {:induction false} ExponentDigits(g: string)
    requires AllDigits(g) && g != []
    ensures ExponentOf("e" + g) == DigitsValue(g)
  {
    var e := "e" + g;
    assert e[1..] == g && e[1] == g[0];
    DigitRunAll(g);
    assert g[..|g|] == g;
  }

  /** Digits and the decimal point survive the cleaning. */
  lemma {:induction false} CleanDecimal(w: string, f: string)
    requires AllDigits(w) && AllDigits(f)
    ensures Clean(w + "." + f) == w + "." + f
  {
    CleanDigits(w);
    CleanDigits(f);
    CleanAppend(w + ".", f);
    CleanAppend(w, ".");
    CleanChar('.');
  }

  /** A cell `-w.f` coerces to the negated value, so a signed amount keeps its sign. */
  lemma {:induction false} NumNegativeDecimal(w: string, f: string)
    requires AllDigits(w) && AllDigits(f) && w + f != []
    ensures Num(Some("-" + w + "." + f)) == -DecimalValue(w, f)
  {
    NegativeText(w, f);
    NumNegativeParsed(w, f);
  }

  lemma {:induction false} NegativeText(w: string, f: string)
    ensures "-" + w + "." + f == "-" + (w + "." + f)
  {
    AppendAssoc("-", w + ".", f);
    AppendAssoc("-", w, ".");
  }

  lemma {:induction false} NumNegativeParsed(w: string, f: string)
    requires AllDigits(w) && AllDigits(f) && w + f != []
    ensures Num(Some("-" + (w + "." + f))) == -DecimalValue(w, f)
  {
    ParseNegativeDecimal(w, f);
    NegativeText(w, f);
    NumNegativeClean(w, f, -DecimalValue(w, f));
  }

  lemma {:induction false} NumNegativeClean(w: string, f: string, v: real)
    requires AllDigits(w) && AllDigits(f)
    requires ParseFloat("-" + (w + "." + f)) == Some(v)
    ensures Num(Some("-" + (w + "." + f))) == v
  {
    CleanDecimal(w, f);
    NoPercentInDecimal(w, f);
    NumNegative(w + "." + f, v);
  }

  lemma {:induction false} NoPercentInDecimal(w: string, f: string)
    requires AllDigits(w) && AllDigits(f)
    ensures '%' !in w + "." + f
  {
    NoPercentInDigits(w);
    NoPercentInDigits(f);
  }

  /** A minus sign in front of clean text without `%` is kept for the parser. */
  lemma {:induction false} NumNegative(d: string, v: real)
    requires d != [] && Clean(d) == d && '%' !in d
    requires ParseFloat("-" + d) == Some(v)
    ensures Num(Some("-" + d)) == v
  {
    var s := "-" + d;
    CleanAppend("-", d);
    CleanChar('-');
    assert Clean(s) == s;
    assert '%' !in s;
    assert s != "-" by { assert |s| > 1; }
    NumOfParsed(s, v);
  }

  lemma {:induction false} NoPercentInDigits(d: string)
    requires AllDigits(d)
    ensures '%' !in d
  {
  }

  /** A cell `w.f%` coerces to a hundredth of the value of `w.f`. */
  lemma {:induction false} NumDecimalPercent(w: string, f: string)
    requires AllDigits(w) && AllDigits(f) && w + f != []
    ensures Num(Some(w + "." + f + "%")) == DecimalValue(w, f) / 100.0
  {
    var d := w + "." + f;
    var s := d + "%";
    CleanDecimal(w, f);
    CleanAppend(d, "%");
    CleanChar('%');
    assert Clean(s) == d;
    assert s[|s| - 1] == '%';
    ParseDecimal(w, f);
    NumOfParsedPercent(s, DecimalValue(w, f));
  }

  /** `9.0%` coerces to 0.09. */
  lemma {:induction false} NumNinePointZeroPercent()
    ensures Num(Some("9.0%")) == 0.09
  {
    assert "9.0%" == "9" + "." + "0" + "%";
    assert AllDigits("9") && AllDigits("0");
    assert DigitsValue("9") == 9 by { assert "9"[..0] == ""; }
    assert DigitsValue("0") == 0 by { assert "0"[..0] == ""; }
    assert Pow10(|"0"|) == 10;
    assert DecimalValue("9", "0") == 9.0;
    NumDecimalPercent("9", "0");
  }

  /** The decimal digits of a natural number coerce to that number. */
  lemma {:induction false} NumShow(n: nat)
    ensures Num(Some(Show(n))) == n as real
  {
    var s := Show(n);
    CleanDigits(s);
    assert '%' !in s by {
      forall k | 0 <= k < |s| ensures s[k] != '%' {
        assert IsDigit(s[k]);
      }
    }
    ShowValue(n);
    NumOfDigits(s, s);
  }

  /** A number written with a trailing percent sign coerces to its hundredth. */
  lemma {:induction false} NumShowPercent(n: nat)
    ensures Num(Some(Show(n) + "%")) == n as real / 100.0
  {
    var s := Show(n) + "%";
    CleanDigits(Show(n));
    CleanAppend(Show(n), "%");
    CleanChar('%');
    assert s[|s| - 1] == '%';
    ShowValue(n);
    NumPercentOfDigits(s, Show(n));
  }

  lemma {:induction false} CleanDigits(s: string)
    requires AllDigits(s)
    ensures Clean(s) == s
  {
    if s != [] {
      CleanDigits(s[1..]);
      assert Clean(s) == [s[0]] + Clean(s[1..]);
      HeadTail(s);
    }
  }

  lemma {:induction false} CleanAppend(a: string, b: string)
    ensures Clean(a + b) == Clean(a) + Clean(b)
  {
    if a == [] {
      assert a + b == b;
    } else {
      var ab := a + b;
      assert ab[0] == a[0] && ab[1..] == a[1..] + b;
      CleanAppend(a[1..], b);
      var h := if Stripped(a[0]) then [] else [a[0]];
      assert Clean(ab) == h + Clean(a[1..] + b);
      assert Clean(a) == h + Clean(a[1..]);
      AppendAssoc(h, Clean(a[1..]), Clean(b));
    }
  }

  /** A currency symbol and a thousands separator are ignored. */
  lemma {:induction false} NumCurrency()
    ensures Num(Some("\U{20AC}1,234")) == 1234.0
  {
    CleanCurrency();
    ValueOfDigits();
    NoPercentInCurrency();
    NumOfDigits("\U{20AC}1,234", "1234");
  }

  lemma {:induction false} ValueOfDigits()
    ensures AllDigits("1234") && DigitsValue("1234") == 1234
  {
    assert "1234" == ['1', '2', '3', '4'];
    assert DigitsValue("1") == 1 by { assert "1"[..0] == ""; }
    assert DigitsValue("12") == 12 by { assert "12"[..1] == "1"; }
    assert DigitsValue("123") == 123 by { assert "123"[..2] == "12"; }
    assert "1234"[..3] == "123";
  }

  lemma {:induction false} NoPercentInCurrency()
    ensures '%' !in "\U{20AC}1,234"
  {
    assert "\U{20AC}1,234" == ['\U{20AC}', '1', ',', '2', '3', '4'];
  }

  /** A cell without `%` that cleans to a string of digits is worth those digits. */
  lemma {:induction false} NumOfDigits(s: string, digits: string)
    requires Clean(s) == digits && digits != [] && AllDigits(digits)
    requires '%' !in s
    ensures Num(Some(s)) == DigitsValue(digits) as real
  {
    ParseDigits(digits);
    NotPlaceholder(s);
    NumOfParsed(s, DigitsValue(digits) as real);
  }

  lemma {:induction false} NumOfParsed(s: string, v: real)
    requires s != "" && s != "-" && '%' !in s
    requires ParseFloat(Clean(s)) == Some(v)
    ensures Num(Some(s)) == v
  {
  }

  lemma {:induction false} NotPlaceholder(s: string)
    requires Clean(s) != [] && AllDigits(Clean(s))
    ensures s != "" && s != "-"
  {
    if s == "-" {
      CleanPlaceholder(s);
    }
  }

  lemma {:induction false} CleanCurrency()
    ensures Clean("\U{20AC}1,234") == "1234"
  {
    calc {
      Clean("\U{20AC}1,234");
    == { CleanEuro(); }
      Clean("1,234");
    == { CleanOne(); }
      ['1'] + Clean(",234");
    == { CleanComma(); CleanDigits("234"); }
      ['1'] + "234";
    }
    assert ['1'] + "234" == "1234";
  }

  lemma {:induction false} CleanEuro()
    ensures Clean("\U{20AC}1,234") == Clean("1,234")
  {
    assert "\U{20AC}1,234" == ['\U{20AC}'] + "1,234";
    CleanCons('\U{20AC}', "1,234");
    assert Stripped('\U{20AC}');
  }

  lemma {:induction false} CleanOne()
    ensures Clean("1,234") == ['1'] + Clean(",234")
  {
    assert "1,234" == ['1'] + ",234";
    CleanCons('1', ",234");
    assert !Stripped('1');
  }

  lemma {:induction false} CleanComma()
    ensures Clean(",234") == Clean("234")
  {
    assert ",234" == [','] + "234";
    CleanCons(',', "234");
  }

  lemma {:induction false} CleanCons(c: char, rest: string)
    ensures Clean([c] + rest) == (if Stripped(c) then [] else [c]) + Clean(rest)
  {
    assert ([c] + rest)[0] == c && ([c] + rest)[1..] == rest;
  }

  /** A percentage is scaled to a fraction. */
  lemma {:induction false} NumPercent()
    ensures Num(Some("30%")) == 0.3
  {
    var s := "30%";
    assert s == "30" + "%";
    CleanAppend("30", "%");
    CleanDigits("30");
    CleanChar('%');
    assert DigitsValue("30") == 30 by {
      assert "30"[..1] == "3" && "3"[..0] == "";
    }
    NumPercentOfDigits(s, "30");
  }

  /** A cell with `%` that cleans to a string of digits is worth a hundredth of them. */
  lemma {:induction false} NumPercentOfDigits(s: string, digits: string)
    requires Clean(s) == digits && digits != [] && AllDigits(digits)
    requires '%' in s
    ensures Num(Some(s)) == DigitsValue(digits) as real / 100.0
  {
    ParseDigits(digits);
    NotPlaceholder(s);
    NumOfParsedPercent(s, DigitsValue(digits) as real);
  }

  lemma {:induction false} NumOfParsedPercent(s: string, v: real)
    requires s != "" && s != "-" && '%' in s
    requires ParseFloat(Clean(s)) == Some(v)
    ensures Num(Some(s)) == v / 100.0
  {
  }

  /** Text that is not a number coerces to 0. */
  lemma {:induction false} NumText()
    ensures Num(Some("abc")) == 0.0
  {
    CleanLetters("abc");
    assert DigitRun("abc") == 0;
    assert TrimStart("abc") == "abc";
  }

  lemma {:induction false} CleanChar(c: char)
    ensures Clean([c]) == if Stripped(c) then [] else [c]
  {
    assert [c][1..] == [];
  }

  /** Letters are kept by the cleaning. */
  lemma {:induction false} CleanLetters(s: string)
    requires forall k :: 0 <= k < |s| ==> 'a' <= s[k] <= 'z'
    ensures Clean(s) == s
  {
    if s != [] {
      CleanLetters(s[1..]);
      assert Clean(s) == [s[0]] + Clean(s[1..]);
      HeadTail(s);
    }
  }
}
