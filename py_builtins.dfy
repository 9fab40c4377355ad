/**
  * The few Python built-ins the form validator relies on, over `string`:
  * `str.strip()`, `int(text)`, `float(text)` and `str(n)` for integers.
  *
  * `int` and `float` are modelled on a restricted grammar: an optional sign
  * followed by ASCII digits, and for `float` at most one decimal point.
  * Exponents, `inf`/`nan`, digit underscores and non-ASCII digits are not
  * part of this model; `float` results are exact reals.
  */
module PyBuiltins {
  import opened Wrappers

  // ---------------------------------------------------------------------
  // Whitespace and str.strip()
  // ---------------------------------------------------------------------

  /** The characters for which Python's `str.isspace()` holds. */
  predicate IsSpace(c: char) {
    c == ' ' || ('\t' <= c <= '\r') || ('\U{1c}' <= c <= '\U{1f}')
    || c == '\U{85}' || c == '\U{a0}' || c == '\U{1680}'
    || ('\U{2000}' <= c <= '\U{200a}') || c == '\U{2028}' || c == '\U{2029}'
    || c == '\U{202f}' || c == '\U{205f}' || c == '\U{3000}'
  }

  predicate AllSpace(s: string) {
    forall i | 0 <= i < |s| :: IsSpace(s[i])
  }

  /** Neither the first nor the last character is whitespace. */
  predicate NoEdgeSpace(s: string) {
    s == [] || (!IsSpace(s[0]) && !IsSpace(s[|s| - 1]))
  }

  /** Drops the leading whitespace: what remains is a suffix of `s`. */
  function TrimStart(s: string): (r: string)
    ensures |r| <= |s| && r == s[|s| - |r|..]
    ensures AllSpace(s[..|s| - |r|])
    ensures r == [] || !IsSpace(r[0])
  {
    if s != [] && IsSpace(s[0]) then
      var t := s[1..];
      var r := TrimStart(t);
      var k := |s| - |r|;
      assert r == s[k..] by { assert t[|t| - |r|..] == s[k..]; }
      assert AllSpace(s[..k]) by {
        forall i | 0 <= i < k ensures IsSpace(s[..k][i]) {
          if i > 0 { assert s[..k][i] == t[..|t| - |r|][i - 1]; }
        }
      }
      r
    else s
  }

  /** Drops the trailing whitespace: what remains is a prefix of `s`. */
  function TrimEnd(s: string): (r: string)
    ensures |r| <= |s| && r == s[..|r|]
    ensures AllSpace(s[|r|..])
    ensures r == [] || !IsSpace(r[|r| - 1])
  {
    if s != [] && IsSpace(s[|s| - 1]) then
      var p := s[..|s| - 1];
      var r := TrimEnd(p);
      assert r == s[..|r|] by { assert p[..|r|] == s[..|r|]; }
      assert AllSpace(s[|r|..]) by {
        forall i | 0 <= i < |s| - |r| ensures IsSpace(s[|r|..][i]) {
          if i < |p| - |r| { assert s[|r|..][i] == p[|r|..][i]; }
        }
      }
      r
    else s
  }

  /** Trimming both ends leaves nothing exactly when the text is all whitespace. */
  lemma TrimBothEmpty(s: string)
    ensures TrimEnd(TrimStart(s)) == [] <==> AllSpace(s)
  {
    var t := TrimStart(s);
    var k := |s| - |t|;
    if t != [] {
      assert t[0] == s[k];
    } else {
      assert s[..k] == s;
    }
  }

  /** Trimming both ends leaves no whitespace at either edge. */
  lemma TrimBothEdges(s: string)
    ensures NoEdgeSpace(TrimEnd(TrimStart(s)))
  {
    var t := TrimStart(s);
    var r := TrimEnd(t);
    assert r != [] ==> r[0] == t[0];
  }

  /** Python's `s.strip()` with no argument. */
  function Strip(s: string): (r: string)
    ensures |r| <= |s|
    ensures NoEdgeSpace(r)
    ensures r == [] <==> AllSpace(s)
  {
    TrimBothEmpty(s);
    TrimBothEdges(s);
    TrimEnd(TrimStart(s))
  }

  lemma {:induction false} TrimStartSkips(p: string, x: string)
    requires AllSpace(p)
    ensures TrimStart(p + x) == TrimStart(x)
  {
    if p == [] {
      assert p + x == x;
    } else {
      var y := p + x;
      assert y[0] == p[0] && IsSpace(p[0]);
      assert y[1..] == p[1..] + x;
      assert TrimStart(y) == TrimStart(y[1..]);
      assert AllSpace(p[1..]) by {
        forall i | 0 <= i < |p| - 1 ensures IsSpace(p[1..][i]) { assert p[1..][i] == p[i + 1]; }
      }
      TrimStartSkips(p[1..], x);
    }
  }

  lemma {:induction false} TrimEndSkips(x: string, q: string)
    requires AllSpace(q)
    ensures TrimEnd(x + q) == TrimEnd(x)
  {
    if q == [] {
      assert x + q == x;
    } else {
      var q' := q[..|q| - 1];
      var y := x + q;
      assert y[|y| - 1] == q[|q| - 1] && IsSpace(q[|q| - 1]);
      assert y[..|y| - 1] == x + q';
      assert TrimEnd(y) == TrimEnd(y[..|y| - 1]);
      assert AllSpace(q') by {
        forall i | 0 <= i < |q'| ensures IsSpace(q'[i]) { assert q'[i] == q[i]; }
      }
      TrimEndSkips(x, q');
    }
  }

  lemma TrimAllSpace(s: string)
    requires AllSpace(s)
    ensures TrimStart(s) == []
  {
  }

  /** Trailing whitespace survives TrimStart unless the text is all whitespace. */
  lemma {:induction false} TrimStartAppend(s: string, q: string)
    requires AllSpace(q)
    ensures TrimStart(s + q) == if AllSpace(s) then [] else TrimStart(s) + q
  {
    if s == [] {
      assert s + q == q;
      assert TrimStart(q) == [] by { TrimAllSpace(q); }
    } else if IsSpace(s[0]) {
      assert (s + q)[0] == s[0];
      assert (s + q)[1..] == s[1..] + q;
      assert AllSpace(s) == AllSpace(s[1..]) by {
        if AllSpace(s[1..]) {
          forall i | 0 <= i < |s| ensures IsSpace(s[i]) { if i > 0 { assert s[i] == s[1..][i - 1]; } }
        }
      }
      TrimStartAppend(s[1..], q);
    } else {
      assert (s + q)[0] == s[0];
    }
  }

  /** Whitespace around a text never changes what `strip` yields. */
  lemma StripPadding(p: string, s: string, q: string)
    requires AllSpace(p) && AllSpace(q)
    ensures Strip(p + s + q) == Strip(s)
  {
    assert p + s + q == p + (s + q);
    TrimStartSkips(p, s + q);
    TrimStartAppend(s, q);
    if !AllSpace(s) {
      TrimEndSkips(TrimStart(s), q);
    }
  }

  /** A text without edge whitespace is its own strip, so `strip` is idempotent. */
  lemma StripFixed(s: string)
    requires NoEdgeSpace(s)
    ensures Strip(s) == s
  {
  }

  /**
    * `strip` removes the whitespace at both ends and nothing else: a text
    * made of leading whitespace, a core without edge whitespace and
    * trailing whitespace strips to exactly that core.
    */
  lemma StripExact(p: string, core: string, q: string)
    requires AllSpace(p) && NoEdgeSpace(core) && AllSpace(q)
    ensures Strip(p + core + q) == core
  {
    StripPadding(p, core, q);
    StripFixed(core);
  }

  lemma StripIdempotent(s: string)
    ensures Strip(Strip(s)) == Strip(s)
  {
    StripFixed(Strip(s));
  }

  // ---------------------------------------------------------------------
  // Decimal digits
  // ---------------------------------------------------------------------

  predicate IsDigit(c: char) {
    '0' <= c <= '9'
  }

  predicate AllDigits(s: string) {
    forall i | 0 <= i < |s| :: IsDigit(s[i])
  }

  function DigitValue(c: char): (d: nat)
    requires IsDigit(c)
    ensures d < 10
  {
    c as int - '0' as int
  }

  function DigitChar(d: nat): (c: char)
    requires d < 10
    ensures IsDigit(c) && DigitValue(c) == d
  {
    ('0' as int + d) as char
  }

  /** The number a string of decimal digits denotes (most significant first). */
  function DigitsValue(s: string): nat
    requires AllDigits(s)
  {
    if s == [] then 0 else 10 * DigitsValue(s[..|s| - 1]) + DigitValue(s[|s| - 1])
  }

  /** The value of the digits after a decimal point: "25" is 0.25. */
  function FracValue(s: string): (r: real)
    requires AllDigits(s)
    ensures 0.0 <= r < 1.0
  {
    if s == [] then 0.0 else (DigitValue(s[0]) as real + FracValue(s[1..])) / 10.0
  }

  // ---------------------------------------------------------------------
  // str(n) for integers
  // ---------------------------------------------------------------------

  /** Python's `str(n)` for a non-negative integer: no leading zeros. */
  function ShowNat(n: nat): (r: string)
    ensures r != [] && AllDigits(r)
  {
    if n < 10 then [DigitChar(n)] else ShowNat(n / 10) + [DigitChar(n % 10)]
  }

  /** Python's `str(i)` for an integer: an integer text, led by a minus sign exactly when i is negative. */
  function ShowInt(i: int): (r: string)
    ensures IsIntText(r)
    ensures r[0] == '-' <==> i < 0
  {
    if i < 0 then
      var x := ShowNat(-i);
      assert forall j | 0 < j < |x| + 1 :: ("-" + x)[j] == x[j - 1];
      "-" + x
    else
      var x := ShowNat(i);
      assert IsDigit(x[0]);
      x
  }

  lemma {:induction false} ShowNatValue(n: nat)
    ensures DigitsValue(ShowNat(n)) == n
  {
    if n >= 10 {
      var s := ShowNat(n);
      assert s[..|s| - 1] == ShowNat(n / 10);
      ShowNatValue(n / 10);
    }
  }

  // ---------------------------------------------------------------------
  // int(text) and float(text)
  // ---------------------------------------------------------------------

  /**
    * Splits off one optional leading sign: whether it is '-', and the
    * unsigned rest, which is either `s` or `s` after its sign character.
    */
  function SplitSign(s: string): (r: (bool, string))
    ensures r.0 <==> |s| > 0 && s[0] == '-'
    ensures r.1 == s || (|s| > 0 && (s[0] == '+' || s[0] == '-') && s == [s[0]] + r.1)
  {
    if s != [] && (s[0] == '+' || s[0] == '-') then
      assert s == [s[0]] + s[1..];
      (s[0] == '-', s[1..])
    else (false, s)
  }

  /** The texts `int` accepts here: an optional sign, then one or more ASCII digits. */
  predicate IsIntText(s: string) {
    |s| > 0 && (IsDigit(s[0]) || s[0] == '+' || s[0] == '-')
    && (forall i | 0 < i < |s| :: IsDigit(s[i]))
    && IsDigit(s[|s| - 1])
  }

  /**
    * Python's `int(text)` on a stripped text: None where it raises
    * ValueError. It accepts exactly the integer texts, and the value is
    * negative only after a minus sign.
    */
  function ParseInt(s: string): (r: Option<int>)
    ensures r.Some? <==> IsIntText(s)
    ensures r.Some? ==> (r.value < 0 ==> s[0] == '-') && (s[0] == '-' ==> r.value <= 0)
  {
    var (negative, body) := SplitSign(s);
    assert body != [] && AllDigits(body) <==> IsIntText(s) by {
      if |s| > 0 && (s[0] == '+' || s[0] == '-') {
        assert forall i | 0 < i < |s| :: s[i] == body[i - 1];
      }
    }
    if body != [] && AllDigits(body) then
      Some(if negative then -(DigitsValue(body) as int) else DigitsValue(body))
    else
      None
  }

  /** Index of the first '.', or |s| when there is none. */
  function DotIndex(s: string): (k: nat)
    ensures k <= |s|
    ensures k < |s| ==> s[k] == '.'
    ensures forall i | 0 <= i < k :: s[i] != '.'
  {
    if s == [] || s[0] == '.' then 0 else 1 + DotIndex(s[1..])
  }

  /** The characters of a text `float` accepts: digits and points, a sign only in front, and no point after the first one. */
  predicate FloatChars(s: string) {
    (forall i | 0 <= i < |s| :: IsDigit(s[i]) || s[i] == '.' || (i == 0 && (s[i] == '+' || s[i] == '-')))
    && (forall j | DotIndex(s) < j < |s| :: s[j] != '.')
  }

  /** The unsigned rest ends the text, behind at most one sign character, and its first point is the text's. */
  lemma UnsignedSuffix(s: string)
    ensures var b := SplitSign(s).1; var o := |s| - |b|;
            (o == 0 || (o == 1 && (s[0] == '+' || s[0] == '-')))
            && DotIndex(s) == o + DotIndex(b)
  {
    var b := SplitSign(s).1;
    if b != s {
      assert s[1..] == b;
    }
  }

  /** Character j of the unsigned rest is character j of the text, shifted past the sign. */
  lemma UnsignedIndex(s: string, j: nat)
    requires j < |SplitSign(s).1|
    ensures s[|s| - |SplitSign(s).1| + j] == SplitSign(s).1[j]
  {
    var b := SplitSign(s).1;
    if b != s {
      assert s == [s[0]] + b;
    }
  }

  /** Around the first point, the digits `ParseFloat` reads leave only digits. */
  lemma PiecesAreDigits(body: string, k: nat)
    requires k == DotIndex(body)
    requires AllDigits(body[..k]) && (k < |body| ==> AllDigits(body[k + 1..]))
    ensures forall j | 0 <= j < |body| && j != k :: IsDigit(body[j])
  {
    forall j | 0 <= j < |body| && j != k ensures IsDigit(body[j]) {
      if j < k { assert body[j] == body[..k][j]; }
      else { assert body[j] == body[k + 1..][j - k - 1]; }
    }
  }

  /** The texts `float` accepts here: an optional sign, digits with at most one decimal point, and at least one digit. */
  predicate IsFloatText(s: string) {
    s != [] && FloatChars(s) && exists i | 0 <= i < |s| :: IsDigit(s[i])
  }

  /** The pieces `ParseFloat` reads, digits around the first point, leave only the characters of `FloatChars`. */
  lemma FloatPiecesChars(s: string, body: string, k: nat)
    requires body == SplitSign(s).1 && k == DotIndex(body)
    requires AllDigits(body[..k]) && (k < |body| ==> AllDigits(body[k + 1..]))
    ensures FloatChars(s)
  {
    var o := |s| - |body|;
    UnsignedSuffix(s);
    PiecesAreDigits(body, k);
    forall i | 0 <= i < |s| ensures IsDigit(s[i]) || s[i] == '.' || (i == 0 && (s[i] == '+' || s[i] == '-')) {
      if i >= o { UnsignedIndex(s, i - o); }
    }
    forall j | DotIndex(s) < j < |s| ensures s[j] != '.' {
      UnsignedIndex(s, j - o);
    }
  }

  /** When one of the two runs of digits is nonempty, the pieces make a float text. */
  lemma FloatPiecesText(s: string, body: string, k: nat)
    requires body == SplitSign(s).1 && k == DotIndex(body)
    requires AllDigits(body[..k]) && (k < |body| ==> AllDigits(body[k + 1..]))
    requires k > 0 || k + 1 < |body|
    ensures IsFloatText(s)
  {
    FloatPiecesChars(s, body, k);
    PiecesAreDigits(body, k);
    UnsignedSuffix(s);
    var o := |s| - |body|;
    var j := if k > 0 then 0 else k + 1;
    UnsignedIndex(s, j);
  }

  /** An unsigned text of digits and points, with no point after the first one. */
  predicate PointedDigits(b: string) {
    (forall j | 0 <= j < |b| :: IsDigit(b[j]) || b[j] == '.')
    && (forall j | DotIndex(b) < j < |b| :: b[j] != '.')
  }

  /** Once its sign is split off, a text with the characters of a float text is digits and at most one point. */
  lemma UnsignedPointedDigits(s: string)
    requires FloatChars(s)
    ensures PointedDigits(SplitSign(s).1)
  {
    var b := SplitSign(s).1;
    var o := |s| - |b|;
    UnsignedSuffix(s);
    forall j | 0 <= j < |b| ensures IsDigit(b[j]) || b[j] == '.' { UnsignedIndex(s, j); }
    forall j | DotIndex(b) < j < |b| ensures b[j] != '.' { UnsignedIndex(s, j); }
  }

  /** Digits with at most one point split at the first point into two runs of digits. */
  lemma PointedPieces(b: string)
    requires PointedDigits(b)
    ensures AllDigits(b[..DotIndex(b)])
    ensures DotIndex(b) < |b| ==> AllDigits(b[DotIndex(b) + 1..])
  {
    var k := DotIndex(b);
    forall j | 0 <= j < k ensures IsDigit(b[..k][j]) { assert b[..k][j] == b[j]; }
    if k < |b| {
      var frac := b[k + 1..];
      forall j | 0 <= j < |frac| ensures IsDigit(frac[j]) { assert frac[j] == b[k + 1 + j]; }
    }
  }

  /** A digit of such a text lies before or after the first point, so one of the two runs is nonempty. */
  lemma FloatTextHasPiece(s: string, i: nat)
    requires FloatChars(s) && i < |s| && IsDigit(s[i])
    ensures DotIndex(SplitSign(s).1) > 0 || DotIndex(SplitSign(s).1) + 1 < |SplitSign(s).1|
  {
    var b := SplitSign(s).1;
    var o := |s| - |b|;
    UnsignedSuffix(s);
    assert o <= i;
    UnsignedIndex(s, i - o);
  }

  /** Every float text splits at its first point into two runs of digits that are not both empty. */
  lemma FloatTextPieces(s: string)
    ensures var b := SplitSign(s).1; var k := DotIndex(b);
            IsFloatText(s) ==> (k > 0 || k + 1 < |b|) && AllDigits(b[..k]) && (k < |b| ==> AllDigits(b[k + 1..]))
  {
    if IsFloatText(s) {
      var i :| 0 <= i < |s| && IsDigit(s[i]);
      UnsignedPointedDigits(s);
      PointedPieces(SplitSign(s).1);
      FloatTextHasPiece(s, i);
    }
  }

  /**
    * Python's `float(text)` on a stripped text: None where it raises
    * ValueError. The value is negative only after a minus sign.
    */
  function ParseFloat(s: string): (r: Option<real>)
    ensures r.Some? ==> s != [] && (r.value < 0.0 ==> s[0] == '-') && (s[0] == '-' ==> r.value <= 0.0)
  {
    var (negative, body) := SplitSign(s);
    var k := DotIndex(body);
    var whole := body[..k];
    var frac := if k < |body| then body[k + 1..] else [];
    if (whole != [] || frac != []) && AllDigits(whole) && AllDigits(frac) then
      var m := DigitsValue(whole) as real + FracValue(frac);
      Some(if negative then -m else m)
    else
      None
  }

  /** `float` accepts exactly the float texts. */
  lemma ParseFloatAccepts(s: string)
    ensures ParseFloat(s).Some? <==> IsFloatText(s)
  {
    var body := SplitSign(s).1;
    FloatTextPieces(s);
    if ParseFloat(s).Some? {
      FloatPiecesText(s, body, DotIndex(body));
    }
  }

  // ---------------------------------------------------------------------
  // Round trips between the printers and the parsers
  // ---------------------------------------------------------------------

  lemma IntRoundTrip(i: int)
    ensures ParseInt(ShowInt(i)) == Some(i)
  {
    if i < 0 {
      var x := ShowNat(-i);
      assert ("-" + x)[1..] == x;
      assert SplitSign("-" + x) == (true, x);
      ShowNatValue(-i);
    } else {
      var x := ShowNat(i);
      assert IsDigit(x[0]);
      assert SplitSign(x) == (false, x);
      ShowNatValue(i);
    }
  }

  /** Every text `int` accepts, `float` accepts too, with the same value. */
  lemma IntTextIsFloatText(s: string)
    requires ParseInt(s).Some?
    ensures ParseFloat(s) == Some(ParseInt(s).value as real)
  {
    var body := SplitSign(s).1;
    assert forall i | 0 <= i < |body| :: body[i] != '.' by {
      forall i | 0 <= i < |body| ensures body[i] != '.' { assert IsDigit(body[i]); }
    }
    assert DotIndex(body) == |body|;
    assert body[..|body|] == body;
  }

  lemma FloatOfIntText(i: int)
    ensures ParseFloat(ShowInt(i)) == Some(i as real)
  {
    IntRoundTrip(i);
    IntTextIsFloatText(ShowInt(i));
  }

  /** `float` reads back a one-decimal text `w.t` as w + t/10. */
  lemma DecimalRoundTrip(w: nat, t: nat)
    requires t < 10
    ensures ParseFloat(ShowNat(w) + "." + [DigitChar(t)]) == Some(w as real + t as real / 10.0)
  {
    var x := ShowNat(w);
    var s := x + "." + [DigitChar(t)];
    assert SplitSign(s).1 == s by { assert s[0] == x[0]; assert IsDigit(x[0]); }
    assert forall i | 0 <= i < |x| :: s[i] != '.' by {
      forall i | 0 <= i < |x| ensures s[i] != '.' { assert s[i] == x[i] && IsDigit(x[i]); }
    }
    assert s[|x|] == '.';
    assert DotIndex(s) == |x|;
    assert s[..|x|] == x;
    assert s[|x| + 1..] == [DigitChar(t)];
    ShowNatValue(w);
    assert FracValue([DigitChar(t)]) == t as real / 10.0 by {
      assert [DigitChar(t)][1..] == [];
    }
  }

  /** 10 to the power n. */
  function Pow10(n: nat): (p: nat)
    ensures p > 0
  {
    if n == 0 then 1 else 10 * Pow10(n - 1)
  }

  /** A run of digits read from the front: its first digit weighs 10^(n-1). */
  lemma {:induction false} DigitsValueFront(ds: string)
    requires AllDigits(ds) && ds != []
    ensures DigitsValue(ds) == DigitValue(ds[0]) * Pow10(|ds| - 1) + DigitsValue(ds[1..])
  {
    var n := |ds| - 1;
    if n == 0 {
      assert ds[1..] == [];
      assert ds[..0] == [];
    } else {
      var init := ds[..n];
      DigitsValueFront(init);
      assert init[0] == ds[0];
      assert ds[1..][..n - 1] == init[1..];
      assert ds[1..][n - 1] == ds[n];
      assert DigitsValue(ds) == 10 * DigitsValue(init) + DigitValue(ds[n]);
      assert DigitsValue(ds[1..]) == 10 * DigitsValue(init[1..]) + DigitValue(ds[n]);
      FrontStep(DigitValue(ds[0]), Pow10(n - 1), DigitsValue(init[1..]), DigitValue(ds[n]), DigitsValue(init));
    }
  }

  /** With x = d*p + a, the number 10x + b is d*(10p) + (10a + b). */
  lemma FrontStep(d: int, p: int, a: int, b: int, x: int)
    requires x == d * p + a
    ensures 10 * x + b == d * (10 * p) + (10 * a + b)
  {
    assert 10 * (d * p) == d * (10 * p);
  }

  /** Prefixing a digit d to a fraction v/q, then dividing by ten, gives (d*q + v)/(10*q). */
  lemma ShiftDigit(d: real, v: real, q: real)
    requires q > 0.0
    ensures (d + v / q) / 10.0 == (d * q + v) / (10.0 * q)
  {
    assert d + v / q == (d * q + v) / q;
  }

  /** Converting a*b + c from integers to reals commutes with the arithmetic. */
  lemma ShiftedAsReal(a: int, b: int, c: int)
    ensures (a * b + c) as real == a as real * b as real + c as real
  {
  }

  /** One digit a in front of a fraction f = c/b, over ten, is (a*b + c)/(10*b). */
  lemma FracStep(a: int, b: int, c: int, f: real, g: real)
    requires b > 0
    requires f == c as real / b as real
    requires g == (a as real + f) / 10.0
    ensures g == (a * b + c) as real / (10 * b) as real
  {
    ShiftDigit(a as real, c as real, b as real);
    ShiftedAsReal(a, b, c);
  }

  /** The digits after a point are worth their integer value over 10^(their count): "75" is 75/100. */
  lemma {:induction false} FracValueDigits(ds: string)
    requires AllDigits(ds)
    ensures FracValue(ds) == DigitsValue(ds) as real / Pow10(|ds|) as real
  {
    if ds != [] {
      var rest := ds[1..];
      FracValueDigits(rest);
      DigitsValueFront(ds);
      assert FracValue(ds) == (DigitValue(ds[0]) as real + FracValue(rest)) / 10.0;
      FracStep(DigitValue(ds[0]), Pow10(|rest|), DigitsValue(rest), FracValue(rest), FracValue(ds));
      assert Pow10(|ds|) == 10 * Pow10(|rest|);
    }
  }

  /** An unsigned text with digits before its first point is read as those digits plus the fraction after it. */
  lemma ParseUnsigned(s: string, k: nat)
    requires SplitSign(s) == (false, s) && k == DotIndex(s) && k < |s|
    requires k > 0 && AllDigits(s[..k]) && AllDigits(s[k + 1..])
    ensures ParseFloat(s) == Some(DigitsValue(s[..k]) as real + FracValue(s[k + 1..]))
  {
  }

  /** `float` reads an unsigned text with one point as w + f / 10^n, w the digits before it, f the n after it: "2.75" is 2 + 75/100. */
  lemma DecimalValue(s: string, k: nat)
    requires SplitSign(s) == (false, s) && k == DotIndex(s) && k < |s|
    requires k > 0 && AllDigits(s[..k]) && AllDigits(s[k + 1..])
    ensures ParseFloat(s).Some?
    ensures ParseFloat(s).value == DigitsValue(s[..k]) as real + DigitsValue(s[k + 1..]) as real / Pow10(|s| - k - 1) as real
  {
    ParseUnsigned(s, k);
    FracValueDigits(s[k + 1..]);
  }

  /** A minus sign before an unsigned text negates what `float` reads. */
  lemma ParseFloatNegated(s: string)
    requires SplitSign(s).1 == s
    ensures ParseFloat("-" + s) == if ParseFloat(s).Some? then Some(-ParseFloat(s).value) else None
  {
    assert ("-" + s)[1..] == s;
    assert SplitSign("-" + s) == (true, s);
    assert SplitSign(s) == (false, s);
  }

  /** `float` reads the text "-w.t" back as -(w + t/10). */
  lemma NegativeDecimalRoundTrip(w: nat, t: nat)
    requires t < 10
    ensures ParseFloat("-" + ShowNat(w) + "." + [DigitChar(t)]) == Some(-(w as real + t as real / 10.0))
  {
    var x := ShowNat(w);
    var s := x + "." + [DigitChar(t)];
    assert "-" + x + "." + [DigitChar(t)] == "-" + s;
    assert SplitSign(s).1 == s by { assert s[0] == x[0]; assert IsDigit(x[0]); }
    DecimalRoundTrip(w, t);
    ParseFloatNegated(s);
  }

  /** `int` refuses every text with a decimal point, such as "5.5": it does not truncate. */
  lemma IntRejectsDecimal(s: string)
    requires '.' in s
    ensures ParseInt(s) == None
  {
    var i :| 0 <= i < |s| && s[i] == '.';
    assert !IsDigit(s[i]);
  }

  /** Printed integers and one-decimal numbers carry no edge whitespace. */
  lemma ShowIntNoEdgeSpace(i: int)
    ensures NoEdgeSpace(ShowInt(i))
  {
    var x := ShowNat(if i < 0 then -i else i);
    assert IsDigit(x[0]) && IsDigit(x[|x| - 1]);
    if i < 0 {
      assert ShowInt(i)[|ShowInt(i)| - 1] == x[|x| - 1];
    }
  }

  lemma DecimalNoEdgeSpace(w: nat, t: nat)
    requires t < 10
    ensures NoEdgeSpace(ShowNat(w) + "." + [DigitChar(t)])
  {
    var x := ShowNat(w);
    assert IsDigit(x[0]);
    assert (x + "." + [DigitChar(t)])[0] == x[0];
  }

  lemma NegativeDecimalNoEdgeSpace(w: nat, t: nat)
    requires t < 10
    ensures NoEdgeSpace("-" + ShowNat(w) + "." + [DigitChar(t)])
  {
    var u := "-" + ShowNat(w) + "." + [DigitChar(t)];
    assert u[0] == '-' && u[|u| - 1] == DigitChar(t);
  }

  lemma EmptyNeverParses()
    ensures ParseInt("") == None && ParseFloat("") == None
  {
  }
}
