/** Numeric text: the values of decimal digit runs, Python's `int()` and
    `float()` on decimal literals, and a renderer for decimal fractions that
    the parsers read back exactly. */
module Numerals {
  import opened Wrappers
  import opened PyText

  predicate AllDigits(s: string) {
    forall i :: 0 <= i < |s| ==> IsDigit(s[i])
  }

  function DigitValue(c: char): nat
    requires IsDigit(c)
  {
    (c as int) - ('0' as int)
  }

  function Pow10(n: nat): (p: nat)
    ensures p >= 1
  {
    if n == 0 then 1 else 10 * Pow10(n - 1)
  }

  /** The number a run of decimal digits denotes (leading zeros allowed). */
  function DigitsValue(s: string): nat
    requires AllDigits(s)
    decreases |s|
  {
    if |s| == 0 then 0 else DigitsValue(s[..|s| - 1]) * 10 + DigitValue(s[|s| - 1])
  }

  lemma AllDigitsAppend(a: string, b: string)
    requires AllDigits(a) && AllDigits(b)
    ensures AllDigits(a + b)
  {
    var s := a + b;
    forall i | 0 <= i < |s| ensures IsDigit(s[i]) {
      if i < |a| { assert s[i] == a[i]; } else { assert s[i] == b[i - |a|]; }
    }
  }

  /** Reading `a + b` is reading `a`, shifting by `|b|` places, and adding `b`. */
  lemma {:induction false} DigitsValueAppend(a: string, b: string)
    requires AllDigits(a) && AllDigits(b)
    ensures AllDigits(a + b)
    ensures DigitsValue(a + b) == DigitsValue(a) * Pow10(|b|) + DigitsValue(b)
    decreases |b|
  {
    AllDigitsAppend(a, b);
    if |b| == 0 {
      assert a + b == a;
    } else {
      var b' := b[..|b| - 1];
      var last := b[|b| - 1];
      assert AllDigits(b');
      assert (a + b)[..|a + b| - 1] == a + b';
      DigitsValueAppend(a, b');
      var va := DigitsValue(a);
      var p := Pow10(|b'|);
      var vb := DigitsValue(b');
      assert DigitsValue(a + b) == DigitsValue(a + b') * 10 + DigitValue(last);
      assert DigitsValue(a + b') == va * p + vb;
      assert DigitsValue(b) == vb * 10 + DigitValue(last);
      assert Pow10(|b|) == p * 10;
      ShiftDigit(va, p, vb, DigitValue(last));
    }
  }

  lemma ShiftDigit(va: nat, p: nat, vb: nat, d: nat)
    ensures (va * p + vb) * 10 + d == va * (p * 10) + (vb * 10 + d)
  {
  }

  function DigitChar(d: nat): (c: char)
    requires d < 10
    ensures IsDigit(c) && DigitValue(c) == d
  {
    ('0' as int + d) as char
  }

  /** The shortest decimal digits of `n`: `str(n)` for a natural number. */
  function DigitsOf(n: nat): (s: string)
    ensures |s| > 0 && AllDigits(s)
    ensures DigitsValue(s) == n
    ensures s[0] == '0' ==> n == 0
    decreases n
  {
    if n < 10 then [DigitChar(n)]
    else
      var s := DigitsOf(n / 10) + [DigitChar(n % 10)];
      assert s[..|s| - 1] == DigitsOf(n / 10);
      s
  }

  /** Splits an optional leading sign off `t`: whether it was `-`, and the rest. */
  function Unsign(t: string): (bool, string) {
    if |t| > 0 && (t[0] == '+' || t[0] == '-') then (t[0] == '-', t[1..]) else (false, t)
  }

  /** Python's `int(text)`: optional surrounding whitespace, an optional sign
      and at least one decimal digit. */
  function ParseInt(text: string): Option<int> {
    var (negative, body) := Unsign(Strip(text));
    if |body| > 0 && AllDigits(body) then
      Some(if negative then -(DigitsValue(body) as int) else DigitsValue(body))
    else None
  }

  /** Index of the first `c` in `s`, or `|s|` when there is none. */
  function IndexOf(s: string, c: char): (k: nat)
    ensures k <= |s|
    ensures k < |s| ==> s[k] == c
    ensures forall j :: 0 <= j < k ==> s[j] != c
    decreases |s|
  {
    if |s| == 0 then 0 else if s[0] == c then 0 else 1 + IndexOf(s[1..], c)
  }

  /** Index of the first exponent marker `e` or `E`, or `|s|`. */
  function IndexOfExponent(s: string): (k: nat)
    ensures k <= |s|
    ensures k < |s| ==> s[k] == 'e' || s[k] == 'E'
    ensures forall j :: 0 <= j < k ==> s[j] != 'e' && s[j] != 'E'
    decreases |s|
  {
    if |s| == 0 then 0 else if s[0] == 'e' || s[0] == 'E' then 0 else 1 + IndexOfExponent(s[1..])
  }

  /** The parts of a decimal float literal: its sign, the digits before and
      after the point, and the exponent (zero when absent). */
  datatype Numeral = Numeral(negative: bool, whole: string, fraction: string, exponent: int)

  predicate ValidNumeral(n: Numeral) {
    AllDigits(n.whole) && AllDigits(n.fraction) && |n.whole| + |n.fraction| > 0
  }

  /** A mantissa `digits[.digits]`, either side possibly empty but not both. */
  function LexMantissa(m: string): Option<(string, string)> {
    var d := IndexOf(m, '.');
    var whole := m[..d];
    var fraction := if d < |m| then m[d + 1..] else "";
    if AllDigits(whole) && AllDigits(fraction) && |whole| + |fraction| > 0 then Some((whole, fraction)) else None
  }

  /** An exponent: an optional sign and at least one digit. */
  function ParseExponent(x: string): Option<int> {
    var (negative, body) := Unsign(x);
    if |body| > 0 && AllDigits(body) then
      Some(if negative then -(DigitsValue(body) as int) else DigitsValue(body))
    else None
  }

  /** An unsigned decimal literal with an optional exponent. */
  function LexUnsigned(negative: bool, body: string): (r: Option<Numeral>)
    ensures r.Some? ==> ValidNumeral(r.value) && r.value.negative == negative
  {
    var k := IndexOfExponent(body);
    var parts :- LexMantissa(body[..k]);
    if k == |body| then Some(Numeral(negative, parts.0, parts.1, 0))
    else
      var e :- ParseExponent(body[k + 1..]);
      Some(Numeral(negative, parts.0, parts.1, e))
  }

  /** The syntax `float()` accepts for decimal literals: optional surrounding
      whitespace, an optional sign, a mantissa with at least one digit and an
      optional exponent. */
  function LexFloat(text: string): (r: Option<Numeral>)
    ensures r.Some? ==> ValidNumeral(r.value)
  {
    var (negative, body) := Unsign(Strip(text));
    LexUnsigned(negative, body)
  }

  /** `x * 10^e` for an integer exponent. */
  function Scale(x: real, e: int): real {
    if e >= 0 then x * Pow10(e) as real else x / Pow10(-e) as real
  }

  /** The value of the digits after a decimal point. */
  function FractionValue(f: string): real
    requires AllDigits(f)
  {
    DigitsValue(f) as real / Pow10(|f|) as real
  }

  function NumeralValue(n: Numeral): real
    requires ValidNumeral(n)
  {
    var magnitude := Scale(DigitsValue(n.whole) as real + FractionValue(n.fraction), n.exponent);
    if n.negative then -magnitude else magnitude
  }

  /** Python's `float(text)` on decimal literals. */
  function ParseFloat(text: string): Option<real> {
    match LexFloat(text)
    case None => None
    case Some(n) => Some(NumeralValue(n))
  }

  predicate HasDigit(s: string) {
    exists i :: 0 <= i < |s| && IsDigit(s[i])
  }

  /** Whatever `float()` accepts contains at least one decimal digit. */
  lemma FloatTextHasDigit(text: string)
    requires ParseFloat(text).Some?
    ensures HasDigit(text)
  {
    var t := Strip(text);
    var (negative, body) := Unsign(t);
    assert LexUnsigned(negative, body).Some?;
    UnsignedHasDigit(negative, body);
    UnsignKeepsDigit(t);
    StripKeepsDigit(text);
  }

  /** `float('')` raises. */
  lemma EmptyIsNotFloat()
    ensures ParseFloat("") == None
  {
    assert !HasDigit("");
    if ParseFloat("").Some? {
      FloatTextHasDigit("");
      assert false;
    }
  }

  lemma UnsignKeepsDigit(t: string)
    requires HasDigit(Unsign(t).1)
    ensures HasDigit(t)
  {
    var body := Unsign(t).1;
    var j :| 0 <= j < |body| && IsDigit(body[j]);
    if |t| > 0 && (t[0] == '+' || t[0] == '-') {
      assert t[j + 1] == body[j];
    } else {
      assert t[j] == body[j];
    }
  }

  lemma StripKeepsDigit(text: string)
    requires HasDigit(Strip(text))
    ensures HasDigit(text)
  {
    var l := LStrip(text);
    var t := RStrip(l);
    assert Strip(text) == t;
    var j :| 0 <= j < |t| && IsDigit(t[j]);
    var k := |text| - |l|;
    assert l == text[k..] && t == l[..|t|];
    assert t[j] == l[j];
    assert l[j] == text[k + j];
  }

  lemma UnsignedHasDigit(negative: bool, body: string)
    requires LexUnsigned(negative, body).Some?
    ensures HasDigit(body)
  {
    var k := IndexOfExponent(body);
    var m := body[..k];
    var d := IndexOf(m, '.');
    if d > 0 {
      assert IsDigit(m[..d][0]);
      assert body[0] == m[0];
    } else {
      assert IsDigit(m[d + 1..][0]);
      assert body[d + 1] == m[d + 1];
    }
  }

  /** `str(i)` for an integer. */
  function IntText(i: int): string {
    if i < 0 then "-" + DigitsOf(-i) else DigitsOf(i)
  }

  /** A literal `float()` reads back as `n`: the sign, the whole digits, the
      fraction digits after a point when there are any, and the exponent
      when it is not zero. */
  function NumeralText(n: Numeral): string {
    (if n.negative then "-" else "")
    + n.whole
    + (if |n.fraction| > 0 then "." + n.fraction else "")
    + (if n.exponent != 0 then "e" + IntText(n.exponent) else "")
  }

  lemma StripUnchanged(s: string)
    requires |s| > 0 && !IsSpace(s[0]) && !IsSpace(s[|s| - 1])
    ensures Strip(s) == s
  {
  }

  lemma {:induction false} NoMarks(s: string)
    requires AllDigits(s)
    ensures IndexOf(s, '.') == |s| && IndexOfExponent(s) == |s|
    decreases |s|
  {
    if |s| > 0 {
      assert AllDigits(s[1..]) by {
        forall i | 0 <= i < |s[1..]| ensures IsDigit(s[1..][i]) { assert s[1..][i] == s[i + 1]; }
      }
      NoMarks(s[1..]);
    }
  }

  lemma {:induction false} IndexOfExponentNone(s: string)
    requires forall j :: 0 <= j < |s| ==> s[j] != 'e' && s[j] != 'E'
    ensures IndexOfExponent(s) == |s|
    decreases |s|
  {
    if |s| > 0 {
      IndexOfExponentNone(s[1..]);
    }
  }

  /** Digits around a decimal point denote the whole digit run scaled down. */
  lemma PointValue(whole: string, fraction: string)
    requires AllDigits(whole) && AllDigits(fraction)
    ensures AllDigits(whole + fraction)
    ensures DigitsValue(whole) as real + FractionValue(fraction)
            == DigitsValue(whole + fraction) as real / Pow10(|fraction|) as real
  {
    DigitsValueAppend(whole, fraction);
    ShiftDivide(DigitsValue(whole), DigitsValue(fraction), Pow10(|fraction|));
  }

  lemma ShiftDivide(w: nat, f: nat, p: nat)
    requires p >= 1
    ensures (w * p + f) as real / p as real == w as real + f as real / p as real
  {
    var pr := p as real;
    assert (w * p + f) as real == w as real * pr + f as real;
    assert (w as real * pr + f as real) / pr == w as real + f as real / pr;
  }

  lemma {:induction false} IndexOfExponentIs(s: string, k: nat)
    requires k < |s| && (s[k] == 'e' || s[k] == 'E')
    requires forall j :: 0 <= j < k ==> s[j] != 'e' && s[j] != 'E'
    ensures IndexOfExponent(s) == k
    decreases k
  {
    if k > 0 {
      IndexOfExponentIs(s[1..], k - 1);
    }
  }

  /** A signed numeral without surrounding whitespace: its sign and body. */
  lemma LexSigned(negative: bool, body: string)
    requires |body| > 0 && IsDigit(body[0]) && IsDigit(body[|body| - 1])
    ensures Unsign(Strip((if negative then "-" else "") + body)) == (negative, body)
  {
    if negative {
      LexNegative(body);
    } else {
      assert (if negative then "-" else "") + body == body;
      LexPositive(body);
    }
  }

  lemma LexPositive(body: string)
    requires |body| > 0 && IsDigit(body[0]) && IsDigit(body[|body| - 1])
    ensures Unsign(Strip(body)) == (false, body)
  {
    StripUnchanged(body);
    assert body[0] != '-' && body[0] != '+';
    assert Unsign(body) == (false, body);
  }

  lemma LexNegative(body: string)
    requires |body| > 0 && IsDigit(body[|body| - 1])
    ensures Unsign(Strip("-" + body)) == (true, body)
  {
    var text := "-" + body;
    assert text[0] == '-' && text[|text| - 1] == body[|body| - 1];
    StripUnchanged(text);
    assert text[1..] == body;
  }

  lemma IntTextShape(i: int)
    ensures |IntText(i)| > 0 && IsDigit(IntText(i)[|IntText(i)| - 1])
    ensures IntText(i)[0] == '-' || IsDigit(IntText(i)[0])
    ensures Unsign(IntText(i)) == (i < 0, DigitsOf(if i < 0 then -i else i))
  {
    var digits := DigitsOf(if i < 0 then -i else i);
    if i < 0 {
      assert IntText(i)[1..] == digits;
    }
  }

  /** `int()` reads `str(i)` back as `i`. */
  lemma ParseIntText(i: int)
    ensures ParseInt(IntText(i)) == Some(i)
  {
    var text := IntText(i);
    var digits := DigitsOf(if i < 0 then -i else i);
    IntTextShape(i);
    StripUnchanged(text);
    assert Unsign(Strip(text)) == (i < 0, digits);
  }

  lemma ExponentText(e: int)
    ensures ParseExponent(IntText(e)) == Some(e)
  {
    IntTextShape(e);
  }

  /** The mantissa part of `NumeralText`. */
  function MantissaText(whole: string, fraction: string): string {
    whole + (if |fraction| > 0 then "." + fraction else "")
  }

  lemma LexMantissaText(whole: string, fraction: string)
    requires AllDigits(whole) && AllDigits(fraction) && |whole| > 0
    ensures LexMantissa(MantissaText(whole, fraction)) == Some((whole, fraction))
    ensures forall j :: 0 <= j < |MantissaText(whole, fraction)| ==>
              MantissaText(whole, fraction)[j] != 'e' && MantissaText(whole, fraction)[j] != 'E'
    ensures IsDigit(MantissaText(whole, fraction)[0])
    ensures IsDigit(MantissaText(whole, fraction)[|MantissaText(whole, fraction)| - 1])
  {
    var m := MantissaText(whole, fraction);
    if |fraction| == 0 {
      NoMarks(whole);
      assert m == whole;
      assert whole[..|whole|] == whole;
    } else {
      assert m == whole + "." + fraction;
      assert m[..|whole|] == whole && m[|whole| + 1..] == fraction;
      assert IndexOf(m, '.') == |whole| by {
        assert m[|whole|] == '.';
        forall j | 0 <= j < |whole| ensures m[j] != '.' { assert m[j] == whole[j]; }
      }
      forall j | 0 <= j < |m| ensures m[j] != 'e' && m[j] != 'E' {
        if j < |whole| { assert m[j] == whole[j]; }
        else if j > |whole| { assert m[j] == fraction[j - |whole| - 1]; }
      }
    }
  }

  /** The unsigned part of `NumeralText`. */
  function BodyText(n: Numeral): string {
    MantissaText(n.whole, n.fraction) + (if n.exponent != 0 then "e" + IntText(n.exponent) else "")
  }

  lemma LexBodyText(n: Numeral)
    requires ValidNumeral(n) && |n.whole| > 0
    ensures LexUnsigned(n.negative, BodyText(n)) == Some(n)
    ensures IsDigit(BodyText(n)[0]) && IsDigit(BodyText(n)[|BodyText(n)| - 1])
  {
    if n.exponent == 0 {
      LexPlainBody(n);
    } else {
      LexExponentBody(n);
    }
  }

  lemma LexPlainBody(n: Numeral)
    requires ValidNumeral(n) && |n.whole| > 0 && n.exponent == 0
    ensures LexUnsigned(n.negative, BodyText(n)) == Some(n)
    ensures IsDigit(BodyText(n)[0]) && IsDigit(BodyText(n)[|BodyText(n)| - 1])
  {
    var m := MantissaText(n.whole, n.fraction);
    LexMantissaText(n.whole, n.fraction);
    assert BodyText(n) == m;
    IndexOfExponentNone(m);
    assert m[..|m|] == m;
  }

  lemma LexExponentBody(n: Numeral)
    requires ValidNumeral(n) && |n.whole| > 0 && n.exponent != 0
    ensures LexUnsigned(n.negative, BodyText(n)) == Some(n)
    ensures IsDigit(BodyText(n)[0]) && IsDigit(BodyText(n)[|BodyText(n)| - 1])
  {
    var m := MantissaText(n.whole, n.fraction);
    var x := IntText(n.exponent);
    var body := m + "e" + x;
    assert BodyText(n) == body;
    LexMantissaText(n.whole, n.fraction);
    ExponentText(n.exponent);
    IntTextShape(n.exponent);
    ExponentSplit(m, x);
    LexWithExponent(n.negative, body, |m|, (n.whole, n.fraction), n.exponent);
    assert Numeral(n.negative, n.whole, n.fraction, n.exponent) == n;
    assert |body| - 1 == |m| + |x|;
  }

  lemma LexWithExponent(negative: bool, body: string, k: nat, parts: (string, string), e: int)
    requires k < |body| && IndexOfExponent(body) == k
    requires LexMantissa(body[..k]) == Some(parts) && ParseExponent(body[k + 1..]) == Some(e)
    ensures LexUnsigned(negative, body) == Some(Numeral(negative, parts.0, parts.1, e))
  {
  }

  /** Where `IndexOfExponent` cuts a mantissa followed by an exponent. */
  lemma ExponentSplit(m: string, x: string)
    requires |m| > 0 && |x| > 0
    requires forall j :: 0 <= j < |m| ==> m[j] != 'e' && m[j] != 'E'
    ensures IndexOfExponent(m + "e" + x) == |m|
    ensures (m + "e" + x)[..|m|] == m && (m + "e" + x)[|m| + 1..] == x
    ensures (m + "e" + x)[0] == m[0] && (m + "e" + x)[|m| + |x|] == x[|x| - 1]
  {
    var body := m + "e" + x;
    ExponentSlices(m, x);
    assert forall j :: 0 <= j < |m| ==> body[j] != 'e' && body[j] != 'E';
    IndexOfExponentIs(body, |m|);
  }

  lemma ExponentSlices(m: string, x: string)
    requires |m| > 0 && |x| > 0
    ensures (m + "e" + x)[..|m|] == m && (m + "e" + x)[|m| + 1..] == x
    ensures (m + "e" + x)[|m|] == 'e'
    ensures forall j :: 0 <= j < |m| ==> (m + "e" + x)[j] == m[j]
    ensures (m + "e" + x)[0] == m[0] && (m + "e" + x)[|m| + |x|] == x[|x| - 1]
  {
    var me := m + "e";
    var body := me + x;
    assert me[|m|] == 'e' && me[..|m|] == m;
    assert body[..|me|] == me && body[|me|..] == x;
    assert body[..|m|] == me[..|m|];
  }



  /** `float()` lexes `NumeralText(n)` as `n` again. */
  lemma LexNumeralText(n: Numeral)
    requires ValidNumeral(n) && |n.whole| > 0
    ensures LexFloat(NumeralText(n)) == Some(n)
  {
    var body := BodyText(n);
    assert NumeralText(n) == (if n.negative then "-" else "") + body;
    LexBodyText(n);
    LexSigned(n.negative, body);
  }

  lemma ParseOfLexed(text: string, numeral: Numeral)
    requires LexFloat(text) == Some(numeral)
    ensures ValidNumeral(numeral) && ParseFloat(text) == Some(NumeralValue(numeral))
  {
  }

  /** `float()` reads `NumeralText(n)` back as the value `n` denotes: the
      renderer and the parser are inverse. */
  lemma ParseNumeralText(n: Numeral)
    requires ValidNumeral(n) && |n.whole| > 0
    ensures ParseFloat(NumeralText(n)) == Some(NumeralValue(n))
  {
    LexNumeralText(n);
    ParseOfLexed(NumeralText(n), n);
  }

  /** `float()` reads `str(i)` back as `i`. */
  lemma ParseFloatIntText(i: int)
    ensures ParseFloat(IntText(i)) == Some(i as real)
  {
    var n := Numeral(i < 0, DigitsOf(if i < 0 then -i else i), "", 0);
    assert NumeralText(n) == IntText(i);
    ParseNumeralText(n);
    IntegerValue(n, i);
  }

  lemma IntegerValue(n: Numeral, i: int)
    requires n == Numeral(i < 0, DigitsOf(if i < 0 then -i else i), "", 0)
    ensures ValidNumeral(n) && NumeralValue(n) == i as real
  {
    EmptyFraction();
    var m := DigitsValue(n.whole) as real;
    assert Scale(m + 0.0, 0) == m;
  }

  lemma EmptyFraction()
    ensures FractionValue("") == 0.0
  {
    assert DigitsValue("") == 0 && Pow10(0) == 1;
  }

  lemma NoSpaceAppend(a: string, b: string)
    requires NoSpace(a) && NoSpace(b)
    ensures NoSpace(a + b)
  {
    assert forall i :: |a| <= i < |a + b| ==> (a + b)[i] == b[i - |a|];
  }

  lemma DigitsNoSpace(s: string)
    requires AllDigits(s)
    ensures NoSpace(s)
  {
    assert forall i :: 0 <= i < |s| ==> IsDigit(s[i]);
  }

  lemma IntTextNoSpace(e: int)
    ensures NoSpace(IntText(e))
  {
    var mag := if e < 0 then -e else e;
    DigitsNoSpace(DigitsOf(mag));
    NoSpaceAppend(if e < 0 then "-" else "", DigitsOf(mag));
  }

  lemma MantissaNoSpace(n: Numeral)
    requires ValidNumeral(n)
    ensures NoSpace((if n.negative then "-" else "") + n.whole + (if |n.fraction| > 0 then "." + n.fraction else ""))
  {
    DigitsNoSpace(n.whole);
    DigitsNoSpace(n.fraction);
    NoSpaceAppend(".", n.fraction);
    NoSpaceAppend(if n.negative then "-" else "", n.whole);
    NoSpaceAppend((if n.negative then "-" else "") + n.whole, if |n.fraction| > 0 then "." + n.fraction else "");
  }

  /** A rendered numeral is one non-empty word. */
  lemma NumeralTextNoSpace(n: Numeral)
    requires ValidNumeral(n) && |n.whole| > 0
    ensures |NumeralText(n)| > 0 && NoSpace(NumeralText(n))
  {
    var mantissa := (if n.negative then "-" else "") + n.whole + (if |n.fraction| > 0 then "." + n.fraction else "");
    var exp := if n.exponent != 0 then "e" + IntText(n.exponent) else "";
    MantissaNoSpace(n);
    IntTextNoSpace(n.exponent);
    NoSpaceAppend("e", IntText(n.exponent));
    NoSpaceAppend(mantissa, exp);
    assert NumeralText(n) == mantissa + exp;
  }
}
