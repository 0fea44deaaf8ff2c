/** Python string semantics the pipeline relies on: `isdigit`, `strip`,
    `lower`/`upper`, substring tests, `replace`, `zfill`, `int()` and the
    ordering `<=` on `str`. Character classes are restricted to the ASCII /
    Latin-1 range (see README). */
module Text {
  import opened Wrappers

  /** A decimal digit as Python's `isdigit` and the regex `\d` see it (ASCII only). */
  predicate IsDigit(c: char) {
    '0' <= c <= '9'
  }

  predicate AllDigits(s: string) {
    forall i :: 0 <= i < |s| ==> IsDigit(s[i])
  }

  /** The characters argument-less `str.strip` removes, ASCII part:
      space, \t \n \v \f \r and the separators \x1c-\x1f. */
  predicate IsSpace(c: char) {
    c == ' ' || ('\t' <= c <= '\r') || ('\U{1C}' <= c <= '\U{1F}')
  }

  // ---------------------------------------------------------------------------
  // strip

  function TrimStart(s: string): (r: string)
    ensures |r| <= |s| && r == s[|s| - |r|..]
    ensures forall i :: 0 <= i < |s| - |r| ==> IsSpace(s[i])
    ensures |r| > 0 ==> !IsSpace(r[0])
  {
    if |s| > 0 && IsSpace(s[0]) then TrimStart(s[1..]) else s
  }

  function TrimEnd(s: string): (r: string)
    ensures |r| <= |s| && r == s[..|r|]
    ensures forall i :: |r| <= i < |s| ==> IsSpace(s[i])
    ensures |r| > 0 ==> !IsSpace(r[|r| - 1])
  {
    if |s| > 0 && IsSpace(s[|s| - 1]) then TrimEnd(s[..|s| - 1]) else s
  }

  /** `s.strip()`: the longest infix of `s` that neither starts nor ends
      with whitespace, everything cut off being whitespace. */
  function Strip(s: string): (r: string)
    ensures |r| > 0 ==> !IsSpace(r[0]) && !IsSpace(r[|r| - 1])
  {
    TrimEnd(TrimStart(s))
  }

  /** Strip removes exactly a whitespace prefix and a whitespace suffix. */
  lemma {:induction false} StripIsInfix(s: string) returns (i: nat, j: nat)
    ensures i <= j <= |s| && Strip(s) == s[i..j]
    ensures forall k :: 0 <= k < i ==> IsSpace(s[k])
    ensures forall k :: j <= k < |s| ==> IsSpace(s[k])
  {
    var t := TrimStart(s);
    var u := TrimEnd(t);
    i := |s| - |t|;
    j := i + |u|;
    assert t == s[i..] && u == t[..|u|];
    assert s[i..j] == u;
    forall k | j <= k < |s| ensures IsSpace(s[k]) {
      assert s[k] == t[k - i];
    }
  }

  /** Strip never removes a character that is not whitespace. */
  lemma {:induction false} StripKeepsChar(s: string, c: char)
    requires !IsSpace(c)
    ensures c in Strip(s) <==> c in s
  {
    var i, j := StripIsInfix(s);
    if c in s {
      var k :| 0 <= k < |s| && s[k] == c;
      InfixHas(s, i, j, k);
    }
  }

  lemma InfixHas(s: string, i: nat, j: nat, k: nat)
    requires i <= k < j <= |s|
    ensures s[k] in s[i..j]
  {
    assert s[i..j][k - i] == s[k];
  }

  /** A string with no whitespace at either end is left alone by Strip. */
  lemma StripUnpadded(s: string)
    requires |s| > 0 ==> !IsSpace(s[0]) && !IsSpace(s[|s| - 1])
    ensures Strip(s) == s
  {
  }

  lemma StripIdempotent(s: string)
    ensures Strip(Strip(s)) == Strip(s)
  {
    StripUnpadded(Strip(s));
  }

  // ---------------------------------------------------------------------------
  // case mapping: ASCII and the Latin-1 letters whose counterpart lies in the
  // same range; UpperChar leaves the sharp s, y with diaeresis and the micro
  // sign unchanged, whereas Python maps them to "SS" and to Greek or Latin
  // Extended letters

  function LowerChar(c: char): char {
    if 'A' <= c <= 'Z' || ('\U{C0}' <= c <= '\U{DE}' && c != '\U{D7}') then (c as int + 32) as char else c
  }

  function UpperChar(c: char): char {
    if 'a' <= c <= 'z' || ('\U{E0}' <= c <= '\U{FE}' && c != '\U{F7}') then (c as int - 32) as char else c
  }

  function Lower(s: string): (r: string)
    ensures |r| == |s| && forall i :: 0 <= i < |s| ==> r[i] == LowerChar(s[i])
  {
    seq(|s|, i requires 0 <= i < |s| => LowerChar(s[i]))
  }

  function Upper(s: string): (r: string)
    ensures |r| == |s| && forall i :: 0 <= i < |s| ==> r[i] == UpperChar(s[i])
  {
    seq(|s|, i requires 0 <= i < |s| => UpperChar(s[i]))
  }

  // ---------------------------------------------------------------------------
  // substrings

  predicate StartsWith(s: string, prefix: string) {
    |prefix| <= |s| && s[..|prefix|] == prefix
  }

  /** Python's `sub in s`. */
  predicate Contains(s: string, sub: string)
    decreases |s|
  {
    StartsWith(s, sub) || (|s| > 0 && Contains(s[1..], sub))
  }

  /** `sub` occurs in `s` starting at offset `i`. */
  predicate OccursAt(s: string, sub: string, i: int) {
    0 <= i <= |s| - |sub| && s[i..i + |sub|] == sub
  }

  /** Contains agrees with "occurs at some offset". */
  lemma {:induction false} ContainsAt(s: string, sub: string)
    ensures Contains(s, sub) <==> exists i :: OccursAt(s, sub, i)
    decreases |s|
  {
    if StartsWith(s, sub) {
      assert OccursAt(s, sub, 0);
    } else if |s| > 0 {
      ContainsAt(s[1..], sub);
      if Contains(s[1..], sub) {
        var i :| OccursAt(s[1..], sub, i);
        assert s[i + 1..i + 1 + |sub|] == s[1..][i..i + |sub|];
        assert OccursAt(s, sub, i + 1);
      }
      if exists i :: OccursAt(s, sub, i) {
        var i :| OccursAt(s, sub, i);
        assert i == 0 ==> StartsWith(s, sub);
        assert s[1..][i - 1..i - 1 + |sub|] == s[i..i + |sub|];
        assert OccursAt(s[1..], sub, i - 1);
      }
    }
  }

  /** `s.replace(a, b)` for single characters. */
  function ReplaceChar(s: string, a: char, b: char): (r: string)
    ensures |r| == |s|
    ensures forall i :: 0 <= i < |s| ==> r[i] == if s[i] == a then b else s[i]
  {
    seq(|s|, i requires 0 <= i < |s| => if s[i] == a then b else s[i])
  }

  /** `s.replace(c, '')`: the characters of `s` other than `c`, in order. */
  function RemoveChar(s: string, c: char): (r: string)
    ensures c !in r
    ensures forall x :: x in r <==> x in s && x != c
    ensures |r| <= |s|
  {
    if |s| == 0 then []
    else (if s[0] == c then [] else [s[0]]) + RemoveChar(s[1..], c)
  }

  /** The digits of `s`, in order (`''.join(ch for ch in s if ch.isdigit())`). */
  function KeepDigits(s: string): (r: string)
    ensures AllDigits(r)
    ensures |r| <= |s|
  {
    if |s| == 0 then []
    else (if IsDigit(s[0]) then [s[0]] else []) + KeepDigits(s[1..])
  }

  lemma {:induction false} KeepDigitsOfDigits(s: string)
    requires AllDigits(s)
    ensures KeepDigits(s) == s
  {
    if |s| > 0 {
      KeepDigitsOfDigits(s[1..]);
    }
  }

  lemma {:induction false} KeepDigitsAppend(a: string, b: string)
    ensures KeepDigits(a + b) == KeepDigits(a) + KeepDigits(b)
  {
    if |a| == 0 {
      assert a + b == b;
    } else {
      var head := if IsDigit(a[0]) then [a[0]] else [];
      assert (a + b)[0] == a[0];
      assert (a + b)[1..] == a[1..] + b;
      assert KeepDigits(a + b) == head + KeepDigits(a[1..] + b);
      KeepDigitsAppend(a[1..], b);
      assert KeepDigits(a) == head + KeepDigits(a[1..]);
      assert head + (KeepDigits(a[1..]) + KeepDigits(b)) == (head + KeepDigits(a[1..])) + KeepDigits(b);
    }
  }

  // ---------------------------------------------------------------------------
  // zfill

  function Zeros(n: nat): (r: string)
    ensures |r| == n && forall i :: 0 <= i < n ==> r[i] == '0'
  {
    seq(n, _ => '0')
  }

  /** `s.zfill(width)`: left-pad with '0' up to `width`, keeping a leading
      '+' or '-' in front of the padding. */
  function ZFill(s: string, width: nat): (r: string)
  {
    if |s| >= width then s
    else if |s| > 0 && (s[0] == '+' || s[0] == '-') then [s[0]] + Zeros(width - |s|) + s[1..]
    else Zeros(width - |s|) + s
  }

  /** zfill never shortens, reaches `width`, and only ever inserts zeros. */
  lemma ZFillShape(s: string, width: nat)
    ensures |ZFill(s, width)| == if |s| >= width then |s| else width
    ensures |s| >= width ==> ZFill(s, width) == s
    ensures |s| < width && (|s| == 0 || (s[0] != '+' && s[0] != '-')) ==>
              ZFill(s, width) == Zeros(width - |s|) + s
    ensures |s| < width && |s| > 0 && (s[0] == '+' || s[0] == '-') ==>
              ZFill(s, width)[0] == s[0] && ZFill(s, width)[width - |s| + 1..] == s[1..]
  {
  }

  // ---------------------------------------------------------------------------
  // numbers

  function DigitValue(c: char): nat
    requires IsDigit(c)
  {
    c as int - '0' as int
  }

  function DigitChar(d: nat): (c: char)
    requires d < 10
    ensures IsDigit(c) && DigitValue(c) == d
  {
    ('0' as int + d) as char
  }

  /** Value of a decimal digit string (the empty string is 0). */
  function DigitsValue(s: string): nat
    requires AllDigits(s)
  {
    if |s| == 0 then 0 else DigitsValue(s[..|s| - 1]) * 10 + DigitValue(s[|s| - 1])
  }

  /** Decimal rendering of a natural number, as `str(n)`. */
  function NatToString(n: nat): (r: string)
    ensures |r| > 0 && AllDigits(r)
    ensures |r| > 1 ==> r[0] != '0'
  {
    if n < 10 then [DigitChar(n)] else NatToString(n / 10) + [DigitChar(n % 10)]
  }

  /** Decimal rendering of an integer, as `str(i)`. */
  function IntToString(i: int): (r: string)
  {
    if i < 0 then "-" + NatToString(-i) else NatToString(i)
  }

  lemma {:induction false} NatToStringValue(n: nat)
    ensures DigitsValue(NatToString(n)) == n
  {
    if n >= 10 {
      NatToStringValue(n / 10);
      var s := NatToString(n);
      assert s[..|s| - 1] == NatToString(n / 10);
    }
  }

  /** Python's `int(s)` on a decimal literal: surrounding whitespace, an
      optional sign and at least one digit; anything else raises (None). */
  function ParseInt(s: string): Option<int>
  {
    var t := Strip(s);
    if |t| > 0 && (t[0] == '+' || t[0] == '-') then
      var body := t[1..];
      if |body| > 0 && AllDigits(body) then
        var v: int := DigitsValue(body);
        Some(if t[0] == '-' then -v else v)
      else None
    else if |t| > 0 && AllDigits(t) then Some(DigitsValue(t))
    else None
  }

  /** `int(str(i)) == i`. */
  lemma ParseIntOfString(i: int)
    ensures ParseInt(IntToString(i)).Some? && ParseInt(IntToString(i)).value == i
  {
    var s := IntToString(i);
    StripUnpadded(s);
    if i < 0 {
      NatToStringValue(-i);
      assert s[1..] == NatToString(-i);
    } else {
      NatToStringValue(i);
    }
  }

  /** A parsed float: a finite value or NaN. Values are exact; binary
      floating-point rounding is not modelled. */
  datatype Number = Finite(value: real) | NaN

  /** Index of the first occurrence of `c` in `s`. */
  function IndexOf(s: string, c: char): (r: Option<nat>)
    ensures r.Some? ==> r.value < |s| && s[r.value] == c && c !in s[..r.value]
    ensures r.None? ==> c !in s
  {
    if |s| == 0 then None
    else if s[0] == c then Some(0)
    else match IndexOf(s[1..], c)
      case None => None
      case Some(k) => assert s[..k + 1] == [s[0]] + s[1..][..k]; Some(k + 1)
  }

  lemma IndexOfFirst(s: string, c: char, k: nat)
    requires k < |s| && s[k] == c && c !in s[..k]
    ensures IndexOf(s, c) == Some(k)
  {
  }

  /** An unsigned decimal: digits, optionally a point followed by more
      digits, with at least one digit in all ("7", "7.", ".5", "12.50"). */
  function ParseMantissa(t: string): Option<real>
  {
    match IndexOf(t, '.')
    case None => if |t| > 0 && AllDigits(t) then Some(DigitsValue(t) as real) else None
    case Some(k) =>
      var whole, frac := t[..k], t[k + 1..];
      if AllDigits(whole) && AllDigits(frac) && |whole| + |frac| > 0 then
        Some(DecimalValue(whole, frac))
      else None
  }

  /** The value of the decimal literal "whole.frac". */
  function DecimalValue(whole: string, frac: string): real
    requires AllDigits(whole) && AllDigits(frac)
  {
    DigitsValue(whole) as real + DigitsValue(frac) as real / Pow10(|frac|) as real
  }

  /** `float(s)` on decimal literals: surrounding whitespace, an optional
      sign, a mantissa, or the spelling "nan" in any case; None means it
      raises. */
  function ParseNumber(s: string): Option<Number>
  {
    var t := Strip(s);
    var lt := Lower(t);
    if lt == "nan" || lt == "+nan" || lt == "-nan" then Some(NaN)
    else if |t| > 0 && (t[0] == '+' || t[0] == '-') then
      match ParseMantissa(t[1..])
      case Some(v) => Some(Finite(if t[0] == '-' then -v else v))
      case None => None
    else
      match ParseMantissa(t)
      case Some(v) => Some(Finite(v))
      case None => None
  }

  /** An unsigned literal is read by the mantissa rule alone. */
  lemma ParseNumberUnsigned(s: string)
    requires |Strip(s)| > 0 && IsDigit(Strip(s)[0])
    ensures ParseNumber(s).Some? <==> ParseMantissa(Strip(s)).Some?
    ensures ParseMantissa(Strip(s)).Some? ==> ParseNumber(s).value == Finite(ParseMantissa(Strip(s)).value)
  {
    var t := Strip(s);
    var lt := Lower(t);
    assert lt[0] == t[0];
    assert lt != "nan" && lt != "+nan" && lt != "-nan";
  }

  /** A signed literal is read by the mantissa rule after the sign. */
  lemma ParseNumberSigned(s: string)
    requires |Strip(s)| > 1 && (Strip(s)[0] == '+' || Strip(s)[0] == '-') && IsDigit(Strip(s)[1])
    ensures ParseNumber(s).Some? <==> ParseMantissa(Strip(s)[1..]).Some?
    ensures ParseMantissa(Strip(s)[1..]).Some? ==>
      var v := ParseMantissa(Strip(s)[1..]).value;
      ParseNumber(s).value == Finite(if Strip(s)[0] == '-' then -v else v)
  {
    var t := Strip(s);
    var lt := Lower(t);
    assert lt[1] == t[1];
    assert lt != "nan" && lt != "+nan" && lt != "-nan";
  }

  /** A literal without a point reads as its digits' value. */
  lemma ParseMantissaWhole(t: string)
    requires |t| > 0 && AllDigits(t)
    ensures ParseMantissa(t).Some? && ParseMantissa(t).value == DigitsValue(t) as real
  {
    assert '.' !in t by {
      forall i | 0 <= i < |t| ensures t[i] != '.' { assert IsDigit(t[i]); }
    }
  }

  /** Wherever `int(s)` succeeds, `float(s)` gives the same value. */
  lemma ParseNumberExtendsParseInt(s: string)
    requires ParseInt(s).Some?
    ensures ParseNumber(s).Some? && ParseNumber(s).value == Finite(ParseInt(s).value as real)
  {
    var t := Strip(s);
    if |t| > 0 && (t[0] == '+' || t[0] == '-') {
      ParseMantissaWhole(t[1..]);
      ParseNumberSigned(s);
    } else {
      ParseMantissaWhole(t);
      ParseNumberUnsigned(s);
    }
  }

  /** `float(str(i)) == i`. */
  lemma ParseNumberOfString(i: int)
    ensures ParseNumber(IntToString(i)).Some? && ParseNumber(IntToString(i)).value == Finite(i as real)
  {
    ParseIntOfString(i);
    ParseNumberExtendsParseInt(IntToString(i));
  }

  /** A literal "whole.frac" reads as whole + frac / 10^|frac|. */
  lemma ParseMantissaParts(whole: string, frac: string)
    requires AllDigits(whole) && AllDigits(frac) && |whole| + |frac| > 0
    ensures ParseMantissa(whole + "." + frac).Some? && ParseMantissa(whole + "." + frac).value == DecimalValue(whole, frac)
  {
    var t := whole + "." + frac;
    assert t[..|whole|] == whole && t[|whole| + 1..] == frac;
    assert '.' !in whole by {
      forall i | 0 <= i < |whole| ensures whole[i] != '.' { assert IsDigit(whole[i]); }
    }
    IndexOfFirst(t, '.', |whole|);
  }

  /** An unpadded "whole.frac" with a non-empty whole part reads as its
      decimal value. */
  lemma ParseNumberDecimal(whole: string, frac: string)
    requires AllDigits(whole) && AllDigits(frac) && |whole| > 0
    ensures ParseNumber(whole + "." + frac).Some? && ParseNumber(whole + "." + frac).value == Finite(DecimalValue(whole, frac))
  {
    var t := whole + "." + frac;
    assert t[0] == whole[0];
    ParseMantissaParts(whole, frac);
    StripUnpadded(t);
    ParseNumberUnsigned(t);
  }

  /** A positive amount as the ledger writes it ("12.50") reads back. */
  lemma ParseNumberDecimalExample(s: string)
    requires s == "12.50"
    ensures ParseNumber(s).Some? && ParseNumber(s).value == Finite(12.5)
  {
    var whole, frac := "12", "50";
    assert s == whole + "." + frac;
    ParseNumberDecimal(whole, frac);
    TwelveFifty(whole, frac);
  }

  lemma TwelveFifty(whole: string, frac: string)
    requires whole == "12" && frac == "50"
    ensures DecimalValue(whole, frac) == 12.5
  {
    DigitsValueTwo(whole);
    DigitsValueTwo(frac);
    assert Pow10(|frac|) == 10 * Pow10(1) == 100;
  }

  lemma DigitsValueTwo(s: string)
    requires |s| == 2 && AllDigits(s)
    ensures DigitsValue(s) == DigitValue(s[0]) * 10 + DigitValue(s[1])
  {
    var p := s[..1];
    assert p[..0] == [] && p[0] == s[0];
    assert DigitsValue(p) == DigitValue(s[0]);
  }

  /** A signed amount ("-3.0") reads back with its sign. */
  lemma ParseNumberSignedExample(s: string)
    requires s == "-3.0"
    ensures ParseNumber(s).Some? && ParseNumber(s).value == Finite(-3.0)
  {
    assert s[1..] == "3" + "." + "0";
    ParseMantissaParts("3", "0");
    assert DigitsValue("3") == 3 && DigitsValue("0") == 0;
    StripUnpadded(s);
    ParseNumberSigned(s);
  }

  // ---------------------------------------------------------------------------
  // ordering of str (by code point, lexicographic)

  /** Python's `a <= b` on strings. */
  predicate LexLe(a: string, b: string)
    decreases |a|
  {
    |a| == 0 || (|b| > 0 && (a[0] < b[0] || (a[0] == b[0] && LexLe(a[1..], b[1..]))))
  }

  lemma {:induction false} LexLeReflexive(a: string)
    ensures LexLe(a, a)
    decreases |a|
  {
    if |a| > 0 {
      LexLeReflexive(a[1..]);
    }
  }

  lemma {:induction false} LexLeTotal(a: string, b: string)
    ensures LexLe(a, b) || LexLe(b, a)
    decreases |a|
  {
    if |a| > 0 && |b| > 0 && a[0] == b[0] {
      LexLeTotal(a[1..], b[1..]);
    }
  }

  lemma {:induction false} LexLeAntisymmetric(a: string, b: string)
    requires LexLe(a, b) && LexLe(b, a)
    ensures a == b
    decreases |a|
  {
    if |a| > 0 {
      LexLeAntisymmetric(a[1..], b[1..]);
      assert a == [a[0]] + a[1..] && b == [b[0]] + b[1..];
    }
  }

  lemma {:induction false} LexLeTransitive(a: string, b: string, c: string)
    requires LexLe(a, b) && LexLe(b, c)
    ensures LexLe(a, c)
    decreases |a|
  {
    if |a| > 0 && a[0] == b[0] && b[0] == c[0] {
      LexLeTransitive(a[1..], b[1..], c[1..]);
    }
  }

  /** Python's `a <= b` on tuples of strings: the first differing
      component decides, and a proper prefix comes first. */
  predicate FieldsLe(a: seq<string>, b: seq<string>)
    decreases |a|
  {
    |a| == 0 || (|b| > 0 && (if a[0] == b[0] then FieldsLe(a[1..], b[1..]) else LexLe(a[0], b[0])))
  }

  lemma {:induction false} FieldsLeTotal(a: seq<string>, b: seq<string>)
    ensures FieldsLe(a, b) || FieldsLe(b, a)
    decreases |a|
  {
    if |a| > 0 && |b| > 0 {
      if a[0] == b[0] {
        FieldsLeTotal(a[1..], b[1..]);
      } else {
        LexLeTotal(a[0], b[0]);
      }
    }
  }

  /** Tuples of the same length that compare both ways are equal. */
  lemma {:induction false} FieldsLeAntisymmetric(a: seq<string>, b: seq<string>)
    requires |a| == |b| && FieldsLe(a, b) && FieldsLe(b, a)
    ensures a == b
    decreases |a|
  {
    if |a| > 0 {
      if a[0] == b[0] {
        FieldsLeAntisymmetric(a[1..], b[1..]);
        assert a == [a[0]] + a[1..] && b == [b[0]] + b[1..];
      } else {
        LexLeAntisymmetric(a[0], b[0]);
      }
    }
  }

  lemma {:induction false} FieldsLeTransitive(a: seq<string>, b: seq<string>, c: seq<string>)
    requires FieldsLe(a, b) && FieldsLe(b, c)
    ensures FieldsLe(a, c)
    decreases |a|
  {
    if |a| > 0 {
      if a[0] == b[0] && b[0] == c[0] {
        FieldsLeTransitive(a[1..], b[1..], c[1..]);
      } else if a[0] != b[0] && b[0] != c[0] {
        LexLeTransitive(a[0], b[0], c[0]);
        if a[0] == c[0] {
          LexLeAntisymmetric(a[0], b[0]);
        }
      }
    }
  }

  function Pow10(n: nat): (r: nat)
    ensures r >= 1
  {
    if n == 0 then 1 else 10 * Pow10(n - 1)
  }

  lemma {:induction false} DigitsValueBound(s: string)
    requires AllDigits(s)
    ensures DigitsValue(s) < Pow10(|s|)
  {
    if |s| > 0 {
      DigitsValueBound(s[..|s| - 1]);
    }
  }

  lemma ShiftDigit(x: int, p: int, y: int, d: int)
    ensures (x * p + y) * 10 + d == x * (10 * p) + (y * 10 + d)
  {
  }

  /** The leading digit carries weight 10^(n-1). */
  lemma {:induction false} DigitsValueFront(s: string)
    requires AllDigits(s) && |s| > 0
    ensures DigitsValue(s) == DigitValue(s[0]) * Pow10(|s| - 1) + DigitsValue(s[1..])
  {
    if |s| > 1 {
      var init, tail := s[..|s| - 1], s[1..];
      var d := DigitValue(s[|s| - 1]);
      DigitsValueFront(init);
      assert init[1..] == tail[..|tail| - 1];
      assert tail[|tail| - 1] == s[|s| - 1];
      assert DigitsValue(tail) == DigitsValue(init[1..]) * 10 + d;
      assert DigitsValue(s) == DigitsValue(init) * 10 + d;
      assert Pow10(|s| - 1) == 10 * Pow10(|init| - 1);
      ShiftDigit(DigitValue(s[0]), Pow10(|init| - 1), DigitsValue(init[1..]), d);
    }
  }

  /** For digit strings of equal length, string order is numeric order. */
  lemma {:induction false} LexLeDigits(a: string, b: string)
    requires AllDigits(a) && AllDigits(b) && |a| == |b|
    ensures LexLe(a, b) <==> DigitsValue(a) <= DigitsValue(b)
    decreases |a|
  {
    if |a| > 0 {
      var p := Pow10(|a| - 1);
      DigitsValueFront(a);
      DigitsValueFront(b);
      DigitsValueBound(a[1..]);
      DigitsValueBound(b[1..]);
      LexLeDigits(a[1..], b[1..]);
      if a[0] < b[0] {
        LeadingDigitDominates(DigitValue(a[0]), DigitValue(b[0]), DigitsValue(a[1..]), DigitsValue(b[1..]), p);
      } else if a[0] > b[0] {
        LeadingDigitDominates(DigitValue(b[0]), DigitValue(a[0]), DigitsValue(b[1..]), DigitsValue(a[1..]), p);
      }
    }
  }

  lemma LeadingDigitDominates(da: nat, db: nat, ra: nat, rb: nat, p: nat)
    requires da < db && ra < p
    ensures da * p + ra < db * p + rb
  {
    assert (da + 1) * p <= db * p by {
      assert db * p == (da + 1) * p + (db - da - 1) * p;
    }
  }
}
