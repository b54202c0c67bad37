/**
 * The JavaScript number operations that `parseElfSymbols` relies on:
 * `parseInt(s, 16)`, `+=` on numbers that may be `NaN`, and the decimal
 * text of a number in a template literal. Numbers are unbounded integers
 * or `NaN`; `-0` is identified with `0`, which changes neither a sum that
 * starts at `0` nor the text `"0"` that JavaScript prints for it.
 */
module JsNumbers {
  import opened JsStrings

  datatype JsNumber = Num(value: int) | NaN

  /** `a + b` on numbers: `NaN` if either operand is `NaN`. */
  function Plus(a: JsNumber, b: JsNumber): (r: JsNumber)
    ensures r.NaN? <==> a.NaN? || b.NaN?
    ensures r.Num? ==> r.value == a.value + b.value
  {
    if a.NaN? || b.NaN? then NaN else Num(a.value + b.value)
  }

  /**
   * The laws that make a running total independent of how its additions
   * are grouped: `+` on these numbers is commutative and associative, with
   * `0` as identity and `NaN` absorbing. (IEEE doubles are not associative
   * once rounding sets in; these numbers are exact.)
   */
  lemma PlusLaws(a: JsNumber, b: JsNumber, c: JsNumber)
    ensures Plus(a, b) == Plus(b, a)
    ensures Plus(Plus(a, b), c) == Plus(a, Plus(b, c))
    ensures Plus(Num(0), a) == a && Plus(a, Num(0)) == a
    ensures Plus(NaN, a) == NaN && Plus(a, NaN) == NaN
  {
  }

  /** A number that is a non-negative integer. */
  predicate IsNatural(x: JsNumber)
  {
    x.Num? && x.value >= 0
  }

  // ---------------------------------------------------------------------
  // Hexadecimal digits

  predicate IsHexDigit(c: char)
  {
    ('0' <= c <= '9') || ('a' <= c <= 'f') || ('A' <= c <= 'F')
  }

  predicate AllHex(s: string)
  {
    forall i :: 0 <= i < |s| ==> IsHexDigit(s[i])
  }

  /** Hexadecimal text holds no white space. */
  lemma HexNoSpace(s: string)
    requires AllHex(s)
    ensures NoSpace(s)
  {
  }

  function HexDigitValue(c: char): (d: nat)
    requires IsHexDigit(c)
    ensures d < 16
  {
    if '0' <= c <= '9' then c as int - '0' as int
    else if 'a' <= c <= 'f' then c as int - 'a' as int + 10
    else c as int - 'A' as int + 10
  }

  /** The value of a string of hexadecimal digits, most significant first; `0` for the empty string. */
  function HexValue(s: string): nat
    requires AllHex(s)
  {
    if s == [] then 0 else 16 * HexValue(s[..|s| - 1]) + HexDigitValue(s[|s| - 1])
  }

  /** The length of the longest prefix of `s` made of hexadecimal digits. */
  function HexSpan(s: string): (n: nat)
    ensures n <= |s| && AllHex(s[..n])
    ensures n < |s| ==> !IsHexDigit(s[n])
  {
    if s == [] || !IsHexDigit(s[0]) then 0
    else
      var n := HexSpan(s[1..]);
      assert s[..n + 1] == [s[0]] + s[1..][..n];
      n + 1
  }

  /**
   * `parseInt(s, 16)` as ECMAScript defines it: skip leading whitespace,
   * take an optional sign, then an optional `0x` or `0X`, then the longest
   * run of hexadecimal digits; `NaN` if that run is empty. Anything after
   * the run is ignored.
   */
  function ParseIntHex(s: string): JsNumber
  {
    ParseSigned(TrimStart(s))
  }

  function ParseSigned(t: string): JsNumber
  {
    if t != [] && t[0] == '-' then Negate(ParseUnsigned(t[1..]))
    else if t != [] && t[0] == '+' then ParseUnsigned(t[1..])
    else ParseUnsigned(t)
  }

  function Negate(x: JsNumber): JsNumber
  {
    if x.NaN? then NaN else Num(-x.value)
  }

  function ParseUnsigned(u: string): JsNumber
  {
    if |u| >= 2 && u[0] == '0' && (u[1] == 'x' || u[1] == 'X') then ParseDigits(u[2..]) else ParseDigits(u)
  }

  function ParseDigits(d: string): JsNumber
  {
    var z := d[..HexSpan(d)];
    if z == [] then NaN else Num(HexValue(z))
  }

  /** On a plain non-empty string of hexadecimal digits, `parseInt(s, 16)` is the value of all of them. */
  lemma {:induction false} ParseIntHexOfDigits(s: string)
    requires s != [] && AllHex(s)
    ensures ParseIntHex(s) == Num(HexValue(s))
  {
    assert IsHexDigit(s[0]);
    assert TrimStart(s) == s;
    assert ParseSigned(s) == ParseUnsigned(s);
    if |s| >= 2 {
      assert IsHexDigit(s[1]);
    }
    assert ParseUnsigned(s) == ParseDigits(s);
    assert HexSpan(s) == |s|;
    assert s[..|s|] == s;
  }

  /** The run of hexadecimal digits at the start of `s + rest` is all of `s` and the run that starts `rest`. */
  lemma {:induction false} HexSpanAppend(s: string, rest: string)
    requires AllHex(s)
    ensures HexSpan(s + rest) == |s| + HexSpan(rest)
  {
    if s == [] {
      assert s + rest == rest;
    } else {
      assert IsHexDigit(s[0]);
      assert (s + rest)[1..] == s[1..] + rest;
      HexSpanAppend(s[1..], rest);
    }
  }

  /**
   * `parseInt(s, 16)` stops at the first character that is not a
   * hexadecimal digit and ignores the rest, unless a lone `0` followed by
   * `x` or `X` makes that a `0x` prefix.
   */
  lemma ParseIntHexIgnoresTail(s: string, rest: string)
    requires s != [] && AllHex(s)
    requires rest == [] || !IsHexDigit(rest[0])
    requires s == "0" ==> rest == [] || (rest[0] != 'x' && rest[0] != 'X')
    ensures ParseIntHex(s + rest) == Num(HexValue(s))
  {
    var t := s + rest;
    assert IsHexDigit(t[0]);
    assert TrimStart(t) == t;
    assert ParseSigned(t) == ParseUnsigned(t);
    if |t| >= 2 {
      assert t[1] == if |s| >= 2 then s[1] else rest[0];
      assert !(t[0] == '0' && (t[1] == 'x' || t[1] == 'X'));
    }
    assert ParseUnsigned(t) == ParseDigits(t);
    HexSpanAppend(s, rest);
    assert t[..HexSpan(t)] == s;
  }

  /** A size field that starts with neither white space, a sign nor a hexadecimal digit reads as `NaN`. */
  lemma ParseIntHexOfNonHex(s: string)
    requires s != [] && !IsHexDigit(s[0]) && !IsSpace(s[0]) && s[0] != '-' && s[0] != '+'
    ensures ParseIntHex(s) == NaN
  {
    assert TrimStart(s) == s;
    assert ParseSigned(s) == ParseUnsigned(s);
    assert ParseUnsigned(s) == ParseDigits(s);
    assert HexSpan(s) == 0;
  }

  /** The lower-case hexadecimal digit for `d`, as `nm` prints it. */
  function HexChar(d: nat): (c: char)
    requires d < 16
    ensures IsHexDigit(c) && HexDigitValue(c) == d
  {
    if d < 10 then ('0' as int + d) as char else ('a' as int + d - 10) as char
  }

  /** The shortest lower-case hexadecimal text of `n`. */
  function ToHex(n: nat): (s: string)
    ensures s != [] && AllHex(s)
  {
    if n < 16 then [HexChar(n)] else ToHex(n / 16) + [HexChar(n % 16)]
  }

  /** Reading back the hexadecimal text of `n` gives `n`. */
  lemma {:induction false} HexValueToHex(n: nat)
    ensures HexValue(ToHex(n)) == n
  {
    var s := ToHex(n);
    if n >= 16 {
      assert s[..|s| - 1] == ToHex(n / 16);
      HexValueToHex(n / 16);
    }
  }

  /** Leading zeros do not change the value of a hexadecimal string. */
  lemma {:induction false} HexValueLeadingZeros(zeros: string, s: string)
    requires forall i :: 0 <= i < |zeros| ==> zeros[i] == '0'
    requires AllHex(s)
    ensures AllHex(zeros + s) && HexValue(zeros + s) == HexValue(s)
  {
    var w := zeros + s;
    assert AllHex(w) by {
      forall i | 0 <= i < |w| ensures IsHexDigit(w[i]) {
        if i < |zeros| { assert w[i] == zeros[i]; } else { assert w[i] == s[i - |zeros|]; }
      }
    }
    if s == [] {
      assert w == zeros;
      if zeros != [] {
        HexValueLeadingZeros(zeros[..|zeros| - 1], []);
        assert zeros[..|zeros| - 1] + [] == zeros[..|zeros| - 1];
      }
    } else {
      var s' := s[..|s| - 1];
      assert w[..|w| - 1] == zeros + s';
      HexValueLeadingZeros(zeros, s');
    }
  }

  /**
   * The size column of `nm -S` is the size in hexadecimal, zero-padded:
   * `parseInt` reads any such column back as the size.
   */
  lemma ParseIntHexOfPaddedHex(zeros: string, n: nat)
    requires forall i :: 0 <= i < |zeros| ==> zeros[i] == '0'
    ensures ParseIntHex(zeros + ToHex(n)) == Num(n)
  {
    HexValueLeadingZeros(zeros, ToHex(n));
    HexValueToHex(n);
    ParseIntHexOfDigits(zeros + ToHex(n));
  }

  // ---------------------------------------------------------------------
  // Decimal text

  predicate IsDecDigit(c: char)
  {
    '0' <= c <= '9'
  }

  predicate AllDec(s: string)
  {
    forall i :: 0 <= i < |s| ==> IsDecDigit(s[i])
  }

  function DecValue(s: string): nat
    requires AllDec(s)
  {
    if s == [] then 0 else 10 * DecValue(s[..|s| - 1]) + (s[|s| - 1] as int - '0' as int)
  }

  /** The decimal text of `n`, without leading zeros, as `String(n)` gives it. */
  function DecText(n: nat): (s: string)
    ensures s != [] && AllDec(s)
    ensures s[0] == '0' ==> s == "0"
  {
    if n < 10 then [('0' as int + n) as char]
    else DecText(n / 10) + [('0' as int + n % 10) as char]
  }

  /** The decimal text of `n` reads back as `n`. */
  lemma {:induction false} DecValueDecText(n: nat)
    ensures DecValue(DecText(n)) == n
  {
    var s := DecText(n);
    if n >= 10 {
      assert s[..|s| - 1] == DecText(n / 10);
      DecValueDecText(n / 10);
    }
  }

  /** The text a template literal gives for a number: a decimal integer, `-` before a negative one, or `NaN`. */
  function NumberText(x: JsNumber): (s: string)
    ensures x.NaN? <==> s == "NaN"
    ensures x.Num? && x.value >= 0 ==> AllDec(s) && DecValue(s) == x.value
    ensures x.Num? && x.value >= 0 ==> s != [] && (s[0] == '0' ==> s == "0")
    ensures x.Num? && x.value < 0 ==> s != [] && s[0] == '-' && AllDec(s[1..]) && DecValue(s[1..]) == -x.value
    ensures x.Num? && x.value < 0 ==> |s| >= 2 && s[1] != '0'
  {
    match x
    case NaN => "NaN"
    case Num(v) =>
      if v >= 0 then DecValueDecText(v); DecText(v)
      else
        DecValueDecText(-v);
        var s := "-" + DecText(-v);
        assert s[0] == '-' && s[1..] == DecText(-v);
        s
  }
}
