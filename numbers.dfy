/**
 * The JavaScript number operations the stack calculator uses:
 * `parseInt` (with no radix), `Math.floor(a / b)` and the remainder operator `%`.
 * Numbers are whole here; JavaScript's doubles agree with them below 2^53.
 */
module Numbers {
  import opened Wrappers

  /**
   * White space and line terminators that `parseInt` skips before the number:
   * tab, vertical tab, form feed, the byte order mark, the space separators
   * (category Zs) and the four line terminators.
   */
  predicate IsJsSpace(c: char)
  {
    c == '\t' || c == '\U{B}' || c == '\U{C}' || c == '\U{FEFF}'
    || c == ' ' || c == '\U{A0}' || c == '\U{1680}' || '\U{2000}' <= c <= '\U{200A}'
    || c == '\U{202F}' || c == '\U{205F}' || c == '\U{3000}'
    || c == '\n' || c == '\r' || c == '\U{2028}' || c == '\U{2029}'
  }

  /** The text after the leading white space. */
  function TrimStart(s: string): (r: string)
    ensures |r| <= |s| && r == s[|s| - |r|..]
    ensures r != [] ==> !IsJsSpace(r[0])
    ensures forall i :: 0 <= i < |s| - |r| ==> IsJsSpace(s[i])
  {
    if s != [] && IsJsSpace(s[0]) then TrimStart(s[1..]) else s
  }

  /** The value of `c` as a digit in base 36, or 36 when it is not a digit at all. */
  function DigitValue(c: char): (d: nat)
    ensures d <= 36
  {
    if '0' <= c <= '9' then c as int - '0' as int
    else if 'a' <= c <= 'z' then c as int - 'a' as int + 10
    else if 'A' <= c <= 'Z' then c as int - 'A' as int + 10
    else 36
  }

  /** The length of the longest prefix of `s` made of digits of base `radix`. */
  function DigitRun(s: string, radix: nat): (n: nat)
    ensures n <= |s|
    ensures forall i :: 0 <= i < n ==> DigitValue(s[i]) < radix
    ensures n < |s| ==> DigitValue(s[n]) >= radix
  {
    if s != [] && DigitValue(s[0]) < radix then 1 + DigitRun(s[1..], radix) else 0
  }

  /** The number that the digits `ds` denote in base `radix`, most significant first. */
  function DigitsValue(ds: string, radix: nat): nat
  {
    if ds == [] then 0
    else DigitsValue(ds[..|ds| - 1], radix) * radix + DigitValue(ds[|ds| - 1])
  }

  /**
   * `parseInt(s)`: skip leading white space, read an optional sign, then the digits;
   * `None` stands for `NaN`. Text that holds nothing but white space, or that starts
   * with neither a sign nor a decimal digit, is `NaN`; only a minus sign gives a
   * negative number.
   */
  function ParseInt(s: string): (r: Option<int>)
    ensures var t := TrimStart(s);
      t == [] || (t[0] != '-' && t[0] != '+' && DigitValue(t[0]) >= 10) ==> r == None
    ensures r.Some? && r.value < 0 ==> TrimStart(s)[0] == '-'
  {
    var t := TrimStart(s);
    if |t| > 0 && t[0] == '-' then
      match ParseUnsigned(t[1..])
      case None => None
      case Some(m) => Some(-m)
    else if |t| > 0 && t[0] == '+' then ParseUnsigned(t[1..])
    else ParseUnsigned(t)
  }

  /** The digits after the sign: a `0x`/`0X` prefix switches from base 10 to base 16. */
  function ParseUnsigned(u: string): (r: Option<int>)
    ensures u == [] || DigitValue(u[0]) >= 10 ==> r == None
    ensures r.Some? ==> r.value >= 0
  {
    if |u| >= 2 && u[0] == '0' && (u[1] == 'x' || u[1] == 'X') then ParseDigits(u[2..], 16)
    else ParseDigits(u, 10)
  }

  /** The value of the longest run of digits at the front of `v`, or `None` when there is none. */
  function ParseDigits(v: string, radix: nat): (r: Option<int>)
    ensures v == [] || DigitValue(v[0]) >= radix ==> r == None
    ensures r.Some? ==> r.value >= 0
  {
    var n := DigitRun(v, radix);
    if n == 0 then None else Some(DigitsValue(v[..n], radix))
  }

  /** The decimal digits of `n`, without leading zeros. */
  function NatDigits(n: nat): (ds: string)
    ensures ds != []
    ensures forall i :: 0 <= i < |ds| ==> '0' <= ds[i] <= '9'
    ensures ds[0] == '0' ==> n == 0
  {
    if n < 10 then [('0' as int + n) as char]
    else NatDigits(n / 10) + [('0' as int + n % 10) as char]
  }

  /** How JavaScript writes the whole number `n` in decimal. */
  function DecimalString(n: int): string
  {
    if n < 0 then "-" + NatDigits(-n) else NatDigits(n)
  }

  lemma {:induction false} NatDigitsValue(n: nat)
    ensures DigitsValue(NatDigits(n), 10) == n
  {
    if n >= 10 {
      var ds := NatDigits(n);
      assert ds[..|ds| - 1] == NatDigits(n / 10);
      NatDigitsValue(n / 10);
    }
  }

  lemma {:induction false} DigitRunAll(ds: string, radix: nat)
    requires forall i :: 0 <= i < |ds| ==> DigitValue(ds[i]) < radix
    ensures DigitRun(ds, radix) == |ds|
  {
    if ds != [] {
      DigitRunAll(ds[1..], radix);
    }
  }

  /** The digits of a natural number, read without sign, give back that number. */
  lemma ParseUnsignedNatDigits(m: nat)
    ensures ParseUnsigned(NatDigits(m)) == Some(m)
  {
    var ds := NatDigits(m);
    assert !(|ds| >= 2 && ds[0] == '0');
    DigitRunAll(ds, 10);
    assert ds[..|ds|] == ds;
    NatDigitsValue(m);
  }

  lemma TrimStartNoSpace(t: string)
    requires t != [] && !IsJsSpace(t[0])
    ensures TrimStart(t) == t
  {
  }

  lemma ParseIntNatDigits(m: nat)
    ensures ParseInt(NatDigits(m)) == Some(m)
  {
    var t := NatDigits(m);
    assert '0' <= t[0] <= '9';
    TrimStartNoSpace(t);
    ParseUnsignedNatDigits(m);
  }

  lemma ParseIntNegative(m: nat)
    requires m > 0
    ensures ParseInt("-" + NatDigits(m)) == Some(-(m as int))
  {
    var t := "-" + NatDigits(m);
    assert t[0] == '-' && t[1..] == NatDigits(m);
    TrimStartNoSpace(t);
    ParseUnsignedNatDigits(m);
  }

  /** A zero with a minus sign, or with a leading zero, still reads as 0. */
  lemma ParseIntZeros()
    ensures ParseInt("-0") == Some(0) && ParseInt("00") == Some(0)
  {
    ParseIntNegativeZero();
    ParseIntDoubleZero();
  }

  lemma ParseIntNegativeZero()
    ensures ParseInt("-0") == Some(0)
  {
    TrimStartNoSpace("-0");
    assert "-0"[1..] == NatDigits(0);
    ParseUnsignedNatDigits(0);
  }

  lemma ParseIntDoubleZero()
    ensures ParseInt("00") == Some(0)
  {
    var z := "00";
    TrimStartNoSpace(z);
    DigitRunAll(z, 10);
    assert z[..2] == z;
    assert z[..|z| - 1] == "0";
    assert "0"[..0] == [];
    assert DigitsValue(z, 10) == 0;
  }

  /** `parseInt` reads back every whole number written in decimal. */
  lemma ParseIntDecimal(n: int)
    ensures ParseInt(DecimalString(n)) == Some(n)
  {
    if n >= 0 {
      ParseIntNatDigits(n);
    } else {
      ParseIntNegative(-n);
    }
  }

  /** `Math.floor(a / b)` for a positive divisor: the quotient rounded down. */
  function FloorDiv(a: int, b: int): (q: int)
    requires b > 0
    ensures q * b <= a < q * b + b
  {
    a / b
  }

  /** The quotient rounded toward zero, which JavaScript's `%` is defined by. */
  function TruncDiv(a: int, b: int): (q: int)
    requires b > 0
    ensures a >= 0 ==> q * b <= a < q * b + b
    ensures a < 0 ==> q * b - b < a <= q * b
  {
    if a >= 0 then a / b else -((-a) / b)
  }

  /** JavaScript's `a % b` for a positive divisor: the remainder keeps the sign of `a`. */
  function JsRem(a: int, b: int): (r: int)
    requires b > 0
    ensures r == a - TruncDiv(a, b) * b
    ensures a >= 0 ==> 0 <= r < b
    ensures a < 0 ==> -b < r <= 0
  {
    if a >= 0 then a % b else -((-a) % b)
  }

  /** Multiplying by a positive number keeps the order. */
  lemma MulMonotonic(x: int, y: int, b: int)
    requires x <= y && b > 0
    ensures x * b <= y * b
  {
    assert y * b - x * b == (y - x) * b;
  }

  /**
   * `Math.floor(a / b)` and the quotient behind `a % b` agree when `a` is not negative;
   * when it is, the first is the second or one less.
   */
  lemma FloorBelowTrunc(a: int, b: int)
    requires b > 0
    ensures a >= 0 ==> FloorDiv(a, b) == TruncDiv(a, b)
    ensures a < 0 ==> FloorDiv(a, b) == TruncDiv(a, b) || FloorDiv(a, b) == TruncDiv(a, b) - 1
  {
    var q, t := FloorDiv(a, b), TruncDiv(a, b);
    if a >= 0 {
      assert q == t;
    } else {
      if q > t {
        MulMonotonic(t + 1, q, b);
        assert false;
      }
      if q < t - 1 {
        MulMonotonic(q + 2, t, b);
        assert false;
      }
    }
  }

  /**
   * For a negative `a`, `Math.floor(a / b) * b + a % b` is `a` when `b` divides `a`,
   * and otherwise falls short of `a` by `b`.
   */
  lemma FloorRemNegative(a: int, b: int)
    requires b > 0 && a < 0
    ensures FloorDiv(a, b) * b + JsRem(a, b) == if JsRem(a, b) == 0 then a else a - b
  {
    FloorBelowTrunc(a, b);
    var q, t, r := FloorDiv(a, b), TruncDiv(a, b), JsRem(a, b);
    assert a == t * b + r;
    if q == t - 1 {
      assert q * b == t * b - b;
      if r == 0 {
        assert false;
      }
    } else {
      assert q == t;
      if r != 0 {
        assert false;
      }
    }
  }

  /** Whole stacks of one item: the quotient is the amount and nothing is left over. */
  lemma DivOne(a: int)
    ensures FloorDiv(a, 1) == a && JsRem(a, 1) == 0
  {
  }

  /** Fewer than `b` items make no whole stack: the quotient is 0 and the rest is all of `a`. */
  lemma DivSmall(a: int, b: int)
    requires 0 <= a < b
    ensures FloorDiv(a, b) == 0 && JsRem(a, b) == a
  {
    var q := FloorDiv(a, b);
    if q >= 1 {
      MulMonotonic(1, q, b);
    } else if q <= -1 {
      MulMonotonic(q, -1, b);
    }
  }
}
