/** JavaScript's `parseInt` (called without a radix), the decimal rendering
    of integers, and `Math.ceil(n / d)` for page counts. */
module Numbers {
  import opened Wrappers
  import opened Text

  predicate IsDigit(c: char) {
    '0' <= c <= '9'
  }

  predicate AllDigits(s: string) {
    forall i :: 0 <= i < |s| ==> IsDigit(s[i])
  }

  /** The value of `c` as a digit of `radix` (10 or 16), or -1 when it is not one. */
  function DigitValue(c: char, radix: nat): (v: int)
    requires radix == 10 || radix == 16
    ensures -1 <= v < radix
    ensures radix == 10 ==> (v >= 0 <==> IsDigit(c))
  {
    if IsDigit(c) then c as int - '0' as int
    else if radix == 16 && 'a' <= c <= 'f' then c as int - 'a' as int + 10
    else if radix == 16 && 'A' <= c <= 'F' then c as int - 'A' as int + 10
    else -1
  }

  predicate AllDigitsOf(s: string, radix: nat)
    requires radix == 10 || radix == 16
  {
    forall i :: 0 <= i < |s| ==> DigitValue(s[i], radix) >= 0
  }

  /** The longest prefix of `s` made of digits of `radix`. */
  function LeadingDigits(s: string, radix: nat): (r: string)
    requires radix == 10 || radix == 16
    ensures r <= s && AllDigitsOf(r, radix)
    ensures |r| < |s| ==> DigitValue(s[|r|], radix) < 0
  {
    if s != [] && DigitValue(s[0], radix) >= 0 then [s[0]] + LeadingDigits(s[1..], radix) else []
  }

  /** The number a digit string denotes, most significant digit first. */
  function DigitsValue(ds: string, radix: nat): nat
    requires radix == 10 || radix == 16
    requires AllDigitsOf(ds, radix)
  {
    if ds == [] then 0
    else DigitsValue(ds[..|ds| - 1], radix) * radix + DigitValue(ds[|ds| - 1], radix)
  }

  /** An optional sign: its factor and the text after it. */
  function SplitSign(t: string): (int, string) {
    if t != [] && t[0] == '-' then (-1, t[1..])
    else if t != [] && t[0] == '+' then (1, t[1..])
    else (1, t)
  }

  /** A `0x` or `0X` prefix selects radix 16; otherwise the radix is 10. */
  function SplitRadix(u: string): (r: (nat, string))
    ensures r.0 == 10 || r.0 == 16
  {
    if |u| >= 2 && u[0] == '0' && (u[1] == 'x' || u[1] == 'X') then (16, u[2..]) else (10, u)
  }

  /** The magnitude `parseInt` reads after the sign, or None when no digit follows. */
  function ParseMagnitude(u: string): Option<nat> {
    var (radix, body) := SplitRadix(u);
    var ds := LeadingDigits(body, radix);
    if ds == [] then None
    else Some(DigitsValue(ds, radix))
  }

  /** `parseInt(s)`, with None standing for NaN. Leading whitespace is skipped,
      one `+` or `-` is accepted, a `0x` or `0X` prefix selects radix 16, and
      the longest run of digits that follows is read; no digit there gives NaN.
      Results beyond 2^53, which JavaScript rounds, are kept exact here. */
  function ParseInt(s: string): Option<int> {
    var (sign, u) := SplitSign(TrimStart(s));
    match ParseMagnitude(u)
    case None => None
    case Some(m) => Some(sign * m)
  }

  function DigitChar(d: nat): (c: char)
    requires d < 10
    ensures IsDigit(c) && DigitValue(c, 10) == d
  {
    ('0' as int + d) as char
  }

  /** The shortest decimal rendering of `n`, as JavaScript's `String(n)`. */
  function NatToDecimal(n: nat): (r: string)
    ensures r != [] && AllDigits(r)
    ensures |r| > 1 ==> r[0] != '0'
  {
    if n < 10 then [DigitChar(n)] else NatToDecimal(n / 10) + [DigitChar(n % 10)]
  }

  function IntToDecimal(n: int): string {
    if n < 0 then "-" + NatToDecimal(-n) else NatToDecimal(n)
  }

  /** Reading back the decimal rendering of `n` gives `n`. */
  lemma {:induction false} DecimalValue(n: nat)
    ensures AllDigitsOf(NatToDecimal(n), 10) && DigitsValue(NatToDecimal(n), 10) == n
  {
    var r := NatToDecimal(n);
    if n >= 10 {
      DecimalValue(n / 10);
      assert r[..|r| - 1] == NatToDecimal(n / 10);
    }
  }

  /** Decimal digits followed by text that cannot continue the number are
      read as exactly those digits. Only a lone `0` can be continued by `x`
      or `X`, into a hexadecimal prefix. */
  lemma ParseMagnitudeDigits(ds: string, rest: string)
    requires ds != [] && AllDigits(ds)
    requires rest != [] ==> !IsDigit(rest[0]) && (ds == "0" ==> rest[0] != 'x' && rest[0] != 'X')
    ensures AllDigitsOf(ds, 10) && ParseMagnitude(ds + rest) == Some(DigitsValue(ds, 10))
  {
    var s := ds + rest;
    assert s[0] == ds[0];
    if |s| >= 2 && s[0] == '0' {
      if |ds| >= 2 {
        assert s[1] == ds[1];
      } else {
        assert ds == "0" && s[1] == rest[0];
      }
    }
    assert SplitRadix(s) == (10, s);
    LeadingDigitsOfDigits(ds, rest);
  }

  /** `parseInt` of a run of decimal digits followed by text that cannot
      continue the number reads exactly those digits: `parseInt("75 km") == 75`. */
  lemma ParseIntDigitPrefix(ds: string, rest: string)
    requires ds != [] && AllDigits(ds)
    requires rest != [] ==> !IsDigit(rest[0]) && (ds == "0" ==> rest[0] != 'x' && rest[0] != 'X')
    ensures AllDigitsOf(ds, 10) && ParseInt(ds + rest) == Some(DigitsValue(ds, 10))
  {
    var s := ds + rest;
    assert s[0] == ds[0];
    assert TrimStart(s) == s;
    assert SplitSign(s) == (1, s);
    ParseMagnitudeDigits(ds, rest);
  }

  lemma {:induction false} LeadingDigitsOfDigits(ds: string, rest: string)
    requires AllDigits(ds)
    requires rest != [] ==> !IsDigit(rest[0])
    ensures LeadingDigits(ds + rest, 10) == ds
  {
    var s := ds + rest;
    if ds == [] {
      assert s == rest;
    } else {
      assert s[0] == ds[0] && s[1..] == ds[1..] + rest;
      LeadingDigitsOfDigits(ds[1..], rest);
    }
  }

  /** A whole string of decimal digits is read as its value. */
  lemma ParseMagnitudeAll(ds: string)
    requires ds != [] && AllDigits(ds)
    ensures AllDigitsOf(ds, 10) && ParseMagnitude(ds) == Some(DigitsValue(ds, 10))
  {
    ParseMagnitudeDigits(ds, []);
    assert ds + [] == ds;
  }

  /** A leading minus sign negates the magnitude read after it. */
  lemma ParseIntMinus(u: string, m: nat)
    requires ParseMagnitude(u) == Some(m)
    ensures ParseInt("-" + u) == Some(-(m as int))
  {
    var s := "-" + u;
    assert s[0] == '-' && s[1..] == u;
    assert TrimStart(s) == s;
  }

  /** The rendering of `m` is read as `m`. */
  lemma ParseMagnitudeDecimal(m: nat)
    ensures ParseMagnitude(NatToDecimal(m)) == Some(m)
  {
    DecimalValue(m);
    ParseMagnitudeAll(NatToDecimal(m));
  }

  lemma NegativeDecimal(n: int)
    requires n < 0
    ensures ParseInt(IntToDecimal(n)) == Some(n)
  {
    var m: nat := -n;
    ParseMagnitudeDecimal(m);
    ParseIntMinus(NatToDecimal(m), m);
  }

  /** `parseInt` skips leading whitespace. */
  lemma ParseIntLeadingWhitespace(w: string, s: string)
    requires AllWhitespace(w)
    ensures ParseInt(w + s) == ParseInt(s)
  {
    TrimStartWhitespacePrefix(w, s);
  }

  /** Text that starts with neither whitespace, a sign nor a digit reads as NaN. */
  lemma ParseIntNoDigits(s: string)
    requires s != [] && !IsWhitespace(s[0]) && !IsDigit(s[0]) && s[0] != '+' && s[0] != '-'
    ensures ParseInt(s) == None
  {
    assert TrimStart(s) == s;
    assert SplitSign(s) == (1, s);
    assert SplitRadix(s) == (10, s);
    assert LeadingDigits(s, 10) == [];
  }

  /** Round trip: `parseInt(String(n)) == n` for every integer `n`. */
  lemma ParseIntDecimal(n: int)
    ensures ParseInt(IntToDecimal(n)) == Some(n)
  {
    if n < 0 {
      NegativeDecimal(n);
    } else {
      var ds := NatToDecimal(n);
      DecimalValue(n);
      ParseIntDigitPrefix(ds, []);
      assert ds + [] == ds;
    }
  }

  /** `Math.ceil(n / d)` for a natural `n` and a positive `d`: the least number
      of blocks of `d` that hold `n` items. */
  function CeilDiv(n: nat, d: nat): (r: nat)
    requires d > 0
    ensures r * d >= n && (r == 0 || (r - 1) * d < n)
    ensures r == 0 <==> n == 0
  {
    var q := (n + d - 1) / d;
    assert (n + d - 1) == q * d + (n + d - 1) % d;
    assert (q - 1) * d == q * d - d;
    q
  }
}
