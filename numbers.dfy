/** Decimal text for integers: what `String(n)` / Lua's `tostring` write for an integer,
    and what JavaScript's `Number(s)` and Lua's `tonumber(s)` read back.
    Numbers are unbounded integers here; a finite decimal with a fractional part is kept
    as a mantissa and a power of ten so that `Math.floor` can be stated exactly. */
module Numbers {
  import opened Wrappers
  import opened Text

  function Pow10(k: nat): (p: nat)
    ensures p >= 1
  {
    if k == 0 then 1 else 10 * Pow10(k - 1)
  }

  predicate IsDigit(c: char) { '0' <= c <= '9' }

  predicate AllDigits(s: string) { forall k :: 0 <= k < |s| ==> IsDigit(s[k]) }

  function DigitChar(d: nat): (c: char)
    requires d < 10
    ensures IsDigit(c)
  {
    ('0' as int + d) as char
  }

  /** Value of a string of decimal digits, most significant first. */
  function DigitsValue(s: string): (v: nat)
    requires AllDigits(s)
  {
    if s == [] then 0
    else DigitsValue(s[..|s| - 1]) * 10 + (s[|s| - 1] as int - '0' as int)
  }

  /** Shortest decimal spelling of a natural number. */
  function NatToString(n: nat): (s: string)
    ensures s != [] && AllDigits(s)
    decreases n
  {
    if n < 10 then [DigitChar(n)] else NatToString(n / 10) + [DigitChar(n % 10)]
  }

  /** `String(n)` for an integer-valued number: an optional minus sign, then digits. */
  function EncodeInt(n: int): (s: string)
    ensures s != []
  {
    if n < 0 then "-" + NatToString(-n) else NatToString(n)
  }

  /** A JavaScript number as the model sees it: a finite decimal `mantissa / 10^scale`,
      or something that is not finite (NaN, Infinity, -Infinity). */
  datatype JsNumber = Finite(mantissa: int, scale: nat) | NotFinite {
    /** `Number.isInteger` on a finite number. */
    predicate IsInteger() requires Finite? { MultipleOfPow10(mantissa, scale) }
  }

  /** `m` is a multiple of `10^k`: its last `k` decimal digits are zero. */
  predicate MultipleOfPow10(m: int, k: nat)
    decreases k
  {
    k == 0 || (m % 10 == 0 && MultipleOfPow10(m / 10, k - 1))
  }

  /** `m / 10^k` for a multiple of `10^k`, dropping one zero digit at a time. */
  function DropZeros(m: int, k: nat): int
    requires MultipleOfPow10(m, k)
    decreases k
  {
    if k == 0 then m else DropZeros(m / 10, k - 1)
  }

  /** Position of the first `c` in `s`, or |s| when there is none. */
  function IndexOf(s: string, c: char): (i: nat)
    ensures i <= |s|
    ensures forall k :: 0 <= k < i ==> s[k] != c
    ensures i < |s| ==> s[i] == c
  {
    if s == [] then 0 else if s[0] == c then 0 else 1 + IndexOf(s[1..], c)
  }

  /** Unsigned decimal literal: digits, optionally a point and more digits, with at
      least one digit on either side. */
  function ParseUnsignedDecimal(body: string): (r: JsNumber)
    ensures r.Finite? ==> r.mantissa >= 0
  {
    var p := IndexOf(body, '.');
    var whole := body[..p];
    var frac := if p < |body| then body[p + 1..] else "";
    if AllDigits(whole) && AllDigits(frac) && |whole| + |frac| >= 1
    then Finite(DigitsValue(whole + frac), |frac|)
    else NotFinite
  }

  /** `Number(s)` for a string: surrounding whitespace is ignored, blank text is 0,
      the Infinity spellings are not finite, a signed decimal literal is its value and
      anything else is NaN. */
  function ParseNumber(s: string): (r: JsNumber)
  {
    var t := Trim(s);
    if t == [] then Finite(0, 0)
    else if t == "Infinity" || t == "+Infinity" || t == "-Infinity" then NotFinite
    else if t[0] == '-' then
      match ParseUnsignedDecimal(t[1..])
      case Finite(m, k) => Finite(-m, k)
      case NotFinite => NotFinite
    else if t[0] == '+' then ParseUnsignedDecimal(t[1..])
    else ParseUnsignedDecimal(t)
  }

  /** The integer a number denotes, when it is finite and integral. */
  function AsInteger(n: JsNumber): (r: Option<int>)
    ensures r.Some? <==> n.Finite? && n.IsInteger()
  {
    if n.Finite? && n.IsInteger() then Some(DropZeros(n.mantissa, n.scale)) else None
  }

  /** The integer found is the number's exact value: `r * 10^scale == mantissa`. */
  lemma AsIntegerExact(n: JsNumber)
    ensures AsInteger(n).Some? ==> AsInteger(n).value * Pow10(n.scale) == n.mantissa
  {
    if n.Finite? && n.IsInteger() {
      DropZerosExact(n.mantissa, n.scale);
    }
  }

  lemma {:induction false} DropZerosExact(m: int, k: nat)
    requires MultipleOfPow10(m, k)
    ensures DropZeros(m, k) * Pow10(k) == m
    decreases k
  {
    if k > 0 {
      DropZerosExact(m / 10, k - 1);
      var q := DropZeros(m / 10, k - 1);
      calc {
        DropZeros(m, k) * Pow10(k);
        q * (10 * Pow10(k - 1));
        10 * (q * Pow10(k - 1));
        10 * (m / 10);
        m;
      }
    }
  }


  /** `tonumber(s)` in Lua: like `Number(s)`, except that blank text is not a number. */
  function LuaToNumber(s: string): (r: Option<int>)
    ensures Trim(s) == [] ==> r.None?
  {
    if Trim(s) == [] then None else AsInteger(ParseNumber(s))
  }

  /** `Math.floor` of a finite number: the greatest integer not above it. */
  function Floor(n: JsNumber): (f: int)
    requires n.Finite?
    ensures f * Pow10(n.scale) <= n.mantissa < (f + 1) * Pow10(n.scale)
    ensures n.mantissa >= 0 ==> f >= 0
    ensures n.scale == 0 ==> f == n.mantissa
  {
    var p := Pow10(n.scale);
    var f := n.mantissa / p;
    FloorDivBounds(n.mantissa, p);
    f
  }

  /** Euclidean division by a positive divisor rounds toward minus infinity. */
  lemma FloorDivBounds(m: int, p: int)
    requires p >= 1
    ensures (m / p) * p <= m < (m / p + 1) * p
    ensures m >= 0 ==> m / p >= 0
    ensures p == 1 ==> m / p == m
  {
  }

  lemma {:induction false} DigitsOfNat(n: nat)
    ensures DigitsValue(NatToString(n)) == n
    decreases n
  {
    var s := NatToString(n);
    if n >= 10 {
      DigitsOfNat(n / 10);
      assert s[..|s| - 1] == NatToString(n / 10);
    }
  }

  lemma NoWhitespaceInEncoding(n: int)
    ensures Trim(EncodeInt(n)) == EncodeInt(n)
  {
    var s := EncodeInt(n);
    var digits := NatToString(if n < 0 then -n else n);
    forall k | 0 <= k < |s| ensures !IsJsWhitespace(s[k]) {
      if n < 0 && k > 0 {
        assert s[k] == digits[k - 1];
      }
    }
    TrimNoWhitespace(s);
  }

  /** `Number(String(n))` is `n`. */
  lemma ParseEncodedInt(n: int)
    ensures ParseNumber(EncodeInt(n)) == Finite(n, 0)
  {
    var s := EncodeInt(n);
    NoWhitespaceInEncoding(n);
    var m: nat := if n < 0 then -n else n;
    var digits := NatToString(m);
    ParseDigits(m);
    if n < 0 {
      assert s == "-" + digits && s[1..] == digits;
      assert s != "Infinity" && s != "+Infinity" by { assert s[0] == '-'; }
      assert s != "-Infinity" by { assert IsDigit(s[1]); }
    } else {
      assert s == digits;
      assert s[0] != '-' && s[0] != '+' by { assert IsDigit(s[0]); }
      assert s != "Infinity" && s != "+Infinity" && s != "-Infinity" by { assert IsDigit(s[0]); }
    }
  }

  /** The digits of `m`, without a point, read as the decimal `m`. */
  lemma ParseDigits(m: nat)
    ensures ParseUnsignedDecimal(NatToString(m)) == Finite(m, 0)
  {
    var digits := NatToString(m);
    DigitsOfNat(m);
    assert IndexOf(digits, '.') == |digits|;
    assert digits[..|digits|] + "" == digits;
  }

  /** Reading back what `String(n)` wrote gives `n` again, as an integral number, both
      for JavaScript's `Number` and for Lua's `tonumber`. */
  lemma EncodeIntRoundTrip(n: int)
    ensures ParseNumber(EncodeInt(n)) == Finite(n, 0)
    ensures AsInteger(ParseNumber(EncodeInt(n))) == Some(n)
    ensures LuaToNumber(EncodeInt(n)) == Some(n)
  {
    ParseEncodedInt(n);
    NoWhitespaceInEncoding(n);
  }
}
