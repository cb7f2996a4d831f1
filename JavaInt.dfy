/** Java's 32-bit `int`: wrap-around arithmetic, `Integer.toString` and `Integer.parseInt`. */
module JavaInt {
  import opened Wrappers

  const MIN_INT: int := -0x8000_0000
  const MAX_INT: int := 0x7fff_ffff
  const TWO_32: int := 0x1_0000_0000

  predicate IsInt32(n: int) {
    MIN_INT <= n <= MAX_INT
  }

  /** The value a Java `int` expression yields when the mathematical result is `n`. */
  function Wrap32(n: int): (r: int)
    ensures IsInt32(r)
    ensures (n - r) % TWO_32 == 0
    ensures IsInt32(n) ==> r == n
  {
    (n - MIN_INT) % TWO_32 + MIN_INT
  }

  /** Two numbers that agree modulo 2^32 wrap to the same `int`. */
  lemma WrapCongruent(a: int, b: int)
    requires (a - b) % TWO_32 == 0
    ensures Wrap32(a) == Wrap32(b)
  {
    var k := (a - b) / TWO_32;
    assert a - b == k * TWO_32;
    var qb := (b - MIN_INT) / TWO_32;
    var rb := (b - MIN_INT) % TWO_32;
    assert a - MIN_INT == (qb + k) * TWO_32 + rb;
    DivModUnique(a - MIN_INT, qb + k, rb);
  }

  lemma DivModUnique(n: int, q: int, r: int)
    requires 0 <= r < TWO_32
    requires n == q * TWO_32 + r
    ensures n % TWO_32 == r
  {
    var q' := n / TWO_32;
    var r' := n % TWO_32;
    assert (q - q') * TWO_32 == r' - r;
  }

  /** One step of Java's `hash = hash * 31 + field`: wrapping the running value
      before the step or only at the end gives the same `int`. */
  lemma {:induction false} WrapStep(a: int, b: int)
    ensures Wrap32(Wrap32(a) * 31 + b) == Wrap32(a * 31 + b)
  {
    var w := Wrap32(a);
    var k := (a - w) / TWO_32;
    assert a - w == k * TWO_32;
    assert (a * 31 + b) - (w * 31 + b) == (31 * k) * TWO_32;
    WrapCongruent(w * 31 + b, a * 31 + b);
  }

  // ---------------------------------------------------------------------------
  // Decimal text (Integer.toString and Integer.parseInt)

  predicate IsDigit(c: char) {
    '0' <= c <= '9'
  }

  predicate AllDigits(s: string) {
    forall i :: 0 <= i < |s| ==> IsDigit(s[i])
  }

  function DigitChar(d: int): (c: char)
    requires 0 <= d < 10
    ensures IsDigit(c)
  {
    (('0' as int) + d) as char
  }

  function DigitValue(c: char): (d: int)
    requires IsDigit(c)
    ensures 0 <= d < 10
  {
    (c as int) - ('0' as int)
  }

  /** The decimal digits of `n`, most significant first, without leading zeros. */
  function NatToDigits(n: nat): (s: string)
    ensures |s| > 0 && AllDigits(s)
  {
    if n < 10 then [DigitChar(n)] else NatToDigits(n / 10) + [DigitChar(n % 10)]
  }

  /** Java's `Integer.toString` (and string concatenation of an `int`). */
  function IntToString(n: int): (s: string)
    ensures |s| > 0
    ensures forall i :: 0 <= i < |s| ==> s[i] == '-' || IsDigit(s[i])
  {
    if n < 0 then "-" + NatToDigits(-n) else NatToDigits(n)
  }

  /** The number a string of decimal digits denotes. */
  function DigitsValue(s: string): nat
    requires AllDigits(s)
  {
    if s == [] then 0 else DigitsValue(s[..|s| - 1]) * 10 + DigitValue(s[|s| - 1])
  }

  /** The unbounded value of an optionally signed decimal numeral, as Java's
      `Integer.parseInt` reads it before its range check. */
  function ParseDecimal(s: string): Option<int> {
    if |s| == 0 then None
    else
      var digits := if s[0] == '-' || s[0] == '+' then s[1..] else s;
      if |digits| == 0 || !AllDigits(digits) then None
      else if s[0] == '-' then Some(0 - DigitsValue(digits))
      else Some(DigitsValue(digits))
  }

  /** Java's `Integer.valueOf(String)` on ASCII text: `None` where Java throws
      NumberFormatException (empty text, a lone sign, a non-digit, or a value
      outside the `int` range). */
  function ParseInt(s: string): (r: Option<int>)
    ensures r.Some? ==> IsInt32(r.value)
  {
    match ParseDecimal(s)
    case Some(v) => if IsInt32(v) then Some(v) else None
    case None => None
  }

  lemma {:induction false} DigitsRoundTrip(n: nat)
    ensures DigitsValue(NatToDigits(n)) == n
  {
    if n >= 10 {
      DigitsRoundTrip(n / 10);
      var s := NatToDigits(n);
      assert s[..|s| - 1] == NatToDigits(n / 10);
    }
  }

  /** Reading back what `IntToString` printed gives the number again. */
  lemma DecimalRoundTrip(n: int)
    ensures ParseDecimal(IntToString(n)) == Some(n)
  {
    if n < 0 {
      DigitsRoundTrip(-n);
      assert IntToString(n)[1..] == NatToDigits(-n);
    } else {
      DigitsRoundTrip(n);
    }
  }

  /** `Integer.parseInt(Integer.toString(n)) == n` for every `int`. */
  lemma ParseIntRoundTrip(n: int)
    requires IsInt32(n)
    ensures ParseInt(IntToString(n)) == Some(n)
  {
    DecimalRoundTrip(n);
  }

  /** Different numbers print differently. */
  lemma IntToStringInjective(m: int, n: int)
    requires IntToString(m) == IntToString(n)
    ensures m == n
  {
    DecimalRoundTrip(m);
    DecimalRoundTrip(n);
  }
}
