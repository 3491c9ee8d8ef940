/** What a number literal means to the reader (`ParseNumber`, reader.h), stated over the text. */
module Numbers {
  import opened Chars
  import opened Events

  /** The end of the longest run of digits starting at `i`. */
  function DigitsEnd(s: seq<Byte>, i: nat): (j: nat)
    requires i <= |s|
    ensures i <= j <= |s|
    ensures !IsDigit(Peek(s, j))
    ensures forall k :: i <= k < j ==> IsDigit(s[k])
    decreases |s| - i
  {
    if IsDigit(Peek(s, i)) then DigitsEnd(s, i + 1) else i
  }

  predicate AllDigits(ds: seq<Byte>) {
    forall k :: 0 <= k < |ds| ==> IsDigit(ds[k])
  }

  /** The number a digit string denotes in base ten. */
  function Val(ds: seq<Byte>): nat
    requires AllDigits(ds)
  {
    if ds == [] then 0 else Val(ds[..|ds| - 1]) * 10 + (ds[|ds| - 1] - DIGIT_0)
  }

  const MAX_INT32: nat := 0x7FFF_FFFF
  const MAX_UINT32: nat := 0xFFFF_FFFF
  const MAX_INT64: nat := 0x7FFF_FFFF_FFFF_FFFF
  const MAX_UINT64: nat := 0xFFFF_FFFF_FFFF_FFFF
  /** 2^53 - 1: up to here the significand is kept in an integer. */
  const MAX_SIGNIFICAND: nat := 0x1F_FFFF_FFFF_FFFF

  /** The event for an integer literal, or none when it only fits a double. */
  function IntegerEvent(minus: bool, v: nat): (e: Option<Event>)
    ensures e.Some? ==> !e.value.Double?
  {
    if minus then
      if v <= MAX_INT32 + 1 then Some(Int(0 - v))
      else if v <= MAX_INT64 + 1 then Some(Int64(0 - v))
      else None
    else
      if v <= MAX_UINT32 then Some(Uint(v))
      else if v <= MAX_UINT64 then Some(Uint64(v))
      else None
  }

  /**
   * How many fraction digits, from `k` on, move the decimal exponent: all of them while the significand `m`
   * is at most 2^53 - 1, then as many as bring the count `sig` of significant digits to 17.
   */
  function FractionScale(s: seq<Byte>, k: nat, m: nat, sig: nat): (n: nat)
    requires k <= |s|
    ensures n <= DigitsEnd(s, k) - k
    decreases |s| - k
  {
    if !IsDigit(Peek(s, k)) then 0
    else if m <= MAX_SIGNIFICAND then
      var m1 := m * 10 + (s[k] - DIGIT_0);
      1 + FractionScale(s, k + 1, m1, if m1 != 0 then sig + 1 else sig)
    else if sig < 17 then 1 + FractionScale(s, k + 1, m, sig + 1)
    else 0
  }

  datatype Lexed = Number(event: Event, next: nat) | Malformed(code: ErrorCode, offset: nat)

  /** The parts of a literal starting at `i`, as far as it goes. */
  function IntStart(s: seq<Byte>, i: nat): nat {
    if Peek(s, i) == MINUS then i + 1 else i
  }

  function IntEnd(s: seq<Byte>, j: nat): (k: nat)
    requires IsDigit(Peek(s, j))
    ensures j < k <= DigitsEnd(s, j)
  {
    if Peek(s, j) == DIGIT_0 then j + 1 else DigitsEnd(s, j)
  }

  predicate IsExponentMark(b: Byte) { b == LOWER_E || b == UPPER_E }

  function ExponentStart(s: seq<Byte>, f: nat): nat {
    if Peek(s, f + 1) == PLUS || Peek(s, f + 1) == MINUS then f + 2 else f + 1
  }

  /** The literal that starts at `i`. */
  function Lex(c: Config, s: seq<Byte>, i: nat): (r: Lexed)
    requires i <= |s|
    ensures r.Number? ==> i < r.next <= |s|
  {
    var j := IntStart(s, i);
    if !IsDigit(Peek(s, j)) then Malformed(ValueInvalid, j)
    else
      var k := IntEnd(s, j);
      var v := Val(s[j..k]);
      LexTail(c, s, i, k, v, IntegerEvent(Peek(s, i) == MINUS, v), k - j - 1)
  }

  /**
   * The literal from the end `k` of its whole part on, which has value `v`, makes the integer event `whole` if
   * nothing follows, and has `sig` digits after its first.
   */
  function LexTail(c: Config, s: seq<Byte>, i: nat, k: nat, v: nat, whole: Option<Event>, sig: nat): (r: Lexed)
    requires i < k <= |s|
    ensures r.Number? ==> k <= r.next <= |s|
  {
    var frac := Peek(s, k) == DOT;
    if frac && !IsDigit(Peek(s, k + 1)) then Malformed(NumberMissFraction, k + 1)
    else
      var f := if frac then DigitsEnd(s, k + 1) else k;
      var scale := if frac && whole.Some? then FractionScale(s, k + 1, v, sig) else 0;
      if IsExponentMark(Peek(s, f)) then LexExponent(c, s, i, f, scale)
      else if !frac && whole.Some? then Number(whole.value, f)
      else DoubleLiteral(c, s, i, f)
  }

  /** The exponent whose mark is at `f`. A positive one may not exceed 308 plus the digits of the fraction. */
  function LexExponent(c: Config, s: seq<Byte>, i: nat, f: nat, scale: nat): (r: Lexed)
    requires i < f < |s|
    ensures r.Number? ==> f < r.next <= |s|
  {
    var x := ExponentStart(s, f);
    if !IsDigit(Peek(s, x)) then Malformed(NumberMissExponent, x)
    else
      var end := DigitsEnd(s, x);
      if Peek(s, f + 1) != MINUS && Val(s[x..end]) > 308 + scale then Malformed(NumberTooBig, i)
      else DoubleLiteral(c, s, i, end)
  }

  function DoubleLiteral(c: Config, s: seq<Byte>, i: nat, end: nat): Lexed
    requires i <= end <= |s|
  {
    if c.overflows(s[i..end]) then Malformed(NumberTooBig, i) else Number(Double(s[i..end]), end)
  }

  /** A character that a number cannot go on with. */
  predicate EndsNumber(b: Byte) {
    !IsDigit(b) && b != DOT && !IsExponentMark(b)
  }

  /** The end of the fraction behind a whole part that ends at `k`, if there is one, and its scale. */
  function FractionEnd(s: seq<Byte>, k: nat): (f: nat)
    requires k <= |s|
    ensures k <= f <= |s|
  {
    if Peek(s, k) == DOT then DigitsEnd(s, k + 1) else k
  }

  function ScaleOf(s: seq<Byte>, k: nat, v: nat, whole: Option<Event>, sig: nat): nat
    requires k <= |s|
  {
    if Peek(s, k) == DOT && whole.Some? then FractionScale(s, k + 1, v, sig) else 0
  }

  /** What follows the whole part of a literal. */
  lemma TailUnfold(c: Config, s: seq<Byte>, i: nat, k: nat, v: nat, whole: Option<Event>, sig: nat)
    requires i < k <= |s| && (Peek(s, k) == DOT ==> IsDigit(Peek(s, k + 1)))
    ensures var f := FractionEnd(s, k);
            LexTail(c, s, i, k, v, whole, sig) ==
            if IsExponentMark(Peek(s, f)) then LexExponent(c, s, i, f, ScaleOf(s, k, v, whole, sig))
            else if Peek(s, k) != DOT && whole.Some? then Number(whole.value, f)
            else DoubleLiteral(c, s, i, f)
  {
    hide DigitsEnd, FractionScale;
  }

  /** The text is by itself the literal of a double. */
  predicate IsDoubleLiteral(c: Config, lit: seq<Byte>) {
    Lex(c, lit, 0) == Number(Double(lit), |lit|)
  }

  lemma LexUnfold(c: Config, s: seq<Byte>, i: nat)
    requires i <= |s|
    ensures var j := IntStart(s, i);
            if !IsDigit(Peek(s, j)) then Lex(c, s, i) == Malformed(ValueInvalid, j)
            else
              var k := IntEnd(s, j);
              var v := Val(s[j..k]);
              Lex(c, s, i) == LexTail(c, s, i, k, v, IntegerEvent(Peek(s, i) == MINUS, v), k - j - 1)
  {
    hide LexTail, Val, DigitsEnd;
  }

  /** The integer an event carries. */
  function EventInteger(e: Event): Option<int> {
    match e
    case Int(n) => Some(n)
    case Uint(n) => Some(n)
    case Int64(n) => Some(n)
    case Uint64(n) => Some(n)
    case _ => None
  }

  /**
   * A literal of digits alone, of any length: it makes an integer event exactly when its value lies between
   * -2^63 and 2^64 - 1, the event carries that very value, and its type is the narrowest the reader uses;
   * beyond that range the literal is a double, or too big for one.
   */
  lemma IntegerExact(c: Config, s: seq<Byte>, i: nat)
    requires i <= |s| && IsDigit(Peek(s, IntStart(s, i)))
    requires var k := IntEnd(s, IntStart(s, i)); Peek(s, k) != DOT && !IsExponentMark(Peek(s, k))
    ensures var minus, j := Peek(s, i) == MINUS, IntStart(s, i);
            var k := IntEnd(s, j);
            var v: int := if minus then 0 - Val(s[j..k]) else Val(s[j..k]);
            var r := Lex(c, s, i);
            if -0x8000_0000_0000_0000 <= v <= 0xFFFF_FFFF_FFFF_FFFF then
              && r.Number? && r.next == k && EventInteger(r.event) == Some(v)
              && (r.event.Int? <==> minus && v >= -0x8000_0000) && (r.event.Int64? <==> v < -0x8000_0000)
              && (r.event.Uint? <==> !minus && v <= 0xFFFF_FFFF) && (r.event.Uint64? <==> v > 0xFFFF_FFFF)
            else r == if c.overflows(s[i..k]) then Malformed(NumberTooBig, i) else Number(Double(s[i..k]), k)
  {
    hide Val, DigitsEnd, FractionScale;
  }

  // Facts about digit strings.

  lemma ValStep(s: seq<Byte>, j: nat, k: nat)
    requires j <= k < |s| && AllDigits(s[j..k]) && IsDigit(s[k])
    ensures AllDigits(s[j..k + 1]) && Val(s[j..k + 1]) == Val(s[j..k]) * 10 + (s[k] - DIGIT_0)
  {
    assert s[j..k + 1][..k - j] == s[j..k];
  }

  /** Reading on never makes the number smaller. */
  lemma {:induction false} ValGrows(s: seq<Byte>, j: nat, k: nat, m: nat)
    requires j <= k <= m <= |s| && AllDigits(s[j..m])
    ensures AllDigits(s[j..k]) && Val(s[j..k]) <= Val(s[j..m])
    decreases m - k
  {
    forall i | 0 <= i < k - j ensures IsDigit(s[j..k][i]) { assert s[j..k][i] == s[j..m][i]; }
    if k < m {
      assert s[k] == s[j..m][k - j];
      ValStep(s, j, k);
      ValGrows(s, j, k + 1, m);
    }
  }

  /** A run of digits ends where any part of it ends. */
  lemma {:induction false} DigitsEndFrom(s: seq<Byte>, j: nat, k: nat)
    requires j <= k <= |s| && AllDigits(s[j..k])
    ensures DigitsEnd(s, j) == DigitsEnd(s, k) && AllDigits(s[j..DigitsEnd(s, j)])
    decreases k - j
  {
    if j < k {
      assert s[j] == s[j..k][0];
      assert s[j + 1..k] == s[j..k][1..];
      DigitsEndFrom(s, j + 1, k);
    }
  }

  function Pow10(n: nat): nat {
    if n == 0 then 1 else 10 * Pow10(n - 1)
  }

  lemma {:induction false} ValBelowPow(ds: seq<Byte>)
    requires AllDigits(ds)
    ensures Val(ds) < Pow10(|ds|)
  {
    if ds != [] { ValBelowPow(ds[..|ds| - 1]); }
  }

  lemma {:induction false} Pow10Grows(m: nat, n: nat)
    requires m <= n
    ensures 1 <= Pow10(m) <= Pow10(n)
    decreases n
  {
    if n > 0 { Pow10Grows(if m < n then m else m - 1, n - 1); }
  }

  /** A number of 18 decimal places or more has at least that many digits. */
  lemma LongNumber(ds: seq<Byte>)
    requires AllDigits(ds) && Val(ds) >= 922337203685477580
    ensures |ds| >= 18
  {
    ValBelowPow(ds);
    assert Pow10(5) == 100000;
    assert Pow10(11) == 1000000 * Pow10(5);
    assert Pow10(17) == 1000000 * Pow10(11);
    if |ds| < 18 { Pow10Grows(|ds|, 17); }
  }

  /** Digits that go on past `p`, where one more digit exceeds `limit`, make a number above `limit`. */
  lemma PastLimit(s: seq<Byte>, j: nat, p: nat, limit: nat)
    requires j <= p <= |s| && AllDigits(s[j..p]) && IsDigit(Peek(s, p))
    requires Val(s[j..p]) * 10 + (s[p] - DIGIT_0) > limit
    ensures AllDigits(s[j..DigitsEnd(s, j)]) && Val(s[j..DigitsEnd(s, j)]) > limit
  {
    DigitsEndFrom(s, j, p);
    ValStep(s, j, p);
    ValGrows(s, j, p + 1, DigitsEnd(s, j));
  }
}
