/** Numbers: the reader takes exactly the number literals of the grammar that are not too big, with their value. */
module JsonNumbers {
  import opened Chars
  import opened Events
  import opened Numbers
  import J = Json

  lemma {:induction false} ValueAgrees(ds: seq<Byte>)
    requires J.Digits(ds)
    ensures AllDigits(ds) && Val(ds) == J.DecimalValue(ds)
  {
    if ds != [] { ValueAgrees(ds[..|ds| - 1]); }
  }

  /** A run of digits that something else follows. */
  lemma RunEnds(s: seq<Byte>, i: nat, ds: seq<Byte>)
    requires J.Digits(ds) && Occurs(s, i, ds) && !IsDigit(Peek(s, i + |ds|))
    ensures i + |ds| <= |s| && s[i..i + |ds|] == ds && DigitsEnd(s, i) == i + |ds|
  {
    DigitsEndFrom(s, i, i + |ds|);
  }

  lemma {:induction false} CountAgrees(s: seq<Byte>, k: nat, ds: seq<Byte>, m: nat, sig: nat)
    requires k + |ds| <= |s| && s[k..k + |ds|] == ds && J.Digits(ds) && DigitsEnd(s, k) == k + |ds|
    ensures FractionScale(s, k, m, sig) == J.Counted(m, sig, ds)
    decreases |ds|
  {
    if ds != [] {
      assert s[k] == ds[0] && s[k + 1..k + 1 + |ds[1..]|] == ds[1..];
      var m1 := m * 10 + (ds[0] - DIGIT_0);
      CountAgrees(s, k + 1, ds[1..], m1, if m1 != 0 then sig + 1 else sig);
      CountAgrees(s, k + 1, ds[1..], m, sig + 1);
    }
  }

  /** Where the parts of a literal stand in a text. */
  datatype Parts = Parts(j: nat, k: nat, f: nat, end: nat)

  function PartsOf(n: J.Number, i: nat): Parts {
    var j := i + if n.minus then 1 else 0;
    var k := j + |n.whole|;
    var f := k + |J.FractionText(n)|;
    Parts(j, k, f, f + |J.ExponentText(n)|)
  }

  /** The text at `i` is that of `n`, part by part. */
  predicate Stands(s: seq<Byte>, i: nat, n: J.Number) {
    var p := PartsOf(n, i);
    && p.end <= |s| && (n.minus <==> Peek(s, i) == MINUS)
    && s[p.j..p.k] == n.whole && s[p.k..p.f] == J.FractionText(n) && s[p.f..p.end] == J.ExponentText(n)
  }

  lemma OccursStands(s: seq<Byte>, i: nat, n: J.Number)
    requires J.ValidNumber(n) && Occurs(s, i, J.NumberText(n))
    ensures Stands(s, i, n) && PartsOf(n, i).end == i + |J.NumberText(n)|
  {
    hide Occurs, J.FractionText, J.ExponentText;
    var sign := if n.minus then [MINUS] else [];
    var p := PartsOf(n, i);
    assert J.NumberText(n) == sign + (n.whole + (J.FractionText(n) + J.ExponentText(n)));
    OccursSplit(s, i, sign, n.whole + (J.FractionText(n) + J.ExponentText(n)));
    OccursSplit(s, p.j, n.whole, J.FractionText(n) + J.ExponentText(n));
    OccursSplit(s, p.k, J.FractionText(n), J.ExponentText(n));
    OccursSlice(s, p.j, n.whole);
    OccursSlice(s, p.k, J.FractionText(n));
    OccursSlice(s, p.f, J.ExponentText(n));
    if n.minus { OccursAt(s, i, sign, 0); } else { OccursAt(s, i, n.whole, 0); }
  }

  lemma OccursSlice(s: seq<Byte>, i: nat, t: seq<Byte>)
    requires Occurs(s, i, t)
    ensures i + |t| <= |s| && s[i..i + |t|] == t
  {
  }

  lemma StandsText(s: seq<Byte>, i: nat, n: J.Number)
    requires Stands(s, i, n)
    ensures var p := PartsOf(n, i); i <= p.end <= |s| && s[i..p.end] == J.NumberText(n)
  {
    hide J.FractionText, J.ExponentText;
    var p := PartsOf(n, i);
    var sign := if n.minus then [MINUS] else [];
    assert s[i..p.j] == sign;
    assert s[i..p.end] == s[i..p.j] + s[p.j..p.k] + s[p.k..p.f] + s[p.f..p.end];
  }

  /** The text does not go on with the literal. */
  predicate Ends(s: seq<Byte>, i: nat, n: J.Number) {
    var p := PartsOf(n, i);
    && (IsDigit(Peek(s, p.k)) ==> n.whole == [0x30])
    && (if n.fraction == [] then Peek(s, p.k) != DOT else !IsDigit(Peek(s, p.f)))
    && (if n.exponent.NoExponent? then !IsExponentMark(Peek(s, p.f)) else !IsDigit(Peek(s, p.end)))
  }

  lemma EndsAtEnd(s: seq<Byte>, i: nat, n: J.Number)
    requires J.ValidNumber(n) && Stands(s, i, n) && EndsNumber(Peek(s, PartsOf(n, i).end))
    ensures Ends(s, i, n)
  {
    var p := PartsOf(n, i);
    if n.exponent.Exponent? { assert s[p.f] == s[p.f..p.end][0]; }
    if n.fraction != [] { assert s[p.k] == s[p.k..p.f][0]; }
  }

  /** The whole part, as the reader finds it. */
  lemma WholeFound(s: seq<Byte>, i: nat, n: J.Number)
    requires J.ValidNumber(n) && Stands(s, i, n) && Ends(s, i, n)
    ensures var p := PartsOf(n, i);
            && IntStart(s, i) == p.j && IsDigit(Peek(s, p.j)) && IntEnd(s, p.j) == p.k
            && AllDigits(n.whole) && s[p.j..p.k] == n.whole && Val(n.whole) == J.DecimalValue(n.whole)
  {
    hide Val, J.DecimalValue, J.FractionText, J.ExponentText;
    var p := PartsOf(n, i);
    ValueAgrees(n.whole);
    assert s[p.j] == s[p.j..p.k][0];
    if !IsDigit(Peek(s, p.k)) { RunEnds(s, p.j, n.whole); }
  }

  lemma FractionFound(s: seq<Byte>, i: nat, n: J.Number, v: nat, whole: Option<Event>, sig: nat)
    requires J.ValidNumber(n) && Stands(s, i, n) && Ends(s, i, n)
    ensures var p := PartsOf(n, i);
            && (Peek(s, p.k) == DOT <==> n.fraction != []) && (Peek(s, p.k) == DOT ==> IsDigit(Peek(s, p.k + 1)))
            && FractionEnd(s, p.k) == p.f
            && ScaleOf(s, p.k, v, whole, sig) == if whole.Some? then J.Counted(v, sig, n.fraction) else 0
  {
    hide J.ExponentText, FractionScale, DigitsEnd;
    var p := PartsOf(n, i);
    if n.fraction != [] {
      assert s[p.k] == s[p.k..p.f][0] == DOT;
      Behind(s, p.k, p.f, n.fraction);
      RunEnds(s, p.k + 1, n.fraction);
      assert s[p.k + 1] == n.fraction[0];
      CountAgrees(s, p.k + 1, n.fraction, v, sig);
    }
  }

  lemma Behind(s: seq<Byte>, k: nat, f: nat, ds: seq<Byte>)
    requires k < f <= |s| && s[k..f] == [DOT] + ds
    ensures s[k + 1..f] == ds
  {
    assert s[k + 1..f] == s[k..f][1..];
  }

  lemma ExponentFound(c: Config, s: seq<Byte>, i: nat, n: J.Number, scale: nat)
    requires J.ValidNumber(n) && Stands(s, i, n) && Ends(s, i, n) && n.exponent.Exponent?
    ensures var p := PartsOf(n, i);
            && i < p.f < |s| && IsExponentMark(Peek(s, p.f))
            && LexExponent(c, s, i, p.f, scale) ==
               if n.exponent.sign != [0x2D] && J.DecimalValue(n.exponent.digits) > 308 + scale
               then Malformed(NumberTooBig, i)
               else DoubleLiteral(c, s, i, p.end)
  {
    hide Val, J.DecimalValue, J.FractionText, DoubleLiteral;
    var p := PartsOf(n, i);
    var e := n.exponent;
    var x := p.f + 1 + |e.sign|;
    assert s[p.f..p.end] == [e.mark] + e.sign + e.digits;
    assert s[p.f] == s[p.f..p.end][0] && s[p.f + 1] == s[p.f..p.end][1] && s[x] == s[p.f..p.end][x - p.f];
    assert s[x..p.end] == s[p.f..p.end][x - p.f..] == e.digits;
    RunEnds(s, x, e.digits);
    ValueAgrees(e.digits);
    assert ExponentStart(s, p.f) == x;
  }

  /** What the parts make together. */
  function Meaning(c: Config, n: J.Number, i: nat, end: nat): Lexed {
    if J.TooBig(c, n) then Malformed(NumberTooBig, i) else Lexed.Number(J.NumberEvent(n), end)
  }

  lemma NumberRead(c: Config, s: seq<Byte>, i: nat, n: J.Number)
    requires J.ValidNumber(n) && Stands(s, i, n) && Ends(s, i, n)
    ensures Lex(c, s, i) == Meaning(c, n, i, PartsOf(n, i).end)
  {
    hide Val, Lex, LexTail, LexExponent, DigitsEnd, FractionScale, ScaleOf, FractionEnd, J.Counted, Stands;
    hide J.DecimalValue, J.NumberText, J.FractionText, J.ExponentText, IntEnd, IsDigit;
    var p := PartsOf(n, i);
    MarkAtEnd(s, i, n);
    StandsText(s, i, n);
    LexUnfold(c, s, i);
    WholeFound(s, i, n);
    var v := Val(n.whole);
    var whole := IntegerEvent(n.minus, v);
    FractionFound(s, i, n, v, whole, p.k - p.j - 1);
    TailUnfold(c, s, i, p.k, v, whole, p.k - p.j - 1);
    FractionEmpty(n);
    if n.exponent.Exponent? { ExponentFound(c, s, i, n, ScaleOf(s, p.k, v, whole, p.k - p.j - 1)); }
  }

  lemma FractionEmpty(n: J.Number)
    ensures n.fraction == [] <==> J.FractionText(n) == []
    ensures n.exponent.NoExponent? ==> J.ExponentText(n) == []
  {
  }

  lemma MarkAtEnd(s: seq<Byte>, i: nat, n: J.Number)
    requires J.ValidNumber(n) && Stands(s, i, n) && Ends(s, i, n)
    ensures var p := PartsOf(n, i);
            && (IsExponentMark(Peek(s, p.f)) <==> n.exponent.Exponent?) && (n.fraction == [] ==> Peek(s, p.k) != DOT)
            && i < p.k <= p.f <= p.end <= |s|
  {
    var p := PartsOf(n, i);
    if n.exponent.Exponent? { assert s[p.f] == s[p.f..p.end][0]; }
  }

  /** Every literal of the grammar that is not too big is read, where the text does not go on with it. */
  lemma NumberScanned(c: Config, s: seq<Byte>, i: nat, n: J.Number)
    requires J.ValidNumber(n) && !J.TooBig(c, n) && Occurs(s, i, J.NumberText(n))
    requires EndsNumber(Peek(s, i + |J.NumberText(n)|))
    ensures i <= |s| && Lex(c, s, i) == Lexed.Number(J.NumberEvent(n), i + |J.NumberText(n)|)
  {
    hide Lex, Ends, Stands, PartsOf, EndsNumber, J.NumberText, J.TooBig, J.NumberEvent, J.ValidNumber, Occurs;
    OccursStands(s, i, n);
    EndsAtEnd(s, i, n);
    StandsText(s, i, n);
    NumberRead(c, s, i, n);
  }

  /** Whatever is read is a literal of the grammar that is not too big. */
  lemma NumberDerived(c: Config, s: seq<Byte>, i: nat) returns (n: J.Number)
    requires i <= |s| && Lex(c, s, i).Number?
    ensures J.ValidNumber(n) && !J.TooBig(c, n) && Lex(c, s, i).event == J.NumberEvent(n)
    ensures s[i..Lex(c, s, i).next] == J.NumberText(n)
  {
    hide Lex, J.TooBig, J.NumberEvent, J.NumberText;
    n := Found(c, s, i);
    NumberRead(c, s, i, n);
    StandsText(s, i, n);
  }

  /** Whatever is read as a double is so by itself. */
  lemma DoubleAlone(c: Config, s: seq<Byte>, i: nat)
    requires i <= |s| && Lex(c, s, i).Number? && Lex(c, s, i).event.Double?
    ensures var lit := Lex(c, s, i).event.literal;
            Occurs(s, i, lit) && Lex(c, s, i).next == i + |lit| && IsDoubleLiteral(c, lit)
  {
    hide Lex, J.TooBig, J.NumberText, J.IsInteger, J.ValidNumber;
    var n := NumberDerived(c, s, i);
    NumberScanned(c, J.NumberText(n), 0, n);
  }

  /** Wherever a text stands that by itself is a double, it is read as that double, unless a number could go on. */
  lemma DoubleInPlace(c: Config, s: seq<Byte>, i: nat, lit: seq<Byte>)
    requires Occurs(s, i, lit) && IsDoubleLiteral(c, lit) && EndsNumber(Peek(s, i + |lit|))
    ensures Lex(c, s, i) == Lexed.Number(Double(lit), i + |lit|)
  {
    hide Lex, J.TooBig, J.NumberText, J.IsInteger, J.ValidNumber, Occurs;
    var n := NumberDerived(c, lit, 0);
    NumberScanned(c, s, i, n);
  }

  /** All parts of a literal are there. */
  predicate Complete(r: Lexed) {
    r.Number? || r.code.NumberTooBig?
  }

  lemma Found(c: Config, s: seq<Byte>, i: nat) returns (n: J.Number)
    requires i <= |s| && Complete(Lex(c, s, i))
    ensures J.ValidNumber(n) && Stands(s, i, n) && Ends(s, i, n)
  {
    hide Lex, LexTail, Val, IntegerEvent, DigitsEnd, IsDigit, IsExponentMark, FractionEnd, J.Digits, IntEnd;
    hide Stands, Ends, J.ValidNumber, ExponentStands;
    LexUnfold(c, s, i);
    var j := IntStart(s, i);
    var k := IntEnd(s, j);
    WholeShape(s, j);
    var v := Val(s[j..k]);
    TailNotMalformed(c, s, i, k, v, IntegerEvent(Peek(s, i) == MINUS, v), k - j - 1);
    var fraction := FractionShape(s, k);
    var exponent := ExponentShape(s, FractionEnd(s, k));
    n := J.Number(Peek(s, i) == MINUS, s[j..k], fraction, exponent);
    Assembled(s, i, k, FractionEnd(s, k), n);
  }

  lemma Assembled(s: seq<Byte>, i: nat, k: nat, f: nat, n: J.Number)
    requires var j := IntStart(s, i);
             j < k <= f <= |s| && n.minus == (Peek(s, i) == MINUS) && n.whole == s[j..k] && s[k..f] == J.FractionText(n)
    requires n.whole != [] && J.Digits(n.whole) && (n.whole[0] == 0x30 ==> n.whole == [0x30])
    requires IsDigit(Peek(s, k)) ==> n.whole == [0x30]
    requires J.Digits(n.fraction) && if n.fraction == [] then Peek(s, k) != DOT else !IsDigit(Peek(s, f))
    requires ExponentStands(s, f, n.exponent)
    ensures J.ValidNumber(n) && Stands(s, i, n) && Ends(s, i, n)
  {
    hide J.Digits, IsDigit, IsExponentMark, J.FractionText, J.ExponentText, ExponentStands, Stands, Ends;
    ExponentPlaced(s, f, n);
    PartsPlaced(s, i, k, f, n);
    PartsEnd(s, i, k, f, n);
  }

  lemma PartsPlaced(s: seq<Byte>, i: nat, k: nat, f: nat, n: J.Number)
    requires var j := IntStart(s, i);
             j < k <= f <= |s| && n.minus == (Peek(s, i) == MINUS) && n.whole == s[j..k] && s[k..f] == J.FractionText(n)
    requires var end := f + |J.ExponentText(n)|; end <= |s| && s[f..end] == J.ExponentText(n)
    ensures Stands(s, i, n) && PartsOf(n, i).k == k && PartsOf(n, i).f == f
  {
    hide J.FractionText, J.ExponentText;
    assert |s[k..f]| == f - k;
  }

  lemma PartsEnd(s: seq<Byte>, i: nat, k: nat, f: nat, n: J.Number)
    requires PartsOf(n, i).k == k && PartsOf(n, i).f == f && (IsDigit(Peek(s, k)) ==> n.whole == [0x30])
    requires if n.fraction == [] then Peek(s, k) != DOT else !IsDigit(Peek(s, f))
    requires if n.exponent.NoExponent? then !IsExponentMark(Peek(s, f)) else !IsDigit(Peek(s, f + |J.ExponentText(n)|))
    ensures Ends(s, i, n)
  {
    hide J.FractionText, J.ExponentText, IsDigit, IsExponentMark;
  }

  lemma ExponentPlaced(s: seq<Byte>, f: nat, n: J.Number)
    requires f <= |s| && ExponentStands(s, f, n.exponent)
    ensures var end := f + |J.ExponentText(n)|;
            && end <= |s| && s[f..end] == J.ExponentText(n)
            && if n.exponent.NoExponent? then !IsExponentMark(Peek(s, f)) else !IsDigit(Peek(s, end))
    ensures match n.exponent
            case NoExponent => true
            case Exponent(mark, sign, digits) =>
              && (mark == 0x65 || mark == 0x45) && (sign == [] || sign == [0x2B] || sign == [0x2D])
              && digits != [] && J.Digits(digits)
  {
    hide J.Digits, IsDigit, IsExponentMark;
  }

  predicate ExponentStands(s: seq<Byte>, f: nat, e: J.Exponent) {
    match e
    case NoExponent => !IsExponentMark(Peek(s, f))
    case Exponent(mark, sign, digits) =>
      var end := f + 1 + |sign| + |digits|;
      && end <= |s| && s[f..end] == [mark] + sign + digits && !IsDigit(Peek(s, end))
      && (mark == 0x65 || mark == 0x45) && (sign == [] || sign == [0x2B] || sign == [0x2D])
      && digits != [] && J.Digits(digits)
  }

  lemma WholeShape(s: seq<Byte>, j: nat)
    requires IsDigit(Peek(s, j))
    ensures var w := s[j..IntEnd(s, j)];
            && w != [] && J.Digits(w) && (w[0] == 0x30 ==> w == [0x30])
            && (IsDigit(Peek(s, IntEnd(s, j))) ==> w == [0x30])
  {
  }

  lemma FractionShape(s: seq<Byte>, k: nat) returns (fraction: seq<Byte>)
    requires k <= |s| && (Peek(s, k) == DOT ==> IsDigit(Peek(s, k + 1)))
    ensures J.Digits(fraction) && s[k..FractionEnd(s, k)] == if fraction == [] then [] else [0x2E] + fraction
    ensures if fraction == [] then Peek(s, k) != DOT else !IsDigit(Peek(s, FractionEnd(s, k)))
  {
    fraction := [];
    if Peek(s, k) == DOT {
      fraction := s[k + 1..DigitsEnd(s, k + 1)];
      assert s[k..FractionEnd(s, k)] == [s[k]] + fraction;
    }
  }

  lemma ExponentShape(s: seq<Byte>, f: nat) returns (e: J.Exponent)
    requires f <= |s| && (IsExponentMark(Peek(s, f)) ==> IsDigit(Peek(s, ExponentStart(s, f))))
    ensures ExponentStands(s, f, e)
  {
    e := J.NoExponent;
    if IsExponentMark(Peek(s, f)) {
      var x := ExponentStart(s, f);
      var sign, digits := s[f + 1..x], s[x..DigitsEnd(s, x)];
      e := J.Exponent(s[f], sign, digits);
      assert sign == if x == f + 1 then [] else [s[f + 1]];
      DigitRun(s, x);
      hide DigitsEnd, J.Digits;
      assert s[f..DigitsEnd(s, x)] == [s[f]] + sign + digits;
    }
  }

  lemma DigitRun(s: seq<Byte>, x: nat)
    requires IsDigit(Peek(s, x))
    ensures J.Digits(s[x..DigitsEnd(s, x)]) && s[x..DigitsEnd(s, x)] != []
  {
  }

  lemma TailNotMalformed(c: Config, s: seq<Byte>, i: nat, k: nat, v: nat, whole: Option<Event>, sig: nat)
    requires i < k <= |s| && Complete(LexTail(c, s, i, k, v, whole, sig))
    ensures Peek(s, k) == DOT ==> IsDigit(Peek(s, k + 1))
    ensures var f := FractionEnd(s, k); IsExponentMark(Peek(s, f)) ==> IsDigit(Peek(s, ExponentStart(s, f)))
  {
    hide DigitsEnd, FractionScale, Val;
  }
}
