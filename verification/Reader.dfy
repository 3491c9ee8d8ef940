/**
 * `GenericReader` (reader.h): the parsing routines as the source runs them, with a cursor, a stack, a handler
 * and an error field that they update step by step. Each is proved to compute its function.
 */
module ReaderClass {
  import opened Chars
  import opened Events
  import opened Whitespace
  import opened Grammar
  import opened Automaton
  import opened Numbers
  import opened TokenLoop
  import Discipline
  import Equivalence
  import Strings
  import Utf8

  newtype uint64 = x: int | 0 <= x <= 0xFFFF_FFFF_FFFF_FFFF

  predicate InInt32(x: int) {
    -0x8000_0000 <= x <= 0x7FFF_FFFF
  }

  /** `~v + 1` on a word of 32 or 64 bits, read as a signed number: the negative of anything in range. */
  function Negated(v: uint64, wide: bool): (n: int)
    requires InRange(v, true, wide)
    ensures n == 0 - v as int
  {
    var modulus := if wide then MAX_UINT64 + 1 else MAX_UINT32 + 1;
    var complement := modulus - 1 - v as nat;
    var word := (complement + 1) % modulus;
    if word >= modulus / 2 then word - modulus else word
  }

  /** An integer of that sign that the accumulation loops leave in 32 or in 64 bits. */
  predicate InRange(v: uint64, minus: bool, wide: bool) {
    v as nat <= if wide then (if minus then MAX_INT64 + 1 else MAX_UINT64)
                else (if minus then MAX_INT32 + 1 else MAX_UINT32)
  }

  lemma EventInRange(minus: bool, v: uint64, wide: bool)
    requires IntegerEvent(minus, v as nat) ==
             Some(if wide then (if minus then Int64(0 - v as int) else Uint64(v as nat))
                  else (if minus then Int(0 - v as int) else Uint(v as nat)))
    ensures InRange(v, minus, wide)
  {
  }

  class Reader {
    const c: Config
    const s: seq<Byte>
    var pos: nat
    var evs: seq<Event>
    var error: Option<ParseError>
    var stack: seq<nat>
    /** Kept between the calls of the token-by-token interface only. */
    var state: State

    constructor (c: Config, s: seq<Byte>)
      ensures this.c == c && this.s == s
      ensures pos == 0 && evs == [] && error == None && stack == [] && state == StartState
    {
      this.c, this.s := c, s;
      pos, evs, error, stack, state := 0, [], None, [], StartState;
    }

    function Now(): St reads this`pos, this`evs { St(pos, evs) }

    predicate Ready() reads this`pos, this`error { error.None? && pos <= |s| }

    /** The reader's fields say what the outcome says. */
    predicate Shows(r: Outcome) reads this`pos, this`evs, this`error { ShowsAfter(r, None) }

    /** The same for a routine that does not look at the error field, where `was` was found in it. */
    predicate ShowsAfter(r: Outcome, was: Option<ParseError>) reads this`pos, this`evs, this`error {
      match r
      case Ok(st) => error == was && Now() == st
      case Err(code, offset, e) => error == Some(ParseError(code, offset)) && evs == e && pos <= |s|
    }

    /** A call of the handler. */
    method Handle(e: Event) returns (ok: bool)
      modifies this`evs
      ensures evs == old(evs) + [e] && ok == c.accepts(evs)
    {
      evs := evs + [e];
      ok := c.accepts(evs);
    }

    method SetParseError(code: ErrorCode, offset: nat)
      modifies this`error
      ensures error == Some(ParseError(code, offset))
    {
      error := Some(ParseError(code, offset));
    }

    method Consume(b: Byte) returns (took: bool)
      requires pos <= |s| && b != 0
      modifies this`pos
      ensures took == (Chars.Peek(s, old(pos)) == b)
      ensures pos == if took then old(pos) + 1 else old(pos)
      ensures pos <= |s|
    {
      took := Chars.Peek(s, pos) == b;
      if took { pos := pos + 1; }
    }

    method SkipWhitespace()
      requires pos <= |s|
      modifies this`pos
      ensures pos == SkipSpaces(s, old(pos))
    {
      while IsSpace(Chars.Peek(s, pos))
        invariant pos <= |s| && SkipSpaces(s, pos) == SkipSpaces(s, old(pos))
        decreases |s| - pos
      {
        pos := pos + 1;
      }
    }

    method SkipBlockComment() returns (ok: bool)
      requires pos <= |s|
      modifies this`pos, this`error
      ensures match SkipBlock(s, old(pos))
              case Closed(next) => ok && error == old(error) && pos == next
              case Unclosed(offset) => !ok && error == Some(ParseError(UnspecificSyntaxError, offset)) && pos == offset
    {
      while true
        invariant pos <= |s| && error == old(error) && SkipBlock(s, pos) == SkipBlock(s, old(pos))
        decreases |s| - pos
      {
        if Chars.Peek(s, pos) == 0 {
          SetParseError(UnspecificSyntaxError, pos);
          return false;
        }
        var star := Consume(STAR);
        if star {
          var closed := Consume(SLASH);
          if closed { return true; }
        } else {
          pos := pos + 1;
        }
      }
    }

    method SkipLineComment()
      requires pos <= |s|
      modifies this`pos
      ensures pos == SkipLine(s, old(pos))
    {
      var more := true;
      while more && Chars.Peek(s, pos) != 0
        invariant pos <= |s| && SkipLine(s, old(pos)) == if more then SkipLine(s, pos) else pos
        decreases |s| - pos, more
      {
        more := s[pos] != LF;
        pos := pos + 1;
      }
    }

    /** A comment whose first slash has been taken. */
    method SkipComment() returns (ok: bool)
      requires 0 < pos <= |s| && s[pos - 1] == SLASH
      modifies this`pos, this`error
      ensures match Whitespace.SkipComment(s, old(pos) - 1)
              case Closed(next) => ok && error == old(error) && pos == next
              case Unclosed(offset) => !ok && error == Some(ParseError(UnspecificSyntaxError, offset)) && pos == offset
    {
      var block := Consume(STAR);
      if block {
        ok := SkipBlockComment();
      } else {
        ok := Consume(SLASH);
        if ok {
          SkipLineComment();
        } else {
          SetParseError(UnspecificSyntaxError, pos);
        }
      }
    }

    /** The cursor stays where a malformed comment is noticed. */
    method SkipWhitespaceAndComments()
      requires pos <= |s|
      modifies this`pos, this`error
      ensures ShowsAfter(Ws(c, s, old(Now())), old(error)) && Now() == Reached(c, s, old(Now()))
    {
      hide SkipSpaces, Whitespace.SkipComment;
      SkipWhitespace();
      if !c.comments { return; }
      ghost var all := SkipComments(s, Now());
      var slash := Consume(SLASH);
      while slash
        invariant pos <= |s| && error == old(error)
        invariant slash ==> pos > 0 && s[pos - 1] == SLASH && all == SkipComments(s, St(pos - 1, evs))
        invariant !slash ==> all == Ok(Now())
        decreases |s| - pos, slash
      {
        var ok := SkipComment();
        if !ok { return; }
        SkipWhitespace();
        slash := Consume(SLASH);
      }
    }

    method ParseLiteral(lit: seq<Byte>, e: Event)
      requires pos < |s| && |lit| > 0
      requires forall m :: 0 <= m < |lit| ==> lit[m] != 0
      modifies this`pos, this`evs, this`error
      ensures ShowsAfter(PLiteral(c, s, old(Now()), lit, e), old(error))
    {
      pos := pos + 1;
      ghost var j := MatchEnd(s, pos, lit, 1);
      var k := 1;
      while k < |lit| && Chars.Peek(s, pos) == lit[k]
        invariant 1 <= k <= |lit| && pos == old(pos) + k <= |s|
        invariant MatchEnd(s, pos, lit, k) == j && error == old(error) && evs == old(evs)
      {
        pos, k := pos + 1, k + 1;
      }
      if k == |lit| {
        var ok := Handle(e);
        if !ok { SetParseError(Termination, pos); }
      } else {
        SetParseError(ValueInvalid, pos);
      }
    }

    method ParseHex4(escapeOffset: nat) returns (codepoint: nat)
      requires pos <= |s|
      modifies this`pos, this`error
      ensures pos <= |s|
      ensures var h := Strings.HexDigits(s, old(pos), 4);
              if h.Some? then error == old(error) && codepoint == h.value && pos == old(pos) + 4
              else error == Some(ParseError(StringUnicodeEscapeInvalidHex, escapeOffset))
    {
      codepoint := 0;
      ghost var start := pos;
      for i := 0 to 4
        invariant error == old(error) && pos == start + i <= |s|
        invariant Strings.HexDigits(s, start, i) == Some(codepoint)
      {
        var h := Strings.HexValue(Chars.Peek(s, pos));
        if h.None? {
          Strings.HexStuck(s, start, i + 1);
          SetParseError(StringUnicodeEscapeInvalidHex, escapeOffset);
          return;
        }
        codepoint := codepoint * 16 + h.value;
        pos := pos + 1;
      }
    }

    /** The `\\` branch of the decoding loop: the bytes it puts, and whether the loop goes on. */
    method ParseEscape() returns (put: seq<Byte>, ok: bool)
      requires pos <= |s| && Chars.Peek(s, pos) == BACKSLASH
      modifies this`pos, this`error
      ensures pos <= |s| && (ok ==> old(pos) < pos && error == old(error)) && (!ok ==> error.Some?)
      ensures old(error).None? ==>
                match Strings.NextUnit(s, old(pos))
                case Piece(bytes, next) => ok && put == bytes && pos == next
                case Bad(code, offset) => !ok && error == Some(ParseError(code, offset))
                case Close => false
    {
      put, ok := [], false;
      var escapeOffset := pos;
      pos := pos + 1;
      var e := Chars.Peek(s, pos);
      if Strings.SimpleEscape(e) != 0 {
        pos := pos + 1;
        put := [Strings.SimpleEscape(e)];
      } else if e == LOWER_U {
        pos := pos + 1;
        var codepoint := ParseHex4(escapeOffset);
        if error.Some? { return; }
        if Strings.IsLead(codepoint) {
          var second := Consume(BACKSLASH);
          if second { second := Consume(LOWER_U); }
          if !second {
            SetParseError(StringUnicodeSurrogateInvalid, escapeOffset);
            return;
          }
          var codepoint2 := ParseHex4(escapeOffset);
          if error.Some? { return; }
          if !Strings.IsTrail(codepoint2) {
            SetParseError(StringUnicodeSurrogateInvalid, escapeOffset);
            return;
          }
          codepoint := Strings.Combine(codepoint, codepoint2);
        }
        put := Utf8.Encode(codepoint);
      } else {
        SetParseError(StringEscapeInvalid, escapeOffset);
        return;
      }
      ok := true;
    }

    /** `ParseStringToStream`: appends the text up to the closing quote to a buffer. */
    method ParseStringToStream() returns (out: seq<Byte>)
      requires pos <= |s|
      modifies this`pos, this`error
      ensures pos <= |s| && (old(error).Some? ==> error.Some?)
      ensures old(error).None? ==>
                match Strings.Decode(s, old(pos))
                case Text(bytes, next) => error.None? && out == bytes && pos == next
                case Invalid(code, offset) => error == Some(ParseError(code, offset))
    {
      out := [];
      ghost var whole := Strings.Decode(s, pos);
      while true
        invariant pos <= |s| && error == old(error)
        invariant error.None? ==> whole == Strings.Prepend(out, Strings.Decode(s, pos))
        decreases |s| - pos
      {
        var b := Chars.Peek(s, pos);
        ghost var rest := Strings.Decode(s, pos);
        var put;
        if b == BACKSLASH {
          var ok;
          put, ok := ParseEscape();
          if !ok { return; }
        } else if b == QUOTE {
          pos := pos + 1;
          assert out + [] == out;
          return;
        } else if b < 0x20 {
          SetParseError(if b == 0 then StringMissQuotationMark else StringInvalidEncoding, pos);
          return;
        } else {
          put := [b];
          pos := pos + 1;
        }
        Strings.PrependPiece(out, put, Strings.Decode(s, pos));
        out := out + put;
      }
    }

    /** With an error set already, the string is taken but not sent. */
    method ParseString(isKey: bool)
      requires pos <= |s| && Chars.Peek(s, pos) == QUOTE
      modifies this`pos, this`evs, this`error
      ensures pos <= |s|
      ensures old(error).None? ==> Shows(PString(c, s, old(Now()), isKey))
      ensures old(error).Some? ==> error.Some? && evs == old(evs)
    {
      pos := pos + 1;
      var text := ParseStringToStream();
      if error.Some? { return; }
      var ok := Handle(StringEvent(isKey, text));
      if !ok { SetParseError(Termination, pos); }
    }

    /**
     * One of the four accumulation loops of `ParseNumber`: goes on while the next value is at most
     * `bound * 10 + last`, the largest one of the integer type in hand.
     */
    method Accumulate(v0: uint64, bound: uint64, last: Byte, ghost j: nat) returns (v: uint64, stopped: bool)
      requires pos <= |s| && j <= pos && AllDigits(s[j..pos]) && Val(s[j..pos]) == v0 as nat
      requires IsDigit(last) && v0 as nat <= bound as nat * 10 + (last - DIGIT_0) <= MAX_UINT64
      modifies this`pos
      ensures old(pos) <= pos <= |s| && AllDigits(s[j..pos]) && Val(s[j..pos]) == v as nat
      ensures v as nat <= bound as nat * 10 + (last - DIGIT_0)
      ensures stopped == IsDigit(Chars.Peek(s, pos))
      ensures stopped ==> v >= bound && v as nat * 10 + (s[pos] - DIGIT_0) > bound as nat * 10 + (last - DIGIT_0)
    {
      v, stopped := v0, false;
      while IsDigit(Chars.Peek(s, pos))
        invariant old(pos) <= pos <= |s| && AllDigits(s[j..pos]) && Val(s[j..pos]) == v as nat
        invariant v as nat <= bound as nat * 10 + (last - DIGIT_0)
        decreases |s| - pos
      {
        var b := s[pos];
        if v >= bound && (v != bound || b > last) {
          stopped := true;
          return;
        }
        ValStep(s, j, pos);
        v := v * 10 + (b - DIGIT_0) as uint64;
        pos := pos + 1;
      }
    }

    method SkipDigits()
      requires pos <= |s|
      modifies this`pos
      ensures pos == DigitsEnd(s, old(pos))
    {
      while IsDigit(Chars.Peek(s, pos))
        invariant pos <= |s| && DigitsEnd(s, pos) == DigitsEnd(s, old(pos))
        decreases |s| - pos
      {
        pos := pos + 1;
      }
    }

    /** The 64-bit loops, once the 32-bit ones have given up before the digit at the cursor. */
    method ParseWide(minus: bool, v0: uint64, ghost j: nat) returns (v: uint64, big: bool)
      requires pos <= |s| && j <= pos && AllDigits(s[j..pos]) && Val(s[j..pos]) == v0 as nat <= MAX_INT32 * 3
      modifies this`pos
      ensures old(pos) <= pos <= |s| && AllDigits(s[j..pos]) && Val(s[j..pos]) == v as nat
      ensures v as nat <= if minus then MAX_INT64 + 1 else MAX_UINT64
      ensures DigitsEnd(s, j) == DigitsEnd(s, pos) && AllDigits(s[j..DigitsEnd(s, j)])
      ensures big ==> v >= 922337203685477580
      ensures if big then Val(s[j..DigitsEnd(s, j)]) > (if minus then MAX_INT64 + 1 else MAX_UINT64)
              else pos == DigitsEnd(s, j)
    {
      if minus {
        v, big := Accumulate(v0, 922337203685477580, 0x38, j);
      } else {
        v, big := Accumulate(v0, 1844674407370955161, 0x35, j);
      }
      DigitsEndFrom(s, j, pos);
      if big {
        PastLimit(s, j, pos, if minus then MAX_INT64 + 1 else MAX_UINT64);
      }
    }

    /**
     * The digits before the point. The value is `v` when it fits the integer types; `wide` says that it took
     * the 64-bit loop, `big` that not even that one could hold it.
     */
    method ParseInteger(minus: bool) returns (v: uint64, wide: bool, big: bool, sig: nat)
      requires pos <= |s| && IsDigit(Chars.Peek(s, pos))
      modifies this`pos
      ensures var j := old(pos);
              && pos == IntEnd(s, j) && AllDigits(s[j..pos])
              && (!big ==> Val(s[j..pos]) == v as nat && sig == pos - j - 1)
              && (big ==> wide && sig >= 17)
              && IntegerEvent(minus, Val(s[j..pos])) ==
                 if big then None
                 else if wide then Some(if minus then Int64(0 - v as int) else Uint64(v as nat))
                 else Some(if minus then Int(0 - v as int) else Uint(v as nat))
    {
      hide Val, DigitsEnd;
      var j := pos;
      wide, big := false, false;
      v := (s[pos] - DIGIT_0) as uint64;
      FirstDigit(j);
      pos := pos + 1;
      if v == 0 { return v, false, false, 0; }
      if minus {
        v, wide := Accumulate(v, 214748364, 0x38, j);
      } else {
        v, wide := Accumulate(v, 429496729, 0x35, j);
      }
      DigitsEndFrom(s, j, pos);
      if wide {
        PastLimit(s, j, pos, if minus then MAX_INT32 + 1 else MAX_UINT32);
        v, big := ParseWide(minus, v, j);
      }
      sig := pos - j - 1;  // the loops count every digit after the first
      if big {
        LongNumber(s[j..pos]);
        SkipDigits();
      }
    }

    lemma FirstDigit(j: nat)
      requires j < |s| && IsDigit(s[j])
      ensures AllDigits(s[j..j + 1]) && Val(s[j..j + 1]) == s[j] - DIGIT_0
    {
      assert s[j..j + 1] == [s[j]];
      assert [s[j]][..0] == [];
    }

    /** The digits after the point: moves the decimal exponent down by their scale. */
    method ParseFraction(v: uint64, big: bool, sig0: nat) returns (expFrac: int)
      requires pos <= |s| && IsDigit(Chars.Peek(s, pos)) && (big ==> sig0 >= 17)
      modifies this`pos
      ensures pos == DigitsEnd(s, old(pos))
      ensures -expFrac == if big then 0 else FractionScale(s, old(pos), v as nat, sig0)
      ensures pos - old(pos) < 100_000_000 ==> InInt32(expFrac)
    {
      expFrac := 0;
      var sig := sig0;
      ghost var scale := if big then 0 else FractionScale(s, pos, v as nat, sig0);
      var m := v;
      if !big {
        while IsDigit(Chars.Peek(s, pos)) && m as nat <= MAX_SIGNIFICAND
          invariant pos <= |s| && DigitsEnd(s, pos) == DigitsEnd(s, old(pos)) && old(pos) <= pos
          invariant scale == -expFrac + FractionScale(s, pos, m as nat, sig)
          invariant 0 <= -expFrac <= pos - old(pos)
          decreases |s| - pos
        {
          m := m * 10 + (s[pos] - DIGIT_0) as uint64;
          pos := pos + 1;
          expFrac := expFrac - 1;
          if m != 0 { sig := sig + 1; }
        }
      }
      var more := ParseLongFraction(m as nat, big, sig);
      expFrac := expFrac + more;
    }

    /** The second loop: the significand is a double now, and only 17 of its digits count. */
    method ParseLongFraction(ghost m: nat, ghost big: bool, sig0: nat) returns (expFrac: int)
      requires pos <= |s| && (big ==> sig0 >= 17)
      requires IsDigit(Chars.Peek(s, pos)) && !big ==> m > MAX_SIGNIFICAND
      modifies this`pos
      ensures pos == DigitsEnd(s, old(pos))
      ensures -expFrac == if big then 0 else FractionScale(s, old(pos), m, sig0)
      ensures 0 <= -expFrac <= pos - old(pos)
    {
      expFrac := 0;
      var sig := sig0;
      while IsDigit(Chars.Peek(s, pos))
        invariant pos <= |s| && DigitsEnd(s, pos) == DigitsEnd(s, old(pos)) && old(pos) <= pos
        invariant IsDigit(Chars.Peek(s, pos)) && !big ==> m > MAX_SIGNIFICAND
        invariant !big ==> FractionScale(s, old(pos), m, sig0) == -expFrac + FractionScale(s, pos, m, sig)
        invariant big ==> sig >= 17 && expFrac == 0
        invariant 0 <= -expFrac <= pos - old(pos)
        decreases |s| - pos
      {
        if sig < 17 {
          // The double built so far is positive here: it exceeds 2^53 - 1.
          expFrac, sig := expFrac - 1, sig + 1;
        }
        pos := pos + 1;
      }
    }

    /**
     * The digits of a negative exponent. With a fraction scale above -10^8 every value of `exp` on the way,
     * and its sum with the scale, fits 32 bits.
     */
    method ParseNegativeExponent(expFrac: int) returns (exp: int)
      requires pos <= |s| && IsDigit(Chars.Peek(s, pos)) && expFrac <= 0
      modifies this`pos
      ensures pos == DigitsEnd(s, old(pos))
      ensures expFrac > -100_000_000 ==> InInt32(exp) && InInt32(-exp + expFrac)
    {
      exp := s[pos] - DIGIT_0;
      pos := pos + 1;
      var maxExp := (expFrac + 2147483639) / 10;
      while IsDigit(Chars.Peek(s, pos))
        invariant pos <= |s| && DigitsEnd(s, pos) == DigitsEnd(s, old(pos))
        invariant expFrac > -100_000_000 ==> 0 <= exp <= maxExp * 10 + 9
        invariant expFrac > -100_000_000 && IsDigit(Chars.Peek(s, pos)) ==> exp <= maxExp
        decreases |s| - pos
      {
        assert expFrac > -100_000_000 ==> InInt32(exp * 10 + 9);
        exp := exp * 10 + (s[pos] - DIGIT_0);
        pos := pos + 1;
        if exp > maxExp { SkipDigits(); }
      }
    }

    /** The digits of a positive exponent, unless it goes out of range; 32 bits hold it as above. */
    method ParsePositiveExponent(expFrac: int) returns (exp: int, tooBig: bool)
      requires pos <= |s| && IsDigit(Chars.Peek(s, pos)) && expFrac <= 0
      modifies this`pos
      ensures pos <= |s|
      ensures tooBig == (Val(s[old(pos)..DigitsEnd(s, old(pos))]) > 308 - expFrac)
      ensures !tooBig ==> pos == DigitsEnd(s, old(pos))
      ensures expFrac > -100_000_000 ==> InInt32(exp) && InInt32(exp + expFrac)
    {
      ghost var x := pos;
      tooBig := false;
      exp := s[pos] - DIGIT_0;
      assert s[x..x + 1] == [s[x]];
      pos := pos + 1;
      var maxExp := 308 - expFrac;
      while IsDigit(Chars.Peek(s, pos))
        invariant pos <= |s| && x < pos && AllDigits(s[x..pos]) && exp == Val(s[x..pos]) <= maxExp
        decreases |s| - pos
      {
        assert expFrac > -100_000_000 ==> InInt32(exp * 10 + 9);
        exp := exp * 10 + (s[pos] - DIGIT_0);
        ValStep(s, x, pos);
        pos := pos + 1;
        if exp > maxExp {
          DigitsEndFrom(s, x, pos);
          ValGrows(s, x, pos, DigitsEnd(s, x));
          tooBig := true;
          return;
        }
      }
      DigitsEndFrom(s, x, pos);
    }

    /** Everything after the exponent mark. */
    method ParseExponent(startOffset: nat, expFrac: int) returns (ok: bool)
      requires 0 < pos <= |s| && expFrac <= 0
      modifies this`pos, this`error
      ensures pos <= |s|
      ensures var x := ExponentStart(s, old(pos) - 1);
              if !IsDigit(Chars.Peek(s, x)) then !ok && error == Some(ParseError(NumberMissExponent, x))
              else if Chars.Peek(s, old(pos)) != MINUS && Val(s[x..DigitsEnd(s, x)]) > 308 - expFrac then
                !ok && error == Some(ParseError(NumberTooBig, startOffset))
              else ok && error == old(error) && pos == DigitsEnd(s, x)
    {
      ok := true;
      var plus := Consume(PLUS);
      var expMinus := false;
      if !plus { expMinus := Consume(MINUS); }
      if !IsDigit(Chars.Peek(s, pos)) {
        SetParseError(NumberMissExponent, pos);
        ok := false;
      } else if expMinus {
        var exp := ParseNegativeExponent(expFrac);
      } else {
        var exp, tooBig := ParsePositiveExponent(expFrac);
        if tooBig { SetParseError(NumberTooBig, startOffset); }
        ok := !tooBig;
      }
    }

    method ParseNumber()
      requires pos <= |s|
      modifies this`pos, this`evs, this`error
      ensures ShowsAfter(PNumber(c, s, old(Now())), old(error))
    {
      hide DigitsEnd, Val, AllDigits, IntegerEvent, Lex, LexTail, IntEnd, InRange, Emit;
      var startOffset := pos;
      Numbers.LexUnfold(c, s, startOffset);
      var minus := Consume(MINUS);
      if !IsDigit(Chars.Peek(s, pos)) {
        SetParseError(ValueInvalid, pos);
        return;
      }
      var v, wide, big, sig := ParseInteger(minus);
      ghost var whole := Some(if wide then (if minus then Int64(0 - v as int) else Uint64(v as nat))
                              else (if minus then Int(0 - v as int) else Uint(v as nat)));
      ghost var j := IntStart(s, startOffset);
      ghost var value := Val(s[j..pos]);
      assert Lex(c, s, startOffset) == LexTail(c, s, startOffset, pos, value, if big then None else whole, pos - j - 1);
      TailWithoutValue(startOffset, pos, value, pos - j - 1, v as nat, sig);
      if !big { EventInRange(minus, v, wide); }
      ParseTail(startOffset, minus, v, wide, big, sig);
    }

    /** Behind a whole part too big for an integer, neither its value nor its digits count. */
    lemma TailWithoutValue(i: nat, k: nat, v: nat, sig: nat, v1: nat, sig1: nat)
      requires i < k <= |s|
      ensures LexTail(c, s, i, k, v, None, sig) == LexTail(c, s, i, k, v1, None, sig1)
    {
    }

    /** Fraction, exponent, and the event. */
    method ParseTail(startOffset: nat, minus: bool, v: uint64, wide: bool, big: bool, sig: nat)
      requires pos <= |s| && startOffset < pos && (big ==> wide && sig >= 17) && (!big ==> InRange(v, minus, wide))
      modifies this`pos, this`evs, this`error
      ensures var whole := if wide then (if minus then Int64(0 - v as int) else Uint64(v as nat))
                           else (if minus then Int(0 - v as int) else Uint(v as nat));
              ShowsAfter(Grammar.Sent(c, St(startOffset, old(evs)),
                           LexTail(c, s, startOffset, old(pos), v as nat, if big then None else Some(whole), sig)),
                         old(error))
    {
      hide DigitsEnd, FractionScale, LexExponent, Emit;
      var useDouble := big;
      var expFrac := 0;
      var point := Consume(DOT);
      if point {
        if !IsDigit(Chars.Peek(s, pos)) {
          SetParseError(NumberMissFraction, pos);
          return;
        }
        expFrac := ParseFraction(v, big, sig);
        useDouble := true;
      }
      var mark := Consume(LOWER_E);
      if !mark { mark := Consume(UPPER_E); }
      if mark {
        ParseExponentTail(startOffset, expFrac);
      } else {
        Report(startOffset, minus, v, wide, useDouble);
      }
    }

    method ParseExponentTail(startOffset: nat, expFrac: int)
      requires pos <= |s| && startOffset < pos - 1 && expFrac <= 0
      modifies this`pos, this`evs, this`error
      ensures ShowsAfter(Grammar.Sent(c, St(startOffset, old(evs)),
                           LexExponent(c, s, startOffset, old(pos) - 1, -expFrac)),
                         old(error))
    {
      var ok := ParseExponent(startOffset, expFrac);
      if !ok { return; }
      Report(startOffset, false, 0, false, true);
    }

    /** Calls the handler according to the type of the number. */
    method Report(startOffset: nat, minus: bool, v: uint64, wide: bool, useDouble: bool)
      requires pos <= |s| && startOffset <= pos && (!useDouble ==> InRange(v, minus, wide))
      modifies this`evs, this`error
      ensures var e := if useDouble then Double(s[startOffset..pos])
                       else if wide then (if minus then Int64(0 - v as int) else Uint64(v as nat))
                       else (if minus then Int(0 - v as int) else Uint(v as nat));
              if useDouble && c.overflows(s[startOffset..pos]) then
                evs == old(evs) && error == Some(ParseError(NumberTooBig, startOffset))
              else ShowsAfter(Emit(c, old(Now()), e, pos, startOffset), old(error))
    {
      var ok;
      if useDouble {
        if c.overflows(s[startOffset..pos]) {
          SetParseError(NumberTooBig, startOffset);
          return;
        }
        ok := Handle(Double(s[startOffset..pos]));
      } else if wide {
        ok := Handle(if minus then Int64(Negated(v, true)) else Uint64(v as nat));
      } else {
        ok := Handle(if minus then Int(Negated(v, false)) else Uint(v as nat));
      }
      if !ok { SetParseError(Termination, startOffset); }
    }

    /** With an error set already, only scalars are read; a string among them is not sent. */
    method ParseValue()
      requires pos <= |s| && (error.Some? ==> Chars.Peek(s, pos) != LBRACE && Chars.Peek(s, pos) != LBRACKET)
      modifies this`pos, this`evs, this`error
      ensures pos <= |s|
      ensures old(error).None? || Chars.Peek(s, old(pos)) != QUOTE ==>
                ShowsAfter(PValue(c, s, old(Now())), old(error))
      ensures old(error).Some? ==> error.Some? && (Chars.Peek(s, old(pos)) == QUOTE ==> evs == old(evs))
      decreases |s| - pos, 1
    {
      var b := Chars.Peek(s, pos);
      if b == LOWER_N { ParseLiteral(NULL_TEXT, Null); }
      else if b == LOWER_T { ParseLiteral(TRUE_TEXT, Bool(true)); }
      else if b == LOWER_F { ParseLiteral(FALSE_TEXT, Bool(false)); }
      else if b == QUOTE { ParseString(false); }
      else if b == LBRACE { ParseObject(); }
      else if b == LBRACKET { ParseArray(); }
      else { ParseNumber(); }
    }

    method ParseObject()
      requires Ready() && Chars.Peek(s, pos) == LBRACE
      modifies this`pos, this`evs, this`error
      ensures Shows(PObject(c, s, old(Now())))
      decreases |s| - pos, 0
    {
      pos := pos + 1;
      var ok := Handle(StartObject);
      if !ok { SetParseError(Termination, pos); return; }
      SkipWhitespaceAndComments();
      if error.Some? { return; }
      var empty := Consume(RBRACE);
      if empty {
        ok := Handle(EndObject(0));
        if !ok { SetParseError(Termination, pos); }
        return;
      }
      ghost var all := PMembers(c, s, Now(), 0);
      var memberCount := 0;
      while true
        invariant Ready() && old(pos) < pos && all == PMembers(c, s, Now(), memberCount)
        decreases |s| - pos
      {
        ParseMember();
        if error.Some? { return; }
        memberCount := Increment(memberCount);
        assert all == PMemberEnd(c, s, Now(), memberCount);
        var done := EndOfMember(memberCount);
        if done { return; }
      }
    }

    method ParseMember()
      requires Ready()
      modifies this`pos, this`evs, this`error
      ensures Shows(PMember(c, s, old(Now())))
      decreases |s| - pos, 2
    {
      hide PString, PValue, Ws;
      if Chars.Peek(s, pos) != QUOTE { SetParseError(ObjectMissName, pos); return; }
      ParseString(true);
      if error.Some? { return; }
      SkipWhitespaceAndComments();
      if error.Some? { return; }
      var colon := Consume(COLON);
      if !colon { SetParseError(ObjectMissColon, pos); return; }
      SkipWhitespaceAndComments();
      if error.Some? { return; }
      ParseValue();
      if error.Some? { return; }
      SkipWhitespaceAndComments();
    }

    /** After a member: says whether the object, or the whole parse, is over. */
    method EndOfMember(memberCount: nat) returns (done: bool)
      requires Ready()
      modifies this`pos, this`evs, this`error
      ensures var r := PMemberEnd(c, s, old(Now()), memberCount);
              if done then Shows(r) else Ready() && old(pos) < pos && r == PMembers(c, s, Now(), memberCount)
    {
      var b := Chars.Peek(s, pos);
      if b == COMMA {
        pos := pos + 1;
        SkipWhitespaceAndComments();
        if error.Some? { return true; }
      } else if b == RBRACE {
        pos := pos + 1;
        var ok := Handle(EndObject(memberCount));
        if !ok { SetParseError(Termination, pos); }
        return true;
      } else {
        SetParseError(ObjectMissCommaOrCurlyBracket, pos);
        return true;
      }
      if c.trailingCommas && Chars.Peek(s, pos) == RBRACE {
        var ok := Handle(EndObject(memberCount));
        if !ok { SetParseError(Termination, pos); return true; }
        pos := pos + 1;
        return true;
      }
      return false;
    }

    method ParseArray()
      requires Ready() && Chars.Peek(s, pos) == LBRACKET
      modifies this`pos, this`evs, this`error
      ensures Shows(PArray(c, s, old(Now())))
      decreases |s| - pos, 0
    {
      pos := pos + 1;
      var ok := Handle(StartArray);
      if !ok { SetParseError(Termination, pos); return; }
      SkipWhitespaceAndComments();
      if error.Some? { return; }
      var empty := Consume(RBRACKET);
      if empty {
        ok := Handle(EndArray(0));
        if !ok { SetParseError(Termination, pos); }
        return;
      }
      ghost var all := PElements(c, s, Now(), 0);
      var elementCount := 0;
      while true
        invariant Ready() && old(pos) < pos && all == PElements(c, s, Now(), elementCount)
        decreases |s| - pos
      {
        ParseValue();
        if error.Some? { return; }
        elementCount := Increment(elementCount);
        SkipWhitespaceAndComments();
        if error.Some? { return; }
        assert all == PElementEnd(c, s, Now(), elementCount);
        var done := EndOfElement(elementCount);
        if done { return; }
      }
    }

    method EndOfElement(elementCount: nat) returns (done: bool)
      requires Ready()
      modifies this`pos, this`evs, this`error
      ensures var r := PElementEnd(c, s, old(Now()), elementCount);
              if done then Shows(r) else Ready() && old(pos) < pos && r == PElements(c, s, Now(), elementCount)
    {
      var comma := Consume(COMMA);
      if comma {
        SkipWhitespaceAndComments();
        if error.Some? { return true; }
      } else {
        var close := Consume(RBRACKET);
        if close {
          var ok := Handle(EndArray(elementCount));
          if !ok { SetParseError(Termination, pos); }
        } else {
          SetParseError(ArrayMissCommaOrSquareBracket, pos);
        }
        return true;
      }
      if c.trailingCommas && Chars.Peek(s, pos) == RBRACKET {
        var ok := Handle(EndArray(elementCount));
        if !ok { SetParseError(Termination, pos); return true; }
        pos := pos + 1;
        return true;
      }
      return false;
    }

    /** `Parse` without the iterative flag. */
    method Parse()
      requires pos == 0 && evs == [] && error.None?
      modifies this`pos, this`evs, this`error
      ensures Shows(Grammar.Parse(c, s))
    {
      SkipWhitespaceAndComments();
      if error.Some? { return; }
      if Chars.Peek(s, pos) == 0 { SetParseError(DocumentEmpty, pos); return; }
      ParseValue();
      if error.Some? || c.stopWhenDone { return; }
      SkipWhitespaceAndComments();
      if error.Some? { return; }
      if Chars.Peek(s, pos) != 0 { SetParseError(DocumentRootNotSingular, pos); }
    }

    // The iterative parser.

    predicate InsideAt(k: Conf) reads this`pos, this`evs, this`stack {
      pos <= |s| && Wf(k) && k.stack == stack && k.st == Now()
    }

    predicate ReadyAt(k: Conf) reads this`pos, this`evs, this`error, this`stack {
      error.None? && InsideAt(k)
    }

    /**
     * The fields say what a step of the automaton says, where `was` was found in the error field; after a failure
     * the stack is of no interest.
     */
    predicate Took(state: State, t: Step, was: Option<ParseError>)
      reads this`pos, this`evs, this`error, this`stack
    {
      match t
      case Go(next) => error == was && next == Conf(state, stack, Now())
      case Fail(code, offset, e) =>
        error == Some(ParseError(code, offset)) && evs == e && pos <= |s| && state.ErrorState?
      case Stuck => error == was && state.ErrorState?
    }

    /** The same for a step taken with an error set. */
    predicate TookDirty(state: State, t: Turned) reads this`pos, this`evs, this`error, this`stack {
      && error.Some?
      && match t
         case Goes(next) => next == Conf(state, stack, Now())
         case Ends(e) => evs == e && pos <= |s| && state.ErrorState?
    }

    method Push(n: nat)
      modifies this`stack
      ensures stack == old(stack) + [n]
    {
      stack := stack + [n];
    }

    method Pop() returns (n: nat)
      requires stack != []
      modifies this`stack
      ensures n == old(stack)[|old(stack)| - 1] && stack == old(stack)[..|old(stack)| - 1]
    {
      n := stack[|stack| - 1];
      stack := stack[..|stack| - 1];
    }

    method Transit(src: State, dst: State) returns (state: State)
      requires InsideAt(Conf(src, stack, Now())) && pos < |s|
      requires dst == Predict(src, Tokenize(s[pos]))
      modifies this`pos, this`evs, this`error, this`stack
      ensures old(error).None? ==> Took(state, Automaton.Transit(c, s, old(Conf(src, stack, Now())), dst), None)
      ensures old(error).Some? ==> TookDirty(state, DirtyTransit(c, s, old(Conf(src, stack, Now())), dst))
      ensures dst.ErrorState? ==> Now() == old(Now())
    {
      match dst {
        case ErrorState => state := dst;
        case ObjectInitialState => state := TransitOpen(src, dst);
        case ArrayInitialState => state := TransitOpen(src, dst);
        case MemberKeyState =>
          ParseString(true);
          state := if error.Some? then ErrorState else dst;
        case KeyValueDelimiterState =>
          pos := pos + 1;
          state := dst;
        case MemberValueState => state := TransitScalar(src, dst);
        case ElementState => state := TransitScalar(src, dst);
        case MemberDelimiterState => state := TransitDelimiter(src, dst);
        case ElementDelimiterState => state := TransitDelimiter(src, dst);
        case ObjectFinishState =>
          if !c.trailingCommas && src.MemberDelimiterState? {
            SetParseError(ObjectMissName, pos);
            return ErrorState;
          }
          state := TransitFinish(src, src.MemberValueState?, true);
        case ArrayFinishState =>
          if !c.trailingCommas && src.ElementDelimiterState? {
            SetParseError(ValueInvalid, pos);
            return ErrorState;
          }
          state := TransitFinish(src, src.ElementState?, false);
        case ValueState => state := TransitScalar(src, dst);
        case _ => state := dst;
      }
    }

    /** The value is no container, or the state would be one that opens one. */
    method TransitScalar(src: State, dst: State) returns (state: State)
      requires InsideAt(Conf(src, stack, Now())) && pos < |s| && dst == Predict(src, Tokenize(s[pos])) && TakesScalar(dst)
      modifies this`pos, this`evs, this`error
      ensures old(error).None? ==>
                Took(state,
                     FromOutcome(PValue(c, s, old(Now())), if dst.ValueState? then FinishState else dst, stack),
                     None)
      ensures old(error).Some? ==>
                TookDirty(state, Ends(if s[old(pos)] == QUOTE then old(evs) else EventsIn(PValue(c, s, old(Now())))))
    {
      hide PValue, Frames;
      ParseValue();
      state := if error.Some? then ErrorState else if dst.ValueState? then FinishState else dst;
    }

    method TransitOpen(src: State, dst: State) returns (state: State)
      requires InsideAt(Conf(src, stack, Now())) && pos < |s| && dst == Predict(src, Tokenize(s[pos]))
      requires dst.ObjectInitialState? || dst.ArrayInitialState?
      modifies this`pos, this`evs, this`error, this`stack
      ensures Took(state, Automaton.Transit(c, s, old(Conf(src, stack, Now())), dst), old(error))
    {
      hide Automaton.Transit, Pushed, Frames, Predict, Tokenize;
      ghost var k := Conf(src, stack, Now());
      Opening(c, s, k, dst);
      Push(Code(ReturnState(src)));
      Push(0);
      assert stack == Pushed(k);
      var ok := Handle(if dst.ObjectInitialState? then StartObject else StartArray);
      if !ok {
        SetParseError(Termination, pos);
        return ErrorState;
      }
      pos := pos + 1;
      return dst;
    }

    method TransitDelimiter(src: State, dst: State) returns (state: State)
      requires InsideAt(Conf(src, stack, Now())) && pos < |s| && |stack| >= 2
      modifies this`pos, this`evs, this`error, this`stack
      ensures Took(state, Delimiter(old(Conf(src, stack, Now())), dst), old(error))
    {
      pos := pos + 1;
      stack := stack[|stack| - 1 := Increment(stack[|stack| - 1])];
      return dst;
    }

    method TransitFinish(src: State, last: bool, isObject: bool) returns (state: State)
      requires InsideAt(Conf(src, stack, Now())) && pos < |s| && |stack| >= 2
      modifies this`pos, this`evs, this`error, this`stack
      ensures Took(state, Close(c, old(Conf(src, stack, Now())), last, isObject), old(error))
    {
      var count := Pop();
      if last { count := Increment(count); }
      var code := Pop();
      assert stack == Below(old(stack));
      var n := StateOf(code);
      if n.StartState? { n := FinishState; }
      var ok := Handle(if isObject then EndObject(count) else EndArray(count));
      if !ok {
        SetParseError(Termination, pos);
        return ErrorState;
      }
      pos := pos + 1;
      return n;
    }

    /** Only a parse that has no error yet gets the one of the state it is stuck in. */
    method HandleError(src: State)
      modifies this`error
      ensures error == if old(error).Some? then old(error) else Some(ParseError(Automaton.HandleError(src), pos))
    {
      if error.Some? { return; }
      SetParseError(Automaton.HandleError(src), pos);
    }

    /** The body of the loop up to the new state, with the error of a turn that gets stuck. */
    method Turn(src: State) returns (state: State)
      requires InsideAt(Conf(src, stack, Now())) && pos < |s|
      modifies this`pos, this`evs, this`error, this`stack
      ensures old(error).None? ==> Took(state, Automaton.Turn(c, s, old(Conf(src, stack, Now()))), None)
      ensures old(error).Some? ==>
                TookDirty(state, DirtyTransit(c, s, old(Conf(src, stack, Now())), Predict(src, Tokenize(s[old(pos)]))))
    {
      hide Automaton.Transit, DirtyTransit, Predict, Tokenize, Frames;
      var n := Predict(src, Tokenize(Chars.Peek(s, pos)));
      state := Transit(src, n);
      if state.ErrorState? { HandleError(src); }
    }

    /**
     * `Parse` with the iterative flag. Every configuration the loop goes through keeps the stack discipline,
     * and the outcome is also that of the recursive parser, but for the code given to a stray delimiter at
     * the root and the offset of a refusal by the handler.
     */
    method IterativeParse()
      requires pos == 0 && evs == [] && error.None? && stack == []
      modifies this`pos, this`evs, this`error, this`stack
      ensures Shows(Automaton.IterativeParse(c, s))
      ensures error.None? <==> Grammar.Parse(c, s).Ok?
      ensures evs == EventsIn(Grammar.Parse(c, s))
    {
      hide Automaton.Turn, Ws, Frames, Predict, Tokenize, Discipline.Disciplined, Grammar.Parse;
      Equivalence.ParsersAgree(c, s);
      var state := StartState;
      SkipWhitespaceAndComments();
      if error.Some? { return; }
      ghost var turns := 0;
      Discipline.ReachableDisciplined(c, s, turns);
      while Chars.Peek(s, pos) != 0
        invariant ReadyAt(Conf(state, stack, Now()))
        invariant Automaton.IterativeParse(c, s) == Run(c, s, Conf(state, stack, Now()))
        invariant Discipline.ConfAt(c, s, turns) == Some(Conf(state, stack, Now()))
        invariant Discipline.Disciplined(Conf(state, stack, Now()))
        decreases |s| - pos
      {
        state := Turn(state);
        if error.Some? { return; }
        if c.stopWhenDone && state.FinishState? { return; }
        SkipWhitespaceAndComments();
        if error.Some? { return; }
        turns := turns + 1;
        Discipline.ReachableDisciplined(c, s, turns);
      }
      if !state.FinishState? { HandleError(state); }
    }

    // The token-by-token interface.

    /** What is left of the token-by-token loop, for a reader between two tokens. */
    ghost function Left(): Ending
      requires InsideAt(Conf(state, stack, Now())) && !state.FinishState?
      reads this`pos, this`evs, this`error, this`stack, this`state
    {
      var k := Conf(state, stack, Now());
      if error.None? then Tokens(c, s, k) else DirtyTokens(c, s, k)
    }

    /** The loop is over, with `complete` as the last answer. */
    predicate EndsAs(e: Ending, complete: bool) reads this`pos, this`evs, this`error {
      match e
      case Clean(r) => Shows(r) && complete == r.Ok?
      case Dirty(sent, c) => error.Some? && evs == sent && complete == c
    }

    /** A turn at the end of the input: the end is taken for the start of a number. */
    method EndTurn()
      requires InsideAt(Conf(state, stack, Now())) && !state.FinishState? && Chars.Peek(s, pos) == 0
      modifies this`pos, this`evs, this`error
      ensures evs == old(evs) && pos <= |s| && error.Some?
      ensures old(error).None? ==> error == Some(ParseError(EndCode(state), old(pos)))
    {
      hide Frames;
      var n := Predict(state, NumberToken);
      match n
      case ElementState => ParseValue();
      case MemberValueState => ParseValue();
      case ValueState => ParseValue();
      case _ =>
      HandleError(state);
    }

    /**
     * `IterativeParseNext`: on to the next token that the handler sees. What is left afterwards is what was left
     * before; after the last token nothing is. The error field is not looked at after white space, so the call goes
     * on behind a malformed comment.
     */
    method Next() returns (ok: bool)
      requires InsideAt(Conf(state, stack, Now())) && !state.FinishState?
      modifies this`pos, this`evs, this`error, this`stack, this`state
      ensures ok && !state.FinishState? ==>
                InsideAt(Conf(state, stack, Now())) && old(pos) < pos && Left() == old(Left())
      ensures ok && state.FinishState? ==> EndsAs(old(Left()), true)
      ensures !ok ==> EndsAs(old(Left()), false)
    {
      hide Automaton.Turn, DirtyTransit, Frames, Predict, Tokenize, Tokens, DirtyTokens, Ws;
      ghost var left := Left();
      while Chars.Peek(s, pos) != 0
        invariant InsideAt(Conf(state, stack, Now())) && !state.FinishState? && Left() == left && old(pos) <= pos
        decreases |s| - pos
      {
        TokensUnfold(c, s, Conf(state, stack, Now()));
        SkipWhitespaceAndComments();
        if Chars.Peek(s, pos) == 0 {
          EndTurn();
          return false;
        }
        var n := Predict(state, Tokenize(Chars.Peek(s, pos)));
        var d := Turn(state);
        if d.ErrorState? { return false; }
        state := d;
        if d.FinishState? {
          if !c.stopWhenDone {
            SkipWhitespaceAndComments();
            if Chars.Peek(s, pos) != 0 {
              HandleError(state);
              return false;
            }
          }
          return true;
        }
        if !IsDelimiter(n) { return true; }
      }
      TokensUnfold(c, s, Conf(state, stack, Now()));
      EndStays(c, s, Now());
      stack := [];
      HandleError(state);
      ok := false;
    }

    /**
     * The loop that callers of the token-by-token interface write. It leaves an error exactly when the other parsers
     * do; it agrees with them in events and answer exactly when no malformed comment is met or nothing comes of it.
     */
    method ParseTokenByToken() returns (complete: bool)
      requires pos == 0 && evs == [] && error.None? && stack == []
      modifies this
      ensures EndsAs(TokenByToken(c, s), complete)
      ensures error.None? <==> Grammar.Parse(c, s).Ok?
      ensures var m := MalformedComment(c, s, START);
              evs == EventsIn(Grammar.Parse(c, s)) && complete == Grammar.Parse(c, s).Ok? <==>
              m.None? || Harmless(c, s, m.value)
    {
      hide Frames, Grammar.Parse, Tokens, DirtyTokens, MalformedComment, Harmless, Automaton.IterativeParse;
      TokensAgree(c, s);
      Equivalence.ParsersAgree(c, s);
      state := StartState;
      assert Shape(StartState, []) by { Started(c, s); }
      complete := true;
      while complete && !state.FinishState?
        invariant complete && !state.FinishState? ==>
                    InsideAt(Conf(state, stack, Now())) && Left() == TokenByToken(c, s)
        invariant !complete || state.FinishState? ==> EndsAs(TokenByToken(c, s), complete)
        decreases complete, !state.FinishState?, |s| - pos
      {
        complete := Next();
      }
    }
  }
}
