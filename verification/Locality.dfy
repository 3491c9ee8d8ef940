/** The reader never looks back: its routines give the same on two texts that agree from the cursor on. */
module Locality {
  import opened Chars
  import opened Events
  import opened Whitespace
  import opened Grammar
  import opened Numbers
  import A = Automaton
  import Strings

  /** From `p` on the same characters are seen in both texts. */
  ghost predicate Alike(s: seq<Byte>, t: seq<Byte>, p: nat) {
    p <= |s| && p <= |t| && forall k: nat :: p <= k ==> Peek(s, k) == Peek(t, k)
  }

  lemma PartAlike(s: seq<Byte>, t: seq<Byte>, p: nat, i: nat, j: nat)
    requires Alike(s, t, p) && p <= i <= j <= |s| && j <= |t|
    ensures s[i..j] == t[i..j]
  {
    forall k | i <= k < j ensures s[k] == t[k] {
      assert Peek(s, k) == Peek(t, k);
    }
  }

  // White space.

  lemma {:induction false} SpacesAlike(s: seq<Byte>, t: seq<Byte>, p: nat, i: nat)
    requires Alike(s, t, p) && p <= i <= |s| && i <= |t|
    ensures SkipSpaces(s, i) == SkipSpaces(t, i)
    decreases |s| - i
  {
    if IsSpace(Peek(s, i)) { SpacesAlike(s, t, p, i + 1); }
  }

  lemma {:induction false} LineAlike(s: seq<Byte>, t: seq<Byte>, p: nat, i: nat)
    requires Alike(s, t, p) && p <= i <= |s| && i <= |t|
    ensures SkipLine(s, i) == SkipLine(t, i)
    decreases |s| - i
  {
    assert Peek(s, i) == Peek(t, i);
    if Peek(s, i) != 0 && s[i] != LF { LineAlike(s, t, p, i + 1); }
  }

  lemma {:induction false} BlockAlike(s: seq<Byte>, t: seq<Byte>, p: nat, i: nat)
    requires Alike(s, t, p) && p <= i <= |s| && i <= |t|
    ensures SkipBlock(s, i) == SkipBlock(t, i)
    decreases |s| - i
  {
    assert Peek(s, i) == Peek(t, i) && Peek(s, i + 1) == Peek(t, i + 1);
    if Peek(s, i) != 0 { BlockAlike(s, t, p, i + 1); }
  }

  lemma CommentAlike(s: seq<Byte>, t: seq<Byte>, p: nat, i: nat)
    requires Alike(s, t, p) && p <= i && Peek(s, i) == SLASH
    ensures Peek(t, i) == SLASH && SkipComment(s, i) == SkipComment(t, i)
  {
    assert Peek(s, i) == Peek(t, i) && Peek(s, i + 1) == Peek(t, i + 1);
    if Peek(s, i + 1) == STAR { BlockAlike(s, t, p, i + 2); }
    else if Peek(s, i + 1) == SLASH { LineAlike(s, t, p, i + 2); }
  }

  lemma {:induction false} CommentsAlike(s: seq<Byte>, t: seq<Byte>, p: nat, st: St)
    requires Alike(s, t, p) && p <= st.pos <= |s| && st.pos <= |t|
    ensures SkipComments(s, st) == SkipComments(t, st)
    decreases |s| - st.pos
  {
    hide SkipComment, SkipSpaces;
    assert Peek(s, st.pos) == Peek(t, st.pos);
    if Peek(s, st.pos) == SLASH {
      CommentAlike(s, t, p, st.pos);
      var b := SkipComment(s, st.pos);
      if b.Closed? {
        SpacesAlike(s, t, p, b.pos);
        CommentsAlike(s, t, p, st.(pos := SkipSpaces(s, b.pos)));
      }
    }
  }

  lemma WsAlike(c: Config, s: seq<Byte>, t: seq<Byte>, st: St)
    requires Alike(s, t, st.pos)
    ensures Ws(c, s, st) == Ws(c, t, st)
  {
    SpacesAlike(s, t, st.pos, st.pos);
    CommentsAlike(s, t, st.pos, St(SkipSpaces(s, st.pos), st.evs));
  }

  // Strings.

  lemma {:induction false} HexAlike(s: seq<Byte>, t: seq<Byte>, p: nat, i: nat, n: nat)
    requires Alike(s, t, p) && p <= i && n <= 4
    ensures Strings.HexDigits(s, i, n) == Strings.HexDigits(t, i, n)
    decreases n
  {
    if n > 0 {
      HexAlike(s, t, p, i, n - 1);
      assert Peek(s, i + n - 1) == Peek(t, i + n - 1);
    }
  }

  lemma UnitAlike(s: seq<Byte>, t: seq<Byte>, p: nat, i: nat)
    requires Alike(s, t, p) && p <= i <= |s| && i <= |t|
    ensures Strings.NextUnit(s, i) == Strings.NextUnit(t, i)
  {
    hide Strings.HexDigits;
    assert Peek(s, i) == Peek(t, i) && Peek(s, i + 1) == Peek(t, i + 1);
    assert Peek(s, i + 6) == Peek(t, i + 6) && Peek(s, i + 7) == Peek(t, i + 7);
    HexAlike(s, t, p, i + 2, 4);
    HexAlike(s, t, p, i + 8, 4);
  }

  lemma {:induction false} DecodeAlike(s: seq<Byte>, t: seq<Byte>, p: nat, i: nat)
    requires Alike(s, t, p) && p <= i <= |s| && i <= |t|
    ensures Strings.Decode(s, i) == Strings.Decode(t, i)
    decreases |s| - i
  {
    hide Strings.NextUnit;
    UnitAlike(s, t, p, i);
    var u := Strings.NextUnit(s, i);
    if u.Piece? { DecodeAlike(s, t, p, u.next); }
  }

  // Other scalars.

  lemma {:induction false} MatchAlike(s: seq<Byte>, t: seq<Byte>, p: nat, i: nat, lit: seq<Byte>, k: nat)
    requires Alike(s, t, p) && p <= i <= |s| && i <= |t| && forall m :: 0 <= m < |lit| ==> lit[m] != 0
    ensures MatchEnd(s, i, lit, k) == MatchEnd(t, i, lit, k)
    decreases |lit| - k
  {
    assert Peek(s, i) == Peek(t, i);
    if k < |lit| && Peek(s, i) == lit[k] { MatchAlike(s, t, p, i + 1, lit, k + 1); }
  }

  lemma {:induction false} DigitsAlike(s: seq<Byte>, t: seq<Byte>, p: nat, i: nat)
    requires Alike(s, t, p) && p <= i <= |s| && i <= |t|
    ensures DigitsEnd(s, i) == DigitsEnd(t, i)
    decreases |s| - i
  {
    assert Peek(s, i) == Peek(t, i);
    if IsDigit(Peek(s, i)) { DigitsAlike(s, t, p, i + 1); }
  }

  lemma {:induction false} ScaleAlike(s: seq<Byte>, t: seq<Byte>, p: nat, k: nat, m: nat, sig: nat)
    requires Alike(s, t, p) && p <= k <= |s| && k <= |t|
    ensures FractionScale(s, k, m, sig) == FractionScale(t, k, m, sig)
    decreases |s| - k
  {
    assert Peek(s, k) == Peek(t, k);
    if IsDigit(Peek(s, k)) {
      var m1 := m * 10 + (s[k] - DIGIT_0);
      ScaleAlike(s, t, p, k + 1, m1, if m1 != 0 then sig + 1 else sig);
      ScaleAlike(s, t, p, k + 1, m, sig + 1);
    }
  }

  lemma ExponentAlike(c: Config, s: seq<Byte>, t: seq<Byte>, i: nat, f: nat, scale: nat)
    requires Alike(s, t, i) && i < f < |s| && f < |t|
    ensures LexExponent(c, s, i, f, scale) == LexExponent(c, t, i, f, scale)
  {
    hide Val, DigitsEnd;
    assert Peek(s, f + 1) == Peek(t, f + 1);
    var x := ExponentStart(s, f);
    assert Peek(s, x) == Peek(t, x);
    if IsDigit(Peek(s, x)) {
      DigitsAlike(s, t, i, x);
      PartAlike(s, t, i, x, DigitsEnd(s, x));
      PartAlike(s, t, i, i, DigitsEnd(s, x));
    }
  }

  lemma TailAlike(c: Config, s: seq<Byte>, t: seq<Byte>, i: nat, k: nat, v: nat, whole: Option<Event>, sig: nat)
    requires Alike(s, t, i) && i < k <= |s| && k <= |t|
    ensures LexTail(c, s, i, k, v, whole, sig) == LexTail(c, t, i, k, v, whole, sig)
  {
    hide Val, DigitsEnd, FractionScale, LexExponent;
    assert Peek(s, k) == Peek(t, k) && Peek(s, k + 1) == Peek(t, k + 1);
    var f := k;
    if Peek(s, k) == DOT {
      DigitsAlike(s, t, i, k + 1);
      ScaleAlike(s, t, i, k + 1, v, sig);
      f := DigitsEnd(s, k + 1);
    }
    assert Peek(s, f) == Peek(t, f);
    if IsExponentMark(Peek(s, f)) {
      ExponentAlike(c, s, t, i, f, if Peek(s, k) == DOT && whole.Some? then FractionScale(s, k + 1, v, sig) else 0);
    }
    PartAlike(s, t, i, i, f);
  }

  lemma NumberAlike(c: Config, s: seq<Byte>, t: seq<Byte>, i: nat)
    requires Alike(s, t, i)
    ensures Lex(c, s, i) == Lex(c, t, i)
  {
    hide Val, DigitsEnd, LexTail;
    assert Peek(s, i) == Peek(t, i);
    var j := IntStart(s, i);
    assert Peek(s, j) == Peek(t, j);
    if IsDigit(Peek(s, j)) {
      DigitsAlike(s, t, i, j);
      var k := IntEnd(s, j);
      PartAlike(s, t, i, j, k);
      var v := Val(s[j..k]);
      TailAlike(c, s, t, i, k, v, IntegerEvent(Peek(s, i) == MINUS, v), k - j - 1);
    }
  }

  lemma StringAlike(c: Config, s: seq<Byte>, t: seq<Byte>, st: St, isKey: bool)
    requires Alike(s, t, st.pos) && st.pos < |s| && st.pos < |t|
    ensures PString(c, s, st, isKey) == PString(c, t, st, isKey)
  {
    hide Strings.Decode;
    DecodeAlike(s, t, st.pos, st.pos + 1);
  }

  /** A value that is no container. */
  lemma ScalarAlike(c: Config, s: seq<Byte>, t: seq<Byte>, st: St)
    requires Alike(s, t, st.pos) && Peek(s, st.pos) != LBRACE && Peek(s, st.pos) != LBRACKET
    ensures PValue(c, s, st) == PValue(c, t, st)
  {
    hide MatchEnd, Lex, Strings.Decode;
    assert Peek(s, st.pos) == Peek(t, st.pos);
    var b := Peek(s, st.pos);
    if b == LOWER_N { MatchAlike(s, t, st.pos, st.pos + 1, NULL_TEXT, 1); }
    else if b == LOWER_T { MatchAlike(s, t, st.pos, st.pos + 1, TRUE_TEXT, 1); }
    else if b == LOWER_F { MatchAlike(s, t, st.pos, st.pos + 1, FALSE_TEXT, 1); }
    else if b == QUOTE { DecodeAlike(s, t, st.pos, st.pos + 1); }
    else { NumberAlike(c, s, t, st.pos); }
  }

  /** One turn of the automaton. */
  lemma TurnAlike(c: Config, s: seq<Byte>, t: seq<Byte>, k: A.Conf)
    requires A.Wf(k) && Alike(s, t, k.st.pos) && k.st.pos < |s| && k.st.pos < |t|
    ensures A.Turn(c, s, k) == A.Turn(c, t, k)
  {
    hide A.Frames, PString, A.Close, A.Delimiter, A.Pushed, PValue;
    assert Peek(s, k.st.pos) == Peek(t, k.st.pos);
    StringAlike(c, s, t, k.st, true);
    if s[k.st.pos] != LBRACE && s[k.st.pos] != LBRACKET { ScalarAlike(c, s, t, k.st); }
  }
}
