/** What stands where an error is reported, for each of its codes. */
module JsonErrors {
  import opened Chars
  import opened Events
  import opened Whitespace
  import opened Grammar
  import opened JsonNumbers
  import opened JsonScanned
  import J = Json
  import Numbers
  import Strings

  predicate HexAt(s: seq<Byte>, i: nat) {
    i + 4 <= |s| && J.IsHex(s[i..i + 4])
  }

  /** An escaped lead surrogate. */
  predicate LeadAt(s: seq<Byte>, i: nat) {
    Peek(s, i) == 0x5C && Peek(s, i + 1) == 0x75 && HexAt(s, i + 2) && 0xD800 <= J.HexNumber(s[i + 2..i + 6]) <= 0xDBFF
  }

  /** The text stops agreeing with the literal behind its first letters. */
  predicate Breaks(s: seq<Byte>, i: nat, lit: seq<Byte>) {
    exists k :: 1 <= k < |lit| && k <= i <= |s| && s[i - k..i] == lit[..k] && Peek(s, i) != lit[k]
  }

  /** No value starts here, or the one that does goes no further. */
  predicate NoValue(s: seq<Byte>, i: nat) {
    || Breaks(s, i, [0x6E, 0x75, 0x6C, 0x6C]) || Breaks(s, i, [0x74, 0x72, 0x75, 0x65])
    || Breaks(s, i, [0x66, 0x61, 0x6C, 0x73, 0x65])
    || (0 < i <= |s| && s[i - 1] == 0x2D && !(0x30 <= Peek(s, i) <= 0x39))
    || (var b := Peek(s, i);
        && b != 0x6E && b != 0x74 && b != 0x66 && b != 0x22 && b != 0x5B && b != 0x7B && b != 0x2D
        && !(0x30 <= b <= 0x39))
  }

  ghost predicate TooBigAt(c: Config, s: seq<Byte>, i: nat) {
    exists n :: J.ValidNumber(n) && J.TooBig(c, n) && Occurs(s, i, J.NumberText(n))
  }

  ghost predicate Explains(c: Config, s: seq<Byte>, code: ErrorCode, i: nat, evs: seq<Event>) {
    match code
    case DocumentEmpty => evs == [] && Peek(s, i) == 0
    case DocumentRootNotSingular => Peek(s, i) != 0 && !c.stopWhenDone
    case ValueInvalid => NoValue(s, i)
    case ObjectMissName => Peek(s, i) != 0x22
    case ObjectMissColon => Peek(s, i) != 0x3A
    case ObjectMissCommaOrCurlyBracket => Peek(s, i) != 0x2C && Peek(s, i) != 0x7D
    case ArrayMissCommaOrSquareBracket => Peek(s, i) != 0x2C && Peek(s, i) != 0x5D
    case StringUnicodeEscapeInvalidHex =>
      && Peek(s, i) == 0x5C && Peek(s, i + 1) == 0x75
      && (HexAt(s, i + 2) ==>
            LeadAt(s, i) && Peek(s, i + 6) == 0x5C && Peek(s, i + 7) == 0x75 && !HexAt(s, i + 8))
    case StringUnicodeSurrogateInvalid =>
      && LeadAt(s, i)
      && (Peek(s, i + 6) == 0x5C && Peek(s, i + 7) == 0x75 ==>
            HexAt(s, i + 8) && !(0xDC00 <= J.HexNumber(s[i + 8..i + 12]) <= 0xDFFF))
    case StringEscapeInvalid => Peek(s, i) == 0x5C && J.ShortMeaning(Peek(s, i + 1)).None? && Peek(s, i + 1) != 0x75
    case StringMissQuotationMark => Peek(s, i) == 0
    case StringInvalidEncoding => 0 < Peek(s, i) < 0x20
    case NumberTooBig => TooBigAt(c, s, i)
    case NumberMissFraction => 0 < i <= |s| && s[i - 1] == 0x2E && !(0x30 <= Peek(s, i) <= 0x39)
    case NumberMissExponent =>
      && 0 < i <= |s| && !(0x30 <= Peek(s, i) <= 0x39)
      && (s[i - 1] == 0x65 || s[i - 1] == 0x45 || s[i - 1] == 0x2B || s[i - 1] == 0x2D)
    case Termination => evs != [] && !c.accepts(evs)
    case UnspecificSyntaxError =>
      && c.comments && 0 < i <= |s|
      && (Peek(s, i) == 0 || (s[i - 1] == 0x2F && Peek(s, i) != 0x2A && Peek(s, i) != 0x2F))
  }

  ghost predicate Explained(c: Config, s: seq<Byte>, r: Outcome) {
    r.Err? ==> Explains(c, s, r.code, r.offset, r.evs)
  }

  // White space, strings and numbers.

  lemma {:induction false} BlockFails(s: seq<Byte>, i: nat)
    requires i <= |s| && SkipBlock(s, i).Unclosed?
    ensures Peek(s, SkipBlock(s, i).offset) == 0 && SkipBlock(s, i).offset <= |s|
    decreases |s| - i
  {
    if Peek(s, i) != 0 { BlockFails(s, i + 1); }
  }

  lemma {:induction false} CommentsFail(c: Config, s: seq<Byte>, st: St)
    requires st.pos <= |s| && c.comments
    ensures Explained(c, s, SkipComments(s, st))
    decreases |s| - st.pos
  {
    hide SkipSpaces, SkipBlock, SkipLine;
    if Peek(s, st.pos) == SLASH {
      var r := SkipComment(s, st.pos);
      if r.Closed? {
        CommentsFail(c, s, st.(pos := SkipSpaces(s, r.pos)));
      } else if Peek(s, st.pos + 1) == STAR {
        BlockFails(s, st.pos + 2);
      }
    }
  }

  lemma WsFails(c: Config, s: seq<Byte>, st: St)
    requires st.pos <= |s|
    ensures Explained(c, s, Ws(c, s, st))
  {
    hide SkipSpaces, SkipComments, Explained;
    if c.comments {
      CommentsFail(c, s, st.(pos := SkipSpaces(s, st.pos)));
    } else {
      OkExplained(c, s, st.(pos := SkipSpaces(s, st.pos)));
    }
  }

  lemma OkExplained(c: Config, s: seq<Byte>, st: St)
    ensures Explained(c, s, Ok(st))
  {
  }

  lemma UnitFails(c: Config, s: seq<Byte>, i: nat, evs: seq<Event>)
    requires i <= |s| && Strings.NextUnit(s, i).Bad?
    ensures var u := Strings.NextUnit(s, i); Explains(c, s, u.code, u.offset, evs)
  {
    hide Strings.HexDigits, J.HexNumber, J.IsHex, J.ShortMeaning, Strings.SimpleEscape;
    ShortAgrees(Peek(s, i + 1));
    HexScanned(s, i + 2);
    HexScanned(s, i + 8);
  }

  lemma {:induction false} StringFails(c: Config, s: seq<Byte>, i: nat, evs: seq<Event>)
    requires i <= |s| && Strings.Decode(s, i).Invalid?
    ensures var d := Strings.Decode(s, i); Explains(c, s, d.code, d.offset, evs)
    decreases |s| - i
  {
    hide Strings.NextUnit, Explains;
    var u := Strings.NextUnit(s, i);
    if u.Bad? {
      UnitFails(c, s, i, evs);
    } else {
      StringFails(c, s, u.next, evs);
    }
  }

  lemma TailFails(c: Config, s: seq<Byte>, i: nat, k: nat, v: nat, whole: Option<Event>, sig: nat, evs: seq<Event>)
    requires i < k <= |s|
    ensures var r := Numbers.LexTail(c, s, i, k, v, whole, sig);
            r.Malformed? && !r.code.NumberTooBig? ==> Explains(c, s, r.code, r.offset, evs)
  {
    hide Numbers.FractionScale, Numbers.Val, Numbers.DigitsEnd, TooBigAt;
  }

  lemma NumberFails(c: Config, s: seq<Byte>, i: nat, evs: seq<Event>)
    requires i <= |s| && Numbers.Lex(c, s, i).Malformed?
    requires var b := Peek(s, i); b != 0x6E && b != 0x74 && b != 0x66 && b != 0x22 && b != 0x5B && b != 0x7B
    ensures var r := Numbers.Lex(c, s, i); Explains(c, s, r.code, r.offset, evs)
  {
    hide Numbers.Lex, Numbers.LexTail, Numbers.Val, Numbers.IntEnd, J.TooBig, J.NumberText, J.ValidNumber;
    Numbers.LexUnfold(c, s, i);
    var j := Numbers.IntStart(s, i);
    if IsDigit(Peek(s, j)) {
      var k := Numbers.IntEnd(s, j);
      var v := Numbers.Val(s[j..k]);
      TailFails(c, s, i, k, v, Numbers.IntegerEvent(Peek(s, i) == MINUS, v), k - j - 1, evs);
      if Numbers.Lex(c, s, i).code.NumberTooBig? { TooBigFound(c, s, i); }
    }
  }

  lemma TooBigFound(c: Config, s: seq<Byte>, i: nat)
    requires i <= |s| && Numbers.Lex(c, s, i).Malformed? && Numbers.Lex(c, s, i).code.NumberTooBig?
    ensures TooBigAt(c, s, i) && Numbers.Lex(c, s, i).offset == i
  {
    hide Numbers.Lex, J.TooBig, J.NumberText, J.ValidNumber, Stands, Ends;
    var n := Found(c, s, i);
    NumberRead(c, s, i, n);
    StandsText(s, i, n);
    assert Occurs(s, i, J.NumberText(n));
  }

  // The recursive parser.

  lemma {:induction false} MatchBreaks(s: seq<Byte>, i: nat, lit: seq<Byte>, k: nat)
    requires 1 <= k <= |lit| && i + k <= |s| && s[i..i + k] == lit[..k] && forall m :: 0 <= m < |lit| ==> lit[m] != 0
    ensures MatchEnd(s, i + k, lit, k) != i + |lit| ==> Breaks(s, MatchEnd(s, i + k, lit, k), lit)
    decreases |lit| - k
  {
    if k < |lit| {
      if Peek(s, i + k) == lit[k] {
        assert s[i..i + k + 1] == s[i..i + k] + [s[i + k]];
        assert lit[..k + 1] == lit[..k] + [lit[k]];
        MatchBreaks(s, i, lit, k + 1);
      } else {
        assert s[i + k - k..i + k] == lit[..k];
      }
    }
  }

  lemma LiteralFails(c: Config, s: seq<Byte>, st: St, lit: seq<Byte>, e: Event)
    requires lit == NULL_TEXT || lit == TRUE_TEXT || lit == FALSE_TEXT
    requires st.pos < |s| && s[st.pos] == lit[0]
    ensures Explained(c, s, PLiteral(c, s, st, lit, e))
  {
    hide MatchEnd, Breaks;
    assert s[st.pos..st.pos + 1] == lit[..1];
    MatchBreaks(s, st.pos, lit, 1);
  }

  lemma EmitFails(c: Config, s: seq<Byte>, st: St, e: Event, pos: nat, at: nat)
    ensures Explained(c, s, Emit(c, st, e, pos, at))
  {
  }

  lemma PStringFails(c: Config, s: seq<Byte>, st: St, isKey: bool)
    requires st.pos < |s|
    ensures Explained(c, s, PString(c, s, st, isKey))
  {
    hide Strings.Decode, Explains;
    var d := Strings.Decode(s, st.pos + 1);
    if d.Invalid? {
      StringFails(c, s, st.pos + 1, st.evs);
    } else {
      EmitFails(c, s, st, StringEvent(isKey, d.bytes), d.next, d.next);
    }
  }

  lemma {:induction false} ValueFails(c: Config, s: seq<Byte>, st: St)
    requires st.pos <= |s|
    ensures Explained(c, s, PValue(c, s, st))
    decreases |s| - st.pos, 1
  {
    hide PObject, PArray, PLiteral, PString, Explained, Numbers.Lex;
    var b := Peek(s, st.pos);
    if b == LOWER_N {
      LiteralFails(c, s, st, NULL_TEXT, Null);
    } else if b == LOWER_T {
      LiteralFails(c, s, st, TRUE_TEXT, Bool(true));
    } else if b == LOWER_F {
      LiteralFails(c, s, st, FALSE_TEXT, Bool(false));
    } else if b == QUOTE {
      PStringFails(c, s, st, false);
    } else if b == LBRACE {
      ObjectFails(c, s, st);
    } else if b == LBRACKET {
      ArrayFails(c, s, st);
    } else {
      PNumberFails(c, s, st);
    }
  }

  lemma PNumberFails(c: Config, s: seq<Byte>, st: St)
    requires st.pos <= |s|
    requires var b := Peek(s, st.pos); b != 0x6E && b != 0x74 && b != 0x66 && b != 0x22 && b != 0x5B && b != 0x7B
    ensures Explained(c, s, PNumber(c, s, st))
  {
    hide Numbers.Lex, Explains;
    var r := Numbers.Lex(c, s, st.pos);
    if r.Malformed? {
      NumberFails(c, s, st.pos, st.evs);
    } else {
      EmitFails(c, s, st, r.event, r.next, st.pos);
    }
  }

  lemma {:induction false} ArrayFails(c: Config, s: seq<Byte>, st: St)
    requires st.pos < |s|
    ensures Explained(c, s, PArray(c, s, st))
    decreases |s| - st.pos, 0
  {
    hide PElements, Ws, Emit, Explained;
    var open := Emit(c, st, StartArray, st.pos + 1, st.pos + 1);
    EmitFails(c, s, st, StartArray, st.pos + 1, st.pos + 1);
    if open.Ok? {
      WsFails(c, s, open.st);
      var w := Ws(c, s, open.st);
      if w.Ok? {
        EmitFails(c, s, w.st, EndArray(0), w.st.pos + 1, w.st.pos + 1);
        if Peek(s, w.st.pos) != RBRACKET { ElementsFail(c, s, w.st, 0); }
      }
    }
  }

  lemma {:induction false} ElementsFail(c: Config, s: seq<Byte>, st: St, n: nat)
    requires st.pos <= |s|
    ensures Explained(c, s, PElements(c, s, st, n))
    decreases |s| - st.pos, 2
  {
    hide PValue, PElementEnd, Ws, Explained;
    ValueFails(c, s, st);
    var value := PValue(c, s, st);
    if value.Ok? {
      WsFails(c, s, value.st);
      var w := Ws(c, s, value.st);
      if w.Ok? { ElementEndFails(c, s, w.st, Increment(n)); }
    }
  }

  lemma Refused(c: Config, s: seq<Byte>, code: ErrorCode, i: nat, evs: seq<Event>)
    requires Explains(c, s, code, i, evs)
    ensures Explained(c, s, Err(code, i, evs))
  {
  }

  lemma {:induction false} ElementEndFails(c: Config, s: seq<Byte>, st: St, n: nat)
    requires st.pos <= |s|
    ensures Explained(c, s, PElementEnd(c, s, st, n))
    decreases |s| - st.pos, 0
  {
    hide PElements, Ws, Emit, Explained;
    if Peek(s, st.pos) == COMMA {
      var behind := st.(pos := st.pos + 1);
      WsFails(c, s, behind);
      var w := Ws(c, s, behind);
      if w.Ok? {
        EmitFails(c, s, w.st, EndArray(n), w.st.pos + 1, w.st.pos);
        if !(c.trailingCommas && Peek(s, w.st.pos) == RBRACKET) { ElementsFail(c, s, w.st, n); }
      }
    } else if Peek(s, st.pos) == RBRACKET {
      EmitFails(c, s, st, EndArray(n), st.pos + 1, st.pos + 1);
    } else {
      Refused(c, s, ArrayMissCommaOrSquareBracket, st.pos, st.evs);
    }
  }

  lemma {:induction false} ObjectFails(c: Config, s: seq<Byte>, st: St)
    requires st.pos < |s|
    ensures Explained(c, s, PObject(c, s, st))
    decreases |s| - st.pos, 0
  {
    hide PMembers, Ws, Emit, Explained;
    var open := Emit(c, st, StartObject, st.pos + 1, st.pos + 1);
    EmitFails(c, s, st, StartObject, st.pos + 1, st.pos + 1);
    if open.Ok? {
      WsFails(c, s, open.st);
      var w := Ws(c, s, open.st);
      if w.Ok? {
        EmitFails(c, s, w.st, EndObject(0), w.st.pos + 1, w.st.pos + 1);
        if Peek(s, w.st.pos) != RBRACE { MembersFail(c, s, w.st, 0); }
      }
    }
  }

  lemma {:induction false} MemberFails(c: Config, s: seq<Byte>, st: St)
    requires st.pos <= |s|
    ensures Explained(c, s, PMember(c, s, st))
    decreases |s| - st.pos, 2
  {
    hide PValue, PString, Ws, Explained;
    if Peek(s, st.pos) != QUOTE {
      Refused(c, s, ObjectMissName, st.pos, st.evs);
    } else {
      PStringFails(c, s, st, true);
      var name := PString(c, s, st, true);
      if name.Ok? {
        WsFails(c, s, name.st);
        var colon := Ws(c, s, name.st);
        if colon.Ok? { ColonFails(c, s, colon.st); }
      }
    }
  }

  /** The rest of `PMember` from its colon on. */
  function FromColon(c: Config, s: seq<Byte>, colon: St): Outcome
    requires colon.pos <= |s|
  {
    if Peek(s, colon.pos) != COLON then Err(ObjectMissColon, colon.pos, colon.evs)
    else
      var at :- Ws(c, s, colon.(pos := colon.pos + 1));
      var value :- PValue(c, s, at);
      Ws(c, s, value)
  }

  lemma {:induction false} ColonFails(c: Config, s: seq<Byte>, colon: St)
    requires colon.pos <= |s|
    ensures Explained(c, s, FromColon(c, s, colon))
    decreases |s| - colon.pos, 1
  {
    hide PValue, Ws, Explained;
    if Peek(s, colon.pos) != COLON {
      Refused(c, s, ObjectMissColon, colon.pos, colon.evs);
    } else {
      WsFails(c, s, colon.(pos := colon.pos + 1));
      var at := Ws(c, s, colon.(pos := colon.pos + 1));
      if at.Ok? {
        ValueFails(c, s, at.st);
        var value := PValue(c, s, at.st);
        if value.Ok? { WsFails(c, s, value.st); }
      }
    }
  }

  lemma {:induction false} MembersFail(c: Config, s: seq<Byte>, st: St, n: nat)
    requires st.pos <= |s|
    ensures Explained(c, s, PMembers(c, s, st, n))
    decreases |s| - st.pos, 3
  {
    hide PMember, PMemberEnd, Explained;
    MemberFails(c, s, st);
    var end := PMember(c, s, st);
    if end.Ok? { MemberEndFails(c, s, end.st, Increment(n)); }
  }

  lemma {:induction false} MemberEndFails(c: Config, s: seq<Byte>, st: St, n: nat)
    requires st.pos <= |s|
    ensures Explained(c, s, PMemberEnd(c, s, st, n))
    decreases |s| - st.pos, 0
  {
    hide PMembers, Ws, Emit, Explained;
    if Peek(s, st.pos) == COMMA {
      var behind := st.(pos := st.pos + 1);
      WsFails(c, s, behind);
      var w := Ws(c, s, behind);
      if w.Ok? {
        EmitFails(c, s, w.st, EndObject(n), w.st.pos + 1, w.st.pos);
        if !(c.trailingCommas && Peek(s, w.st.pos) == RBRACE) { MembersFail(c, s, w.st, n); }
      }
    } else if Peek(s, st.pos) == RBRACE {
      EmitFails(c, s, st, EndObject(n), st.pos + 1, st.pos + 1);
    } else {
      Refused(c, s, ObjectMissCommaOrCurlyBracket, st.pos, st.evs);
    }
  }

  /** Every refusal by the recursive parser: what stands at the place that is reported with its code. */
  lemma ParseExplained(c: Config, s: seq<Byte>)
    ensures Explained(c, s, Parse(c, s))
  {
    hide PValue, Ws, Explained;
    WsFails(c, s, St(0, []));
    var start := Ws(c, s, St(0, []));
    if start.Ok? {
      if Peek(s, start.st.pos) == 0 {
        Refused(c, s, DocumentEmpty, start.st.pos, start.st.evs);
      } else {
        ValueFails(c, s, start.st);
        var value := PValue(c, s, start.st);
        if value.Ok? && !c.stopWhenDone {
          WsFails(c, s, value.st);
          var end := Ws(c, s, value.st);
          if end.Ok? && Peek(s, end.st.pos) != 0 { Refused(c, s, DocumentRootNotSingular, end.st.pos, end.st.evs); }
        }
      }
    }
  }
}
