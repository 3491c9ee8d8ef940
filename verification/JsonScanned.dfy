/**
 * White space, strings and numbers: the scanning routines of the reader take exactly what the grammar derives, and
 * tell of it what the grammar says.
 */
module JsonScanned {
  import opened Chars
  import opened Events
  import opened Whitespace
  import J = Json
  import Numbers
  import Strings
  import Utf8

  // White space.

  lemma {:induction false} BlockSkipped(s: seq<Byte>, i: nat, body: seq<Byte>, k: nat)
    requires J.ValidGap(true, J.Block(body)) && k <= |body| && Occurs(s, i, body + [0x2A, 0x2F])
    ensures SkipBlock(s, i + k) == Closed(i + |body| + 2)
    decreases |body| - k
  {
    var t := body + [0x2A, 0x2F];
    OccursAt(s, i, t, k);
    OccursAt(s, i, t, k + 1);
    if k < |body| { BlockSkipped(s, i, body, k + 1); }
  }

  lemma {:induction false} LineSkipped(s: seq<Byte>, i: nat, body: seq<Byte>, k: nat)
    requires 0 !in body && 0x0A !in body && k <= |body| && Occurs(s, i, body)
    requires Peek(s, i + |body|) == 0x0A || Peek(s, i + |body|) == 0
    ensures SkipLine(s, i + k) == i + |body| + if Peek(s, i + |body|) == 0 then 0 else 1
    decreases |body| - k
  {
    if k < |body| {
      OccursAt(s, i, body, k);
      assert body[k] in body;
      LineSkipped(s, i, body, k + 1);
    }
  }

  lemma CommentSkipped(s: seq<Byte>, i: nat, g: J.Gap)
    requires !g.Space? && J.ValidGap(true, g) && Occurs(s, i, J.GapText(g))
    ensures Peek(s, i) == SLASH && SkipComment(s, i) == Closed(i + |J.GapText(g)|)
  {
    hide SkipBlock, SkipLine, Occurs;
    var t := J.GapText(g);
    OccursAt(s, i, t, 0);
    OccursAt(s, i, t, 1);
    if g.Block? {
      assert t == [0x2F, 0x2A] + (g.body + [0x2A, 0x2F]);
      OccursSplit(s, i, [0x2F, 0x2A], g.body + [0x2A, 0x2F]);
      BlockSkipped(s, i + 2, g.body, 0);
    } else {
      assert t == [0x2F, 0x2F] + (g.body + [0x0A]);
      OccursSplit(s, i, [0x2F, 0x2F], g.body + [0x0A]);
      OccursSplit(s, i + 2, g.body, [0x0A]);
      OccursAt(s, i + 2 + |g.body|, [0x0A], 0);
      LineSkipped(s, i + 2, g.body, 0);
    }
  }

  /** One space or comment is skipped. */
  lemma GapSkipped(c: Config, s: seq<Byte>, i: nat, evs: seq<Event>, g: J.Gap)
    requires J.ValidGap(c.comments, g) && Occurs(s, i, J.GapText(g))
    ensures i < i + |J.GapText(g)| <= |s| && Ws(c, s, St(i, evs)) == Ws(c, s, St(i + |J.GapText(g)|, evs))
  {
    hide SkipComment;
    if g.Space? {
      OccursAt(s, i, J.GapText(g), 0);
    } else {
      CommentSkipped(s, i, g);
    }
  }

  /** A character that is no white space and starts no comment. */
  predicate Solid(c: Config, b: Byte) {
    b != 0x20 && b != 0x09 && b != 0x0A && b != 0x0D && !(c.comments && b == 0x2F)
  }

  lemma {:induction false} GapsStep(c: Config, s: seq<Byte>, i: nat, evs: seq<Event>, gs: seq<J.Gap>)
    requires i <= |s| && J.ValidGaps(c.comments, gs) && Occurs(s, i, J.GapsText(gs))
    ensures i + |J.GapsText(gs)| <= |s| && Ws(c, s, St(i, evs)) == Ws(c, s, St(i + |J.GapsText(gs)|, evs))
    decreases |gs|
  {
    hide Ws, J.ValidGap, J.GapText, Occurs;
    if gs != [] {
      OccursSplit(s, i, J.GapText(gs[0]), J.GapsText(gs[1..]));
      GapSkipped(c, s, i, evs, gs[0]);
      GapsStep(c, s, i + |J.GapText(gs[0])|, evs, gs[1..]);
    }
  }

  lemma GapsSkipped(c: Config, s: seq<Byte>, i: nat, evs: seq<Event>, gs: seq<J.Gap>)
    requires i <= |s| && J.ValidGaps(c.comments, gs) && Occurs(s, i, J.GapsText(gs))
    requires Solid(c, Peek(s, i + |J.GapsText(gs)|))
    ensures i + |J.GapsText(gs)| <= |s| && Ws(c, s, St(i, evs)) == Ok(St(i + |J.GapsText(gs)|, evs))
  {
    hide Ws, J.GapsText, J.ValidGap, Occurs, Solid;
    GapsStep(c, s, i, evs, gs);
    SolidStays(c, s, i + |J.GapsText(gs)|, evs);
  }

  /** Behind the last value, up to the end. */
  lemma EndSkipped(c: Config, s: seq<Byte>, i: nat, evs: seq<Event>, gs: seq<J.Gap>, tail: Option<seq<Byte>>)
    requires J.ValidGaps(c.comments, gs) && J.ValidTail(c.comments, tail) && i <= |s|
    requires Occurs(s, i, J.GapsText(gs) + J.TailText(tail)) && Peek(s, i + |J.GapsText(gs) + J.TailText(tail)|) == 0
    ensures Ws(c, s, St(i, evs)) == Ok(St(i + |J.GapsText(gs) + J.TailText(tail)|, evs))
  {
    hide Ws, J.GapsText, J.ValidGap, Occurs, J.TailText;
    OccursSplit(s, i, J.GapsText(gs), J.TailText(tail));
    GapsStep(c, s, i, evs, gs);
    TailSkipped(c, s, i + |J.GapsText(gs)|, evs, tail);
  }

  lemma TailSkipped(c: Config, s: seq<Byte>, i: nat, evs: seq<Event>, tail: Option<seq<Byte>>)
    requires J.ValidTail(c.comments, tail) && i <= |s| && Occurs(s, i, J.TailText(tail))
    requires Peek(s, i + |J.TailText(tail)|) == 0
    ensures i + |J.TailText(tail)| <= |s| && Ws(c, s, St(i, evs)) == Ok(St(i + |J.TailText(tail)|, evs))
  {
    hide SkipComment, SkipSpaces, Occurs, J.TailText;
    if tail.Some? {
      TailIsComment(s, i, tail.value);
      EndStays(s, i + |J.TailText(tail)|);
      SlashStays(s, i);
      var end := St(i, evs).(pos := i + |J.TailText(tail)|);
      assert SkipComments(s, end) == Ok(end);
      assert SkipComments(s, St(i, evs)) == SkipComments(s, end);
    } else {
      NothingDerived();
      EndStays(s, i);
    }
  }

  lemma TailIsComment(s: seq<Byte>, i: nat, body: seq<Byte>)
    requires 0 !in body && 0x0A !in body && Occurs(s, i, J.TailText(Some(body)))
    requires Peek(s, i + |J.TailText(Some(body))|) == 0
    ensures var e := i + |J.TailText(Some(body))|;
            e <= |s| && Peek(s, i) == SLASH && SkipComment(s, i) == Closed(e)
  {
    hide SkipLine;
    OccursAt(s, i, J.TailText(Some(body)), 0);
    OccursAt(s, i, J.TailText(Some(body)), 1);
    OccursSplit(s, i, [0x2F, 0x2F], body);
    LineSkipped(s, i + 2, body, 0);
  }

  lemma SlashStays(s: seq<Byte>, i: nat)
    requires Peek(s, i) == SLASH
    ensures i < |s| && SkipSpaces(s, i) == i
  {
  }

  lemma SolidStays(c: Config, s: seq<Byte>, i: nat, evs: seq<Event>)
    requires i <= |s| && Solid(c, Peek(s, i))
    ensures Ws(c, s, St(i, evs)) == Ok(St(i, evs))
  {
  }

  /** What was skipped is white space and comments; the last may be a line comment that ends with the text. */
  lemma {:induction false} SpacesDerived(s: seq<Byte>, i: nat) returns (gs: seq<J.Gap>)
    requires i <= |s|
    ensures J.ValidGaps(false, gs) && J.GapsText(gs) == s[i..SkipSpaces(s, i)]
    decreases |s| - i
  {
    gs := [];
    if IsSpace(Peek(s, i)) {
      var rest := SpacesDerived(s, i + 1);
      gs := [J.Space(s[i])] + rest;
      assert gs[1..] == rest;
      assert s[i..SkipSpaces(s, i)] == [s[i]] + s[i + 1..SkipSpaces(s, i + 1)];
    }
  }

  lemma {:induction false} BlockDerived(s: seq<Byte>, i: nat) returns (body: seq<Byte>)
    requires i <= |s| && SkipBlock(s, i).Closed?
    ensures J.ValidGap(true, J.Block(body)) && s[i..SkipBlock(s, i).pos] == body + [0x2A, 0x2F]
    decreases |s| - i
  {
    body := [];
    if !(s[i] == STAR && Peek(s, i + 1) == SLASH) {
      var rest := BlockDerived(s, i + 1);
      body := [s[i]] + rest;
      assert s[i..SkipBlock(s, i).pos] == [s[i]] + s[i + 1..SkipBlock(s, i + 1).pos];
      forall k | 0 <= k < |body| - 1 ensures !(body[k] == 0x2A && body[k + 1] == 0x2F) {
        if k == 0 { assert s[i + 1..SkipBlock(s, i + 1).pos][0] == rest[0]; }
      }
    }
  }

  lemma {:induction false} LineDerived(s: seq<Byte>, i: nat) returns (body: seq<Byte>, closed: bool)
    requires i <= |s|
    ensures 0 !in body && 0x0A !in body && (!closed ==> Peek(s, SkipLine(s, i)) == 0)
    ensures s[i..SkipLine(s, i)] == body + if closed then [0x0A] else []
    decreases |s| - i
  {
    body, closed := [], Peek(s, i) != 0;
    if Peek(s, i) != 0 && s[i] != LF {
      var rest;
      rest, closed := LineDerived(s, i + 1);
      body := [s[i]] + rest;
      assert s[i..SkipLine(s, i)] == [s[i]] + s[i + 1..SkipLine(s, i + 1)];
    }
  }

  lemma Slices(s: seq<Byte>, a: nat, b: nat, c: nat)
    requires a <= b <= c <= |s|
    ensures s[a..c] == s[a..b] + s[b..c]
  {
  }

  /** Comments, and the spaces behind each. */
  lemma {:induction false} CommentsDerived(s: seq<Byte>, st: St) returns (gs: seq<J.Gap>, tail: Option<seq<Byte>>)
    requires st.pos <= |s| && SkipComments(s, st).Ok?
    ensures J.ValidGaps(true, gs) && J.ValidTail(true, tail)
    ensures s[st.pos..SkipComments(s, st).st.pos] == J.GapsText(gs) + J.TailText(tail)
    ensures tail.Some? ==> Peek(s, SkipComments(s, st).st.pos) == 0
    decreases |s| - st.pos
  {
    hide SkipComment, SkipSpaces, J.ValidGap, J.GapsText, J.TailText;
    gs, tail := [], None;
    NothingDerived();
    if Peek(s, st.pos) == SLASH {
      var next := SkipComment(s, st.pos).pos;
      var first, last := CommentDerived(s, st.pos);
      var at := SkipSpaces(s, next);
      if last.Some? {
        tail := last;
        EndStays(s, next);
        assert SkipComments(s, st.(pos := at)) == Ok(st.(pos := at));
      } else {
        var spaces := SpacesDerived(s, next);
        var rest;
        rest, tail := CommentsDerived(s, st.(pos := at));
        gs := first + spaces + rest;
        GapsJoined(first, spaces);
        GapsJoined(first + spaces, rest);
        Slices(s, st.pos, next, at);
        Slices(s, st.pos, at, SkipComments(s, st).st.pos);
        GapsWiden(spaces);
        Appended(J.GapsText(first), J.GapsText(spaces), J.GapsText(rest), J.TailText(tail));
      }
    }
  }

  lemma Appended(a: seq<Byte>, b: seq<Byte>, c: seq<Byte>, d: seq<Byte>)
    ensures (a + b) + (c + d) == ((a + b) + c) + d
  {
  }

  lemma NothingDerived()
    ensures J.GapsText([]) == [] && J.TailText(None) == []
  {
  }

  lemma EndStays(s: seq<Byte>, i: nat)
    requires i <= |s| && Peek(s, i) == 0
    ensures SkipSpaces(s, i) == i
  {
  }

  lemma GapsWiden(gs: seq<J.Gap>)
    requires J.ValidGaps(false, gs)
    ensures J.ValidGaps(true, gs)
  {
  }

  lemma {:induction false} GapsJoined(a: seq<J.Gap>, b: seq<J.Gap>)
    ensures J.GapsText(a + b) == J.GapsText(a) + J.GapsText(b)
  {
    if a == [] {
      assert a + b == b;
    } else {
      assert (a + b)[1..] == a[1..] + b;
      GapsJoined(a[1..], b);
    }
  }

  /** One comment, or a last one without its line feed, behind which the text ends. */
  lemma CommentDerived(s: seq<Byte>, i: nat) returns (gs: seq<J.Gap>, tail: Option<seq<Byte>>)
    requires Peek(s, i) == SLASH && SkipComment(s, i).Closed?
    ensures J.ValidGaps(true, gs) && J.ValidTail(true, tail)
    ensures s[i..SkipComment(s, i).pos] == J.GapsText(gs) + J.TailText(tail)
    ensures tail.Some? ==> gs == [] && Peek(s, SkipComment(s, i).pos) == 0
  {
    var next := SkipComment(s, i).pos;
    gs, tail := [], None;
    if Peek(s, i + 1) == STAR {
      var body := BlockDerived(s, i + 2);
      gs := [J.Block(body)];
      assert s[i..next] == [0x2F, 0x2A] + s[i + 2..next];
    } else {
      var body, closed := LineDerived(s, i + 2);
      assert s[i..next] == [0x2F, 0x2F] + s[i + 2..next];
      if closed { gs := [J.Line(body)]; } else { tail := Some(body); }
    }
  }

  /** All that was skipped is white space and comments; the last may be a line comment that ends with the text. */
  lemma WsDerived(c: Config, s: seq<Byte>, st: St) returns (gs: seq<J.Gap>, tail: Option<seq<Byte>>)
    requires st.pos <= |s| && Ws(c, s, st).Ok?
    ensures J.ValidGaps(c.comments, gs) && J.ValidTail(c.comments, tail)
    ensures s[st.pos..Ws(c, s, st).st.pos] == J.GapsText(gs) + J.TailText(tail)
    ensures tail.Some? ==> Peek(s, Ws(c, s, st).st.pos) == 0
  {
    hide SkipComments, SkipSpaces, J.ValidGap, J.GapsText, J.TailText;
    NothingDerived();
    var at := SkipSpaces(s, st.pos);
    var spaces := SpacesDerived(s, st.pos);
    gs, tail := spaces, None;
    if c.comments {
      var rest;
      rest, tail := CommentsDerived(s, st.(pos := at));
      gs := spaces + rest;
      GapsJoined(spaces, rest);
      GapsWiden(spaces);
      Slices(s, st.pos, at, Ws(c, s, st).st.pos);
      Appended(J.GapsText(spaces), [], J.GapsText(rest), J.TailText(tail));
    }
  }

  // Strings.

  lemma HexDigitScanned(b: Byte)
    ensures J.IsHexDigit(b) <==> Strings.HexValue(b).Some?
    ensures J.IsHexDigit(b) ==> Strings.HexValue(b) == Some(J.HexDigitValue(b))
  {
  }

  /** Four hexadecimal digits, or not. */
  lemma HexScanned(s: seq<Byte>, i: nat)
    ensures Strings.HexDigits(s, i, 4).Some? ==> i + 4 <= |s| && J.IsHex(s[i..i + 4])
    ensures i + 4 <= |s| && J.IsHex(s[i..i + 4]) ==> Strings.HexDigits(s, i, 4) == Some(J.HexNumber(s[i..i + 4]))
  {
    hide Strings.HexValue, J.IsHexDigit, J.HexDigitValue;
    HexDigitScanned(Peek(s, i)); HexDigitScanned(Peek(s, i + 1));
    HexDigitScanned(Peek(s, i + 2)); HexDigitScanned(Peek(s, i + 3));
    assert Strings.HexDigits(s, i, 0) == Some(0);
    assert Strings.HexDigits(s, i, 1).Some? <==> Strings.HexValue(Peek(s, i)).Some?;
    assert Strings.HexDigits(s, i, 2).Some? <==>
             Strings.HexDigits(s, i, 1).Some? && Strings.HexValue(Peek(s, i + 1)).Some?;
    assert Strings.HexDigits(s, i, 3).Some? <==>
             Strings.HexDigits(s, i, 2).Some? && Strings.HexValue(Peek(s, i + 2)).Some?;
    if i + 4 <= |s| {
      assert s[i..i + 4] == [s[i], s[i + 1], s[i + 2], s[i + 3]];
    }
  }

  lemma OctetsAgree(cp: nat)
    requires cp <= 0x10FFFF
    ensures J.Utf8Octets(cp) == Utf8.Encode(cp)
  {
  }

  lemma ShortAgrees(letter: Byte)
    ensures if Strings.SimpleEscape(letter) == 0 then J.ShortMeaning(letter) == None
            else J.ShortMeaning(letter) == Some(Strings.SimpleEscape(letter))
  {
  }

  /** One character of a string. */
  lemma CharacterScanned(s: seq<Byte>, i: nat, ch: J.Character)
    requires J.ValidCharacter(ch) && Occurs(s, i, J.CharacterText(ch))
    ensures Strings.NextUnit(s, i) == Strings.Piece(J.CharacterOctets(ch), i + |J.CharacterText(ch)|)
  {
    hide Strings.HexDigits, J.HexNumber, J.IsHexDigit, J.Utf8Octets, Utf8.Encode, J.ShortMeaning, Strings.SimpleEscape;
    var t := J.CharacterText(ch);
    OccursAt(s, i, t, 0);
    if |t| > 1 {
      OccursAt(s, i, t, 1);
      ShortAgrees(t[1]);
    }
    match ch
    case Plain(b) =>
    case Short(letter) =>
    case Hex(h) => HexCharacter(s, i, h);
    case Pair(h, h2) =>
      assert t == ([0x5C, 0x75] + h) + ([0x5C, 0x75] + h2);
      OccursSplit(s, i, [0x5C, 0x75] + h, [0x5C, 0x75] + h2);
      OccursAt(s, i + 6, [0x5C, 0x75] + h2, 0);
      OccursAt(s, i + 6, [0x5C, 0x75] + h2, 1);
      HexCharacter(s, i, h);
      HexCharacter(s, i + 6, h2);
      OctetsAgree(0x10000 + (J.HexNumber(h) - 0xD800) * 0x400 + (J.HexNumber(h2) - 0xDC00));
  }

  lemma HexCharacter(s: seq<Byte>, i: nat, h: seq<Byte>)
    requires J.IsHex(h) && Occurs(s, i, [0x5C, 0x75] + h)
    ensures Strings.HexDigits(s, i + 2, 4) == Some(J.HexNumber(h))
    ensures Utf8.Encode(J.HexNumber(h)) == J.Utf8Octets(J.HexNumber(h))
    ensures Strings.SimpleEscape(0x75) == 0
  {
    hide Strings.HexDigits, J.HexNumber, J.IsHexDigit, J.Utf8Octets, Utf8.Encode;
    OccursSplit(s, i, [0x5C, 0x75], h);
    HexScanned(s, i + 2);
    OctetsAgree(J.HexNumber(h));
  }

  lemma {:induction false} CharactersScanned(s: seq<Byte>, i: nat, cs: seq<J.Character>)
    requires J.ValidCharacters(cs) && Occurs(s, i, J.CharactersText(cs) + [0x22])
    ensures i <= |s|
    ensures Strings.Decode(s, i) == Strings.Text(J.CharactersOctets(cs), i + |J.CharactersText(cs)| + 1)
    decreases |cs|
  {
    hide Strings.NextUnit, J.CharacterText, J.ValidCharacter, J.CharacterOctets;
    if cs == [] {
      assert J.CharactersText(cs) + [0x22] == [0x22];
      OccursAt(s, i, [0x22], 0);
      QuoteCloses(s, i);
    } else {
      var first, rest := J.CharacterText(cs[0]), J.CharactersText(cs[1..]) + [0x22];
      assert J.CharactersText(cs) + [0x22] == first + rest;
      OccursSplit(s, i, first, rest);
      CharacterScanned(s, i, cs[0]);
      CharactersScanned(s, i + |first|, cs[1..]);
    }
  }

  lemma QuoteCloses(s: seq<Byte>, i: nat)
    requires Peek(s, i) == 0x22
    ensures Strings.NextUnit(s, i) == Strings.Close
  {
  }

  /** Every unit that is read is a character of the grammar. */
  lemma CharacterDerived(s: seq<Byte>, i: nat) returns (ch: J.Character)
    requires i <= |s| && Strings.NextUnit(s, i).Piece?
    ensures J.ValidCharacter(ch) && i < Strings.NextUnit(s, i).next <= |s|
    ensures s[i..Strings.NextUnit(s, i).next] == J.CharacterText(ch)
    ensures Strings.NextUnit(s, i).bytes == J.CharacterOctets(ch)
  {
    hide Strings.HexDigits, J.HexNumber, J.IsHexDigit, J.Utf8Octets, Utf8.Encode, J.ShortMeaning, Strings.SimpleEscape;
    var next := Strings.NextUnit(s, i).next;
    ShortAgrees(Peek(s, i + 1));
    HexScanned(s, i + 2);
    HexScanned(s, i + 8);
    if s[i] != BACKSLASH {
      ch := J.Plain(s[i]);
      assert s[i..next] == [s[i]];
    } else if Strings.SimpleEscape(Peek(s, i + 1)) != 0 {
      ch := J.Short(s[i + 1]);
      assert s[i..next] == [0x5C, s[i + 1]];
    } else if next == i + 6 {
      ch := J.Hex(s[i + 2..i + 6]);
      OctetsAgree(J.HexNumber(s[i + 2..i + 6]));
      assert s[i..next] == [0x5C, 0x75] + s[i + 2..i + 6];
    } else {
      var h, h2 := s[i + 2..i + 6], s[i + 8..i + 12];
      ch := J.Pair(h, h2);
      OctetsAgree(0x10000 + (J.HexNumber(h) - 0xD800) * 0x400 + (J.HexNumber(h2) - 0xDC00));
      assert s[i..next] == [0x5C, 0x75] + h + [0x5C, 0x75] + h2;
    }
  }

  lemma {:induction false} CharactersDerived(s: seq<Byte>, i: nat) returns (cs: seq<J.Character>)
    requires i <= |s| && Strings.Decode(s, i).Text?
    ensures J.ValidCharacters(cs) && Strings.Decode(s, i).bytes == J.CharactersOctets(cs)
    ensures s[i..Strings.Decode(s, i).next] == J.CharactersText(cs) + [0x22]
    decreases |s| - i
  {
    hide Strings.NextUnit, J.CharacterText, J.ValidCharacter, J.CharacterOctets;
    cs := [];
    if Strings.NextUnit(s, i).Close? {
      CloseIsQuote(s, i);
    } else {
      var ch := CharacterDerived(s, i);
      var next := Strings.NextUnit(s, i).next;
      var rest := CharactersDerived(s, next);
      cs := [ch] + rest;
      assert cs[1..] == rest;
      Slices(s, i, next, Strings.Decode(s, i).next);
    }
  }

  lemma CloseIsQuote(s: seq<Byte>, i: nat)
    requires i <= |s| && Strings.NextUnit(s, i).Close?
    ensures i < |s| && s[i..i + 1] == [0x22]
  {
  }
}
