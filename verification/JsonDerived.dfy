/** The other direction: every text the parsers accept is one of the JSON grammar. */
module JsonDerived {
  import opened Chars
  import opened Events
  import opened Whitespace
  import opened Grammar
  import opened JsonNumbers
  import opened JsonScanned
  import opened JsonParsed
  import Equivalence
  import J = Json
  import Numbers
  import Strings

  // What a routine of the parser did on its way to a success.

  lemma ValueTaken(c: Config, s: seq<Byte>, st: St)
    requires st.pos <= |s| && PValue(c, s, st).Ok?
    ensures st.pos < |s| && s[st.pos] != 0
  {
    if Peek(s, st.pos) == 0 { Equivalence.StrayValue(c, s, st); }
  }

  lemma ContainerTaken(c: Config, s: seq<Byte>, st: St)
    requires st.pos < |s| && PValue(c, s, st).Ok? && (s[st.pos] == LBRACKET || s[st.pos] == LBRACE)
    ensures var w := Ws(c, s, St(st.pos + 1, st.evs + [if s[st.pos] == LBRACKET then StartArray else StartObject]));
            && w.Ok?
            && (s[st.pos] == LBRACKET ==>
                  PValue(c, s, st) == if Peek(s, w.st.pos) == RBRACKET then Ok(St(w.st.pos + 1, w.st.evs + [EndArray(0)]))
                                      else PElements(c, s, w.st, 0))
            && (s[st.pos] == LBRACE ==>
                  PValue(c, s, st) == if Peek(s, w.st.pos) == RBRACE then Ok(St(w.st.pos + 1, w.st.evs + [EndObject(0)]))
                                      else PMembers(c, s, w.st, 0))
  {
    hide Ws, PElements, PMembers;
  }

  lemma ElementTaken(c: Config, s: seq<Byte>, st: St, n: nat)
    requires st.pos <= |s| && PElements(c, s, st, n).Ok?
    ensures PValue(c, s, st).Ok? && Ws(c, s, PValue(c, s, st).st).Ok?
    ensures PElements(c, s, st, n) == PElementEnd(c, s, Ws(c, s, PValue(c, s, st).st).st, Increment(n))
  {
    hide Ws, PValue, PElementEnd;
  }

  lemma ElementEndTaken(c: Config, s: seq<Byte>, st: St, n: nat)
    requires st.pos <= |s| && PElementEnd(c, s, st, n).Ok?
    ensures st.pos < |s| && (s[st.pos] == COMMA || s[st.pos] == RBRACKET)
    ensures s[st.pos] == RBRACKET ==> PElementEnd(c, s, st, n) == Ok(St(st.pos + 1, st.evs + [EndArray(n)]))
    ensures s[st.pos] == COMMA ==>
              var w := Ws(c, s, st.(pos := st.pos + 1));
              && w.Ok?
              && if c.trailingCommas && Peek(s, w.st.pos) == RBRACKET
                 then PElementEnd(c, s, st, n) == Ok(St(w.st.pos + 1, w.st.evs + [EndArray(n)]))
                 else PElementEnd(c, s, st, n) == PElements(c, s, w.st, n)
  {
    hide Ws, PElements;
  }

  lemma MemberTaken(c: Config, s: seq<Byte>, st: St, n: nat) returns (name: St, colon: St, at: St, value: St, end: St)
    requires st.pos <= |s| && PMembers(c, s, st, n).Ok?
    ensures st.pos < |s| && s[st.pos] == QUOTE && PString(c, s, st, true) == Ok(name) && name.pos <= |s|
    ensures Ws(c, s, name) == Ok(colon) && colon.pos < |s| && s[colon.pos] == COLON
    ensures Ws(c, s, colon.(pos := colon.pos + 1)) == Ok(at) && at.pos < |s| && s[at.pos] != 0
    ensures PValue(c, s, at) == Ok(value) && at.pos < value.pos <= |s| && Ws(c, s, value) == Ok(end) && end.pos <= |s|
    ensures PMembers(c, s, st, n) == PMemberEnd(c, s, end, Increment(n))
  {
    hide Ws, PValue, PMemberEnd, PString;
    assert PMember(c, s, st).Ok?;
    name := PString(c, s, st, true).st;
    colon := Ws(c, s, name).st;
    at := Ws(c, s, colon.(pos := colon.pos + 1)).st;
    value := PValue(c, s, at).st;
    end := Ws(c, s, value).st;
    ValueTaken(c, s, at);
  }

  lemma MemberEndTaken(c: Config, s: seq<Byte>, st: St, n: nat)
    requires st.pos <= |s| && PMemberEnd(c, s, st, n).Ok?
    ensures st.pos < |s| && (s[st.pos] == COMMA || s[st.pos] == RBRACE)
    ensures s[st.pos] == RBRACE ==> PMemberEnd(c, s, st, n) == Ok(St(st.pos + 1, st.evs + [EndObject(n)]))
    ensures s[st.pos] == COMMA ==>
              var w := Ws(c, s, st.(pos := st.pos + 1));
              && w.Ok?
              && if c.trailingCommas && Peek(s, w.st.pos) == RBRACE
                 then PMemberEnd(c, s, st, n) == Ok(St(w.st.pos + 1, w.st.evs + [EndObject(n)]))
                 else PMemberEnd(c, s, st, n) == PMembers(c, s, w.st, n)
  {
    hide Ws, PMembers;
  }

  // The trees.

  /** White space in front of something. */
  lemma GapsDerived(c: Config, s: seq<Byte>, st: St) returns (gs: seq<J.Gap>)
    requires st.pos <= |s| && Ws(c, s, st).Ok? && Peek(s, Ws(c, s, st).st.pos) != 0
    ensures J.ValidGaps(c.comments, gs) && s[st.pos..Ws(c, s, st).st.pos] == J.GapsText(gs)
  {
    hide Ws, J.ValidGap, J.GapsText;
    var tail;
    gs, tail := WsDerived(c, s, st);
    NothingDerived();
  }

  /** A bracket or comma, and what is behind it. */
  lemma Behind(s: seq<Byte>, i: nat, j: nat, k: nat)
    requires i < j <= k <= |s|
    ensures s[i..k] == [s[i]] + (s[i + 1..j] + s[j..k])
  {
  }

  lemma {:induction false} ValueDerived(c: Config, s: seq<Byte>, st: St) returns (t: J.Tree)
    requires st.pos <= |s| && PValue(c, s, st).Ok?
    ensures J.Valid(c, t) && s[st.pos..PValue(c, s, st).st.pos] == J.Text(t)
    ensures PValue(c, s, st).st.evs == st.evs + J.Told(t)
    decreases |s| - st.pos, 1
  {
    hide PValue, J.Text, J.Told, J.Valid;
    ValueTaken(c, s, st);
    if s[st.pos] == LBRACKET {
      t := ArrayDerived(c, s, st);
    } else if s[st.pos] == LBRACE {
      t := ObjectDerived(c, s, st);
    } else {
      t := ScalarDerived(c, s, st);
    }
  }

  lemma ScalarDerived(c: Config, s: seq<Byte>, st: St) returns (t: J.Tree)
    requires st.pos < |s| && PValue(c, s, st).Ok? && s[st.pos] != LBRACKET && s[st.pos] != LBRACE
    ensures J.Valid(c, t) && s[st.pos..PValue(c, s, st).st.pos] == J.Text(t)
    ensures PValue(c, s, st).st.evs == st.evs + J.Told(t)
  {
    hide MatchEnd, Numbers.Lex, J.NumberText, J.NumberEvent, J.TooBig, J.ValidNumber, Strings.Decode, J.CharactersOctets;
    hide J.CharactersText, J.ValidCharacter;
    var b := s[st.pos];
    if b == LOWER_N {
      LiteralTaken(s, st.pos, NULL_TEXT);
      t := J.NullTree;
    } else if b == LOWER_T {
      LiteralTaken(s, st.pos, TRUE_TEXT);
      t := J.TrueTree;
    } else if b == LOWER_F {
      LiteralTaken(s, st.pos, FALSE_TEXT);
      t := J.FalseTree;
    } else if b == QUOTE {
      var cs := CharactersDerived(s, st.pos + 1);
      Slices(s, st.pos, st.pos + 1, PValue(c, s, st).st.pos);
      t := J.StringTree(cs);
    } else {
      var n := NumberDerived(c, s, st.pos);
      t := J.NumberTree(n);
    }
  }

  lemma LiteralTaken(s: seq<Byte>, i: nat, lit: seq<Byte>)
    requires i < |s| && lit != [] && s[i] == lit[0] && forall m :: 0 <= m < |lit| ==> lit[m] != 0
    ensures MatchEnd(s, i + 1, lit, 1) == i + |lit| ==> s[i..i + |lit|] == lit
  {
    hide MatchEnd;
    if MatchEnd(s, i + 1, lit, 1) == i + |lit| {
      MatchedFrom(s, i + 1, lit, 1);
      FirstAndRest(s, i, lit);
    }
  }

  lemma FirstAndRest(s: seq<Byte>, i: nat, lit: seq<Byte>)
    requires lit != [] && i + |lit| <= |s| && s[i] == lit[0] && s[i + 1..i + |lit|] == lit[1..]
    ensures s[i..i + |lit|] == lit
  {
    assert s[i..i + |lit|] == [s[i]] + s[i + 1..i + |lit|];
  }

  lemma {:induction false} MatchedFrom(s: seq<Byte>, i: nat, lit: seq<Byte>, k: nat)
    requires i <= |s| && k <= |lit| && forall m :: 0 <= m < |lit| ==> lit[m] != 0
    requires MatchEnd(s, i, lit, k) == i + |lit| - k
    ensures i + |lit| - k <= |s| && s[i..i + |lit| - k] == lit[k..]
    decreases |lit| - k
  {
    if k < |lit| {
      MatchedFrom(s, i + 1, lit, k + 1);
      assert s[i..i + |lit| - k] == [s[i]] + s[i + 1..i + |lit| - k];
    }
  }

  lemma {:induction false} ArrayDerived(c: Config, s: seq<Byte>, st: St) returns (t: J.Tree)
    requires st.pos < |s| && PValue(c, s, st).Ok? && s[st.pos] == LBRACKET
    ensures J.Valid(c, t) && s[st.pos..PValue(c, s, st).st.pos] == J.Text(t)
    ensures PValue(c, s, st).st.evs == st.evs + J.Told(t)
    decreases |s| - st.pos, 0
  {
    hide PValue, PElements, Ws, J.Text, J.GapsText, ArrayRest, ArrayEnd, J.ValidGap, J.Told;
    ContainerTaken(c, s, st);
    var at := Ws(c, s, St(st.pos + 1, st.evs + [StartArray])).st;
    var end := PValue(c, s, st).st;
    if Peek(s, at.pos) == RBRACKET {
      var gs := GapsDerived(c, s, St(st.pos + 1, st.evs + [StartArray]));
      t := J.ArrayTree(gs, [], None);
      EmptyRest(None);
      ArrayText(gs, [], None);
      ArrayTold(st.evs, gs, [], None);
      Behind(s, st.pos, at.pos, end.pos);
    } else {
      var items, comma := ElementsDerived(c, s, at, 0);
      ElementTaken(c, s, at, 0);
      ValueTaken(c, s, at);
      var gs := GapsDerived(c, s, St(st.pos + 1, st.evs + [StartArray]));
      items := Fronted(c, gs, items, comma, at.evs, 0);
      t := J.ArrayTree([], items, comma);
      NoGaps();
      ArrayText([], items, comma);
      ArrayTold(st.evs, [], items, comma);
      Behind(s, st.pos, at.pos, end.pos);
    }
  }

  /** White space put in front of the first item. */
  lemma Fronted(c: Config, gs: seq<J.Gap>, items: seq<J.Item>, comma: Option<seq<J.Gap>>, evs: seq<Event>, n: nat)
    returns (r: seq<J.Item>)
    requires items != [] && items[0].before == [] && J.ValidGaps(c.comments, gs)
    requires forall k :: 0 <= k < |items| ==> J.ValidItem(c, items[k])
    ensures |r| == |items| && forall k :: 0 <= k < |r| ==> J.ValidItem(c, r[k])
    ensures ArrayRest(r, comma) == J.GapsText(gs) + ArrayRest(items, comma)
    ensures ArrayEnd(evs, r, n) == ArrayEnd(evs, items, n)
  {
    hide J.Text, J.Told, J.GapsText, ArrayRest, MoreRest, J.Valid, J.ValidGap;
    r := items[0 := items[0].(before := gs)];
    assert r[1..] == items[1..];
    RestText(items, comma);
    RestText(r, comma);
    NoGaps();
  }

  /** From the first character of an item on. */
  lemma {:induction false} ElementsDerived(c: Config, s: seq<Byte>, st: St, n: nat)
    returns (items: seq<J.Item>, comma: Option<seq<J.Gap>>)
    requires st.pos <= |s| && PElements(c, s, st, n).Ok?
    ensures items != [] && items[0].before == [] && forall k :: 0 <= k < |items| ==> J.ValidItem(c, items[k])
    ensures J.ValidComma(c, comma, false) && s[st.pos..PElements(c, s, st, n).st.pos] == ArrayRest(items, comma)
    ensures PElements(c, s, st, n).st.evs == ArrayEnd(st.evs, items, n)
    decreases |s| - st.pos, 2
  {
    hide PElements, PElementEnd, PValue, Ws, J.Text, J.GapsText, ArrayRest, MoreRest, J.Told, J.Valid, J.ValidGap;
    hide ArrayEnd, Increment;
    CountFits(n);
    ElementTaken(c, s, st, n);
    var t := ValueDerived(c, s, st);
    var value := PValue(c, s, st).st;
    var end := Ws(c, s, value).st;
    var rest;
    rest, comma := ElementEndDerived(c, s, end, Increment(n));
    ElementEndTaken(c, s, end, Increment(n));
    var after := GapsDerived(c, s, value);
    items := [J.Item([], t, after)] + rest;
    assert items[1..] == rest;
    NoGaps();
    RestText(items, comma);
    ArrayGoesOn(st.evs, items, n);
    Slices(s, st.pos, value.pos, PElements(c, s, st, n).st.pos);
    Slices(s, value.pos, end.pos, PElements(c, s, st, n).st.pos);
  }

  lemma {:induction false} ElementEndDerived(c: Config, s: seq<Byte>, st: St, n: nat)
    returns (items: seq<J.Item>, comma: Option<seq<J.Gap>>)
    requires st.pos <= |s| && PElementEnd(c, s, st, n).Ok? && n < 0x1_0000_0000
    ensures forall k :: 0 <= k < |items| ==> J.ValidItem(c, items[k])
    ensures J.ValidComma(c, comma, false) && s[st.pos..PElementEnd(c, s, st, n).st.pos] == MoreRest(items, comma)
    ensures PElementEnd(c, s, st, n).st.evs == ArrayEnd(st.evs, items, n)
    decreases |s| - st.pos, 0
  {
    hide PElements, PElementEnd, Ws, J.Text, J.GapsText, ArrayRest, MoreRest, J.Told, J.Valid, J.ValidGap, ArrayEnd;
    ElementEndTaken(c, s, st, n);
    var end := PElementEnd(c, s, st, n).st;
    var behind := st.(pos := st.pos + 1);
    items, comma := [], None;
    ArrayStops(st.evs, n);
    if s[st.pos] == RBRACKET {
      EmptyRest(comma);
    } else {
      var at := Ws(c, s, behind).st;
      Behind(s, st.pos, at.pos, end.pos);
      if c.trailingCommas && Peek(s, at.pos) == RBRACKET {
        var gs := GapsDerived(c, s, behind);
        comma := Some(gs);
        TrailingRest(comma);
      } else {
        items, comma := ElementsDerived(c, s, at, n);
        ElementTaken(c, s, at, n);
        ValueTaken(c, s, at);
        var gs := GapsDerived(c, s, behind);
        items := Fronted(c, gs, items, comma, at.evs, n);
        RestText(items, comma);
      }
    }
  }

  lemma {:induction false} ObjectDerived(c: Config, s: seq<Byte>, st: St) returns (t: J.Tree)
    requires st.pos < |s| && PValue(c, s, st).Ok? && s[st.pos] == LBRACE
    ensures J.Valid(c, t) && s[st.pos..PValue(c, s, st).st.pos] == J.Text(t)
    ensures PValue(c, s, st).st.evs == st.evs + J.Told(t)
    decreases |s| - st.pos, 0
  {
    hide PValue, PMembers, Ws, J.Text, J.GapsText, ObjectRest, ObjectEnd, J.ValidGap, J.Told;
    ContainerTaken(c, s, st);
    var at := Ws(c, s, St(st.pos + 1, st.evs + [StartObject])).st;
    var end := PValue(c, s, st).st;
    if Peek(s, at.pos) == RBRACE {
      var gs := GapsDerived(c, s, St(st.pos + 1, st.evs + [StartObject]));
      t := J.ObjectTree(gs, [], None);
      EmptyObjectRest(None);
      ObjectText(gs, [], None);
      ObjectTold(st.evs, gs, [], None);
      Behind(s, st.pos, at.pos, end.pos);
    } else {
      var members, comma := MembersDerived(c, s, at, 0);
      var gs := GapsDerived(c, s, St(st.pos + 1, st.evs + [StartObject]));
      members := MembersFronted(c, gs, members, comma, at.evs, 0);
      t := J.ObjectTree([], members, comma);
      NoGaps();
      ObjectText([], members, comma);
      ObjectTold(st.evs, [], members, comma);
      Behind(s, st.pos, at.pos, end.pos);
    }
  }

  lemma MembersFronted(c: Config, gs: seq<J.Gap>, members: seq<J.Member>, comma: Option<seq<J.Gap>>,
                       evs: seq<Event>, n: nat)
    returns (r: seq<J.Member>)
    requires members != [] && members[0].before == [] && J.ValidGaps(c.comments, gs)
    requires forall k :: 0 <= k < |members| ==> J.ValidMember(c, members[k])
    ensures |r| == |members| && forall k :: 0 <= k < |r| ==> J.ValidMember(c, r[k])
    ensures ObjectRest(r, comma) == J.GapsText(gs) + ObjectRest(members, comma)
    ensures ObjectEnd(evs, r, n) == ObjectEnd(evs, members, n)
  {
    hide J.Text, J.Told, J.GapsText, ObjectRest, MoreObjectRest, J.ValidItem, J.ValidGap, ItemRest, J.StringText;
    r := members[0 := members[0].(before := gs)];
    assert r[1..] == members[1..];
    MemberRestText(members, comma);
    MemberRestText(r, comma);
    NoGaps();
  }

  /** From the first character of a member on. */
  lemma {:induction false} MembersDerived(c: Config, s: seq<Byte>, st: St, n: nat)
    returns (members: seq<J.Member>, comma: Option<seq<J.Gap>>)
    requires st.pos <= |s| && PMembers(c, s, st, n).Ok?
    ensures st.pos < |s| && s[st.pos] != 0 && members != [] && members[0].before == []
    ensures forall k :: 0 <= k < |members| ==> J.ValidMember(c, members[k])
    ensures J.ValidComma(c, comma, false) && s[st.pos..PMembers(c, s, st, n).st.pos] == ObjectRest(members, comma)
    ensures PMembers(c, s, st, n).st.evs == ObjectEnd(st.evs, members, n)
    decreases |s| - st.pos, 2
  {
    hide PMembers, PMemberEnd, PValue, PString, Ws, ObjectRest, MoreObjectRest, J.Told, J.Text, J.MemberText, ObjectEnd;
    hide J.Valid, J.ValidMember, J.ValidGap, Increment;
    CountFits(n);
    var name, colon, at, value, end := MemberTaken(c, s, st, n);
    var t := ValueDerived(c, s, at);
    var rest;
    rest, comma := MemberEndDerived(c, s, end, Increment(n));
    MemberEndTaken(c, s, end, Increment(n));
    var m := MemberDerived(c, s, st, name, colon, at, value, end, t);
    members := [m] + rest;
    assert members[1..] == rest;
    MemberInFront(m, rest, comma);
    ObjectGoesOn(st.evs, members, n);
    Slices(s, st.pos, end.pos, PMembers(c, s, st, n).st.pos);
  }

  lemma MemberInFront(m: J.Member, rest: seq<J.Member>, comma: Option<seq<J.Gap>>)
    ensures ObjectRest([m] + rest, comma) == J.MemberText(m) + MoreObjectRest(rest, comma)
  {
    hide J.MemberText, J.MoreMembersText, J.CommaText;
    assert ([m] + rest)[1..] == rest;
  }

  /** One member around the tree of its value. */
  lemma MemberDerived(c: Config, s: seq<Byte>, st: St, name: St, colon: St, at: St, value: St, end: St, t: J.Tree)
    returns (m: J.Member)
    requires st.pos < |s| && s[st.pos] == QUOTE && PString(c, s, st, true) == Ok(name) && name.pos <= |s|
    requires Ws(c, s, name) == Ok(colon) && colon.pos < |s| && s[colon.pos] == COLON
    requires Ws(c, s, colon.(pos := colon.pos + 1)) == Ok(at) && at.pos < value.pos <= |s| && s[at.pos] != 0
    requires Ws(c, s, value) == Ok(end) && end.pos < |s| && s[end.pos] != 0
    requires J.Valid(c, t) && s[at.pos..value.pos] == J.Text(t) && value.evs == at.evs + J.Told(t)
    ensures J.ValidMember(c, m) && m.before == [] && s[st.pos..end.pos] == J.MemberText(m) && m.item.value == t
    ensures end.evs == st.evs + [Key(J.CharactersOctets(m.name))] + J.Told(t)
  {
    hide PString, Ws, J.Text, J.GapsText, J.Told, J.Valid, J.ValidGap, J.ValidCharacter, J.StringText;
    hide J.CharactersOctets;
    var cs := NameDerived(c, s, st);
    var g0 := GapsDerived(c, s, name);
    var g1 := GapsDerived(c, s, colon.(pos := colon.pos + 1));
    var g2 := GapsDerived(c, s, value);
    m := J.Member([], cs, g0, J.Item(g1, t, g2));
    NoGaps();
    MemberStands(s, st.pos, name.pos, colon.pos, at.pos, value.pos, end.pos, m);
  }

  /** The parts of a member, one behind the other. */
  lemma MemberStands(s: seq<Byte>, i: nat, name: nat, colon: nat, at: nat, value: nat, end: nat, m: J.Member)
    requires i <= name <= colon < at <= value <= end <= |s|
    requires m.before == [] && s[i..name] == J.StringText(m.name) && s[name..colon] == J.GapsText(m.colon)
    requires s[colon] == 0x3A && s[colon + 1..at] == J.GapsText(m.item.before) && s[at..value] == J.Text(m.item.value)
    requires s[value..end] == J.GapsText(m.item.after)
    ensures s[i..end] == J.MemberText(m)
  {
    hide J.StringText, J.GapsText, J.Text;
    NoGaps();
    Slices(s, i, name, colon);
    Slices(s, i, colon, colon + 1);
    Slices(s, at, value, end);
    Slices(s, colon + 1, at, end);
    Slices(s, i, colon + 1, end);
  }

  lemma NameDerived(c: Config, s: seq<Byte>, st: St) returns (cs: seq<J.Character>)
    requires st.pos < |s| && s[st.pos] == QUOTE && PString(c, s, st, true).Ok?
    ensures J.ValidCharacters(cs) && s[st.pos..PString(c, s, st, true).st.pos] == J.StringText(cs)
    ensures PString(c, s, st, true).st.evs == st.evs + [Key(J.CharactersOctets(cs))]
  {
    hide Strings.Decode, J.CharactersOctets, J.CharactersText, J.ValidCharacter;
    cs := CharactersDerived(s, st.pos + 1);
    Slices(s, st.pos, st.pos + 1, PString(c, s, st, true).st.pos);
  }

  lemma {:induction false} MemberEndDerived(c: Config, s: seq<Byte>, st: St, n: nat)
    returns (members: seq<J.Member>, comma: Option<seq<J.Gap>>)
    requires st.pos <= |s| && PMemberEnd(c, s, st, n).Ok? && n < 0x1_0000_0000
    ensures forall k :: 0 <= k < |members| ==> J.ValidMember(c, members[k])
    ensures J.ValidComma(c, comma, false) && s[st.pos..PMemberEnd(c, s, st, n).st.pos] == MoreObjectRest(members, comma)
    ensures PMemberEnd(c, s, st, n).st.evs == ObjectEnd(st.evs, members, n)
    decreases |s| - st.pos, 0
  {
    hide PMembers, PMemberEnd, Ws, J.Text, J.GapsText, ObjectRest, MoreObjectRest, J.Told, J.ValidItem, J.ValidGap;
    hide ObjectEnd;
    MemberEndTaken(c, s, st, n);
    var end := PMemberEnd(c, s, st, n).st;
    var behind := st.(pos := st.pos + 1);
    members, comma := [], None;
    ObjectStops(st.evs, n);
    if s[st.pos] == RBRACE {
      EmptyObjectRest(comma);
    } else {
      var at := Ws(c, s, behind).st;
      Behind(s, st.pos, at.pos, end.pos);
      if c.trailingCommas && Peek(s, at.pos) == RBRACE {
        var gs := GapsDerived(c, s, behind);
        comma := Some(gs);
        TrailingObjectRest(comma);
      } else {
        members, comma := MembersDerived(c, s, at, n);
        var gs := GapsDerived(c, s, behind);
        members := MembersFronted(c, gs, members, comma, at.evs, n);
        MemberRestText(members, comma);
      }
    }
  }
}
