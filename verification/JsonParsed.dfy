/**
 * Which texts the parsers accept, and what they tell their handler: exactly the texts of the JSON grammar, with the
 * events of the derived value.
 */
module JsonParsed {
  import opened Chars
  import opened Events
  import opened Whitespace
  import opened Grammar
  import opened JsonNumbers
  import opened JsonScanned
  import A = Automaton
  import Equivalence
  import J = Json
  import Numbers
  import Strings

  function Wrapped(n: nat): nat { n % 0x1_0000_0000 }

  lemma CountFits(n: nat)
    ensures Increment(n) < 0x1_0000_0000
  {
  }

  /** Counting on from a count that has wrapped. */
  lemma CountOn(n: nat, k: nat)
    ensures Wrapped(Increment(n) + k) == Wrapped(n + 1 + k)
  {
  }

  // One step of the parser at a time, for a handler that never refuses.

  lemma OpenSteps(c: Config, s: seq<Byte>, st: St, at: St)
    requires Willing(c) && st.pos < |s| && at.pos <= |s|
    ensures Ws(c, s, St(st.pos + 1, st.evs + [StartArray])) == Ok(at) && Peek(s, st.pos) == LBRACKET ==>
              PValue(c, s, st) == if Peek(s, at.pos) == RBRACKET then Ok(St(at.pos + 1, at.evs + [EndArray(0)]))
                                  else PElements(c, s, at, 0)
    ensures Ws(c, s, St(st.pos + 1, st.evs + [StartObject])) == Ok(at) && Peek(s, st.pos) == LBRACE ==>
              PValue(c, s, st) == if Peek(s, at.pos) == RBRACE then Ok(St(at.pos + 1, at.evs + [EndObject(0)]))
                                  else PMembers(c, s, at, 0)
  {
    hide Ws, PElements, PMembers;
  }

  lemma ItemSteps(c: Config, s: seq<Byte>, st: St, value: St, end: St, n: nat)
    requires st.pos <= |s| && PValue(c, s, st) == Ok(value) && Ws(c, s, value) == Ok(end)
    ensures PElements(c, s, st, n) == PElementEnd(c, s, end, Increment(n))
  {
    hide Ws, PValue, PElementEnd;
  }

  lemma MemberSteps(c: Config, s: seq<Byte>, st: St, name: St, colon: St, at: St, value: St, end: St, n: nat)
    requires st.pos <= |s| && Peek(s, st.pos) == QUOTE && PString(c, s, st, true) == Ok(name)
    requires Ws(c, s, name) == Ok(colon) && Peek(s, colon.pos) == COLON && colon.pos < |s|
    requires Ws(c, s, colon.(pos := colon.pos + 1)) == Ok(at)
    requires PValue(c, s, at) == Ok(value) && Ws(c, s, value) == Ok(end)
    ensures PMembers(c, s, st, n) == PMemberEnd(c, s, end, Increment(n))
  {
    hide Ws, PValue, PMemberEnd, PString;
    assert PMember(c, s, st) == Ok(end) by { hide PMembers; }
    hide PMember;
  }

  lemma CloseSteps(c: Config, s: seq<Byte>, st: St, n: nat)
    requires Willing(c) && st.pos < |s|
    ensures s[st.pos] == RBRACKET ==> PElementEnd(c, s, st, n) == Ok(St(st.pos + 1, st.evs + [EndArray(n)]))
    ensures s[st.pos] == RBRACE ==> PMemberEnd(c, s, st, n) == Ok(St(st.pos + 1, st.evs + [EndObject(n)]))
  {
  }

  lemma CommaSteps(c: Config, s: seq<Byte>, st: St, at: St, n: nat)
    requires st.pos < |s| && s[st.pos] == COMMA && Ws(c, s, st.(pos := st.pos + 1)) == Ok(at)
    ensures Peek(s, at.pos) != RBRACKET ==> PElementEnd(c, s, st, n) == PElements(c, s, at, n)
    ensures Peek(s, at.pos) != RBRACE ==> PMemberEnd(c, s, st, n) == PMembers(c, s, at, n)
    ensures Willing(c) && c.trailingCommas && Peek(s, at.pos) == RBRACKET ==>
              PElementEnd(c, s, st, n) == Ok(St(at.pos + 1, at.evs + [EndArray(n)]))
    ensures Willing(c) && c.trailingCommas && Peek(s, at.pos) == RBRACE ==>
              PMemberEnd(c, s, st, n) == Ok(St(at.pos + 1, at.evs + [EndObject(n)]))
  {
    hide Ws, PElements, PMembers;
  }

  // Every text of the grammar is accepted.

  /** A character that can follow a value. */
  predicate Follows(b: Byte) {
    Numbers.EndsNumber(b)
  }

  /** The text of a value starts with a character that starts nothing else. */
  lemma TextStarts(c: Config, t: J.Tree)
    requires J.Valid(c, t)
    ensures var w := J.Text(t);
            && w != [] && Solid(c, w[0]) && w[0] != SLASH && w[0] != 0 && !Equivalence.IsStray(w[0])
            && !IsSpace(w[0])
  {
    hide J.GapsText, J.ItemsText, J.MembersText, J.CommaText, J.CharactersText, J.FractionText, J.ExponentText;
    match t
    case NumberTree(n) =>
      assert n.whole[0] == n.whole[0];
      assert J.NumberText(n)[0] == if n.minus then 0x2D else n.whole[0];
    case StringTree(cs) => assert J.StringText(cs)[0] == 0x22;
    case _ =>
  }

  /** What follows a value in a container. */
  lemma GapFollows(c: Config, gs: seq<J.Gap>, rest: seq<Byte>)
    requires J.ValidGaps(c.comments, gs) && rest != [] && Follows(rest[0])
    ensures Follows((J.GapsText(gs) + rest)[0])
  {
    if gs != [] { assert J.ValidGap(c.comments, gs[0]); }
  }

  lemma {:induction false} ValueAccepted(c: Config, s: seq<Byte>, i: nat, evs: seq<Event>, t: J.Tree)
    requires Willing(c) && J.Valid(c, t) && Occurs(s, i, J.Text(t)) && Follows(Peek(s, i + |J.Text(t)|))
    ensures i <= |s| && PValue(c, s, St(i, evs)) == Ok(St(i + |J.Text(t)|, evs + J.Told(t)))
    decreases t, 1
  {
    hide PValue, Occurs, J.Text, J.Told;
    match t
    case ArrayTree(_, _, _) => ArrayAccepted(c, s, i, evs, t);
    case ObjectTree(_, _, _) => ObjectAccepted(c, s, i, evs, t);
    case _ => ScalarAccepted(c, s, i, evs, t);
  }

  lemma ScalarAccepted(c: Config, s: seq<Byte>, i: nat, evs: seq<Event>, t: J.Tree)
    requires Willing(c) && J.Valid(c, t) && !t.ArrayTree? && !t.ObjectTree?
    requires Occurs(s, i, J.Text(t)) && Follows(Peek(s, i + |J.Text(t)|))
    ensures i <= |s| && PValue(c, s, St(i, evs)) == Ok(St(i + |J.Text(t)|, evs + J.Told(t)))
  {
    hide PValue, J.NumberText, J.NumberEvent, J.StringText, J.CharactersOctets, Follows, J.ValidNumber, J.TooBig;
    match t
    case NumberTree(n) => NumberAccepted(c, s, i, evs, n);
    case StringTree(cs) => StringAccepted(c, s, i, evs, cs);
    case NullTree => LiteralScanned(s, i, NULL_TEXT); LiteralAccepted(c, s, St(i, evs));
    case TrueTree => LiteralScanned(s, i, TRUE_TEXT); LiteralAccepted(c, s, St(i, evs));
    case FalseTree => LiteralScanned(s, i, FALSE_TEXT); LiteralAccepted(c, s, St(i, evs));
  }

  lemma LiteralAccepted(c: Config, s: seq<Byte>, st: St)
    requires Willing(c) && st.pos < |s|
    ensures s[st.pos] == LOWER_N && MatchEnd(s, st.pos + 1, NULL_TEXT, 1) == st.pos + 4 ==>
              PValue(c, s, st) == Ok(St(st.pos + 4, st.evs + [Null]))
    ensures s[st.pos] == LOWER_T && MatchEnd(s, st.pos + 1, TRUE_TEXT, 1) == st.pos + 4 ==>
              PValue(c, s, st) == Ok(St(st.pos + 4, st.evs + [Bool(true)]))
    ensures s[st.pos] == LOWER_F && MatchEnd(s, st.pos + 1, FALSE_TEXT, 1) == st.pos + 5 ==>
              PValue(c, s, st) == Ok(St(st.pos + 5, st.evs + [Bool(false)]))
  {
    hide MatchEnd;
  }

  lemma NumberAccepted(c: Config, s: seq<Byte>, i: nat, evs: seq<Event>, n: J.Number)
    requires Willing(c) && J.ValidNumber(n) && !J.TooBig(c, n)
    requires Occurs(s, i, J.NumberText(n)) && Follows(Peek(s, i + |J.NumberText(n)|))
    ensures i <= |s| && PValue(c, s, St(i, evs)) == Ok(St(i + |J.NumberText(n)|, evs + [J.NumberEvent(n)]))
  {
    hide Numbers.Lex, J.NumberText, J.NumberEvent, J.TooBig, J.ValidNumber, Occurs;
    NumberStarts(n);
    OccursAt(s, i, J.NumberText(n), 0);
    NumberScanned(c, s, i, n);
  }

  lemma StringAccepted(c: Config, s: seq<Byte>, i: nat, evs: seq<Event>, cs: seq<J.Character>)
    requires Willing(c) && J.ValidCharacters(cs) && Occurs(s, i, J.StringText(cs))
    ensures i < |s| && s[i] == QUOTE
    ensures PValue(c, s, St(i, evs)) == Ok(St(i + |J.StringText(cs)|, evs + [String(J.CharactersOctets(cs))]))
    ensures PString(c, s, St(i, evs), true) == Ok(St(i + |J.StringText(cs)|, evs + [Key(J.CharactersOctets(cs))]))
  {
    hide Strings.Decode, J.StringText, J.CharactersOctets, Occurs;
    StringScanned(s, i, cs);
  }

  lemma OccursFits(s: seq<Byte>, i: nat, t: seq<Byte>)
    requires Occurs(s, i, t)
    ensures i + |t| <= |s|
  {
  }

  lemma NumberStarts(n: J.Number)
    requires J.ValidNumber(n)
    ensures J.NumberText(n) != [] && (J.NumberText(n)[0] == MINUS || IsDigit(J.NumberText(n)[0]))
  {
    hide J.FractionText, J.ExponentText;
  }

  lemma StringScanned(s: seq<Byte>, i: nat, cs: seq<J.Character>)
    requires J.ValidCharacters(cs) && Occurs(s, i, J.StringText(cs))
    ensures i + |J.StringText(cs)| <= |s| && Peek(s, i) == QUOTE
    ensures Strings.Decode(s, i + 1) == Strings.Text(J.CharactersOctets(cs), i + |J.StringText(cs)|)
  {
    hide J.CharactersText, Strings.Decode, Occurs, J.CharactersOctets;
    OccursFits(s, i, J.StringText(cs));
    assert J.StringText(cs) == [0x22] + (J.CharactersText(cs) + [0x22]);
    OccursAt(s, i, J.StringText(cs), 0);
    OccursSplit(s, i, [0x22], J.CharactersText(cs) + [0x22]);
    CharactersScanned(s, i + 1, cs);
  }

  lemma LiteralScanned(s: seq<Byte>, i: nat, lit: seq<Byte>)
    requires Occurs(s, i, lit) && |lit| >= 1 && forall m :: 0 <= m < |lit| ==> lit[m] != 0
    ensures i < |s| && s[i] == lit[0] && MatchEnd(s, i + 1, lit, 1) == i + |lit|
  {
    OccursAt(s, i, lit, 0);
    LiteralFrom(s, i, lit, 1);
  }

  lemma {:induction false} LiteralFrom(s: seq<Byte>, i: nat, lit: seq<Byte>, k: nat)
    requires Occurs(s, i, lit) && 1 <= k <= |lit| && forall m :: 0 <= m < |lit| ==> lit[m] != 0
    ensures MatchEnd(s, i + k, lit, k) == i + |lit|
    decreases |lit| - k
  {
    if k < |lit| {
      OccursAt(s, i, lit, k);
      LiteralFrom(s, i, lit, k + 1);
    }
  }

  /** An array behind its opening bracket. */
  function ArrayRest(items: seq<J.Item>, comma: Option<seq<J.Gap>>): seq<Byte> {
    J.ItemsText(items) + (J.CommaText(comma) + [0x5D])
  }

  function MoreRest(items: seq<J.Item>, comma: Option<seq<J.Gap>>): seq<Byte> {
    J.MoreItemsText(items) + (J.CommaText(comma) + [0x5D])
  }

  /** The events so far, with those of the items and the end of an array of which `n` items came before. */
  function ArrayEnd(evs: seq<Event>, items: seq<J.Item>, n: nat): seq<Event> {
    evs + (J.ItemsTold(items) + [EndArray(Wrapped(n + |items|))])
  }

  lemma ArrayText(blank: seq<J.Gap>, items: seq<J.Item>, comma: Option<seq<J.Gap>>)
    ensures J.Text(J.ArrayTree(blank, items, comma)) == [0x5B] + (J.GapsText(blank) + ArrayRest(items, comma))
  {
    hide J.GapsText, J.ItemsText, J.CommaText;
  }

  function ItemRest(i: J.Item, rest: seq<Byte>): seq<Byte> {
    J.GapsText(i.before) + (J.Text(i.value) + (J.GapsText(i.after) + rest))
  }

  lemma RestText(items: seq<J.Item>, comma: Option<seq<J.Gap>>)
    requires items != []
    ensures ArrayRest(items, comma) ==
            ItemRest(items[0], MoreRest(items[1..], comma))
    ensures MoreRest(items, comma) == [0x2C] + ArrayRest(items, comma)
  {
    hide J.GapsText, J.CommaText, J.Text, J.MoreItemsText;
    var i, more := items[0], J.MoreItemsText(items[1..]);
    assert J.MoreItemsText(items) == [0x2C] + J.ItemText(i) + more by { MoreText(items); }
  }

  lemma MoreText(items: seq<J.Item>)
    requires items != []
    ensures J.MoreItemsText(items) == [0x2C] + J.ItemText(items[0]) + J.MoreItemsText(items[1..])
  {
  }

  lemma ArrayAccepted(c: Config, s: seq<Byte>, i: nat, evs: seq<Event>, t: J.Tree)
    requires Willing(c) && J.Valid(c, t) && t.ArrayTree? && Occurs(s, i, J.Text(t))
    ensures i <= |s| && PValue(c, s, St(i, evs)) == Ok(St(i + |J.Text(t)|, evs + J.Told(t)))
    decreases t, 0
  {
    hide PValue, PElements, Ws, J.Text, J.GapsText, ArrayRest, Occurs, ArrayEnd, J.ValidItem, J.Told;
    var rest := ArrayRest(t.items, t.comma);
    OccursFits(s, i, J.Text(t));
    ArrayText(t.blank, t.items, t.comma);
    OccursAt(s, i, J.Text(t), 0);
    OccursSplit(s, i, [0x5B], J.GapsText(t.blank) + rest);
    OccursSplit(s, i + 1, J.GapsText(t.blank), rest);
    ArrayTold(evs, t.blank, t.items, t.comma);
    if t.items == [] {
      EmptyRest(t.comma);
      EmptyAccepted(c, s, i, evs, t.blank);
    } else {
      NoGaps();
      var at := ItemsAccepted(c, s, i + 1, evs + [StartArray], t.items, t.comma, 0);
      OpenSteps(c, s, St(i, evs), at);
    }
  }

  lemma ArrayTold(evs: seq<Event>, blank: seq<J.Gap>, items: seq<J.Item>, comma: Option<seq<J.Gap>>)
    ensures ArrayEnd(evs + [StartArray], items, 0) == evs + J.Told(J.ArrayTree(blank, items, comma))
    ensures items == [] ==> J.Told(J.ArrayTree(blank, items, comma)) == [StartArray, EndArray(0)]
  {
  }

  /** A container with nothing but white space in it. */
  lemma EmptyAccepted(c: Config, s: seq<Byte>, i: nat, evs: seq<Event>, gs: seq<J.Gap>)
    requires Willing(c) && J.ValidGaps(c.comments, gs) && i < |s| && Occurs(s, i + 1, J.GapsText(gs))
    ensures var e := i + 1 + |J.GapsText(gs)|;
            && (s[i] == LBRACKET && Occurs(s, e, [0x5D]) ==>
                  PValue(c, s, St(i, evs)) == Ok(St(e + 1, evs + [StartArray, EndArray(0)])))
            && (s[i] == LBRACE && Occurs(s, e, [0x7D]) ==>
                  PValue(c, s, St(i, evs)) == Ok(St(e + 1, evs + [StartObject, EndObject(0)])))
  {
    hide PValue, Ws, J.GapsText, Occurs, J.ValidGap, Solid;
    var e := i + 1 + |J.GapsText(gs)|;
    BracketsSolid(c);
    if s[i] == LBRACKET && Occurs(s, e, [0x5D]) {
      OccursAt(s, e, [0x5D], 0);
      GapsSkipped(c, s, i + 1, evs + [StartArray], gs);
      OpenSteps(c, s, St(i, evs), St(e, evs + [StartArray]));
      assert evs + [StartArray] + [EndArray(0)] == evs + [StartArray, EndArray(0)];
    }
    if s[i] == LBRACE && Occurs(s, e, [0x7D]) {
      OccursAt(s, e, [0x7D], 0);
      GapsSkipped(c, s, i + 1, evs + [StartObject], gs);
      OpenSteps(c, s, St(i, evs), St(e, evs + [StartObject]));
      assert evs + [StartObject] + [EndObject(0)] == evs + [StartObject, EndObject(0)];
    }
  }

  lemma NoGaps()
    ensures J.GapsText([]) == []
  {
  }

  lemma EmptyRest(comma: Option<seq<J.Gap>>)
    requires comma.None?
    ensures ArrayRest([], comma) == MoreRest([], comma) == [0x5D]
  {
  }

  lemma BracketsSolid(c: Config)
    ensures Solid(c, RBRACKET) && Solid(c, RBRACE) && Solid(c, COMMA) && Solid(c, COLON) && Solid(c, QUOTE)
    ensures Follows(RBRACKET) && Follows(RBRACE) && Follows(COMMA)
  {
  }

  /** From the white space before an item on; `at` is where its value starts. */
  lemma {:induction false} ItemsAccepted(c: Config, s: seq<Byte>, i: nat, evs: seq<Event>, items: seq<J.Item>,
                                         comma: Option<seq<J.Gap>>, n: nat) returns (at: St)
    requires Willing(c) && items != [] && J.ValidComma(c, comma, false) && i <= |s|
    requires forall k :: 0 <= k < |items| ==> J.ValidItem(c, items[k])
    requires Occurs(s, i, ArrayRest(items, comma))
    ensures Ws(c, s, St(i, evs)) == Ok(at) && at.pos < |s| && s[at.pos] != RBRACKET
    ensures PElements(c, s, at, n) ==
            Ok(St(i + |ArrayRest(items, comma)|, ArrayEnd(evs, items, n)))
    decreases items, 1
  {
    hide PElements, PElementEnd, PValue, Ws, J.Text, J.GapsText, ArrayRest, MoreRest, Occurs, Solid, J.Told, Follows;
    hide ArrayEnd, Increment;
    assert J.ValidItem(c, items[0]);
    var item := items[0];
    RestText(items, comma);
    RestStarts(items[1..], comma);
    BracketsSolid(c);
    var value;
    value, at := ItemAccepted(c, s, i, evs, item, MoreRest(items[1..], comma));
    TextStarts(c, item.value);
    OccursAt(s, at.pos, J.Text(item.value), 0);
    var end := value.(pos := value.pos + |J.GapsText(item.after)|);
    ItemSteps(c, s, at, value, end, n);
    CountFits(n);
    EndAccepted(c, s, end, items[1..], comma, Increment(n));
    ArrayGoesOn(evs, items, n);
  }

  lemma ArrayGoesOn(evs: seq<Event>, items: seq<J.Item>, n: nat)
    requires items != []
    ensures ArrayEnd(evs, items, n) == ArrayEnd(evs + J.Told(items[0].value), items[1..], Increment(n))
  {
    hide J.Told, Wrapped;
    CountOn(n, |items| - 1);
    assert J.ItemsTold(items) == J.Told(items[0].value) + J.ItemsTold(items[1..]);
  }

  lemma ArrayStops(evs: seq<Event>, n: nat)
    requires n < 0x1_0000_0000
    ensures ArrayEnd(evs, [], n) == evs + [EndArray(n)]
  {
    assert J.ItemsTold([]) == [];
  }

  lemma RestStarts(items: seq<J.Item>, comma: Option<seq<J.Gap>>)
    ensures var r := MoreRest(items, comma); r != [] && (r[0] == COMMA || r[0] == RBRACKET)
  {
    hide J.ItemText, J.GapsText;
  }

  /** Behind an item. */
  lemma {:induction false} EndAccepted(c: Config, s: seq<Byte>, st: St, items: seq<J.Item>,
                                       comma: Option<seq<J.Gap>>, n: nat)
    requires Willing(c) && J.ValidComma(c, comma, false) && n < 0x1_0000_0000
    requires forall k :: 0 <= k < |items| ==> J.ValidItem(c, items[k])
    requires Occurs(s, st.pos, MoreRest(items, comma))
    ensures st.pos <= |s| && PElementEnd(c, s, st, n) ==
            Ok(St(st.pos + |MoreRest(items, comma)|, ArrayEnd(st.evs, items, n)))
    decreases items, 2
  {
    hide PElements, PElementEnd, Ws, J.GapsText, ArrayRest, MoreRest, Occurs, Solid, ArrayEnd, J.ValidGap;
    hide J.ValidItem, J.MoreItemsText;
    OccursFits(s, st.pos, MoreRest(items, comma));
    if items != [] {
      RestText(items, comma);
      OccursAt(s, st.pos, MoreRest(items, comma), 0);
      OccursSplit(s, st.pos, [0x2C], ArrayRest(items, comma));
      var at := ItemsAccepted(c, s, st.pos + 1, st.evs, items, comma, n);
      CommaSteps(c, s, st, at, n);
    } else {
      ArrayStops(st.evs, n);
      OccursAt(s, st.pos, MoreRest(items, comma), 0) by { RestStarts(items, comma); }
      if comma.Some? {
        TrailingRest(comma);
        var gaps := J.GapsText(comma.value);
        OccursSplit(s, st.pos, [0x2C], gaps + [0x5D]);
        OccursSplit(s, st.pos + 1, gaps, [0x5D]);
        OccursAt(s, st.pos + 1 + |gaps|, [0x5D], 0);
        BracketsSolid(c);
        GapsSkipped(c, s, st.pos + 1, st.evs, comma.value);
        CommaSteps(c, s, st, St(st.pos + 1 + |gaps|, st.evs), n);
      } else {
        EmptyRest(comma);
        CloseSteps(c, s, st, n);
      }
    }
  }

  lemma TrailingRest(comma: Option<seq<J.Gap>>)
    requires comma.Some?
    ensures MoreRest([], comma) == [0x2C] + (J.GapsText(comma.value) + [0x5D])
  {
    hide J.GapsText;
  }

  /** An object behind its opening bracket. */
  function ObjectRest(members: seq<J.Member>, comma: Option<seq<J.Gap>>): seq<Byte> {
    J.MembersText(members) + (J.CommaText(comma) + [0x7D])
  }

  function MoreObjectRest(members: seq<J.Member>, comma: Option<seq<J.Gap>>): seq<Byte> {
    J.MoreMembersText(members) + (J.CommaText(comma) + [0x7D])
  }

  function ObjectEnd(evs: seq<Event>, members: seq<J.Member>, n: nat): seq<Event> {
    evs + (J.MembersTold(members) + [EndObject(Wrapped(n + |members|))])
  }

  lemma ObjectText(blank: seq<J.Gap>, members: seq<J.Member>, comma: Option<seq<J.Gap>>)
    ensures J.Text(J.ObjectTree(blank, members, comma)) == [0x7B] + (J.GapsText(blank) + ObjectRest(members, comma))
  {
    hide J.GapsText, J.MembersText, J.CommaText;
  }

  lemma ObjectTold(evs: seq<Event>, blank: seq<J.Gap>, members: seq<J.Member>, comma: Option<seq<J.Gap>>)
    ensures ObjectEnd(evs + [StartObject], members, 0) == evs + J.Told(J.ObjectTree(blank, members, comma))
    ensures members == [] ==> J.Told(J.ObjectTree(blank, members, comma)) == [StartObject, EndObject(0)]
  {
  }

  lemma EmptyObjectRest(comma: Option<seq<J.Gap>>)
    requires comma.None?
    ensures ObjectRest([], comma) == MoreObjectRest([], comma) == [0x7D]
  {
  }

  lemma MemberRestText(members: seq<J.Member>, comma: Option<seq<J.Gap>>)
    requires members != []
    ensures ObjectRest(members, comma) ==
            J.GapsText(members[0].before) + (J.StringText(members[0].name) + (J.GapsText(members[0].colon)
              + ([0x3A] + ItemRest(members[0].item, MoreObjectRest(members[1..], comma)))))
    ensures MoreObjectRest(members, comma) == [0x2C] + ObjectRest(members, comma)
  {
    hide J.GapsText, J.CommaText, J.Text, J.StringText, J.MoreMembersText, J.ItemText, ItemRest;
    var m, more := members[0], J.MoreMembersText(members[1..]);
    MoreMembers(members);
    ItemInFront(m.item, more + (J.CommaText(comma) + [0x7D]));
    assert J.MemberText(m) ==
           J.GapsText(m.before) + J.StringText(m.name) + J.GapsText(m.colon) + [0x3A] + J.ItemText(m.item);
  }

  lemma ItemInFront(i: J.Item, rest: seq<Byte>)
    ensures J.ItemText(i) + rest == ItemRest(i, rest)
  {
    hide J.GapsText, J.Text;
  }

  lemma MoreMembers(members: seq<J.Member>)
    requires members != []
    ensures J.MoreMembersText(members) == [0x2C] + J.MemberText(members[0]) + J.MoreMembersText(members[1..])
  {
  }

  lemma MemberRestStarts(members: seq<J.Member>, comma: Option<seq<J.Gap>>)
    ensures var r := MoreObjectRest(members, comma); r != [] && (r[0] == COMMA || r[0] == RBRACE)
  {
    hide J.MemberText, J.GapsText;
  }

  lemma TrailingObjectRest(comma: Option<seq<J.Gap>>)
    requires comma.Some?
    ensures MoreObjectRest([], comma) == [0x2C] + (J.GapsText(comma.value) + [0x7D])
  {
    hide J.GapsText;
  }

  lemma ObjectAccepted(c: Config, s: seq<Byte>, i: nat, evs: seq<Event>, t: J.Tree)
    requires Willing(c) && J.Valid(c, t) && t.ObjectTree? && Occurs(s, i, J.Text(t))
    ensures i <= |s| && PValue(c, s, St(i, evs)) == Ok(St(i + |J.Text(t)|, evs + J.Told(t)))
    decreases t, 0
  {
    hide PValue, PMembers, Ws, J.Text, J.GapsText, ObjectRest, Occurs, ObjectEnd, J.ValidMember, J.Told;
    var rest := ObjectRest(t.members, t.comma);
    OccursFits(s, i, J.Text(t));
    ObjectText(t.blank, t.members, t.comma);
    OccursAt(s, i, J.Text(t), 0);
    OccursSplit(s, i, [0x7B], J.GapsText(t.blank) + rest);
    OccursSplit(s, i + 1, J.GapsText(t.blank), rest);
    ObjectTold(evs, t.blank, t.members, t.comma);
    if t.members == [] {
      EmptyObjectRest(t.comma);
      EmptyAccepted(c, s, i, evs, t.blank);
    } else {
      NoGaps();
      var at := MembersAccepted(c, s, i + 1, evs + [StartObject], t.members, t.comma, 0);
      OpenSteps(c, s, St(i, evs), at);
    }
  }

  /** From the white space before a member on; `at` is where its name starts. */
  lemma {:induction false} MembersAccepted(c: Config, s: seq<Byte>, i: nat, evs: seq<Event>, members: seq<J.Member>,
                                           comma: Option<seq<J.Gap>>, n: nat) returns (at: St)
    requires Willing(c) && members != [] && J.ValidComma(c, comma, false) && i <= |s|
    requires forall k :: 0 <= k < |members| ==> J.ValidMember(c, members[k])
    requires Occurs(s, i, ObjectRest(members, comma))
    ensures Ws(c, s, St(i, evs)) == Ok(at) && at.pos < |s| && s[at.pos] != RBRACE
    ensures PMembers(c, s, at, n) ==
            Ok(St(i + |ObjectRest(members, comma)|, ObjectEnd(evs, members, n)))
    decreases members, 1
  {
    hide PMembers, PMemberEnd, PValue, PString, Ws, J.Text, J.StringText, J.GapsText, ObjectRest, MoreObjectRest, Occurs;
    hide Solid, J.Told, Follows, J.CharactersOctets, J.ValidGap, J.ValidCharacters, J.ItemText, ObjectEnd, Increment;
    assert J.ValidMember(c, members[0]);
    var m := members[0];
    var more := MoreObjectRest(members[1..], comma);
    MemberRestText(members, comma);
    MemberRestStarts(members[1..], comma);
    BracketsSolid(c);
    var named, colon;
    at, named, colon := NameAccepted(c, s, i, evs, m, ItemRest(m.item, more));
    var value, first := ItemAccepted(c, s, colon.pos + 1, colon.evs, m.item, more);
    var end := value.(pos := value.pos + |J.GapsText(m.item.after)|);
    MemberSteps(c, s, at, named, colon, first, value, end, n);
    CountFits(n);
    MemberEndAccepted(c, s, end, members[1..], comma, Increment(n));
    ObjectGoesOn(evs, members, n);
  }

  /** The name of a member and the colon behind it. */
  lemma NameAccepted(c: Config, s: seq<Byte>, i: nat, evs: seq<Event>, m: J.Member, rest: seq<Byte>)
    returns (at: St, named: St, colon: St)
    requires Willing(c) && J.ValidMember(c, m) && i <= |s|
    requires Occurs(s, i, J.GapsText(m.before) + (J.StringText(m.name) + (J.GapsText(m.colon) + ([0x3A] + rest))))
    ensures Ws(c, s, St(i, evs)) == Ok(at) && at.pos < |s| && s[at.pos] == QUOTE
    ensures PString(c, s, at, true) == Ok(named) && named.pos <= |s| && Ws(c, s, named) == Ok(colon)
    ensures colon.pos < |s| && s[colon.pos] == COLON && Occurs(s, colon.pos + 1, rest)
    ensures colon.pos == i + |J.GapsText(m.before)| + |J.StringText(m.name)| + |J.GapsText(m.colon)|
    ensures colon.evs == evs + [Key(J.CharactersOctets(m.name))]
  {
    hide PValue, PString, Ws, J.StringText, J.GapsText, Occurs, Solid, J.CharactersOctets, J.ValidGap, J.ValidItem;
    var b := i + |J.GapsText(m.before)|;
    var e := b + |J.StringText(m.name)|;
    var d := e + |J.GapsText(m.colon)|;
    OccursSplit(s, i, J.GapsText(m.before), J.StringText(m.name) + (J.GapsText(m.colon) + ([0x3A] + rest)));
    OccursSplit(s, b, J.StringText(m.name), J.GapsText(m.colon) + ([0x3A] + rest));
    OccursSplit(s, e, J.GapsText(m.colon), [0x3A] + rest);
    OccursAt(s, d, [0x3A] + rest, 0);
    OccursFits(s, d, [0x3A] + rest);
    OccursSplit(s, d, [0x3A], rest);
    BracketsSolid(c);
    StringAccepted(c, s, b, evs, m.name);
    GapsSkipped(c, s, i, evs, m.before);
    at, named := St(b, evs), St(e, evs + [Key(J.CharactersOctets(m.name))]);
    GapsSkipped(c, s, e, named.evs, m.colon);
    colon := named.(pos := d);
  }

  lemma ObjectGoesOn(evs: seq<Event>, members: seq<J.Member>, n: nat)
    requires members != []
    ensures ObjectEnd(evs, members, n) ==
            ObjectEnd(evs + [Key(J.CharactersOctets(members[0].name))] + J.Told(members[0].item.value), members[1..],
                      Increment(n))
  {
    hide J.Told, J.CharactersOctets, Wrapped;
    CountOn(n, |members| - 1);
    assert J.MembersTold(members) ==
           [Key(J.CharactersOctets(members[0].name))] + J.Told(members[0].item.value) + J.MembersTold(members[1..]);
  }

  lemma ObjectStops(evs: seq<Event>, n: nat)
    requires n < 0x1_0000_0000
    ensures ObjectEnd(evs, [], n) == evs + [EndObject(n)]
  {
    assert J.MembersTold([]) == [];
  }

  /** A value with white space around it, in front of `rest`. */
  lemma {:induction false} ItemAccepted(c: Config, s: seq<Byte>, i: nat, evs: seq<Event>, item: J.Item, rest: seq<Byte>)
    returns (value: St, at: St)
    requires Willing(c) && J.ValidItem(c, item) && i <= |s|
    requires rest != [] && Follows(rest[0]) && Solid(c, rest[0])
    requires Occurs(s, i, ItemRest(item, rest))
    ensures at == St(i + |J.GapsText(item.before)|, evs) && Ws(c, s, St(i, evs)) == Ok(at)
    ensures at.pos < |s| && Occurs(s, at.pos, J.Text(item.value))
    ensures value == St(at.pos + |J.Text(item.value)|, evs + J.Told(item.value)) && PValue(c, s, at) == Ok(value)
    ensures value.pos + |J.GapsText(item.after)| <= |s|
    ensures Ws(c, s, value) == Ok(value.(pos := value.pos + |J.GapsText(item.after)|))
    ensures Occurs(s, value.pos + |J.GapsText(item.after)|, rest)
    decreases item, 3
  {
    hide PValue, Ws, J.Text, J.GapsText, Occurs, Solid, J.Told, Follows;
    var before, text, after := J.GapsText(item.before), J.Text(item.value), J.GapsText(item.after);
    OccursSplit(s, i, before, text + (after + rest));
    var k := i + |before|;
    OccursSplit(s, k, text, after + rest);
    TextStarts(c, item.value);
    OccursAt(s, k, text, 0);
    OccursFits(s, k, text);
    GapsSkipped(c, s, i, evs, item.before);
    at := St(k, evs);
    var e := k + |text|;
    GapFollows(c, item.after, rest);
    OccursAt(s, e, after + rest, 0);
    ValueAccepted(c, s, k, evs, item.value);
    OccursSplit(s, e, after, rest);
    OccursAt(s, e + |after|, rest, 0);
    value := St(e, evs + J.Told(item.value));
    GapsSkipped(c, s, e, value.evs, item.after);
  }

  /** Behind a member. */
  lemma {:induction false} MemberEndAccepted(c: Config, s: seq<Byte>, st: St, members: seq<J.Member>,
                                             comma: Option<seq<J.Gap>>, n: nat)
    requires Willing(c) && J.ValidComma(c, comma, false) && n < 0x1_0000_0000
    requires forall k :: 0 <= k < |members| ==> J.ValidMember(c, members[k])
    requires Occurs(s, st.pos, MoreObjectRest(members, comma))
    ensures st.pos <= |s| && PMemberEnd(c, s, st, n) ==
            Ok(St(st.pos + |MoreObjectRest(members, comma)|, ObjectEnd(st.evs, members, n)))
    decreases members, 2
  {
    hide PMembers, PMemberEnd, Ws, J.GapsText, ObjectRest, MoreObjectRest, Occurs, Solid, ObjectEnd, J.ValidGap;
    hide J.ValidMember, J.MoreMembersText;
    OccursFits(s, st.pos, MoreObjectRest(members, comma));
    if members != [] {
      MemberRestText(members, comma);
      OccursAt(s, st.pos, MoreObjectRest(members, comma), 0);
      OccursSplit(s, st.pos, [0x2C], ObjectRest(members, comma));
      var at := MembersAccepted(c, s, st.pos + 1, st.evs, members, comma, n);
      CommaSteps(c, s, st, at, n);
    } else {
      ObjectStops(st.evs, n);
      OccursAt(s, st.pos, MoreObjectRest(members, comma), 0) by { MemberRestStarts(members, comma); }
      if comma.Some? {
        TrailingObjectRest(comma);
        var gaps := J.GapsText(comma.value);
        OccursSplit(s, st.pos, [0x2C], gaps + [0x7D]);
        OccursSplit(s, st.pos + 1, gaps, [0x7D]);
        OccursAt(s, st.pos + 1 + |gaps|, [0x7D], 0);
        BracketsSolid(c);
        GapsSkipped(c, s, st.pos + 1, st.evs, comma.value);
        CommaSteps(c, s, st, St(st.pos + 1 + |gaps|, st.evs), n);
      } else {
        EmptyObjectRest(comma);
        CloseSteps(c, s, st, n);
      }
    }
  }
}
