/**
 * The text of a value, compact or indented, is a text of the JSON grammar: its derivation tells the reader's handler
 * the events of that value. So the text is read back as it was.
 */
module RoundTrip {
  import opened Chars
  import opened Events
  import opened Grammar
  import opened JsonAccepted
  import opened JsonNumbers
  import opened JsonParsed
  import opened JsonScanned
  import opened Rendering
  import Automaton
  import Document
  import Equivalence
  import J = Json
  import Numbers
  import Strings
  import Utf8
  import V = Values

  // Strings.

  lemma Hex4Value(n: nat)
    requires n < 0x10000
    ensures J.IsHex(Hex4(n)) && J.HexNumber(Hex4(n)) == n
  {
    HexDigitOf(n / 0x1000); HexDigitOf(n / 0x100 % 16); HexDigitOf(n / 16 % 16); HexDigitOf(n % 16);
    hide HexDigit, J.IsHexDigit, J.HexDigitValue;
    assert n / 0x100 == n / 0x1000 * 16 + n / 0x100 % 16;
    assert n / 16 == n / 0x100 * 16 + n / 16 % 16;
  }

  lemma HexDigitOf(n: nat)
    requires n < 16
    ensures J.IsHexDigit(HexDigit(n)) && J.HexDigitValue(HexDigit(n)) == n
  {
  }

  lemma ByteWritten(b: Byte) returns (ch: J.Character)
    ensures J.ValidCharacter(ch) && J.CharacterText(ch) == ByteText(b) && J.CharacterOctets(ch) == [b]
  {
    var e := EscapeLetter(b);
    if e == 0 {
      ch := J.Plain(b);
    } else if e == LOWER_U {
      ch := J.Hex(Hex4(b));
      Hex4Value(b);
      assert J.CharacterText(ch) == ByteText(b);
    } else {
      ch := J.Short(e);
    }
  }

  lemma CodePointWritten(cp: nat) returns (ch: J.Character)
    requires Utf8.IsScalar(cp)
    ensures J.ValidCharacter(ch) && J.CharacterText(ch) == UnicodeText(cp) && J.CharacterOctets(ch) == Utf8.Encode(cp)
  {
    hide Hex4, J.IsHex, J.HexNumber, Utf8.Encode, J.Utf8Octets;
    OctetsAgree(cp);
    if cp <= 0xFFFF {
      Hex4Value(cp);
      ch := J.Hex(Hex4(cp));
    } else {
      var v := cp - 0x10000;
      Hex4Value(v / 0x400 + 0xD800);
      Hex4Value(v % 0x400 + 0xDC00);
      ch := J.Pair(Hex4(v / 0x400 + 0xD800), Hex4(v % 0x400 + 0xDC00));
    }
  }

  /** What is put for the character at `k`, and where the next one starts. */
  function PieceAt(ascii: bool, str: seq<Byte>, k: nat): (r: (seq<Byte>, nat))
    requires k < |str| && Encodable(ascii, str, k)
    ensures k < r.1 && Encodable(ascii, str, r.1)
    ensures Body(ascii, str, k) == r.0 + Body(ascii, str, r.1)
  {
    if Wide(ascii, str[k]) then
      var d := Utf8.Decode(str, k);
      (UnicodeText(d.cp), d.next)
    else (ByteText(str[k]), k + 1)
  }

  /** One written character is a character of the grammar that stands for what it was written for. */
  lemma PieceWritten(ascii: bool, str: seq<Byte>, k: nat) returns (ch: J.Character)
    requires k < |str| && Encodable(ascii, str, k)
    ensures var (piece, next) := PieceAt(ascii, str, k);
            && next <= |str| && J.ValidCharacter(ch) && J.CharacterText(ch) == piece
            && J.CharacterOctets(ch) == str[k..next]
  {
    hide Utf8.Decode, Utf8.Encode, ByteText, UnicodeText, Body;
    if Wide(ascii, str[k]) {
      Utf8.EncodeDecoded(str, k);
      ch := CodePointWritten(Utf8.Decode(str, k).cp);
    } else {
      ch := ByteWritten(str[k]);
    }
  }

  lemma PieceReads(s: seq<Byte>, i: nat, ascii: bool, str: seq<Byte>, k: nat)
    requires k < |str| && Encodable(ascii, str, k) && Occurs(s, i, PieceAt(ascii, str, k).0)
    ensures var (piece, next) := PieceAt(ascii, str, k);
            next <= |str| && Strings.NextUnit(s, i) == Strings.Piece(str[k..next], i + |piece|)
  {
    hide Strings.NextUnit, Occurs, PieceAt, Encodable;
    var ch := PieceWritten(ascii, str, k);
    CharacterScanned(s, i, ch);
  }

  lemma {:induction false} BodyWritten(ascii: bool, str: seq<Byte>, k: nat) returns (cs: seq<J.Character>)
    requires k <= |str| && Encodable(ascii, str, k)
    ensures J.ValidCharacters(cs) && J.CharactersText(cs) == Body(ascii, str, k) && J.CharactersOctets(cs) == str[k..]
    decreases |str| - k
  {
    hide Encodable, PieceAt, J.ValidCharacter, J.CharacterText, J.CharacterOctets;
    cs := [];
    if k < |str| {
      hide Body;
      var ch := PieceWritten(ascii, str, k);
      var next := PieceAt(ascii, str, k).1;
      var rest := BodyWritten(ascii, str, next);
      cs := [ch] + rest;
      assert cs[1..] == rest;
      assert str[k..] == str[k..next] + str[next..];
    }
  }

  lemma StringWritten(ascii: bool, str: seq<Byte>) returns (cs: seq<J.Character>)
    requires Encodable(ascii, str, 0)
    ensures J.ValidCharacters(cs) && J.StringText(cs) == Quoted(ascii, str) && J.CharactersOctets(cs) == str
  {
    hide Encodable, Body, J.CharactersText, J.ValidCharacter;
    cs := BodyWritten(ascii, str, 0);
    assert str[0..] == str;
  }

  /** A string written and read gives itself back, zeros and all. */
  lemma StringReads(s: seq<Byte>, i: nat, ascii: bool, str: seq<Byte>)
    requires Encodable(ascii, str, 0) && Occurs(s, i, Quoted(ascii, str))
    ensures Strings.Decode(s, i + 1) == Strings.Text(str, i + |Quoted(ascii, str)|)
    ensures Peek(s, i) == QUOTE
  {
    hide Encodable, Quoted, Occurs, Strings.Decode, J.StringText, J.CharactersOctets, J.ValidCharacter;
    var cs := StringWritten(ascii, str);
    StringScanned(s, i, cs);
  }

  // Numbers.

  lemma {:induction false} DecimalDigits(n: nat)
    ensures J.Digits(Decimal(n)) && J.DecimalValue(Decimal(n)) == n
    ensures n > 0 ==> Decimal(n)[0] != DIGIT_0
  {
    if n < 10 {
      assert Decimal(n)[..0] == [];
    } else {
      DecimalDigits(n / 10);
      assert Decimal(n)[..|Decimal(n)| - 1] == Decimal(n / 10);
    }
  }

  lemma IntegerWritten(v: int) returns (n: J.Number)
    requires V.IsInteger64(v)
    ensures J.ValidNumber(n) && J.NumberText(n) == IntegerText(v) && J.IsInteger(n)
    ensures J.NumberEvent(n) == V.LiteralEvent(v)
  {
    var m := if v < 0 then -v else v;
    DecimalDigits(m);
    if m == 0 { assert Decimal(0) == [DIGIT_0]; }
    hide Decimal, J.DecimalValue, J.Digits, J.NumberText, J.NumberEvent, J.IsInteger;
    n := J.Number(v < 0, Decimal(m), [], J.NoExponent);
    PlainNumberText(n);
    IntegerSent(n, v);
  }

  lemma PlainNumberText(n: J.Number)
    requires n.fraction == [] && n.exponent.NoExponent?
    ensures J.NumberText(n) == (if n.minus then [MINUS] else []) + n.whole
  {
  }

  lemma IntegerSent(n: J.Number, v: int)
    requires V.IsInteger64(v) && n.fraction == [] && n.exponent.NoExponent? && (n.minus <==> v < 0)
    requires J.DecimalValue(n.whole) == if v < 0 then -v else v
    ensures J.IsInteger(n) && J.NumberEvent(n) == V.LiteralEvent(v)
  {
    hide J.DecimalValue, J.NumberText;
  }

  /** The decimal text of an integer is read as that integer, in the narrowest type the reader has for it. */
  lemma IntegerReads(c: Config, s: seq<Byte>, i: nat, v: int)
    requires V.IsInteger64(v) && Occurs(s, i, IntegerText(v)) && Numbers.EndsNumber(Peek(s, i + |IntegerText(v)|))
    ensures i <= |s| && Numbers.Lex(c, s, i) == Numbers.Number(V.LiteralEvent(v), i + |IntegerText(v)|)
  {
    hide Numbers.Lex, J.NumberText, J.NumberEvent, IntegerText, J.ValidNumber, J.IsInteger, Occurs;
    var n := IntegerWritten(v);
    NumberScanned(c, s, i, n);
  }

  // Values.

  predicate AllSpaces(t: seq<Byte>) {
    forall k :: 0 <= k < |t| ==> IsSpace(t[k])
  }

  lemma {:induction false} SpacesWritten(t: seq<Byte>) returns (gs: seq<J.Gap>)
    requires AllSpaces(t)
    ensures J.ValidGaps(false, gs) && J.ValidGaps(true, gs) && J.GapsText(gs) == t
    decreases |t|
  {
    gs := [];
    if t != [] {
      var rest := SpacesWritten(t[1..]);
      gs := [J.Space(t[0])] + rest;
      assert gs[1..] == rest;
    }
  }

  lemma SpacesAreSpaces(style: Style, first: bool, isArray: bool, depth: nat)
    requires Legal(style)
    ensures AllSpaces(ElementSpaces(style, first, depth)) && AllSpaces(NameSpaces(style, depth))
    ensures AllSpaces(ColonSpaces(style)) && AllSpaces(ClosingSpaces(style, isArray, depth))
  {
  }

  /** Everything the reading lemmas assume of a value and the style it is written in. */
  predicate Printable(c: Config, style: Style, v: V.Value) {
    Legal(style) && V.Proper(v) && SoundDoubles(c, v) && Writable(style.ascii, v)
  }

  predicate PrintableElements(c: Config, style: Style, vs: seq<V.Value>) {
    Legal(style) && forall k :: 0 <= k < |vs| ==> Printable(c, style, vs[k])
  }

  predicate PrintableMembers(c: Config, style: Style, ms: seq<V.Member>) {
    && Legal(style)
    && forall k :: 0 <= k < |ms| ==> Encodable(style.ascii, ms[k].name, 0) && Printable(c, style, ms[k].value)
  }

  /** The derivation of a value's text. */
  predicate Derived(c: Config, style: Style, v: V.Value, depth: nat, t: J.Tree) {
    J.Valid(c, t) && J.Text(t) == Text(style, v, depth) && J.Told(t) == V.EventsOf(V.TextReader, v)
  }

  lemma LeafWritten(c: Config, style: Style, v: V.Value, depth: nat) returns (t: J.Tree)
    requires Printable(c, style, v) && !v.Array? && !v.Object?
    ensures Derived(c, style, v, depth, t)
  {
    hide J.NumberText, J.NumberEvent, J.IsInteger, J.ValidNumber, J.StringText, J.ValidCharacters, J.CharactersOctets;
    hide Quoted, Encodable, IntegerText, Numbers.Lex, V.NumberEvent;
    match v
    case Null => t := J.NullTree;
    case Bool(b) => t := if b then J.TrueTree else J.FalseTree;
    case String(str) =>
      var cs := StringWritten(style.ascii, str);
      t := J.StringTree(cs);
    case Number(num) =>
      NumberTextExact(num);
      var n := IntegerWritten(V.IntegerOf(num));
      t := J.NumberTree(n);
    case Double(literal) =>
      var n := NumberDerived(c, literal, 0);
      assert literal[0..|literal|] == literal;
      t := J.NumberTree(n);
  }

  lemma NumberTextExact(n: V.Num)
    requires V.IsInteger64(V.IntegerOf(n)) && n == V.NumOf(V.IntegerOf(n))
    ensures NumberText(n) == IntegerText(V.IntegerOf(n))
  {
    V.NumberEventExact(V.IntegerOf(n));
  }

  lemma {:induction false} ValueWritten(c: Config, style: Style, v: V.Value, depth: nat) returns (t: J.Tree)
    requires Printable(c, style, v)
    ensures Derived(c, style, v, depth, t)
    decreases v, 0
  {
    hide J.ValidItem, J.ValidMember, J.ItemsText, J.MembersText, J.ItemsTold, J.MembersTold, ElementsText, MembersText;
    hide V.ElementEvents, V.MemberEvents, ClosingSpaces;
    NoGaps();
    match v
    case Array(elems) =>
      var items := [];
      if elems == [] {
        Nothing(style, depth + 1);
      } else {
        SpacesAreSpaces(style, true, true, depth);
        items := ElementsWritten(c, style, elems, true, depth + 1, ClosingSpaces(style, true, depth));
      }
      t := J.ArrayTree([], items, None);
    case Object(members) =>
      var ms := [];
      if members == [] {
        Nothing(style, depth + 1);
      } else {
        SpacesAreSpaces(style, true, false, depth);
        ms := MembersWritten(c, style, members, true, depth + 1, ClosingSpaces(style, false, depth));
      }
      t := J.ObjectTree([], ms, None);
    case _ =>
      t := LeafWritten(c, style, v, depth);
  }

  lemma Nothing(style: Style, depth: nat)
    ensures J.ItemsText([]) == [] && J.MembersText([]) == [] && J.ItemsTold([]) == [] && J.MembersTold([]) == []
    ensures forall first :: ElementsText(style, [], first, depth) == [] && MembersText(style, [], first, depth) == []
    ensures J.MoreItemsText([]) == [] && J.MoreMembersText([]) == []
    ensures V.ElementEvents(V.TextReader, []) == [] && V.MemberEvents(V.TextReader, []) == []
  {
  }

  /** The text of items, in front of the closing bracket's white space. */
  function ItemsTail(items: seq<J.Item>, first: bool): seq<Byte> {
    if first then J.ItemsText(items) else J.MoreItemsText(items)
  }

  lemma {:induction false} ElementsWritten(c: Config, style: Style, vs: seq<V.Value>, first: bool, depth: nat,
                                           closing: seq<Byte>) returns (items: seq<J.Item>)
    requires PrintableElements(c, style, vs) && vs != [] && AllSpaces(closing)
    ensures |items| == |vs| && forall k :: 0 <= k < |items| ==> J.ValidItem(c, items[k])
    ensures ItemsTail(items, first) == ElementsText(style, vs, first, depth) + closing
    ensures J.ItemsTold(items) == V.ElementEvents(V.TextReader, vs)
    decreases vs, 1
  {
    hide J.Valid, J.Text, J.Told, Text, V.EventsOf, Printable, ElementSpaces, J.ValidGap, J.GapsText, ItemsTail;
    hide ElementsText;
    SpacesAreSpaces(style, first, true, depth);
    var before := SpacesWritten(ElementSpaces(style, first, depth));
    var t := ValueWritten(c, style, vs[0], depth);
    var after, rest := [], [];
    NoGaps();
    if |vs| == 1 {
      after := SpacesWritten(closing);
    } else {
      rest := ElementsWritten(c, style, vs[1..], false, depth, closing);
    }
    items := [J.Item(before, t, after)] + rest;
    assert items[1..] == rest;
    ItemsJoin(style, vs, first, depth, closing, items);
  }

  lemma ItemsJoin(style: Style, vs: seq<V.Value>, first: bool, depth: nat, closing: seq<Byte>, items: seq<J.Item>)
    requires vs != [] && |items| == |vs|
    requires J.ItemText(items[0]) ==
             ElementSpaces(style, first, depth) + Text(style, vs[0], depth) + if |vs| == 1 then closing else []
    requires |vs| > 1 ==> ItemsTail(items[1..], false) == ElementsText(style, vs[1..], false, depth) + closing
    ensures ItemsTail(items, first) == ElementsText(style, vs, first, depth) + closing
  {
    hide ElementSpaces, Text, CommaUnless, J.ItemText, ItemsTail, ElementsText;
    FirstItem(items, first);
    Nothing(style, depth);
    MoreItemsAre(items[1..]);
    ElementsUnfold(style, vs, first, depth);
    var comma, head := CommaUnless(first), ElementSpaces(style, first, depth) + Text(style, vs[0], depth);
    assert |vs| == 1 ==> vs[1..] == [] && items[1..] == [];
    Reordered(comma, head, ElementsText(style, vs[1..], false, depth), closing, |vs| == 1);
  }

  lemma ElementsUnfold(style: Style, vs: seq<V.Value>, first: bool, depth: nat)
    requires vs != []
    ensures ElementsText(style, vs, first, depth) ==
            CommaUnless(first) + (ElementSpaces(style, first, depth) + Text(style, vs[0], depth))
            + ElementsText(style, vs[1..], false, depth)
  {
    hide ElementSpaces, Text, CommaUnless;
  }

  lemma MoreItemsAre(items: seq<J.Item>)
    ensures ItemsTail(items, false) == J.MoreItemsText(items)
  {
  }

  lemma FirstItem(items: seq<J.Item>, first: bool)
    requires items != []
    ensures ItemsTail(items, first) == CommaUnless(first) + J.ItemText(items[0]) + J.MoreItemsText(items[1..])
  {
    hide J.ItemText;
  }

  /** White space behind the last item goes behind all of them. */
  lemma Reordered(comma: seq<Byte>, head: seq<Byte>, rest: seq<Byte>, closing: seq<Byte>, last: bool)
    requires last ==> rest == []
    ensures comma + (head + if last then closing else []) + (if last then [] else rest + closing) ==
            (comma + head + rest) + closing
  {
    if last { assert comma + (head + closing) + [] == (comma + head) + closing == (comma + head + []) + closing; }
  }

  function MembersTail(members: seq<J.Member>, first: bool): seq<Byte> {
    if first then J.MembersText(members) else J.MoreMembersText(members)
  }

  lemma {:induction false} MembersWritten(c: Config, style: Style, ms: seq<V.Member>, first: bool, depth: nat,
                                          closing: seq<Byte>) returns (members: seq<J.Member>)
    requires PrintableMembers(c, style, ms) && ms != [] && AllSpaces(closing)
    ensures |members| == |ms| && forall k :: 0 <= k < |members| ==> J.ValidMember(c, members[k])
    ensures MembersTail(members, first) == MembersText(style, ms, first, depth) + closing
    ensures J.MembersTold(members) == V.MemberEvents(V.TextReader, ms)
    decreases ms, 1
  {
    hide J.Valid, J.Text, J.Told, Text, V.EventsOf, Printable, NameSpaces, ColonSpaces, J.ValidGap, J.GapsText;
    hide Quoted, Encodable, J.StringText, J.ValidCharacter, J.CharactersOctets, MembersTail, MembersText;
    SpacesAreSpaces(style, first, true, depth);
    var before := SpacesWritten(NameSpaces(style, depth));
    var name := StringWritten(style.ascii, ms[0].name);
    var space := SpacesWritten(ColonSpaces(style));
    var t := ValueWritten(c, style, ms[0].value, depth);
    var after, rest := [], [];
    NoGaps();
    if |ms| == 1 {
      after := SpacesWritten(closing);
    } else {
      rest := MembersWritten(c, style, ms[1..], false, depth, closing);
    }
    members := [J.Member(before, name, [], J.Item(space, t, after))] + rest;
    assert members[1..] == rest;
    MembersJoin(style, ms, first, depth, closing, members);
  }

  lemma MembersJoin(style: Style, ms: seq<V.Member>, first: bool, depth: nat, closing: seq<Byte>, members: seq<J.Member>)
    requires ms != [] && |members| == |ms|
    requires J.MemberText(members[0]) ==
             NameSpaces(style, depth) + Quoted(style.ascii, ms[0].name) + [COLON] + ColonSpaces(style)
             + Text(style, ms[0].value, depth) + if |ms| == 1 then closing else []
    requires |ms| > 1 ==> MembersTail(members[1..], false) == MembersText(style, ms[1..], false, depth) + closing
    ensures MembersTail(members, first) == MembersText(style, ms, first, depth) + closing
  {
    hide NameSpaces, Quoted, ColonSpaces, Text, CommaUnless, J.MemberText, MembersTail, MembersText;
    FirstMember(members, first);
    Nothing(style, depth);
    MoreMembersAre(members[1..]);
    MembersUnfold(style, ms, first, depth);
    var comma, text := CommaUnless(first), Text(style, ms[0].value, depth);
    var named := NameSpaces(style, depth) + Quoted(style.ascii, ms[0].name) + [COLON] + ColonSpaces(style);
    assert |ms| == 1 ==> ms[1..] == [] && members[1..] == [];
    Reordered(comma, named + text, MembersText(style, ms[1..], false, depth), closing, |ms| == 1);
  }

  lemma MembersUnfold(style: Style, ms: seq<V.Member>, first: bool, depth: nat)
    requires ms != []
    ensures MembersText(style, ms, first, depth) ==
            CommaUnless(first)
            + (NameSpaces(style, depth) + Quoted(style.ascii, ms[0].name) + [COLON] + ColonSpaces(style)
               + Text(style, ms[0].value, depth))
            + MembersText(style, ms[1..], false, depth)
  {
    hide NameSpaces, Quoted, ColonSpaces, Text, CommaUnless;
    Regrouped(CommaUnless(first), NameSpaces(style, depth), Quoted(style.ascii, ms[0].name), [COLON],
      ColonSpaces(style), Text(style, ms[0].value, depth));
  }

  lemma Regrouped(a: seq<Byte>, b: seq<Byte>, c: seq<Byte>, d: seq<Byte>, e: seq<Byte>, f: seq<Byte>)
    ensures a + b + c + d + e + f == a + (b + c + d + e + f)
    ensures a + b + c + d + e + f == (a + b) + c + (d + e) + f
  {
    Grouped(a, b, c);
    Grouped(a, b + c, d);
    Grouped(a, b + c + d, e);
    Grouped(a, b + c + d + e, f);
    Grouped(a + b + c, d, e);
  }

  lemma Grouped(a: seq<Byte>, b: seq<Byte>, c: seq<Byte>)
    ensures (a + b) + c == a + (b + c)
  {
  }

  lemma MoreMembersAre(members: seq<J.Member>)
    ensures MembersTail(members, false) == J.MoreMembersText(members)
  {
  }

  lemma FirstMember(members: seq<J.Member>, first: bool)
    requires members != []
    ensures MembersTail(members, first) == CommaUnless(first) + J.MemberText(members[0]) + J.MoreMembersText(members[1..])
  {
    hide J.MemberText;
  }

  lemma PrintableIsProper(c: Config, style: Style, v: V.Value)
    requires Printable(c, style, v)
    ensures V.Proper(v)
  {
  }

  /** What is printed is a text of the grammar, with no white space around it. */
  lemma PrintedDerived(c: Config, style: Style, v: V.Value) returns (d: J.Document)
    requires Printable(c, style, v)
    ensures Derives(c, d, Text(style, v, 0)) && J.DocumentText(d) == Text(style, v, 0)
    ensures J.Told(d.root.value) == V.EventsOf(V.TextReader, v)
    ensures End(c, d) == |Text(style, v, 0)|
  {
    hide J.Valid, J.Text, J.Told, Text, Printable, V.EventsOf;
    var t := ValueWritten(c, style, v, 0);
    d := J.Document(J.Item([], t, []), None);
    NoGaps();
    assert J.DocumentText(d) == Text(style, v, 0);
    assert Text(style, v, 0)[..|Text(style, v, 0)|] == Text(style, v, 0);
  }

  /**
   * Print and parse: the text of a value, compact or indented, is accepted by both parsers to its end; the
   * events they send build exactly that value in a document.
   */
  lemma PrintParse(c: Config, style: Style, v: V.Value)
    requires Willing(c) && Printable(c, style, v)
    ensures var t := Text(style, v, 0);
            && Parse(c, t) == Ok(St(|t|, V.EventsOf(V.TextReader, v)))
            && Automaton.IterativeParse(c, t) == Parse(c, t)
            && Document.Run([], Parse(c, t).st.evs) == Some([v])
  {
    hide Text, Printable, V.EventsOf, Parse, Automaton.IterativeParse, Derives, J.DocumentText, J.Told, Document.Run;
    PrintableIsProper(c, style, v);
    var d := PrintedDerived(c, style, v);
    DocumentAccepted(c, Text(style, v, 0), d);
    Equivalence.ParsersAgree(c, Text(style, v, 0));
    Document.Built(V.TextReader, [], v);
    assert [] + [v] == [v];
  }

  /**
   * Indentation, line feeds and single-line arrays never change what is read: any two styles give the same
   * events and value.
   */
  lemma StylesAgree(c: Config, compact: Style, pretty: Style, v: V.Value)
    requires Willing(c) && Printable(c, compact, v) && Printable(c, pretty, v)
    ensures var r, t := Parse(c, Text(compact, v, 0)), Parse(c, Text(pretty, v, 0));
            r.Ok? && t.Ok? && r.st.evs == t.st.evs && Document.Run([], t.st.evs) == Some([v])
  {
    hide Parse, Text, Printable, Document.Run;
    PrintParse(c, compact, v);
    PrintParse(c, pretty, v);
  }
}
