/**
 * How a printed text is laid out, as a law of the finished text: which white space stands in front of every character
 * that is not white space itself, outside string literals.
 */
module Layout {
  import opened Chars
  import opened JsonNumbers
  import opened Rendering
  import Events
  import J = Json
  import Numbers
  import opened RoundTrip
  import Utf8
  import V = Values

  /**
   * What is known of a text read so far: the brackets still open, whether a string literal goes on (and its next
   * character is escaped), the last character that was no white space, and the white space since.
   */
  datatype Scan = Scan(open: seq<Byte>, quoted: bool, escaped: bool, last: Byte, blank: seq<Byte>)

  const START: Scan := Scan([], false, false, 0, [])

  predicate IsWhite(b: Byte) {
    b == 0x20 || b == 0x09 || b == 0x0A || b == 0x0D
  }

  predicate Opens(b: Byte) { b == 0x5B || b == 0x7B }
  predicate Closes(b: Byte) { b == 0x5D || b == 0x7D }

  function Next(k: Scan, b: Byte): Scan {
    if k.quoted then
      if k.escaped then k.(escaped := false)
      else if b == 0x5C then k.(escaped := true)
      else if b == 0x22 then k.(quoted := false, last := 0x22, blank := [])
      else k
    else if IsWhite(b) then k.(blank := k.blank + [b])
    else if b == 0x22 then k.(quoted := true, last := b, blank := [])
    else if Opens(b) then k.(open := k.open + [b], last := b, blank := [])
    else if Closes(b) && k.open != [] then k.(open := k.open[..|k.open| - 1], last := b, blank := [])
    else k.(last := b, blank := [])
  }

  function Scanned(k: Scan, t: seq<Byte>): Scan
    decreases |t|
  {
    if t == [] then k else Scanned(Next(k, t[0]), t[1..])
  }

  /** A line feed, and the indentation of `depth` open brackets. */
  function Indented(style: Style, depth: nat): seq<Byte> {
    [0x0A] + seq(depth * style.indentCount, i => style.indentChar)
  }

  predicate OneLine(style: Style, open: seq<Byte>) {
    style.singleLineArrays && open != [] && open[|open| - 1] == 0x5B
  }

  /** The white space in front of `b`, with `open` still open and `last` before it. */
  function Expected(style: Style, open: seq<Byte>, last: Byte, b: Byte): seq<Byte> {
    if !style.pretty || open == [] then []
    else if Closes(b) then if Opens(last) || OneLine(style, open) then [] else Indented(style, |open| - 1)
    else if Opens(last) then if OneLine(style, open) then [] else Indented(style, |open|)
    else if last == 0x2C then if OneLine(style, open) then [0x20] else Indented(style, |open|)
    else if last == 0x3A then [0x20]
    else []
  }

  predicate Placed(style: Style, k: Scan, b: Byte) {
    !k.quoted && !IsWhite(b) ==> k.blank == Expected(style, k.open, k.last, b)
  }

  predicate LaidOut(style: Style, k: Scan, t: seq<Byte>)
    decreases |t|
  {
    t == [] || (Placed(style, k, t[0]) && LaidOut(style, Next(k, t[0]), t[1..]))
  }

  lemma {:induction false} Append(style: Style, k: Scan, a: seq<Byte>, b: seq<Byte>)
    ensures Scanned(k, a + b) == Scanned(Scanned(k, a), b)
    ensures LaidOut(style, k, a + b) <==> LaidOut(style, k, a) && LaidOut(style, Scanned(k, a), b)
    decreases |a|
  {
    hide Next, Placed;
    if a == [] {
      assert a + b == b;
    } else {
      assert (a + b)[1..] == a[1..] + b;
      Append(style, Next(k, a[0]), a[1..], b);
    }
  }

  lemma {:induction false} PlacedEverywhere(style: Style, k: Scan, t: seq<Byte>, i: nat)
    requires LaidOut(style, k, t) && i < |t|
    ensures Placed(style, Scanned(k, t[..i]), t[i])
  {
    assert t == t[..i] + t[i..];
    Append(style, k, t[..i], t[i..]);
  }

  // Runs of characters.

  lemma {:induction false} BlankScanned(style: Style, k: Scan, t: seq<Byte>)
    requires !k.quoted && forall i :: 0 <= i < |t| ==> IsWhite(t[i])
    ensures Scanned(k, t) == k.(blank := k.blank + t) && LaidOut(style, k, t)
    decreases |t|
  {
    if t == [] {
      assert k.blank + t == k.blank;
    } else {
      BlankScanned(style, Next(k, t[0]), t[1..]);
      assert k.blank + [t[0]] + t[1..] == k.blank + t;
    }
  }

  /** A character of a literal or number. */
  predicate Plain(b: Byte) {
    !IsWhite(b) && !Opens(b) && !Closes(b) && b != 0x22 && b != 0x2C && b != 0x3A && b != 0
  }

  lemma {:induction false} PlainScanned(style: Style, k: Scan, t: seq<Byte>)
    requires !k.quoted && k.blank == [] && Plain(k.last) && forall i :: 0 <= i < |t| ==> Plain(t[i])
    ensures LaidOut(style, k, t) && Scanned(k, t) == k.(last := if t == [] then k.last else t[|t| - 1])
    decreases |t|
  {
    if t != [] { PlainScanned(style, Next(k, t[0]), t[1..]); }
  }

  /** Something has just ended, so nothing is to stand before a comma, colon or the next character of a token. */
  predicate Settled(k: Scan) {
    !k.quoted && !k.escaped && k.blank == [] && !Opens(k.last) && k.last != 0x2C && k.last != 0x3A
  }

  /** A value can start here. */
  predicate Ready(style: Style, k: Scan, depth: nat) {
    !k.quoted && !k.escaped && |k.open| == depth && k.blank == Expected(style, k.open, k.last, 0)
  }

  /** The text of a value was laid out, and nothing is open that was not before. */
  predicate Passed(style: Style, k: Scan, t: seq<Byte>) {
    LaidOut(style, k, t) && Settled(Scanned(k, t)) && Scanned(k, t).open == k.open
  }

  lemma WordPasses(style: Style, k: Scan, depth: nat, t: seq<Byte>)
    requires Ready(style, k, depth) && t != [] && forall i :: 0 <= i < |t| ==> Plain(t[i])
    ensures Passed(style, k, t)
  {
    PlainScanned(style, Next(k, t[0]), t[1..]);
  }

  // Strings.

  lemma {:induction false} QuotedRun(style: Style, k: Scan, t: seq<Byte>)
    requires k.quoted && !k.escaped && forall i :: 0 <= i < |t| ==> t[i] != 0x22 && t[i] != 0x5C
    ensures LaidOut(style, k, t) && Scanned(k, t) == k
    decreases |t|
  {
    if t != [] { QuotedRun(style, k, t[1..]); }
  }

  lemma EscapeRun(style: Style, k: Scan, b: Byte)
    requires k.quoted && !k.escaped
    ensures LaidOut(style, k, [0x5C, b]) && Scanned(k, [0x5C, b]) == k
  {
    var t := [0x5C, b];
    assert t[1..] == [b] && [b][1..] == [];
    assert Next(Next(k, 0x5C), b) == k;
    assert Scanned(Next(k, 0x5C), [b]) == Scanned(k, []);
    assert LaidOut(style, Next(k, 0x5C), [b]);
  }

  lemma HexRun(style: Style, k: Scan, n: nat)
    requires k.quoted && !k.escaped && n < 0x10000
    ensures LaidOut(style, k, [0x5C, 0x75] + Hex4(n)) && Scanned(k, [0x5C, 0x75] + Hex4(n)) == k
  {
    hide LaidOut, Scanned;
    EscapeRun(style, k, 0x75);
    Append(style, k, [0x5C, 0x75], Hex4(n));
    QuotedRun(style, k, Hex4(n));
  }

  lemma ByteRun(style: Style, k: Scan, b: Byte)
    requires k.quoted && !k.escaped
    ensures LaidOut(style, k, ByteText(b)) && Scanned(k, ByteText(b)) == k
  {
    hide LaidOut, Scanned;
    var e := EscapeLetter(b);
    if e == 0 {
      QuotedRun(style, k, [b]);
    } else if e == LOWER_U {
      assert ByteText(b) == [0x5C, 0x75] + Hex4(b);
      HexRun(style, k, b);
    } else {
      EscapeRun(style, k, e);
    }
  }

  lemma UnicodeRun(style: Style, k: Scan, cp: nat)
    requires k.quoted && !k.escaped && Utf8.IsScalar(cp)
    ensures LaidOut(style, k, UnicodeText(cp)) && Scanned(k, UnicodeText(cp)) == k
  {
    hide LaidOut, Scanned, Hex4;
    if cp <= 0xFFFF {
      HexRun(style, k, cp);
    } else {
      var v := cp - 0x10000;
      var a, b := [0x5C, 0x75] + Hex4(v / 0x400 + 0xD800), [0x5C, 0x75] + Hex4(v % 0x400 + 0xDC00);
      HexRun(style, k, v / 0x400 + 0xD800);
      HexRun(style, k, v % 0x400 + 0xDC00);
      Append(style, k, a, b);
      assert UnicodeText(cp) == a + b;
    }
  }

  lemma {:induction false} BodyRun(style: Style, k: Scan, ascii: bool, str: seq<Byte>, i: nat)
    requires k.quoted && !k.escaped
    ensures LaidOut(style, k, Body(ascii, str, i)) && Scanned(k, Body(ascii, str, i)) == k
    decreases |str| - i
  {
    hide ByteText, UnicodeText, Utf8.Decode;
    if i < |str| {
      var piece, next := ByteText(str[i]), i + 1;
      if Wide(ascii, str[i]) {
        var d := Utf8.Decode(str, i);
        if d.ok && i < d.next && Utf8.IsScalar(d.cp) {
          UnicodeRun(style, k, d.cp);
          piece, next := UnicodeText(d.cp), d.next;
          BodyRun(style, k, ascii, str, next);
          Append(style, k, piece, Body(ascii, str, next));
        }
      } else {
        ByteRun(style, k, str[i]);
        BodyRun(style, k, ascii, str, next);
        Append(style, k, piece, Body(ascii, str, next));
      }
    }
  }

  /** A string literal, at a place where a value or a name can start. */
  lemma QuotedPasses(style: Style, k: Scan, depth: nat, str: seq<Byte>)
    requires Ready(style, k, depth)
    ensures Passed(style, k, Quoted(style.ascii, str)) && Scanned(k, Quoted(style.ascii, str)).last == 0x22
  {
    var body := Body(style.ascii, str, 0);
    var inside := Next(k, 0x22);
    BodyRun(style, inside, style.ascii, str, 0);
    hide Body;
    Append(style, inside, body, [0x22]);
    var t := Quoted(style.ascii, str);
    assert t[0] == 0x22 && t[1..] == body + [0x22];
    assert [0x22][1..] == [];
    assert Scanned(inside, [0x22]) == Next(inside, 0x22);
    assert LaidOut(style, inside, [0x22]);
  }

  // Numbers.

  lemma {:induction false} DecimalPlain(n: nat)
    ensures forall i :: 0 <= i < |Decimal(n)| ==> Plain(Decimal(n)[i])
  {
    if n >= 10 { DecimalPlain(n / 10); }
  }

  lemma IntegerPlain(v: int)
    ensures IntegerText(v) != [] && forall i :: 0 <= i < |IntegerText(v)| ==> Plain(IntegerText(v)[i])
  {
    DecimalPlain(if v < 0 then -v else v);
  }

  function NumberInteger(n: V.Num): int {
    if n.isInt then V.GetInt(n) else if n.isUint then V.GetUint(n) else if n.isInt64 then V.GetInt64(n) else n.bits
  }

  predicate AllPlain(t: seq<Byte>) {
    forall i :: 0 <= i < |t| ==> Plain(t[i])
  }

  lemma AllPlainTogether(a: seq<Byte>, b: seq<Byte>)
    requires AllPlain(a) && AllPlain(b)
    ensures AllPlain(a + b)
  {
  }

  lemma DigitsPlain(ds: seq<Byte>)
    requires J.Digits(ds)
    ensures AllPlain(ds)
  {
  }

  lemma LiteralPlain(c: Events.Config, literal: seq<Byte>)
    requires Numbers.IsDoubleLiteral(c, literal)
    ensures literal != [] && AllPlain(literal)
  {
    hide Numbers.Lex, J.TooBig, J.NumberEvent, AllPlain, J.Digits, J.NumberText;
    var n := NumberDerived(c, literal, 0);
    assert literal[0..|literal|] == literal;
    NumberPlain(n);
  }

  lemma NumberPlain(n: J.Number)
    requires J.ValidNumber(n)
    ensures J.NumberText(n) != [] && AllPlain(J.NumberText(n))
  {
    hide AllPlain, J.Digits, J.ExponentText, J.FractionText;
    var sign := if n.minus then [0x2D] else [];
    assert AllPlain(sign) by { assert AllPlain([]) && AllPlain([0x2D]) by { AlonePlain(0x2D); } }
    DigitsPlain(n.whole);
    FractionPlain(n);
    ExponentPlain(n);
    AllPlainTogether(sign, n.whole);
    AllPlainTogether(sign + n.whole, J.FractionText(n));
    AllPlainTogether(sign + n.whole + J.FractionText(n), J.ExponentText(n));
  }

  lemma AlonePlain(b: Byte)
    ensures AllPlain([])
    ensures Plain(b) ==> AllPlain([b])
  {
  }

  lemma FractionPlain(n: J.Number)
    requires J.ValidNumber(n)
    ensures AllPlain(J.FractionText(n))
  {
    hide AllPlain, J.Digits;
    AlonePlain(0x2E);
    DigitsPlain(n.fraction);
    AllPlainTogether([0x2E], n.fraction);
  }

  lemma ExponentPlain(n: J.Number)
    requires J.ValidNumber(n)
    ensures AllPlain(J.ExponentText(n))
  {
    hide AllPlain, J.Digits;
    AlonePlain(0);
    match n.exponent
    case NoExponent =>
    case Exponent(mark, sign, digits) =>
      AlonePlain(mark);
      AlonePlain(0x2B);
      AlonePlain(0x2D);
      DigitsPlain(digits);
      AllPlainTogether([mark], sign);
      AllPlainTogether([mark] + sign, digits);
  }

  // Values.

  lemma LeafPasses(c: Events.Config, style: Style, k: Scan, v: V.Value, depth: nat)
    requires Ready(style, k, depth) && !v.Array? && !v.Object? && SoundDoubles(c, v)
    ensures Passed(style, k, LeafText(style, v))
  {
    hide Passed, Ready, Numbers.Lex, Quoted, IntegerText;
    match v
    case Number(n) =>
      IntegerPlain(NumberInteger(n));
      WordPasses(style, k, depth, NumberText(n));
    case Double(literal) =>
      LiteralPlain(c, literal);
      WordPasses(style, k, depth, literal);
    case String(str) => QuotedPasses(style, k, depth, str);
    case Null => WordPasses(style, k, depth, [0x6E, 0x75, 0x6C, 0x6C]);
    case Bool(b) => WordPasses(style, k, depth, LeafText(style, v));
  }

  // Containers.

  lemma Repeated(style: Style, depth: nat)
    ensures Newline(style, depth) == Indented(style, depth)
  {
    assert Repeat(style.indentChar, depth * style.indentCount) == seq(depth * style.indentCount, i => style.indentChar);
  }

  /** One character that is no quote, at its place. */
  lemma MarkScanned(style: Style, k: Scan, b: Byte)
    requires !k.quoted && !IsWhite(b) && k.blank == Expected(style, k.open, k.last, b)
    ensures LaidOut(style, k, [b]) && Scanned(k, [b]) == Next(k, b)
  {
    assert [b][1..] == [];
  }

  /** A comma before all but the first, and the white space behind it, lead to where the next item starts. */
  lemma ItemPlace(style: Style, k: Scan, first: bool, spaces: seq<Byte>, depth: nat)
    requires Legal(style) && |k.open| == depth && depth > 0 && Opens(k.open[depth - 1])
    requires if first then !k.quoted && !k.escaped && k.blank == [] && k.last == k.open[depth - 1] else Settled(k)
    requires spaces == if k.open[depth - 1] == 0x5B then ElementSpaces(style, first, depth) else NameSpaces(style, depth)
    ensures var t := CommaUnless(first) + spaces;
            LaidOut(style, k, t) && Ready(style, Scanned(k, t), depth) && Scanned(k, t).open == k.open
  {
    hide Newline, Indented;
    Repeated(style, depth);
    SpacesAreWhite(style, depth);
    Append(style, k, CommaUnless(first), spaces);
    if first {
      BlankScanned(style, k, spaces);
    } else {
      MarkScanned(style, k, 0x2C);
      BlankScanned(style, Next(k, 0x2C), spaces);
    }
  }

  lemma SpacesAreWhite(style: Style, depth: nat)
    requires Legal(style)
    ensures forall i :: 0 <= i < |Newline(style, depth)| ==> IsWhite(Newline(style, depth)[i])
  {
  }

  /** The closing bracket. */
  lemma ClosePlace(style: Style, k: Scan, spaces: seq<Byte>, depth: nat)
    requires Legal(style) && |k.open| == depth + 1 && Opens(k.open[depth]) && !k.quoted && !k.escaped && k.blank == []
    requires Settled(k) || k.last == k.open[depth]
    requires spaces == if Opens(k.last) then [] else ClosingSpaces(style, k.open[depth] == 0x5B, depth)
    ensures var t := spaces + [if k.open[depth] == 0x5B then 0x5D else 0x7D];
            LaidOut(style, k, t) && Settled(Scanned(k, t)) && Scanned(k, t).open == k.open[..depth]
  {
    hide Newline, Indented;
    var b: Byte := if k.open[depth] == 0x5B then 0x5D else 0x7D;
    Repeated(style, depth);
    SpacesAreWhite(style, depth);
    Append(style, k, spaces, [b]);
    BlankScanned(style, k, spaces);
    MarkScanned(style, k.(blank := k.blank + spaces), b);
  }

  lemma {:induction false} ValuePasses(c: Events.Config, style: Style, k: Scan, v: V.Value, depth: nat)
    requires Legal(style) && SoundDoubles(c, v) && Ready(style, k, depth)
    ensures Passed(style, k, Text(style, v, depth))
    decreases v, 1
  {
    match v
    case Array(elems) => ArrayPasses(c, style, k, elems, depth);
    case Object(members) => ObjectPasses(c, style, k, members, depth);
    case _ => LeafPasses(c, style, k, v, depth);
  }

  lemma {:induction false} ArrayPasses(c: Events.Config, style: Style, k: Scan, elems: seq<V.Value>, depth: nat)
    requires Legal(style) && Ready(style, k, depth) && forall i :: 0 <= i < |elems| ==> SoundDoubles(c, elems[i])
    ensures Passed(style, k, Text(style, V.Array(elems), depth))
    decreases elems, 1
  {
    hide LaidOut, Scanned, ElementsText, ClosingSpaces, Expected;
    var k1 := Opened(style, k, 0x5B);
    var items := ElementsText(style, elems, true, depth + 1);
    var closing := if elems == [] then [] else ClosingSpaces(style, true, depth);
    ElementsPass(c, style, k1, elems, true, depth + 1);
    ClosePlace(style, Scanned(k1, items), closing, depth);
    Bracketed(style, k, [0x5B], items, closing + [0x5D]);
    assert [0x5B] + items + (closing + [0x5D]) == Text(style, V.Array(elems), depth);
  }

  lemma Opened(style: Style, k: Scan, b: Byte) returns (k1: Scan)
    requires Ready(style, k, |k.open|) && Opens(b)
    ensures LaidOut(style, k, [b]) && Scanned(k, [b]) == k1
    ensures k1 == k.(open := k.open + [b], last := b, blank := [])
  {
    MarkScanned(style, k, b);
    k1 := Next(k, b);
  }

  lemma Bracketed(style: Style, k: Scan, a: seq<Byte>, b: seq<Byte>, c: seq<Byte>)
    ensures Scanned(k, a + b + c) == Scanned(Scanned(Scanned(k, a), b), c)
    ensures LaidOut(style, k, a) && LaidOut(style, Scanned(k, a), b) && LaidOut(style, Scanned(Scanned(k, a), b), c) ==>
              LaidOut(style, k, a + b + c)
  {
    hide LaidOut, Scanned;
    Append(style, k, a + b, c);
    Append(style, k, a, b);
  }

  /** Behind the opening bracket, or behind an element. */
  predicate Between(k: Scan, first: bool, bracket: Byte, depth: nat) {
    && |k.open| == depth && depth > 0 && k.open[depth - 1] == bracket
    && if first then !k.quoted && !k.escaped && k.blank == [] && k.last == bracket else Settled(k)
  }

  lemma {:induction false} ElementsPass(c: Events.Config, style: Style, k: Scan, vs: seq<V.Value>, first: bool, depth: nat)
    requires Legal(style) && Between(k, first, 0x5B, depth) && forall i :: 0 <= i < |vs| ==> SoundDoubles(c, vs[i])
    ensures var t := ElementsText(style, vs, first, depth);
            LaidOut(style, k, t) && Between(Scanned(k, t), first && vs == [], 0x5B, depth) && Scanned(k, t).open == k.open
    decreases vs, 0
  {
    hide ElementSpaces, Expected;
    if vs != [] {
      hide LaidOut, Scanned;
      var head := CommaUnless(first) + ElementSpaces(style, first, depth);
      var text, rest := Text(style, vs[0], depth), ElementsText(style, vs[1..], false, depth);
      ItemPlace(style, k, first, ElementSpaces(style, first, depth), depth);
      var k1 := Scanned(k, head);
      ValuePasses(c, style, k1, vs[0], depth);
      ElementsPass(c, style, Scanned(k1, text), vs[1..], false, depth);
      Bracketed(style, k, head, text, rest);
    }
  }

  lemma {:induction false} ObjectPasses(c: Events.Config, style: Style, k: Scan, members: seq<V.Member>, depth: nat)
    requires Legal(style) && Ready(style, k, depth)
    requires forall i :: 0 <= i < |members| ==> SoundDoubles(c, members[i].value)
    ensures Passed(style, k, Text(style, V.Object(members), depth))
    decreases members, 1
  {
    hide LaidOut, Scanned, MembersText, ClosingSpaces, Expected;
    var k1 := Opened(style, k, 0x7B);
    var items := MembersText(style, members, true, depth + 1);
    var closing := if members == [] then [] else ClosingSpaces(style, false, depth);
    MembersPass(c, style, k1, members, true, depth + 1);
    ClosePlace(style, Scanned(k1, items), closing, depth);
    Bracketed(style, k, [0x7B], items, closing + [0x7D]);
    assert [0x7B] + items + (closing + [0x7D]) == Text(style, V.Object(members), depth);
  }

  /** The colon behind a name, with the space behind it, leads to where the value starts. */
  lemma ColonPlace(style: Style, k: Scan, depth: nat)
    requires Settled(k) && |k.open| == depth && depth > 0
    ensures var t := [0x3A] + ColonSpaces(style);
            LaidOut(style, k, t) && Ready(style, Scanned(k, t), depth) && Scanned(k, t).open == k.open
  {
    Append(style, k, [0x3A], ColonSpaces(style));
    MarkScanned(style, k, 0x3A);
    BlankScanned(style, Next(k, 0x3A), ColonSpaces(style));
  }

  lemma {:induction false} MembersPass(c: Events.Config, style: Style, k: Scan, ms: seq<V.Member>, first: bool, depth: nat)
    requires Legal(style) && Between(k, first, 0x7B, depth)
    requires forall i :: 0 <= i < |ms| ==> SoundDoubles(c, ms[i].value)
    ensures var t := MembersText(style, ms, first, depth);
            LaidOut(style, k, t) && Between(Scanned(k, t), first && ms == [], 0x7B, depth) && Scanned(k, t).open == k.open
    decreases ms, 0
  {
    hide NameSpaces, Expected, Quoted, MemberHead;
    if ms != [] {
      hide LaidOut, Scanned;
      var head := MemberHead(style, ms[0].name, first, depth);
      var text, rest := Text(style, ms[0].value, depth), MembersText(style, ms[1..], false, depth);
      HeadPlace(style, k, ms[0].name, first, depth);
      var k1 := Scanned(k, head);
      ValuePasses(c, style, k1, ms[0].value, depth);
      MembersPass(c, style, Scanned(k1, text), ms[1..], false, depth);
      Bracketed(style, k, head, text, rest);
      MembersUnfold(style, ms, first, depth);
    }
  }

  /** A member up to its value. */
  function MemberHead(style: Style, name: seq<Byte>, first: bool, depth: nat): seq<Byte> {
    (CommaUnless(first) + NameSpaces(style, depth)) + Quoted(style.ascii, name) + ([COLON] + ColonSpaces(style))
  }

  lemma MembersUnfold(style: Style, ms: seq<V.Member>, first: bool, depth: nat)
    requires ms != []
    ensures MembersText(style, ms, first, depth) ==
            MemberHead(style, ms[0].name, first, depth) + Text(style, ms[0].value, depth)
            + MembersText(style, ms[1..], false, depth)
  {
    hide NameSpaces, Quoted, ColonSpaces, CommaUnless, Text;
    Regrouped(CommaUnless(first), NameSpaces(style, depth), Quoted(style.ascii, ms[0].name), [COLON],
      ColonSpaces(style), Text(style, ms[0].value, depth));
  }

  lemma HeadPlace(style: Style, k: Scan, name: seq<Byte>, first: bool, depth: nat)
    requires Legal(style) && Between(k, first, 0x7B, depth)
    ensures var t := MemberHead(style, name, first, depth);
            LaidOut(style, k, t) && Ready(style, Scanned(k, t), depth) && Scanned(k, t).open == k.open
  {
    hide NameSpaces, Expected, Quoted, LaidOut, Scanned;
    var head, quoted := CommaUnless(first) + NameSpaces(style, depth), Quoted(style.ascii, name);
    ItemPlace(style, k, first, NameSpaces(style, depth), depth);
    QuotedPasses(style, Scanned(k, head), depth, name);
    ColonPlace(style, Scanned(Scanned(k, head), quoted), depth);
    Bracketed(style, k, head, quoted, [0x3A] + ColonSpaces(style));
  }

  /** The law, for a whole text, and what is left at its end. */
  lemma TextLaidOut(c: Events.Config, style: Style, v: V.Value)
    requires Legal(style) && SoundDoubles(c, v)
    ensures var t := Text(style, v, 0);
            && (forall i :: 0 <= i < |t| ==> Placed(style, Scanned(START, t[..i]), t[i]))
            && var end := Scanned(START, t); end.open == [] && !end.quoted && end.blank == []
  {
    hide Text, LaidOut, Scanned, Placed;
    ValuePasses(c, style, START, v, 0);
    var t := Text(style, v, 0);
    forall i | 0 <= i < |t| ensures Placed(style, Scanned(START, t[..i]), t[i]) {
      PlacedEverywhere(style, START, t, i);
    }
  }

  // Line feeds.

  lemma OneMore(t: seq<Byte>, i: nat)
    requires i < |t|
    ensures Scanned(START, t[..i + 1]) == Next(Scanned(START, t[..i]), t[i])
  {
    hide Next, Placed;
    assert t[..i + 1] == t[..i] + [t[i]] && [t[i]][1..] == [];
    Append(Style(false, 0x20, 0, false, false), START, t[..i], [t[i]]);
  }

  /** A place outside string literals, in white space: the end of that white space. */
  lemma {:induction false} BlankEnds(t: seq<Byte>, i: nat) returns (j: nat)
    requires i < |t| && !Scanned(START, t[..i]).quoted && IsWhite(t[i]) && Scanned(START, t).blank == []
    ensures i < j < |t| && !IsWhite(t[j]) && !Scanned(START, t[..j]).quoted
    ensures Scanned(START, t[..j]).blank == Scanned(START, t[..i]).blank + t[i..j]
    decreases |t| - i
  {
    hide Scanned;
    OneMore(t, i);
    assert t[..|t|] == t;
    if i + 1 == |t| {
      assert false;
    } else if IsWhite(t[i + 1]) {
      j := BlankEnds(t, i + 1);
      assert t[i..j] == [t[i]] + t[i + 1..j];
    } else {
      j := i + 1;
      assert t[i..j] == [t[i]];
    }
  }

  /** A line feed that is expected comes first, with the indentation behind it. */
  lemma FeedExpected(style: Style, k: Scan, b: Byte, n: nat)
    requires style.indentChar != 0x0A && n < |k.blank| && k.blank[n] == 0x0A
    requires k.blank == Expected(style, k.open, k.last, b)
    ensures n == 0 && style.pretty && k.open != [] && !OneLine(style, k.open)
    ensures k.blank == Indented(style, |k.open| - if Closes(b) then 1 else 0)
    ensures if Closes(b) then !Opens(k.last) else Opens(k.last) || k.last == 0x2C
  {
  }

  lemma IndentedLength(style: Style, depth: nat)
    ensures |Indented(style, depth)| == 1 + style.indentCount * depth
    ensures forall n :: 1 <= n < |Indented(style, depth)| ==> Indented(style, depth)[n] == style.indentChar
  {
  }

  /**
   * Behind every line feed outside string literals stand exactly as many indentation characters as the brackets that
   * are open then call for, one less than there are if the next character closes one; and every line feed stands in
   * front of the close of a container that is not empty, or behind an opening bracket or a comma.
   */
  lemma LineFeeds(c: Events.Config, style: Style, v: V.Value, i: nat) returns (j: nat)
    requires Legal(style) && style.indentChar != 0x0A && SoundDoubles(c, v)
    requires i < |Text(style, v, 0)| && Text(style, v, 0)[i] == 0x0A && !Scanned(START, Text(style, v, 0)[..i]).quoted
    ensures var t := Text(style, v, 0);
            && i < j < |t| && !IsWhite(t[j]) && (forall n :: i < n < j ==> t[n] == style.indentChar)
            && var k := Scanned(START, t[..j]);
               && j - i - 1 == style.indentCount * (|k.open| - if Closes(t[j]) then 1 else 0)
               && style.pretty && k.open != [] && !OneLine(style, k.open)
               && (if Closes(t[j]) then !Opens(k.last) else Opens(k.last) || k.last == 0x2C)
  {
    hide Text, Scanned, Expected, Indented;
    var t := Text(style, v, 0);
    TextLaidOut(c, style, v);
    j := BlankEnds(t, i);
    var k := Scanned(START, t[..j]);
    assert Placed(style, k, t[j]);
    var before := Scanned(START, t[..i]).blank;
    assert k.blank[|before|] == 0x0A;
    FeedExpected(style, k, t[j], |before|);
    IndentedLength(style, |k.open| - if Closes(t[j]) then 1 else 0);
    assert k.blank == t[i..j];
    forall n | i < n < j ensures t[n] == style.indentChar { assert k.blank[n - i] == t[n]; }
  }
}
