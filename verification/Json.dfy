/**
 * The JSON grammar (RFC 8259, sections 2 to 7) as derivation trees over octets, with their text and what the reader
 * tells its handler of them. The reader takes some liberties, and they are part of the trees: an escaped lead
 * surrogate needs its second half, octets from 0x80 on are taken as they are, comments and trailing commas are
 * there if their flags are set.
 */
module Json {
  import opened Chars
  import E = Events

  // White space (section 2).

  /** One space, or a comment. */
  datatype Gap = Space(b: Byte) | Block(body: seq<Byte>) | Line(body: seq<Byte>)

  predicate ValidGap(comments: bool, g: Gap) {
    match g
    case Space(b) => b == 0x20 || b == 0x09 || b == 0x0A || b == 0x0D
    case Block(body) =>
      && comments && 0 !in body
      && forall k :: 0 <= k < |body| - 1 ==> !(body[k] == 0x2A && body[k + 1] == 0x2F)
    case Line(body) => comments && 0 !in body && 0x0A !in body
  }

  function GapText(g: Gap): seq<Byte> {
    match g
    case Space(b) => [b]
    case Block(body) => [0x2F, 0x2A] + body + [0x2A, 0x2F]
    case Line(body) => [0x2F, 0x2F] + body + [0x0A]
  }

  predicate ValidGaps(comments: bool, gs: seq<Gap>) {
    forall k :: 0 <= k < |gs| ==> ValidGap(comments, gs[k])
  }

  function GapsText(gs: seq<Gap>): seq<Byte> {
    if gs == [] then [] else GapText(gs[0]) + GapsText(gs[1..])
  }

  // Strings (section 7).

  datatype Character = Plain(b: Byte) | Short(letter: Byte) | Hex(h: seq<Byte>) | Pair(h: seq<Byte>, h2: seq<Byte>)

  function ShortMeaning(letter: Byte): Option<Byte> {
    if letter == 0x22 then Some(0x22)
    else if letter == 0x5C then Some(0x5C)
    else if letter == 0x2F then Some(0x2F)
    else if letter == 0x62 then Some(0x08)
    else if letter == 0x66 then Some(0x0C)
    else if letter == 0x6E then Some(0x0A)
    else if letter == 0x72 then Some(0x0D)
    else if letter == 0x74 then Some(0x09)
    else None
  }

  predicate IsHexDigit(b: Byte) {
    0x30 <= b <= 0x39 || 0x41 <= b <= 0x46 || 0x61 <= b <= 0x66
  }

  function HexDigitValue(b: Byte): (n: nat)
    ensures n < 16
  {
    if 0x30 <= b <= 0x39 then b - 0x30
    else if 0x41 <= b <= 0x46 then b - 0x41 + 10
    else if 0x61 <= b <= 0x66 then b - 0x61 + 10
    else 0
  }

  predicate IsHex(h: seq<Byte>) {
    |h| == 4 && IsHexDigit(h[0]) && IsHexDigit(h[1]) && IsHexDigit(h[2]) && IsHexDigit(h[3])
  }

  function HexNumber(h: seq<Byte>): (n: nat)
    requires IsHex(h)
    ensures n < 0x10000
  {
    HexDigitValue(h[0]) * 4096 + HexDigitValue(h[1]) * 256 + HexDigitValue(h[2]) * 16 + HexDigitValue(h[3])
  }

  predicate ValidCharacter(c: Character) {
    match c
    case Plain(b) => b >= 0x20 && b != 0x22 && b != 0x5C
    case Short(letter) => ShortMeaning(letter).Some?
    case Hex(h) => IsHex(h) && !(0xD800 <= HexNumber(h) <= 0xDBFF)
    case Pair(h, h2) => IsHex(h) && IsHex(h2) && 0xD800 <= HexNumber(h) <= 0xDBFF && 0xDC00 <= HexNumber(h2) <= 0xDFFF
  }

  function CharacterText(c: Character): seq<Byte> {
    match c
    case Plain(b) => [b]
    case Short(letter) => [0x5C, letter]
    case Hex(h) => [0x5C, 0x75] + h
    case Pair(h, h2) => [0x5C, 0x75] + h + [0x5C, 0x75] + h2
  }

  /** Section 3 of RFC 3629. */
  function Utf8Octets(cp: nat): seq<Byte>
    requires cp <= 0x10FFFF
  {
    if cp <= 0x7F then [cp]
    else if cp <= 0x7FF then [0xC0 + cp / 64, 0x80 + cp % 64]
    else if cp <= 0xFFFF then [0xE0 + cp / 4096, 0x80 + cp / 64 % 64, 0x80 + cp % 64]
    else [0xF0 + cp / 262144, 0x80 + cp / 4096 % 64, 0x80 + cp / 64 % 64, 0x80 + cp % 64]
  }

  function CharacterOctets(c: Character): seq<Byte> {
    if !ValidCharacter(c) then []
    else
      match c
      case Plain(b) => [b]
      case Short(letter) => [ShortMeaning(letter).value]
      case Hex(h) => Utf8Octets(HexNumber(h))
      case Pair(h, h2) => Utf8Octets(0x10000 + (HexNumber(h) - 0xD800) * 0x400 + (HexNumber(h2) - 0xDC00))
  }

  predicate ValidCharacters(cs: seq<Character>) {
    forall k :: 0 <= k < |cs| ==> ValidCharacter(cs[k])
  }

  function CharactersText(cs: seq<Character>): seq<Byte> {
    if cs == [] then [] else CharacterText(cs[0]) + CharactersText(cs[1..])
  }

  function CharactersOctets(cs: seq<Character>): seq<Byte> {
    if cs == [] then [] else CharacterOctets(cs[0]) + CharactersOctets(cs[1..])
  }

  function StringText(cs: seq<Character>): seq<Byte> {
    [0x22] + CharactersText(cs) + [0x22]
  }

  // Numbers (section 6).

  datatype Exponent = NoExponent | Exponent(mark: Byte, sign: seq<Byte>, digits: seq<Byte>)

  /** An empty fraction stands for none. */
  datatype Number = Number(minus: bool, whole: seq<Byte>, fraction: seq<Byte>, exponent: Exponent)

  predicate Digits(ds: seq<Byte>) {
    forall k :: 0 <= k < |ds| ==> 0x30 <= ds[k] <= 0x39
  }

  function DigitValue(b: Byte): nat {
    if 0x30 <= b <= 0x39 then b - 0x30 else 0
  }

  function DecimalValue(ds: seq<Byte>): nat {
    if ds == [] then 0 else DecimalValue(ds[..|ds| - 1]) * 10 + DigitValue(ds[|ds| - 1])
  }

  predicate ValidNumber(n: Number) {
    && n.whole != [] && Digits(n.whole) && (n.whole[0] == 0x30 ==> n.whole == [0x30])
    && Digits(n.fraction)
    && match n.exponent
       case NoExponent => true
       case Exponent(mark, sign, digits) =>
         && (mark == 0x65 || mark == 0x45) && (sign == [] || sign == [0x2B] || sign == [0x2D])
         && digits != [] && Digits(digits)
  }

  function FractionText(n: Number): seq<Byte> {
    if n.fraction == [] then [] else [0x2E] + n.fraction
  }

  function ExponentText(n: Number): seq<Byte> {
    match n.exponent
    case NoExponent => []
    case Exponent(mark, sign, digits) => [mark] + sign + digits
  }

  function NumberText(n: Number): seq<Byte> {
    (if n.minus then [0x2D] else []) + n.whole + FractionText(n) + ExponentText(n)
  }

  /** The whole part fits 64 bits of its sign. */
  predicate FitsInteger(n: Number) {
    DecimalValue(n.whole) <= if n.minus then 0x8000_0000_0000_0000 else 0xFFFF_FFFF_FFFF_FFFF
  }

  predicate IsInteger(n: Number) {
    n.fraction == [] && n.exponent.NoExponent? && FitsInteger(n)
  }

  function NumberEvent(n: Number): E.Event {
    var v := DecimalValue(n.whole);
    if !IsInteger(n) then E.Double(NumberText(n))
    else if n.minus then if v <= 0x8000_0000 then E.Int(0 - v) else E.Int64(0 - v)
    else if v <= 0xFFFF_FFFF then E.Uint(v)
    else E.Uint64(v)
  }

  /**
   * How many fraction digits count for the limit on the exponent: all of them while the digits read make a number
   * of at most 2^53 - 1, then as many as bring the digits that count to 17.
   */
  function Counted(m: nat, sig: nat, ds: seq<Byte>): nat
    decreases |ds|
  {
    if ds == [] then 0
    else if m <= 0x1F_FFFF_FFFF_FFFF then
      var m1 := m * 10 + DigitValue(ds[0]);
      1 + Counted(m1, if m1 == 0 then sig else sig + 1, ds[1..])
    else if sig < 17 then 1 + Counted(m, sig + 1, ds[1..])
    else 0
  }

  function Scale(n: Number): nat {
    if n.whole != [] && FitsInteger(n) then Counted(DecimalValue(n.whole), |n.whole| - 1, n.fraction) else 0
  }

  /** A double that overflows, or one with a positive exponent beyond 308 and the digits of the fraction. */
  predicate TooBig(c: E.Config, n: Number) {
    !IsInteger(n) &&
    (c.overflows(NumberText(n))
     || (n.exponent.Exponent? && n.exponent.sign != [0x2D] && DecimalValue(n.exponent.digits) > 308 + Scale(n)))
  }

  // Values (sections 3 to 5).

  /** A container without items may hold white space; one with items may end in a comma, with white space behind it. */
  datatype Tree =
    | NullTree
    | TrueTree
    | FalseTree
    | NumberTree(number: Number)
    | StringTree(chars: seq<Character>)
    | ArrayTree(blank: seq<Gap>, items: seq<Item>, comma: Option<seq<Gap>>)
    | ObjectTree(blank: seq<Gap>, members: seq<Member>, comma: Option<seq<Gap>>)

  datatype Item = Item(before: seq<Gap>, value: Tree, after: seq<Gap>)

  datatype Member = Member(before: seq<Gap>, name: seq<Character>, colon: seq<Gap>, item: Item)

  predicate Valid(c: E.Config, t: Tree) {
    match t
    case NumberTree(n) => ValidNumber(n) && !TooBig(c, n)
    case StringTree(cs) => ValidCharacters(cs)
    case ArrayTree(blank, items, comma) =>
      && ValidGaps(c.comments, blank) && (items != [] ==> blank == [])
      && ValidComma(c, comma, items == [])
      && forall k :: 0 <= k < |items| ==> ValidItem(c, items[k])
    case ObjectTree(blank, members, comma) =>
      && ValidGaps(c.comments, blank) && (members != [] ==> blank == [])
      && ValidComma(c, comma, members == [])
      && forall k :: 0 <= k < |members| ==> ValidMember(c, members[k])
    case _ => true
  }

  predicate ValidComma(c: E.Config, comma: Option<seq<Gap>>, empty: bool) {
    comma.Some? ==> c.trailingCommas && !empty && ValidGaps(c.comments, comma.value)
  }

  predicate ValidItem(c: E.Config, i: Item) {
    ValidGaps(c.comments, i.before) && ValidGaps(c.comments, i.after) && Valid(c, i.value)
  }

  predicate ValidMember(c: E.Config, m: Member) {
    && ValidGaps(c.comments, m.before) && ValidCharacters(m.name) && ValidGaps(c.comments, m.colon)
    && ValidItem(c, m.item)
  }

  function Text(t: Tree): seq<Byte>
    decreases t, 0
  {
    match t
    case NullTree => [0x6E, 0x75, 0x6C, 0x6C]
    case TrueTree => [0x74, 0x72, 0x75, 0x65]
    case FalseTree => [0x66, 0x61, 0x6C, 0x73, 0x65]
    case NumberTree(n) => NumberText(n)
    case StringTree(cs) => StringText(cs)
    case ArrayTree(blank, items, comma) => [0x5B] + GapsText(blank) + ItemsText(items) + CommaText(comma) + [0x5D]
    case ObjectTree(blank, members, comma) =>
      [0x7B] + GapsText(blank) + MembersText(members) + CommaText(comma) + [0x7D]
  }

  function CommaText(comma: Option<seq<Gap>>): seq<Byte> {
    if comma.Some? then [0x2C] + GapsText(comma.value) else []
  }

  function ItemText(i: Item): seq<Byte>
    decreases i, 1
  {
    GapsText(i.before) + Text(i.value) + GapsText(i.after)
  }

  function MemberText(m: Member): seq<Byte>
    decreases m, 2
  {
    GapsText(m.before) + StringText(m.name) + GapsText(m.colon) + [0x3A] + ItemText(m.item)
  }

  /** With a comma before each but the first. */
  function ItemsText(items: seq<Item>): seq<Byte>
    decreases items, 2
  {
    if items == [] then [] else ItemText(items[0]) + MoreItemsText(items[1..])
  }

  function MoreItemsText(items: seq<Item>): seq<Byte>
    decreases items, 2
  {
    if items == [] then [] else [0x2C] + ItemText(items[0]) + MoreItemsText(items[1..])
  }

  function MembersText(members: seq<Member>): seq<Byte>
    decreases members, 3
  {
    if members == [] then [] else MemberText(members[0]) + MoreMembersText(members[1..])
  }

  function MoreMembersText(members: seq<Member>): seq<Byte>
    decreases members, 3
  {
    if members == [] then [] else [0x2C] + MemberText(members[0]) + MoreMembersText(members[1..])
  }

  /** What the handler is told; counts have 32 bits. */
  function Told(t: Tree): seq<E.Event>
    decreases t, 0
  {
    match t
    case NullTree => [E.Null]
    case TrueTree => [E.Bool(true)]
    case FalseTree => [E.Bool(false)]
    case NumberTree(n) => [NumberEvent(n)]
    case StringTree(cs) => [E.String(CharactersOctets(cs))]
    case ArrayTree(_, items, _) => [E.StartArray] + ItemsTold(items) + [E.EndArray(|items| % 0x1_0000_0000)]
    case ObjectTree(_, members, _) =>
      [E.StartObject] + MembersTold(members) + [E.EndObject(|members| % 0x1_0000_0000)]
  }

  function ItemsTold(items: seq<Item>): seq<E.Event>
    decreases items, 1
  {
    if items == [] then [] else Told(items[0].value) + ItemsTold(items[1..])
  }

  function MembersTold(members: seq<Member>): seq<E.Event>
    decreases members, 1
  {
    if members == [] then []
    else
      [E.Key(CharactersOctets(members[0].name))] + Told(members[0].item.value) + MembersTold(members[1..])
  }

  /** A line comment at the end of the text, which needs no line feed. */
  function TailText(tail: Option<seq<Byte>>): seq<Byte> {
    if tail.Some? then [0x2F, 0x2F] + tail.value else []
  }

  predicate ValidTail(comments: bool, tail: Option<seq<Byte>>) {
    tail.Some? ==> comments && 0 !in tail.value && 0x0A !in tail.value
  }

  /** A whole text: a value with white space around it. */
  datatype Document = Document(root: Item, tail: Option<seq<Byte>>)

  predicate ValidDocument(c: E.Config, d: Document) {
    ValidItem(c, d.root) && ValidTail(c.comments, d.tail)
  }

  function DocumentText(d: Document): seq<Byte> {
    ItemText(d.root) + TailText(d.tail)
  }
}
