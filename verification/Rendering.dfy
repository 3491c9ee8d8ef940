/** The JSON text of a value, compact (writer.h) or indented (prettywriter.h). */
module Rendering {
  import opened Chars
  import opened Values
  import Events
  import Numbers
  import Strings
  import Utf8

  /** Everything that shapes the text: `ascii` stands for a target encoding without Unicode support. */
  datatype Style = Style(pretty: bool, indentChar: Byte, indentCount: nat, singleLineArrays: bool, ascii: bool)

  /** What `SetIndent` asserts. */
  predicate Legal(style: Style) {
    IsSpace(style.indentChar)
  }

  // Strings.

  /** The `escape` table of `WriteString`: the letter after the backslash, or 0. */
  function EscapeLetter(b: Byte): Byte {
    match b
    case 0x08 => 0x62
    case 0x09 => 0x74
    case 0x0A => 0x6E
    case 0x0C => 0x66
    case 0x0D => 0x72
    case 0x22 => 0x22
    case 0x5C => 0x5C
    case _ => if b < 0x20 then LOWER_U else 0
  }

  function HexDigit(n: nat): Byte
    requires n < 16
  {
    if n < 10 then 0x30 + n else 0x37 + n
  }

  function Hex4(n: nat): (bs: seq<Byte>)
    requires n < 0x10000
    ensures |bs| == 4
  {
    [HexDigit(n / 0x1000), HexDigit(n / 0x100 % 16), HexDigit(n / 16 % 16), HexDigit(n % 16)]
  }

  function UnicodeText(cp: nat): (bs: seq<Byte>)
    requires Utf8.IsScalar(cp)
    ensures 6 <= |bs| <= 12
  {
    if cp <= 0xFFFF then [BACKSLASH, LOWER_U] + Hex4(cp)
    else
      var v := cp - 0x10000;
      [BACKSLASH, LOWER_U] + Hex4(v / 0x400 + 0xD800) + [BACKSLASH, LOWER_U] + Hex4(v % 0x400 + 0xDC00)
  }

  function ByteText(b: Byte): (bs: seq<Byte>)
    ensures 1 <= |bs| <= 6
  {
    var e := EscapeLetter(b);
    if e == 0 then [b]
    else if e == LOWER_U then [BACKSLASH, e, DIGIT_0, DIGIT_0, HexDigit(b / 16), HexDigit(b % 16)]
    else [BACKSLASH, e]
  }

  /** A character that must be written as a code point. */
  predicate Wide(ascii: bool, b: Byte) { ascii && b >= 0x80 }

  /** The text from position `k` on can be written: always, unless its code points are needed. */
  predicate Encodable(ascii: bool, str: seq<Byte>, k: nat)
    decreases |str| - k
  {
    if k >= |str| then k == |str|
    else if Wide(ascii, str[k]) then
      var d := Utf8.Decode(str, k);
      d.ok && k < d.next && Utf8.IsScalar(d.cp) && Encodable(ascii, str, d.next)
    else Encodable(ascii, str, k + 1)
  }

  /** What the loop of `WriteString` puts from position `k` on; it stops at a byte it cannot decode. */
  function Body(ascii: bool, str: seq<Byte>, k: nat): seq<Byte>
    decreases |str| - k
  {
    if k >= |str| then []
    else if Wide(ascii, str[k]) then
      var d := Utf8.Decode(str, k);
      if d.ok && k < d.next && Utf8.IsScalar(d.cp) then UnicodeText(d.cp) + Body(ascii, str, d.next) else []
    else ByteText(str[k]) + Body(ascii, str, k + 1)
  }

  /** What every byte looks like that is not written as a code point. */
  lemma BytesWritten(b: Byte)
    ensures b == 0x22 || b == 0x5C ==> ByteText(b) == [0x5C, b]
    ensures b == 0x08 ==> ByteText(b) == [0x5C, 0x62]
    ensures b == 0x09 ==> ByteText(b) == [0x5C, 0x74]
    ensures b == 0x0A ==> ByteText(b) == [0x5C, 0x6E]
    ensures b == 0x0C ==> ByteText(b) == [0x5C, 0x66]
    ensures b == 0x0D ==> ByteText(b) == [0x5C, 0x72]
    ensures b < 0x08 || b == 0x0B || 0x0E <= b < 0x10 ==>
              ByteText(b) == [0x5C, 0x75, 0x30, 0x30, 0x30, if b < 0x0A then 0x30 + b else 0x41 + b - 0x0A]
    ensures 0x10 <= b < 0x20 ==>
              ByteText(b) == [0x5C, 0x75, 0x30, 0x30, 0x31, if b < 0x1A then 0x20 + b else 0x41 + b - 0x1A]
    ensures b >= 0x20 && b != 0x22 && b != 0x5C ==> ByteText(b) == [b]
  {
  }

  function Quoted(ascii: bool, str: seq<Byte>): seq<Byte> {
    [QUOTE] + Body(ascii, str, 0) + [QUOTE]
  }

  // Numbers.

  /** Decimal rendering (itoa.h). */
  function Decimal(n: nat): (ds: seq<Byte>)
    ensures |ds| >= 1
  {
    if n < 10 then [DIGIT_0 + n] else Decimal(n / 10) + [DIGIT_0 + n % 10]
  }

  function IntegerText(v: int): seq<Byte> {
    if v < 0 then [MINUS] + Decimal(-v) else Decimal(v)
  }

  /** The text of the event that `Accept` sends for a number. */
  function NumberText(n: Num): seq<Byte> {
    match NumberEvent(n)
    case Int(i) => IntegerText(i)
    case Uint(u) => IntegerText(u)
    case Int64(i) => IntegerText(i)
    case Uint64(u) => IntegerText(u)
    case _ => []
  }

  // White space between tokens.

  function Repeat(b: Byte, n: nat): (bs: seq<Byte>)
    ensures |bs| == n && forall k :: 0 <= k < n ==> bs[k] == b
  {
    if n == 0 then [] else Repeat(b, n - 1) + [b]
  }

  /** A line feed and the indentation of `depth` levels. */
  function Newline(style: Style, depth: nat): seq<Byte> {
    [LF] + Repeat(style.indentChar, depth * style.indentCount)
  }

  function CommaUnless(first: bool): seq<Byte> {
    if first then [] else [COMMA]
  }

  function ElementSpaces(style: Style, first: bool, depth: nat): seq<Byte> {
    if !style.pretty then []
    else if !style.singleLineArrays then Newline(style, depth)
    else if first then []
    else [SPACE]
  }

  function NameSpaces(style: Style, depth: nat): seq<Byte> {
    if style.pretty then Newline(style, depth) else []
  }

  function ColonSpaces(style: Style): seq<Byte> {
    if style.pretty then [SPACE] else []
  }

  /** Before the closing bracket of a container with something in it; `depth` is that of the bracket. */
  function ClosingSpaces(style: Style, isArray: bool, depth: nat): seq<Byte> {
    if style.pretty && !(isArray && style.singleLineArrays) then Newline(style, depth) else []
  }

  // Values.

  function LeafText(style: Style, v: Value): seq<Byte>
    requires !v.Array? && !v.Object?
  {
    match v
    case Null => [0x6E, 0x75, 0x6C, 0x6C]
    case Bool(b) => if b then [0x74, 0x72, 0x75, 0x65] else [0x66, 0x61, 0x6C, 0x73, 0x65]
    case Number(n) => NumberText(n)
    case Double(literal) => literal
    case String(str) => Quoted(style.ascii, str)
  }

  /** The text of a value inside `depth` containers. */
  function Text(style: Style, v: Value, depth: nat): seq<Byte>
    decreases v, 0
  {
    match v
    case Array(elems) =>
      [LBRACKET] + ElementsText(style, elems, true, depth + 1)
      + (if elems == [] then [] else ClosingSpaces(style, true, depth)) + [RBRACKET]
    case Object(members) =>
      [LBRACE] + MembersText(style, members, true, depth + 1)
      + (if members == [] then [] else ClosingSpaces(style, false, depth)) + [RBRACE]
    case _ => LeafText(style, v)
  }

  function ElementsText(style: Style, vs: seq<Value>, first: bool, depth: nat): seq<Byte>
    decreases vs, 1
  {
    if vs == [] then []
    else
      CommaUnless(first) + ElementSpaces(style, first, depth) + Text(style, vs[0], depth)
      + ElementsText(style, vs[1..], false, depth)
  }

  function MembersText(style: Style, ms: seq<Member>, first: bool, depth: nat): seq<Byte>
    decreases ms, 1
  {
    if ms == [] then []
    else
      CommaUnless(first) + NameSpaces(style, depth) + Quoted(style.ascii, ms[0].name)
      + [COLON] + ColonSpaces(style) + Text(style, ms[0].value, depth)
      + MembersText(style, ms[1..], false, depth)
  }

  predicate DoubleFree(v: Value) {
    match v
    case Double(_) => false
    case Array(elems) => forall k :: 0 <= k < |elems| ==> DoubleFree(elems[k])
    case Object(members) => forall k :: 0 <= k < |members| ==> DoubleFree(members[k].value)
    case _ => true
  }

  /** Every double is carried as a text that by itself is read as that double. */
  predicate SoundDoubles(c: Events.Config, v: Value) {
    match v
    case Double(literal) => Numbers.IsDoubleLiteral(c, literal)
    case Array(elems) => forall k :: 0 <= k < |elems| ==> SoundDoubles(c, elems[k])
    case Object(members) => forall k :: 0 <= k < |members| ==> SoundDoubles(c, members[k].value)
    case _ => true
  }

  /** Every string and name can be written. */
  predicate Writable(ascii: bool, v: Value) {
    match v
    case String(str) => Encodable(ascii, str, 0)
    case Array(elems) => forall k :: 0 <= k < |elems| ==> Writable(ascii, elems[k])
    case Object(members) =>
      forall k :: 0 <= k < |members| ==> Encodable(ascii, members[k].name, 0) && Writable(ascii, members[k].value)
    case _ => true
  }

  lemma {:induction false} AlwaysEncodable(str: seq<Byte>, k: nat)
    requires k <= |str|
    ensures Encodable(false, str, k)
    decreases |str| - k
  {
    if k < |str| { AlwaysEncodable(str, k + 1); }
  }

  /** With a target that has no Unicode support, exactly the UTF-8 texts can be written. */
  lemma {:induction false} EncodableIsText(str: seq<Byte>, k: nat)
    requires k <= |str|
    ensures Encodable(true, str, k) <==> Utf8.IsText(str, k)
    decreases |str| - k
  {
    if k < |str| {
      if Utf8.Decode(str, k).ok { Utf8.EncodeDecoded(str, k); }
      var next := if str[k] < 0x80 then k + 1 else Utf8.Decode(str, k).next;
      if k < next <= |str| { EncodableIsText(str, next); }
    }
  }

  /** The text stays within what `WriteString` reserves: 6 characters for each byte, and the quotes. */
  lemma {:induction false} BodyFits(ascii: bool, str: seq<Byte>, k: nat)
    requires k <= |str|
    ensures |Body(ascii, str, k)| <= 6 * (|str| - k)
    decreases |str| - k
  {
    if k < |str| {
      if Wide(ascii, str[k]) {
        var d := Utf8.Decode(str, k);
        if d.ok {
          Utf8.EncodeDecoded(str, k);
          BodyFits(ascii, str, d.next);
        }
      } else {
        BodyFits(ascii, str, k + 1);
      }
    }
  }
}
