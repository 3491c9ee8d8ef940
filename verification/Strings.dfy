/** The text of a JSON string literal (`ParseHex4` and `ParseStringToStream`, reader.h), UTF-8 to UTF-8. */
module Strings {
  import opened Chars
  import opened Events
  import Utf8

  /** The `escape` table: what a backslash followed by `e` stands for, or 0. */
  function SimpleEscape(e: Byte): Byte {
    match e
    case 0x22 => 0x22
    case 0x2F => 0x2F
    case 0x5C => 0x5C
    case 0x62 => 0x08
    case 0x66 => 0x0C
    case 0x6E => 0x0A
    case 0x72 => 0x0D
    case 0x74 => 0x09
    case _ => 0
  }

  function HexValue(b: Byte): (r: Option<nat>)
    ensures r.Some? ==> r.value < 16 && b != 0
  {
    if DIGIT_0 <= b <= DIGIT_9 then Some(b - 0x30)
    else if 0x41 <= b <= 0x46 then Some(b - 0x37)
    else if 0x61 <= b <= 0x66 then Some(b - 0x57)
    else None
  }

  /** The number written by the `n` hexadecimal digits at `i`. */
  function HexDigits(s: seq<Byte>, i: nat, n: nat): (r: Option<nat>)
    requires n <= 4
    ensures r.Some? ==> i + n <= |s| || n == 0
    ensures r.Some? ==> r.value < match n
                                  case 0 => 1
                                  case 1 => 0x10
                                  case 2 => 0x100
                                  case 3 => 0x1000
                                  case _ => 0x10000
  {
    if n == 0 then Some(0)
    else
      var hi := HexDigits(s, i, n - 1);
      var lo := HexValue(Peek(s, i + n - 1));
      if hi.Some? && lo.Some? then Some(hi.value * 16 + lo.value) else None
  }

  /** One step of the decoding loop: bytes to append and where to go on, the end, or an error. */
  datatype Unit = Piece(bytes: seq<Byte>, next: nat) | Close | Bad(code: ErrorCode, offset: nat)

  predicate IsLead(cp: nat) { 0xD800 <= cp <= 0xDBFF }
  predicate IsTrail(cp: nat) { 0xDC00 <= cp <= 0xDFFF }

  function Combine(lead: nat, trail: nat): (cp: nat)
    requires IsLead(lead) && IsTrail(trail)
    ensures 0x10000 <= cp <= 0x10FFFF
  {
    (lead - 0xD800) * 0x400 + (trail - 0xDC00) + 0x10000
  }

  /** The escape whose backslash is at `i` and which goes on with a `u`. */
  function UnicodeEscape(s: seq<Byte>, i: nat): (u: Unit)
    requires Peek(s, i) == BACKSLASH && Peek(s, i + 1) == LOWER_U
    ensures u.Piece? ==> i < u.next <= |s| && |u.bytes| <= 4
    ensures u.Piece? ==> u.next == i + 6 || u.next == i + 12
    ensures !u.Close?
  {
    var cp := HexDigits(s, i + 2, 4);
    if cp.None? then Bad(StringUnicodeEscapeInvalidHex, i)
    else if !IsLead(cp.value) then Piece(Utf8.Encode(cp.value), i + 6)
    else if Peek(s, i + 6) != BACKSLASH || Peek(s, i + 7) != LOWER_U then Bad(StringUnicodeSurrogateInvalid, i)
    else
      var cp2 := HexDigits(s, i + 8, 4);
      if cp2.None? then Bad(StringUnicodeEscapeInvalidHex, i)
      else if !IsTrail(cp2.value) then Bad(StringUnicodeSurrogateInvalid, i)
      else Piece(Utf8.Encode(Combine(cp.value, cp2.value)), i + 12)
  }

  function NextUnit(s: seq<Byte>, i: nat): (u: Unit)
    requires i <= |s|
    ensures u.Piece? ==> i + |u.bytes| <= u.next <= |s| && i < u.next
    ensures u.Close? ==> i < |s|
  {
    var b := Peek(s, i);
    if b == BACKSLASH then
      var e := Peek(s, i + 1);
      if SimpleEscape(e) != 0 then Piece([SimpleEscape(e)], i + 2)
      else if e == LOWER_U then UnicodeEscape(s, i)
      else Bad(StringEscapeInvalid, i)
    else if b == QUOTE then Close
    else if b < 0x20 then Bad(if b == 0 then StringMissQuotationMark else StringInvalidEncoding, i)
    else Piece([b], i + 1)
  }

  datatype Decoded = Text(bytes: seq<Byte>, next: nat) | Invalid(code: ErrorCode, offset: nat)

  /** The string whose opening quote is just before `i`: its bytes, and the position after its closing quote. */
  function Decode(s: seq<Byte>, i: nat): (r: Decoded)
    requires i <= |s|
    ensures r.Text? ==> i + |r.bytes| < r.next <= |s|
    decreases |s| - i
  {
    var u := NextUnit(s, i);
    match u
    case Bad(code, offset) => Invalid(code, offset)
    case Close => Text([], i + 1)
    case Piece(bytes, next) =>
      var rest := Decode(s, next);
      if rest.Text? then Text(bytes + rest.bytes, rest.next) else rest
  }

  /** `out` followed by whatever is still to be decoded. */
  function Prepend(out: seq<Byte>, d: Decoded): Decoded {
    if d.Text? then Text(out + d.bytes, d.next) else d
  }

  lemma PrependPiece(out: seq<Byte>, put: seq<Byte>, d: Decoded)
    ensures Prepend(out, Prepend(put, d)) == Prepend(out + put, d)
  {
    if d.Text? { assert out + (put + d.bytes) == out + put + d.bytes; }
  }

  lemma DecodeUnfold(s: seq<Byte>, i: nat)
    requires i <= |s|
    ensures Decode(s, i) ==
            match NextUnit(s, i)
            case Piece(bytes, next) => Prepend(bytes, Decode(s, next))
            case Close => Text([], i + 1)
            case Bad(code, offset) => Invalid(code, offset)
  {
  }

  /** A number cut short by a character that is no digit stays cut short. */
  lemma {:induction false} HexStuck(s: seq<Byte>, i: nat, n: nat)
    requires n <= 4 && HexDigits(s, i, n).None?
    ensures HexDigits(s, i, 4).None?
    decreases 4 - n
  {
    if n < 4 { HexStuck(s, i, n + 1); }
  }
}
