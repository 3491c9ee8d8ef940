/**
 * The grammar of JSON Pointers (RFC 6901, sections 3 and 6) with literal code points, and that the parser accepts
 * exactly its texts. In a URI fragment a character may stand as itself only if it is unreserved (section 2.3 of
 * RFC 3986), and otherwise as the percent-encoded octets of its UTF-8 form.
 */
module PointerGrammar {
  import opened Chars
  import opened PointerText
  import J = Json
  import JsonScanned
  import Strings
  import Utf8

  /** One character as it is spelled: as itself, or as octets of two hexadecimal digits each. */
  datatype Unit = Raw(b: Byte) | Coded(hex: seq<(Byte, Byte)>)

  /** A character of a name; a tilde and a digit stand for a tilde or a solidus. */
  datatype Piece = Char(unit: Unit) | Escape(tilde: Unit, digit: Byte)

  predicate Unreserved(b: Byte) {
    || 0x41 <= b <= 0x5A || 0x61 <= b <= 0x7A || 0x30 <= b <= 0x39
    || b == 0x2D || b == 0x2E || b == 0x5F || b == 0x7E
  }

  predicate IsHex(hex: seq<(Byte, Byte)>) {
    forall k :: 0 <= k < |hex| ==> J.IsHexDigit(hex[k].0) && J.IsHexDigit(hex[k].1)
  }

  function Octet(h: (Byte, Byte)): Byte {
    J.HexDigitValue(h.0) * 16 + J.HexDigitValue(h.1)
  }

  function Octets(hex: seq<(Byte, Byte)>): (bs: seq<Byte>)
    ensures |bs| == |hex|
  {
    if hex == [] then [] else [Octet(hex[0])] + Octets(hex[1..])
  }

  function HexText(hex: seq<(Byte, Byte)>): (t: seq<Byte>)
    ensures |t| == 3 * |hex|
  {
    if hex == [] then [] else [0x25, hex[0].0, hex[0].1] + HexText(hex[1..])
  }

  predicate ValidUnit(uri: bool, u: Unit) {
    match u
    case Raw(b) => b != 0x2F && (uri ==> Unreserved(b))
    case Coded(hex) => uri && IsHex(hex) && Utf8.IsUtf8Char(Octets(hex))
  }

  function UnitText(u: Unit): seq<Byte> {
    match u
    case Raw(b) => [b]
    case Coded(hex) => HexText(hex)
  }

  function UnitBytes(u: Unit): seq<Byte> {
    match u
    case Raw(b) => [b]
    case Coded(hex) => Octets(hex)
  }

  predicate ValidPiece(uri: bool, p: Piece) {
    match p
    case Char(u) => ValidUnit(uri, u) && UnitBytes(u) != [0x7E]
    case Escape(u, digit) => ValidUnit(uri, u) && UnitBytes(u) == [0x7E] && (digit == 0x30 || digit == 0x31)
  }

  function PieceText(p: Piece): seq<Byte> {
    match p
    case Char(u) => UnitText(u)
    case Escape(u, digit) => UnitText(u) + [digit]
  }

  function PieceBytes(p: Piece): seq<Byte> {
    match p
    case Char(u) => UnitBytes(u)
    case Escape(_, digit) => [if digit == 0x30 then 0x7E else 0x2F]
  }

  predicate ValidPieces(uri: bool, ps: seq<Piece>) {
    forall k :: 0 <= k < |ps| ==> ValidPiece(uri, ps[k])
  }

  function PiecesText(ps: seq<Piece>): seq<Byte> {
    if ps == [] then [] else PieceText(ps[0]) + PiecesText(ps[1..])
  }

  function PiecesBytes(ps: seq<Piece>): seq<Byte> {
    if ps == [] then [] else PieceBytes(ps[0]) + PiecesBytes(ps[1..])
  }

  predicate ValidNames(uri: bool, names: seq<seq<Piece>>) {
    forall k :: 0 <= k < |names| ==> ValidPieces(uri, names[k])
  }

  function NamesText(names: seq<seq<Piece>>): seq<Byte> {
    if names == [] then [] else [0x2F] + PiecesText(names[0]) + NamesText(names[1..])
  }

  /** The tokens a text stands for. */
  function NamesTokens(names: seq<seq<Piece>>): seq<Token> {
    if names == [] then [] else [TokenOf(PiecesBytes(names[0]))] + NamesTokens(names[1..])
  }

  /** The whole text is that of a pointer. */
  predicate Derives(uri: bool, names: seq<seq<Piece>>, s: seq<Byte>) {
    ValidNames(uri, names) && s == (if uri then [0x23] else []) + NamesText(names)
  }

  // Every text of the grammar is accepted.

  lemma UnreservedExact(b: Byte)
    ensures NeedPercentEncode(b) <==> !Unreserved(b)
  {
  }

  lemma TripletScanned(s: seq<Byte>, i: nat)
    ensures Triplet(s, i).Some? <==>
              i + 3 <= |s| && s[i] == 0x25 && J.IsHexDigit(s[i + 1]) && J.IsHexDigit(s[i + 2])
    ensures Triplet(s, i).Some? ==> Triplet(s, i) == Some(Octet((s[i + 1], s[i + 2])))
  {
    hide Strings.HexValue, J.IsHexDigit, J.HexDigitValue;
    JsonScanned.HexDigitScanned(Peek(s, i + 1));
    JsonScanned.HexDigitScanned(Peek(s, i + 2));
  }

  lemma {:induction false} TripletsScanned(s: seq<Byte>, i: nat, hex: seq<(Byte, Byte)>)
    requires IsHex(hex) && Occurs(s, i, HexText(hex))
    ensures Triplets(s, i, |hex|) == Some(Octets(hex))
    decreases |hex|
  {
    if hex != [] {
      hide Triplet, Octet, J.IsHexDigit;
      var t := HexText(hex);
      OccursAt(s, i, t, 0);
      OccursAt(s, i, t, 1);
      OccursAt(s, i, t, 2);
      OccursSplit(s, i, [0x25, hex[0].0, hex[0].1], HexText(hex[1..]));
      TripletScanned(s, i);
      TripletsScanned(s, i + 3, hex[1..]);
    }
  }

  /** As many octets as the first announces. */
  predicate Announced(bs: seq<Byte>) {
    bs != [] && if bs[0] < 0x80 then |bs| == 1 else Utf8.Lead(bs[0]).Some? && 1 + |Utf8.Lead(bs[0]).value.1| == |bs|
  }

  lemma CharTaken(bs: seq<Byte>)
    ensures Utf8.IsUtf8Char(bs) ==> Announced(bs)
    ensures Announced(bs) ==> (Utf8.Validate(bs, 0).ok <==> Utf8.IsUtf8Char(bs))
  {
    hide Utf8.Lead, Utf8.Decode, Utf8.Validate;
    if bs != [] {
      Utf8.ValidateAgrees(bs, 0);
      Utf8.DecodeExact(bs, 0);
      Utf8.LeadPayload(bs[0]);
      assert bs[0..|bs|] == bs;
      assert Utf8.CharAt(bs, 0, |bs|) <==> Utf8.IsUtf8Char(bs);
      hide Utf8.IsUtf8Char;
      DecodedLength(bs);
    }
  }

  lemma DecodedLength(bs: seq<Byte>)
    ensures Announced(bs) ==> Utf8.Decode(bs, 0).next == |bs|
  {
  }

  lemma OneTriplet(s: seq<Byte>, i: nat)
    requires Triplet(s, i).Some?
    ensures Triplets(s, i, 1) == Some([Triplet(s, i).value])
  {
    hide Triplet;
    var rest := Triplets(s, i + 3, 0);
    assert rest == Some([]);
    assert [Triplet(s, i).value] + rest.value == [Triplet(s, i).value];
  }

  lemma CodedScanned(s: seq<Byte>, i: nat, hex: seq<(Byte, Byte)>)
    requires IsHex(hex) && Utf8.IsUtf8Char(Octets(hex)) && Occurs(s, i, HexText(hex))
    ensures i < |s| && s[i] == 0x25 && PercentChar(s, i) == Some(Octets(hex))
  {
    hide Utf8.IsUtf8Char, Utf8.Validate, Utf8.Lead;
    var bs := Octets(hex);
    CharTaken(bs);
    TripletsScanned(s, i, hex);
    FirstTriplet(s, i, bs);
    OccursAt(s, i, HexText(hex), 0);
    if bs[0] < 0x80 { assert bs == [bs[0]]; }
  }

  lemma PieceScanned(s: seq<Byte>, i: nat, uri: bool, p: Piece)
    requires ValidPiece(uri, p) && Occurs(s, i, PieceText(p))
    ensures i < |s| && s[i] != SLASH && Character(s, i, uri) == Name(PieceBytes(p), i + |PieceText(p)|)
  {
    hide PercentChar, Utf8.IsUtf8Char, Octets, HexText, NeedPercentEncode, Unreserved, IsHex;
    var u := if p.Char? then p.unit else p.tilde;
    if p.Escape? {
      OccursSplit(s, i, UnitText(u), [p.digit]);
      OccursAt(s, i + |UnitText(u)|, [p.digit], 0);
    }
    match u
    case Raw(b) =>
      OccursAt(s, i, [b], 0);
      UnreservedExact(b);
      assert !Unreserved(0x25) by { UnreservedNot(); }
    case Coded(hex) => CodedScanned(s, i, hex);
  }

  lemma UnreservedNot()
    ensures !Unreserved(0x25) && !Unreserved(0x2F)
  {
  }

  lemma {:induction false} PiecesScanned(s: seq<Byte>, i: nat, uri: bool, ps: seq<Piece>)
    requires ValidPieces(uri, ps) && Occurs(s, i, PiecesText(ps)) && i <= |s|
    requires var e := i + |PiecesText(ps)|; e == |s| || Peek(s, e) == SLASH
    ensures ParseName(s, i, uri) == Name(PiecesBytes(ps), i + |PiecesText(ps)|)
    decreases |ps|
  {
    hide Character, PieceText, PieceBytes, ValidPiece, Occurs;
    if ps != [] {
      OccursSplit(s, i, PieceText(ps[0]), PiecesText(ps[1..]));
      PieceScanned(s, i, uri, ps[0]);
      PiecesScanned(s, i + |PieceText(ps[0])|, uri, ps[1..]);
    }
  }

  lemma {:induction false} NamesScanned(s: seq<Byte>, i: nat, uri: bool, names: seq<seq<Piece>>)
    requires ValidNames(uri, names) && Occurs(s, i, NamesText(names)) && i + |NamesText(names)| == |s|
    ensures (i == |s| || s[i] == SLASH) && ParseTokens(s, i, uri) == Tokens(NamesTokens(names))
    decreases |names|
  {
    hide ParseName, PiecesText, PiecesBytes, ValidPieces, TokenOf, Occurs;
    if names != [] {
      var text, rest := PiecesText(names[0]), NamesText(names[1..]);
      assert NamesText(names) == [0x2F] + (text + rest);
      OccursAt(s, i, NamesText(names), 0);
      OccursSplit(s, i, [0x2F], text + rest);
      OccursSplit(s, i + 1, text, rest);
      NamesScanned(s, i + 1 + |text|, uri, names[1..]);
      PiecesScanned(s, i + 1, uri, names[0]);
    }
  }

  lemma PointerAccepted(s: seq<Byte>, uri: bool, names: seq<seq<Piece>>)
    requires Derives(uri, names, s)
    ensures Parse(s) == Tokens(NamesTokens(names))
  {
    hide ParseTokens, ValidPieces, NamesText, NamesTokens, ValidNames;
    var i := if uri then 1 else 0;
    assert s[i..] == NamesText(names);
    SolidusOrNothing(names);
    NamesScanned(s, i, uri, names);
  }

  lemma SolidusOrNothing(names: seq<seq<Piece>>)
    ensures NamesText(names) == [] || NamesText(names)[0] == 0x2F
  {
    hide PiecesText;
  }

  // Every accepted text is one of the grammar.

  lemma {:induction false} TripletsDerived(s: seq<Byte>, i: nat, n: nat) returns (hex: seq<(Byte, Byte)>)
    requires Triplets(s, i, n).Some? && i + 3 * n <= |s|
    ensures IsHex(hex) && |hex| == n && Octets(hex) == Triplets(s, i, n).value && s[i..i + 3 * n] == HexText(hex)
    decreases n
  {
    hide Triplet, J.IsHexDigit, Octet;
    hex := [];
    if n > 0 {
      TripletScanned(s, i);
      var rest := TripletsDerived(s, i + 3, n - 1);
      hex := [(s[i + 1], s[i + 2])] + rest;
      assert hex[1..] == rest;
      assert s[i..i + 3 * n] == [s[i], s[i + 1], s[i + 2]] + s[i + 3..i + 3 * n];
    }
  }

  lemma CodedDerived(s: seq<Byte>, i: nat) returns (hex: seq<(Byte, Byte)>)
    requires PercentChar(s, i).Some?
    ensures IsHex(hex) && Octets(hex) == PercentChar(s, i).value && Utf8.IsUtf8Char(Octets(hex))
    ensures i + 3 * |hex| <= |s| && s[i..i + 3 * |hex|] == HexText(hex)
  {
    hide Utf8.IsUtf8Char, Utf8.Validate, Utf8.Lead, Triplet;
    var bs := PercentChar(s, i).value;
    OneTriplet(s, i);
    hex := TripletsDerived(s, i, |bs|);
    FirstTriplet(s, i, bs);
    CharTaken(bs);
    Utf8.AsciiIsChar(bs[0]);
    if |bs| == 1 { assert bs == [bs[0]]; }
  }

  lemma PieceDerived(s: seq<Byte>, i: nat, uri: bool) returns (p: Piece)
    requires i < |s| && s[i] != SLASH && Character(s, i, uri).Name?
    ensures ValidPiece(uri, p) && PieceBytes(p) == Character(s, i, uri).bytes
    ensures s[i..Character(s, i, uri).next] == PieceText(p)
  {
    hide PercentChar, Utf8.IsUtf8Char, Octets, HexText, NeedPercentEncode, Unreserved, IsHex;
    UnreservedExact(s[i]);
    var u := Raw(s[i]);
    var end := i + 1;
    if uri && s[i] == PERCENT {
      var hex := CodedDerived(s, i);
      u := Coded(hex);
      end := i + 3 * |hex|;
    } else {
      assert s[i..i + 1] == [s[i]];
    }
    var bytes := UnitBytes(u);
    if |bytes| == 1 { assert bytes == [bytes[0]]; }
    if bytes == [0x7E] {
      p := Escape(u, s[end]);
      assert s[i..end + 1] == s[i..end] + [s[end]];
    } else {
      p := Char(u);
    }
  }

  lemma {:induction false} PiecesDerived(s: seq<Byte>, i: nat, uri: bool) returns (ps: seq<Piece>)
    requires i <= |s| && ParseName(s, i, uri).Name?
    ensures ValidPieces(uri, ps) && PiecesBytes(ps) == ParseName(s, i, uri).bytes
    ensures s[i..ParseName(s, i, uri).next] == PiecesText(ps)
    decreases |s| - i
  {
    hide Character, PieceText, PieceBytes, ValidPiece;
    ps := [];
    if i < |s| && s[i] != SLASH {
      var p := PieceDerived(s, i, uri);
      var next := Character(s, i, uri).next;
      var rest := PiecesDerived(s, next, uri);
      ps := [p] + rest;
      assert ps[1..] == rest;
      JsonScanned.Slices(s, i, next, ParseName(s, i, uri).next);
    }
  }

  lemma {:induction false} NamesDerived(s: seq<Byte>, i: nat, uri: bool) returns (names: seq<seq<Piece>>)
    requires i <= |s| && (i == |s| || s[i] == SLASH) && ParseTokens(s, i, uri).Tokens?
    ensures ValidNames(uri, names) && s[i..] == NamesText(names)
    decreases |s| - i
  {
    hide ParseName, PiecesText, PiecesBytes, ValidPieces, TokenOf;
    names := [];
    if i < |s| {
      var name := PiecesDerived(s, i + 1, uri);
      var next := ParseName(s, i + 1, uri).next;
      var rest := NamesDerived(s, next, uri);
      names := [name] + rest;
      assert names[1..] == rest;
      assert s[i..] == [s[i]] + s[i + 1..next] + s[next..];
    }
  }

  lemma PointerDerived(s: seq<Byte>) returns (uri: bool, names: seq<seq<Piece>>)
    requires Parse(s).Tokens?
    ensures Derives(uri, names, s)
  {
    hide ParseTokens, ValidNames;
    uri := Peek(s, 0) == HASH;
    var i := if uri then 1 else 0;
    names := NamesDerived(s, i, uri);
    assert s == s[..i] + s[i..];
  }

  /** The language of the parser, and the tokens it makes of it. */
  lemma AcceptsPointers(s: seq<Byte>)
    ensures Parse(s).Tokens? <==> exists uri, names :: Derives(uri, names, s)
    ensures forall uri, names :: Derives(uri, names, s) ==> Parse(s) == Tokens(NamesTokens(names))
  {
    hide Parse, Derives, NamesTokens;
    forall uri, names | Derives(uri, names, s) ensures Parse(s) == Tokens(NamesTokens(names)) {
      PointerAccepted(s, uri, names);
    }
    if Parse(s).Tokens? { var uri, names := PointerDerived(s); }
  }

  // What is refused.

  ghost predicate Explains(s: seq<Byte>, uri: bool, code: ErrorCode, i: nat) {
    match code
    case TokenMustBeginWithSolidus => i == (if uri then 1 else 0) && i < |s| && s[i] != 0x2F
    case InvalidEscape => i <= |s| && (i < |s| ==> s[i] != 0x30 && s[i] != 0x31)
    case InvalidPercentEncoding =>
      && uri && i < |s| && s[i] == 0x25
      && forall hex :: !(Utf8.IsUtf8Char(Octets(hex)) && IsHex(hex) && Occurs(s, i, HexText(hex)))
    case CharacterMustPercentEncode => uri && i < |s| && !Unreserved(s[i]) && s[i] != 0x25 && s[i] != 0x2F
  }

  lemma CharacterRefused(s: seq<Byte>, i: nat, uri: bool)
    requires i < |s| && s[i] != SLASH && Character(s, i, uri).BadName?
    ensures var r := Character(s, i, uri); Explains(s, uri, r.code, r.offset)
  {
    hide PercentChar, Utf8.IsUtf8Char, Octets, HexText, IsHex, NeedPercentEncode, Unreserved, Occurs;
    UnreservedExact(s[i]);
    if uri && s[i] == PERCENT && PercentChar(s, i).None? {
      forall hex ensures !(Utf8.IsUtf8Char(Octets(hex)) && IsHex(hex) && Occurs(s, i, HexText(hex))) {
        if Utf8.IsUtf8Char(Octets(hex)) && IsHex(hex) && Occurs(s, i, HexText(hex)) { CodedScanned(s, i, hex); }
      }
    }
  }

  lemma {:induction false} NameRefused(s: seq<Byte>, i: nat, uri: bool)
    requires i <= |s| && ParseName(s, i, uri).BadName?
    ensures var r := ParseName(s, i, uri); Explains(s, uri, r.code, r.offset)
    decreases |s| - i
  {
    hide Character, Explains;
    if Character(s, i, uri).BadName? {
      CharacterRefused(s, i, uri);
    } else {
      NameRefused(s, Character(s, i, uri).next, uri);
    }
  }

  lemma {:induction false} NamesRefused(s: seq<Byte>, i: nat, uri: bool)
    requires i <= |s| && (i == |s| || s[i] == SLASH) && ParseTokens(s, i, uri).Failed?
    ensures var r := ParseTokens(s, i, uri); Explains(s, uri, r.code, r.offset)
    decreases |s| - i
  {
    hide ParseName, Explains, TokenOf;
    var name := ParseName(s, i + 1, uri);
    if name.BadName? {
      NameRefused(s, i + 1, uri);
    } else {
      NamesRefused(s, name.next, uri);
    }
  }

  /** What stands at the place where a text is refused, for each of the error codes. */
  lemma PointerRefused(s: seq<Byte>)
    requires Parse(s).Failed?
    ensures Explains(s, Peek(s, 0) == 0x23, Parse(s).code, Parse(s).offset)
  {
    hide ParseTokens;
    var uri := Peek(s, 0) == HASH;
    var i := if uri then 1 else 0;
    if i == |s| || Peek(s, i) == SLASH { NamesRefused(s, i, uri); }
  }

  // What is printed.

  /** Two upper-case hexadecimal digits. */
  predicate UpperHex(h: (Byte, Byte), b: Byte) {
    && h.0 == (if b / 16 < 10 then 0x30 + b / 16 else 0x41 + b / 16 - 10)
    && h.1 == (if b % 16 < 10 then 0x30 + b % 16 else 0x41 + b % 16 - 10)
  }

  /**
   * How each character of a name is printed: a tilde as ~0, a solidus as ~1, in a fragment all that is reserved as its
   * octets in upper-case hexadecimal digits, everything else as itself.
   */
  lemma PrintedPiece(name: seq<Byte>, j: nat, uri: bool)
    requires j < |name| && CharacterText(name, j, uri).Some?
    ensures var (text, next) := CharacterText(name, j, uri).value;
            && (name[j] == 0x7E ==> text == [0x7E, 0x30] && next == j + 1)
            && (name[j] == 0x2F ==> text == [0x7E, 0x31] && next == j + 1)
            && (name[j] != 0x7E && name[j] != 0x2F ==>
                  if !uri || Unreserved(name[j]) then text == [name[j]] && next == j + 1
                  else
                    && next <= |name| && |text| == 3 * (next - j)
                    && forall k :: 0 <= k < next - j ==>
                         text[3 * k] == 0x25 && UpperHex((text[3 * k + 1], text[3 * k + 2]), name[j + k]))
  {
    UnreservedExact(name[j]);
    if name[j] != 0x7E && name[j] != 0x2F && uri && !Unreserved(name[j]) {
      hide Utf8.Validate, Utf8.Decode, UpperHex, PercentText;
      Utf8.ValidateAgrees(name, j);
      Utf8.DecodeExact(name, j);
      var bs := Utf8.Validate(name, j).copied;
      PercentTexts(bs);
      var next := CharacterText(name, j, uri).value.1;
      assert next <= |name| && bs == name[j..next];
    }
  }

  lemma {:induction false} PercentTexts(bs: seq<Byte>)
    ensures forall k :: 0 <= k < |bs| ==>
              var t := PercentText(bs); t[3 * k] == 0x25 && UpperHex((t[3 * k + 1], t[3 * k + 2]), bs[k])
  {
    if bs != [] {
      PercentTexts(bs[1..]);
      var t, u := PercentText(bs), PercentText(bs[1..]);
      forall k | 0 <= k < |bs| ensures t[3 * k] == 0x25 && UpperHex((t[3 * k + 1], t[3 * k + 2]), bs[k]) {
        if k > 0 {
          assert t[3 * k] == u[3 * (k - 1)] && t[3 * k + 1] == u[3 * (k - 1) + 1] && t[3 * k + 2] == u[3 * (k - 1) + 2];
          assert bs[1..][k - 1] == bs[k];
        }
      }
    }
  }
}
