/** The text of a JSON Pointer (pointer.h; RFC 6901), plain or as a URI fragment. */
module PointerText {
  import opened Chars
  import Rendering
  import RoundTrip
  import Strings
  import Utf8

  const HASH: Byte := 0x23
  const PERCENT: Byte := 0x25
  const DASH: Byte := 0x2D
  const TILDE: Byte := 0x7E
  const INVALID_INDEX: nat := 0xFFFF_FFFF

  datatype Token = Token(name: seq<Byte>, index: nat)

  datatype ErrorCode = TokenMustBeginWithSolidus | InvalidEscape | InvalidPercentEncoding | CharacterMustPercentEncode

  datatype Parsed = Tokens(ts: seq<Token>) | Failed(code: ErrorCode, offset: nat)

  datatype Name = Name(bytes: seq<Byte>, next: nat) | BadName(code: ErrorCode, offset: nat)

  // The index of a token.

  predicate IsNumber(name: seq<Byte>) {
    && name != [] && (forall k :: 0 <= k < |name| ==> IsDigit(name[k]))
    && !(|name| > 1 && name[0] == DIGIT_0)
  }

  /** The 32-bit accumulation of the digits from `k` on, given up when a step makes the number smaller. */
  function Digits32(name: seq<Byte>, k: nat, n: nat): (r: Option<nat>)
    requires k <= |name| && n < 0x1_0000_0000 && forall i :: 0 <= i < |name| ==> IsDigit(name[i])
    ensures r.Some? ==> r.value < 0x1_0000_0000
    decreases |name| - k
  {
    if k == |name| then Some(n)
    else
      var m := (n * 10 + (name[k] - DIGIT_0)) % 0x1_0000_0000;
      if m < n then None else Digits32(name, k + 1, m)
  }

  function IndexOf(name: seq<Byte>): nat {
    if IsNumber(name) then
      var n := Digits32(name, 0, 0);
      if n.Some? then n.value else INVALID_INDEX
    else INVALID_INDEX
  }

  function TokenOf(name: seq<Byte>): Token {
    Token(name, IndexOf(name))
  }

  // Parsing.

  /** RFC 3986 section 2.3. */
  predicate NeedPercentEncode(c: Byte) {
    !(IsDigit(c) || 0x41 <= c <= 0x5A || 0x61 <= c <= 0x7A || c == DASH || c == DOT || c == 0x5F || c == TILDE)
  }

  /** One `%XY` triplet, as `PercentDecodeStream` takes it. */
  function Triplet(s: seq<Byte>, i: nat): (r: Option<Byte>)
    ensures r.Some? ==> i + 3 <= |s|
  {
    if i + 3 > |s| || s[i] != PERCENT then None
    else
      var hi, lo := Strings.HexValue(s[i + 1]), Strings.HexValue(s[i + 2]);
      if hi.Some? && lo.Some? then Some(hi.value * 16 + lo.value) else None
  }

  function Triplets(s: seq<Byte>, i: nat, n: nat): (r: Option<seq<Byte>>)
    ensures r.Some? ==> |r.value| == n && (n > 0 ==> i + 3 * n <= |s|)
    decreases n
  {
    if n == 0 then Some([])
    else
      var b, rest := Triplet(s, i), Triplets(s, i + 3, n - 1);
      if b.Some? && rest.Some? then Some([b.value] + rest.value) else None
  }

  /** The character whose first triplet is at `i`: as many triplets as its first byte announces, if they are UTF-8. */
  function PercentChar(s: seq<Byte>, i: nat): (r: Option<seq<Byte>>)
    ensures r.Some? ==> 1 <= |r.value| <= 4 && i + 3 * |r.value| <= |s|
  {
    var b := Triplet(s, i);
    if b.None? then None
    else if b.value < 0x80 then Some([b.value])
    else
      match Utf8.Lead(b.value)
      case None => None
      case Some((_, masks)) =>
        var bs := Triplets(s, i, 1 + |masks|);
        if bs.Some? && Utf8.Validate(bs.value, 0).ok then bs else None
  }

  function Cons(bytes: seq<Byte>, rest: Name): Name {
    if rest.Name? then Name(bytes + rest.bytes, rest.next) else rest
  }

  /** The end of a character `c` that was read up to `i`: a tilde wants a 0 or a 1 behind it. */
  function Unescape(s: seq<Byte>, c: Byte, i: nat): (r: Name)
    requires i <= |s|
    ensures r.Name? ==> i <= r.next <= |s| && |r.bytes| == 1
  {
    if c != TILDE then Name([c], i)
    else if Peek(s, i) == DIGIT_0 && i < |s| then Name([TILDE], i + 1)
    else if Peek(s, i) == 0x31 && i < |s| then Name([SLASH], i + 1)
    else BadName(InvalidEscape, i)
  }

  /** One character of a token. */
  function Character(s: seq<Byte>, i: nat, uri: bool): (r: Name)
    requires i < |s|
    ensures r.Name? ==> i < r.next <= |s| && i + |r.bytes| <= r.next
  {
    if uri && s[i] == PERCENT then
      match PercentChar(s, i)
      case None => BadName(InvalidPercentEncoding, i)
      case Some(bs) => if |bs| == 1 then Unescape(s, bs[0], i + 3) else Name(bs, i + 3 * |bs|)
    else if uri && NeedPercentEncode(s[i]) then BadName(CharacterMustPercentEncode, i)
    else Unescape(s, s[i], i + 1)
  }

  /** The rest of a token, up to the next solidus. */
  function ParseName(s: seq<Byte>, i: nat, uri: bool): (r: Name)
    requires i <= |s|
    ensures r.Name? ==> i + |r.bytes| <= r.next <= |s| && (r.next == |s| || s[r.next] == SLASH)
    decreases |s| - i
  {
    if i == |s| || s[i] == SLASH then Name([], i)
    else
      var c := Character(s, i, uri);
      if c.BadName? then c else Cons(c.bytes, ParseName(s, c.next, uri))
  }

  function ParseTokens(s: seq<Byte>, i: nat, uri: bool): Parsed
    requires i <= |s| && (i == |s| || s[i] == SLASH)
    decreases |s| - i
  {
    if i == |s| then Tokens([])
    else
      match ParseName(s, i + 1, uri)
      case BadName(code, offset) => Failed(code, offset)
      case Name(bytes, next) =>
        var rest := ParseTokens(s, next, uri);
        if rest.Tokens? then Tokens([TokenOf(bytes)] + rest.ts) else rest
  }

  function Parse(s: seq<Byte>): Parsed {
    var uri := Peek(s, 0) == HASH;
    var i := if uri then 1 else 0;
    if i != |s| && Peek(s, i) != SLASH then Failed(TokenMustBeginWithSolidus, i) else ParseTokens(s, i, uri)
  }

  // Printing.

  function PercentText(bs: seq<Byte>): (t: seq<Byte>)
    ensures |t| == 3 * |bs|
  {
    if bs == [] then []
    else [PERCENT, Rendering.HexDigit(bs[0] / 16), Rendering.HexDigit(bs[0] % 16)] + PercentText(bs[1..])
  }

  /** What is put for the character of a name at `j`, and where the next one starts; nothing if it is no UTF-8. */
  function CharacterText(name: seq<Byte>, j: nat, uri: bool): (r: Option<(seq<Byte>, nat)>)
    requires j < |name|
    ensures r.Some? ==> j < r.value.1
  {
    var c := name[j];
    if c == TILDE then Some(([TILDE, DIGIT_0], j + 1))
    else if c == SLASH then Some(([TILDE, 0x31], j + 1))
    else if uri && NeedPercentEncode(c) then
      var v := Utf8.Validate(name, j);
      if v.ok && |v.copied| > 0 then Some((PercentText(v.copied), j + |v.copied|)) else None
    else Some(([c], j + 1))
  }

  function NameText(name: seq<Byte>, j: nat, uri: bool): Option<seq<Byte>>
    decreases |name| - j
  {
    if j >= |name| then Some([])
    else
      var c := CharacterText(name, j, uri);
      if c.None? then None
      else
        var rest := NameText(name, c.value.1, uri);
        if rest.None? then None else Some(c.value.0 + rest.value)
  }

  function TokensText(ts: seq<Token>, uri: bool): Option<seq<Byte>> {
    if ts == [] then Some([])
    else
      var first, rest := NameText(ts[0].name, 0, uri), TokensText(ts[1..], uri);
      if first.Some? && rest.Some? then Some([SLASH] + first.value + rest.value) else None
  }

  function Stringify(ts: seq<Token>, uri: bool): Option<seq<Byte>> {
    var t := TokensText(ts, uri);
    if t.None? then None else Some((if uri then [HASH] else []) + t.value)
  }

  // A name can be printed as a URI fragment exactly when it is UTF-8, and always as a string.

  lemma {:induction false} PrintableName(name: seq<Byte>, j: nat, uri: bool)
    requires j <= |name|
    ensures NameText(name, j, uri).Some? <==> !uri || Utf8.IsText(name, j)
    decreases |name| - j
  {
    if j < |name| {
      var d := Utf8.Decode(name, j);
      Utf8.ValidateAgrees(name, j);
      Utf8.DecodeExact(name, j);
      if !uri || name[j] < 0x80 {
        assert CharacterText(name, j, uri).Some? && CharacterText(name, j, uri).value.1 == j + 1;
        assert name[j] < 0x80 ==> d.ok && d.next == j + 1;
        PrintableName(name, j + 1, uri);
      } else {
        assert NeedPercentEncode(name[j]) && name[j] != TILDE && name[j] != SLASH;
        if d.ok {
          assert CharacterText(name, j, uri).Some? && CharacterText(name, j, uri).value.1 == d.next;
          PrintableName(name, d.next, uri);
        } else {
          assert CharacterText(name, j, uri).None?;
        }
      }
    }
  }

  // Reading back.

  lemma HexDigitReads(n: nat)
    requires n < 16
    ensures Strings.HexValue(Rendering.HexDigit(n)) == Some(n)
  {
  }

  lemma {:induction false} TripletsRead(s: seq<Byte>, i: nat, bs: seq<Byte>)
    requires Occurs(s, i, PercentText(bs))
    ensures Triplets(s, i, |bs|) == Some(bs)
    decreases |bs|
  {
    if bs != [] {
      var t := PercentText(bs);
      OccursAt(s, i, t, 0);
      OccursAt(s, i, t, 1);
      OccursAt(s, i, t, 2);
      var first := [PERCENT, Rendering.HexDigit(bs[0] / 16), Rendering.HexDigit(bs[0] % 16)];
      OccursSplit(s, i, first, PercentText(bs[1..]));
      HexDigitReads(bs[0] / 16);
      HexDigitReads(bs[0] % 16);
      hide Rendering.HexDigit, Strings.HexValue;
      assert Triplet(s, i) == Some(bs[0]);
      TripletsRead(s, i + 3, bs[1..]);
      assert [bs[0]] + bs[1..] == bs;
    }
  }

  /** The triplets of a UTF-8 character are read as that character. */
  lemma PercentReads(s: seq<Byte>, i: nat, name: seq<Byte>, j: nat)
    requires j < |name| && Utf8.Decode(name, j).ok
    requires Occurs(s, i, PercentText(Utf8.Validate(name, j).copied))
    ensures j < Utf8.Decode(name, j).next <= |name|
    ensures Utf8.Validate(name, j).copied == name[j..Utf8.Decode(name, j).next]
    ensures PercentChar(s, i) == Some(name[j..Utf8.Decode(name, j).next])
  {
    hide PercentText, Utf8.Validate, Utf8.Decode, Utf8.IsUtf8Char;
    Utf8.DecodeExact(name, j);
    Utf8.EncodeDecoded(name, j);
    Utf8.ValidateAgrees(name, j);
    var n := Utf8.Decode(name, j).next;
    var bs := name[j..n];
    TripletsRead(s, i, bs);
    FirstTriplet(s, i, bs);
    assert bs[0..|bs|] == bs;
    Utf8.DecodeExact(bs, 0);
    assert Utf8.CharAt(bs, 0, |bs|);
    Utf8.ValidateAgrees(bs, 0);
    LeadLength(bs);
  }

  lemma FirstTriplet(s: seq<Byte>, i: nat, bs: seq<Byte>)
    requires bs != [] && Triplets(s, i, |bs|) == Some(bs)
    ensures Triplet(s, i) == Some(bs[0])
  {
  }

  lemma LeadLength(bs: seq<Byte>)
    requires bs != [] && Utf8.Decode(bs, 0).ok && Utf8.Decode(bs, 0).next == |bs|
    ensures bs[0] >= 0x80 ==> Utf8.Lead(bs[0]).Some? && 1 + |Utf8.Lead(bs[0]).value.1| == |bs|
    ensures bs[0] < 0x80 ==> bs == [bs[0]]
  {
  }

  /** A printed character of a name is read as that character. */
  lemma CharacterReads(s: seq<Byte>, i: nat, name: seq<Byte>, j: nat, uri: bool)
    requires j < |name| && CharacterText(name, j, uri).Some? && Occurs(s, i, CharacterText(name, j, uri).value.0)
    ensures var (text, next) := CharacterText(name, j, uri).value;
            && next <= |name| && |text| > 0 && text[0] != SLASH
            && Character(s, i, uri) == Name(name[j..next], i + |text|)
  {
    var (text, next) := CharacterText(name, j, uri).value;
    OccursAt(s, i, text, 0);
    if name[j] == TILDE || name[j] == SLASH {
      OccursAt(s, i, text, 1);
    } else if uri && NeedPercentEncode(name[j]) {
      Utf8.ValidateAgrees(name, j);
      PercentReads(s, i, name, j);
      OctetsNotTilde(name, j, next);
    }
  }

  lemma OctetsNotTilde(name: seq<Byte>, j: nat, next: nat)
    requires j < next <= |name|
    ensures name[j..next][0] == name[j]
  {
  }

  lemma {:induction false} NameReads(s: seq<Byte>, i: nat, name: seq<Byte>, j: nat, uri: bool)
    requires j <= |name| && NameText(name, j, uri).Some? && Occurs(s, i, NameText(name, j, uri).value)
    requires var e := i + |NameText(name, j, uri).value|; e == |s| || s[e] == SLASH
    ensures ParseName(s, i, uri) == Name(name[j..], i + |NameText(name, j, uri).value|)
    decreases |name| - j
  {
    hide Character, CharacterText;
    if j < |name| {
      var (text, next) := CharacterText(name, j, uri).value;
      var rest := NameText(name, next, uri).value;
      OccursSplit(s, i, text, rest);
      CharacterReads(s, i, name, j, uri);
      OccursAt(s, i, text, 0);
      NameReads(s, i + |text|, name, next, uri);
      assert name[j..next] + name[next..] == name[j..];
    } else {
      assert name[j..] == [];
    }
  }

  /** Every token has the index its name gives it. */
  predicate Indexed(ts: seq<Token>) {
    forall k :: 0 <= k < |ts| ==> ts[k] == TokenOf(ts[k].name)
  }

  lemma {:induction false} TokensRead(s: seq<Byte>, i: nat, ts: seq<Token>, uri: bool)
    requires Indexed(ts) && TokensText(ts, uri).Some? && Occurs(s, i, TokensText(ts, uri).value)
    requires i + |TokensText(ts, uri).value| == |s|
    ensures (i == |s| || s[i] == SLASH) && ParseTokens(s, i, uri) == Tokens(ts)
    decreases |ts|
  {
    hide NameText, ParseName, IndexOf, Occurs;
    if ts != [] {
      var first, rest := NameText(ts[0].name, 0, uri).value, TokensText(ts[1..], uri).value;
      var t := [SLASH] + first + rest;
      assert t == [SLASH] + (first + rest);
      hide TokensText;
      OccursAt(s, i, t, 0);
      OccursSplit(s, i, [SLASH], first + rest);
      OccursSplit(s, i + 1, first, rest);
      TokensRead(s, i + 1 + |first|, ts[1..], uri);
      NameReads(s, i + 1, ts[0].name, 0, uri);
      assert ts[0].name[0..] == ts[0].name;
      assert [ts[0]] + ts[1..] == ts;
    }
  }

  /**
   * A pointer that can be printed is parsed back as itself, as a string and as a URI fragment (RFC 6901,
   * sections 3 and 6); the first is always possible, the second exactly when every name is UTF-8.
   */
  lemma StringifyParse(ts: seq<Token>, uri: bool)
    requires Indexed(ts)
    ensures Stringify(ts, uri).Some? <==> !uri || forall k :: 0 <= k < |ts| ==> Utf8.IsText(ts[k].name, 0)
    ensures Stringify(ts, uri).Some? ==> Parse(Stringify(ts, uri).value) == Tokens(ts)
  {
    hide TokensText, ParseTokens, Utf8.IsText, Indexed;
    PrintableTokens(ts, uri);
    if Stringify(ts, uri).Some? {
      var t := TokensText(ts, uri).value;
      var s := Stringify(ts, uri).value;
      var i := if uri then 1 else 0;
      assert s[i..i + |t|] == t;
      SolidusFirst(ts, uri);
      TokensRead(s, i, ts, uri);
    }
  }

  lemma SolidusFirst(ts: seq<Token>, uri: bool)
    ensures TokensText(ts, uri).Some? ==> Peek(TokensText(ts, uri).value, 0) != HASH
  {
    hide NameText;
  }

  lemma {:induction false} PrintableTokens(ts: seq<Token>, uri: bool)
    ensures TokensText(ts, uri).Some? <==> !uri || forall k :: 0 <= k < |ts| ==> Utf8.IsText(ts[k].name, 0)
  {
    hide Utf8.IsText, NameText;
    if ts != [] {
      PrintableName(ts[0].name, 0, uri);
      PrintableTokens(ts[1..], uri);
      assert forall k :: 1 <= k < |ts| ==> ts[k] == ts[1..][k - 1];
      if uri && TokensText(ts, uri).Some? {
        forall k | 0 <= k < |ts| ensures Utf8.IsText(ts[k].name, 0) {
          if k > 0 { assert ts[1..][k - 1] == ts[k]; }
        }
      }
      assert forall k :: 0 <= k < |ts| - 1 ==> ts[1..][k] == ts[k + 1];
    }
  }

  lemma {:induction false} ParsedIndexed(s: seq<Byte>, i: nat, uri: bool)
    requires i <= |s| && (i == |s| || s[i] == SLASH)
    ensures ParseTokens(s, i, uri).Tokens? ==> Indexed(ParseTokens(s, i, uri).ts)
    decreases |s| - i
  {
    hide ParseName, IndexOf;
    if i < |s| {
      var name := ParseName(s, i + 1, uri);
      if name.Name? { ParsedIndexed(s, name.next, uri); }
    }
  }

  /** Whatever was parsed, in either form, is the same pointer when printed in either form and parsed again. */
  lemma ParseStringifyParse(s: seq<Byte>, uri: bool)
    requires Parse(s).Tokens?
    ensures Stringify(Parse(s).ts, uri).Some? ==> Parse(Stringify(Parse(s).ts, uri).value) == Parse(s)
    ensures !uri ==> Stringify(Parse(s).ts, uri).Some?
  {
    ParsedIndexed(s, if Peek(s, 0) == HASH then 1 else 0, Peek(s, 0) == HASH);
    StringifyParse(Parse(s).ts, uri);
  }
}
