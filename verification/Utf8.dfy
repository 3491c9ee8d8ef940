/** The UTF-8 codec (encodings.h). Shifts and masks are written as division and remainder. */
module Utf8 {
  import opened Chars

  predicate IsScalar(cp: nat) {
    cp < 0xD800 || 0xE000 <= cp <= 0x10FFFF
  }

  /** `UTF8::Encode`: surrogate code points are encoded like any other. */
  function Encode(cp: nat): (bs: seq<Byte>)
    requires cp <= 0x10FFFF
    ensures 1 <= |bs| <= 4
  {
    if cp <= 0x7F then [cp]
    else if cp <= 0x7FF then [0xC0 + cp / 0x40, 0x80 + cp % 0x40]
    else if cp <= 0xFFFF then [0xE0 + cp / 0x1000, 0x80 + cp / 0x40 % 0x40, 0x80 + cp % 0x40]
    else [0xF0 + cp / 0x40000, 0x80 + cp / 0x1000 % 0x40, 0x80 + cp / 0x40 % 0x40, 0x80 + cp % 0x40]
  }

  /** `GetRange`: the class of a byte. Continuation bytes have one of three one-bit classes. */
  function GetRange(b: Byte): Byte {
    if b < 0x80 then 0
    else if b < 0x90 then 0x10
    else if b < 0xA0 then 0x40
    else if b < 0xC0 then 0x20
    else if b < 0xC2 then 8
    else if b < 0xE0 then 2
    else if b == 0xE0 then 10
    else if b < 0xED then 3
    else if b == 0xED then 4
    else if b < 0xF0 then 3
    else if b == 0xF0 then 11
    else if b < 0xF4 then 6
    else if b == 0xF4 then 5
    else 8
  }

  /** The continuation classes a mask lets through: bits 0x10, 0x20 and 0x40. */
  predicate Trans(mask: Byte, b: Byte) {
    var r := GetRange(b);
    || (r == 0x10 && mask / 0x10 % 2 == 1)
    || (r == 0x20 && mask / 0x20 % 2 == 1)
    || (r == 0x40 && mask / 0x40 % 2 == 1)
  }

  /** What a lead byte announces: its payload bits, and the masks for the bytes after it. */
  function Lead(b: Byte): (r: Option<(nat, seq<Byte>)>)
    ensures r.Some? ==> 1 <= |r.value.1| <= 3
  {
    match GetRange(b)
    case 2 => Some((b % 0x40, [0x70]))
    case 3 => Some((b % 0x20, [0x70, 0x70]))
    case 4 => Some((b % 0x10, [0x50, 0x70]))
    case 5 => Some((b % 0x08, [0x10, 0x70, 0x70]))
    case 6 => Some((b % 0x04, [0x70, 0x70, 0x70]))
    case 10 => Some((0, [0x20, 0x70]))
    case 11 => Some((0, [0x60, 0x70, 0x70]))
    case _ => None
  }

  /** Copies one byte for each mask into the code point; fails if one of them is out of its class. */
  function Tail(s: seq<Byte>, i: nat, cp: nat, masks: seq<Byte>): (r: (bool, nat))
    decreases |masks|
  {
    if masks == [] then (true, cp)
    else
      var b := Peek(s, i);
      var rest := Tail(s, i + 1, cp * 0x40 + b % 0x40, masks[1..]);
      (rest.0 && Trans(masks[0], b), rest.1)
  }

  datatype Decoded = Decoded(ok: bool, cp: nat, next: nat)

  /** `UTF8::Decode` at `i`. */
  function Decode(s: seq<Byte>, i: nat): Decoded {
    var b := Peek(s, i);
    if b < 0x80 then Decoded(true, b, i + 1)
    else
      match Lead(b)
      case None => Decoded(false, 0, i + 1)
      case Some((bits, masks)) =>
        var t := Tail(s, i + 1, bits, masks);
        Decoded(t.0, t.1, i + 1 + |masks|)
  }

  predicate InRange(b: Byte, lo: Byte, hi: Byte) { lo <= b <= hi }
  predicate IsTail(b: Byte) { InRange(b, 0x80, 0xBF) }

  /** One character in the grammar of section 4 of RFC 3629. */
  predicate IsUtf8Char(bs: seq<Byte>) {
    || (|bs| == 1 && bs[0] <= 0x7F)
    || (|bs| == 2 && InRange(bs[0], 0xC2, 0xDF) && IsTail(bs[1]))
    || (|bs| == 3 && IsTail(bs[2]) &&
        if bs[0] == 0xE0 then InRange(bs[1], 0xA0, 0xBF)
        else if bs[0] == 0xED then InRange(bs[1], 0x80, 0x9F)
        else InRange(bs[0], 0xE1, 0xEF) && IsTail(bs[1]))
    || (|bs| == 4 && IsTail(bs[2]) && IsTail(bs[3]) &&
        if bs[0] == 0xF0 then InRange(bs[1], 0x90, 0xBF)
        else if bs[0] == 0xF4 then InRange(bs[1], 0x80, 0x8F)
        else InRange(bs[0], 0xF1, 0xF3) && IsTail(bs[1]))
  }

  /** A UTF-8 character starts at `i` and has `n` bytes. */
  predicate CharAt(s: seq<Byte>, i: nat, n: nat) {
    i + n <= |s| && IsUtf8Char(s[i..i + n])
  }

  /** The payload of a lead byte, by the length it announces. */
  function Payload(b: Byte): int {
    if b < 0xE0 then b - 0xC0 else if b < 0xF0 then b - 0xE0 else b - 0xF0
  }

  lemma LeadPayload(b: Byte)
    ensures Lead(b).Some? <==> 0xC2 <= b <= 0xF4
    ensures Lead(b).Some? ==> Lead(b).value.0 == Payload(b)
    ensures Lead(b).Some? ==> |Lead(b).value.1| == if b < 0xE0 then 1 else if b < 0xF0 then 2 else 3
  {
  }

  lemma TailUnfold(s: seq<Byte>, i: nat, cp: nat, m: Byte, masks: seq<Byte>)
    ensures var b := Peek(s, i);
            var rest := Tail(s, i + 1, cp * 0x40 + b % 0x40, masks);
            Tail(s, i, cp, [m] + masks) == (rest.0 && Trans(m, b), rest.1)
  {
    assert ([m] + masks)[1..] == masks;
  }

  /** `Tail` written out for the one, two or three masks there can be. */
  lemma TailAll(s: seq<Byte>, i: nat, cp: nat, masks: seq<Byte>)
    requires 1 <= |masks| <= 3
    ensures var b0, b1, b2 := Peek(s, i), Peek(s, i + 1), Peek(s, i + 2);
            var cp1 := cp * 0x40 + b0 % 0x40;
            var cp2 := cp1 * 0x40 + b1 % 0x40;
            Tail(s, i, cp, masks) ==
            if |masks| == 1 then (Trans(masks[0], b0), cp1)
            else if |masks| == 2 then (Trans(masks[1], b1) && Trans(masks[0], b0), cp2)
            else (Trans(masks[2], b2) && Trans(masks[1], b1) && Trans(masks[0], b0), cp2 * 0x40 + b2 % 0x40)
  {
    hide Trans;
    var cp1 := cp * 0x40 + Peek(s, i) % 0x40;
    var cp2 := cp1 * 0x40 + Peek(s, i + 1) % 0x40;
    assert masks == [masks[0]] + masks[1..];
    TailUnfold(s, i, cp, masks[0], masks[1..]);
    if |masks| >= 2 {
      assert masks[1..] == [masks[1]] + masks[2..];
      TailUnfold(s, i + 1, cp1, masks[1], masks[2..]);
      if |masks| == 3 {
        assert masks[2..] == [masks[2]] + [];
        TailUnfold(s, i + 2, cp2, masks[2], []);
      }
    }
  }

  /** The masks of a lead byte let through what the grammar of RFC 3629 lets follow it. */
  lemma MasksExact(b0: Byte, b1: Byte, b2: Byte, b3: Byte)
    ensures Lead(b0).Some? ==>
              var masks := Lead(b0).value.1;
              && (|masks| == 1 ==> (Trans(masks[0], b1) <==> IsUtf8Char([b0, b1])))
              && (|masks| == 2 ==> (Trans(masks[1], b2) && Trans(masks[0], b1) <==> IsUtf8Char([b0, b1, b2])))
              && (|masks| == 3 ==>
                    (Trans(masks[2], b3) && Trans(masks[1], b2) && Trans(masks[0], b1) <==> IsUtf8Char([b0, b1, b2, b3])))
  {
  }

  lemma AsciiIsChar(b: Byte)
    ensures IsUtf8Char([b]) <==> b < 0x80
  {
  }

  /** `Decode` accepts exactly the characters of RFC 3629, reads exactly their bytes and joins their payloads. */
  lemma DecodeExact(s: seq<Byte>, i: nat)
    requires i < |s|
    ensures var d := Decode(s, i);
            && (d.ok ==> d.next <= i + 4 && CharAt(s, i, d.next - i) && d.cp == Joined(s[i..d.next]))
            && (forall n :: CharAt(s, i, n) ==> d.ok && d.next == i + n)
  {
    hide Trans, Encode, Tail;
    var b0, b1, b2, b3 := s[i], Peek(s, i + 1), Peek(s, i + 2), Peek(s, i + 3);
    LeadPayload(b0);
    MasksExact(b0, b1, b2, b3);
    AsciiIsChar(b0);
    if Lead(b0).Some? {
      var (bits, masks) := Lead(b0).value;
      TailAll(s, i + 1, bits, masks);
    }
    hide Lead;
    assert [b0] == s[i..i + 1];
    assert i + 2 <= |s| ==> [b0, b1] == s[i..i + 2];
    assert i + 3 <= |s| ==> [b0, b1, b2] == s[i..i + 3];
    assert i + 4 <= |s| ==> [b0, b1, b2, b3] == s[i..i + 4];
  }

  /** The code point a character denotes: the payloads of its bytes, six bits for each but the first. */
  function Joined(bs: seq<Byte>): int
    requires 1 <= |bs| <= 4
  {
    if |bs| == 1 then bs[0]
    else if |bs| == 2 then Payload(bs[0]) * 0x40 + bs[1] % 0x40
    else if |bs| == 3 then (Payload(bs[0]) * 0x40 + bs[1] % 0x40) * 0x40 + bs[2] % 0x40
    else ((Payload(bs[0]) * 0x40 + bs[1] % 0x40) * 0x40 + bs[2] % 0x40) * 0x40 + bs[3] % 0x40
  }

  /** A character denotes a scalar value, and the encoding of that value is the character. */
  lemma EncodeJoined(bs: seq<Byte>)
    requires IsUtf8Char(bs)
    ensures 0 <= Joined(bs) <= 0x10FFFF && IsScalar(Joined(bs)) && Encode(Joined(bs)) == bs
  {
    if |bs| == 4 {
      EncodeJoined4(bs);
    } else if |bs| == 3 {
      EncodeJoined3(bs);
    }
  }

  lemma EncodeJoined3(bs: seq<Byte>)
    requires IsUtf8Char(bs) && |bs| == 3
    ensures IsScalar(Joined(bs)) && Encode(Joined(bs)) == bs
  {
    hide Encode;
    ThreeBytes(Payload(bs[0]), bs[1] - 0x80, bs[2] - 0x80);
    assert bs == [bs[0], bs[1], bs[2]];
  }

  lemma ThreeBytes(p: int, x: int, y: int)
    requires 0 <= p < 0x10 && 0 <= x < 0x40 && 0 <= y < 0x40 && 0x20 <= p * 0x40 + x
    ensures var n := (p * 0x40 + x) * 0x40 + y;
            0x800 <= n <= 0xFFFF && Encode(n) == [0xE0 + p, 0x80 + x, 0x80 + y]
  {
    Shift((p * 0x40 + x) * 0x40 + y, p * 0x40 + x, y);
    Shift(p * 0x40 + x, p, x);
  }

  lemma EncodeJoined4(bs: seq<Byte>)
    requires IsUtf8Char(bs) && |bs| == 4
    ensures 0x10000 <= Joined(bs) <= 0x10FFFF && Encode(Joined(bs)) == bs
  {
    hide Encode;
    FourBytes(Payload(bs[0]), bs[1] - 0x80, bs[2] - 0x80, bs[3] - 0x80);
    assert bs == [bs[0], bs[1], bs[2], bs[3]];
  }

  lemma FourBytes(p: int, x: int, y: int, z: int)
    requires 0 <= x < 0x40 && 0 <= y < 0x40 && 0 <= z < 0x40 && 0x10 <= p * 0x40 + x < 0x110
    ensures var n := ((p * 0x40 + x) * 0x40 + y) * 0x40 + z;
            0x10000 <= n <= 0x10FFFF && Encode(n) == [0xF0 + p, 0x80 + x, 0x80 + y, 0x80 + z]
  {
    var hi := p * 0x40 + x;
    var mid := hi * 0x40 + y;
    Shift(mid * 0x40 + z, mid, z);
    Shift(mid, hi, y);
    Shift(hi, p, x);
  }

  lemma Shift(n: int, q: int, r: int)
    requires n == q * 0x40 + r && 0 <= r < 0x40 && 0 <= q
    ensures n / 0x40 == q && n % 0x40 == r && n / 0x1000 == q / 0x40 && n / 0x40000 == q / 0x1000
  {
  }

  /** Encoding a scalar value makes one character, which denotes it. */
  lemma JoinedEncode(cp: nat)
    requires IsScalar(cp)
    ensures IsUtf8Char(Encode(cp)) && Joined(Encode(cp)) == cp
  {
    if cp > 0xFFFF {
      JoinedEncode4(cp);
    } else if cp > 0x7FF {
      JoinedEncode3(cp);
    }
  }

  lemma JoinedEncode3(cp: nat)
    requires IsScalar(cp) && 0x7FF < cp <= 0xFFFF
    ensures IsUtf8Char(Encode(cp)) && Joined(Encode(cp)) == cp
  {
    var a := cp / 0x40;
    assert cp == a * 0x40 + cp % 0x40 && a == a / 0x40 * 0x40 + a % 0x40 && cp / 0x1000 == a / 0x40;
  }

  lemma JoinedEncode4(cp: nat)
    requires 0xFFFF < cp <= 0x10FFFF
    ensures IsUtf8Char(Encode(cp)) && Joined(Encode(cp)) == cp
  {
    var a := cp / 0x40;
    var b := a / 0x40;
    assert cp == a * 0x40 + cp % 0x40 && a == b * 0x40 + a % 0x40 && b == b / 0x40 * 0x40 + b % 0x40;
    assert cp / 0x1000 == b && cp / 0x40000 == b / 0x40;
  }

  /** What `Decode` reads is a scalar value, and encoding it gives the bytes back. */
  lemma EncodeDecoded(s: seq<Byte>, i: nat)
    requires i < |s| && Decode(s, i).ok
    ensures var d := Decode(s, i); i < d.next <= |s| && IsScalar(d.cp) && Encode(d.cp) == s[i..d.next]
  {
    DecodeExact(s, i);
    EncodeJoined(s[i..Decode(s, i).next]);
  }

  /** Decoding the encoding of a scalar value gives it back, whatever is around it. */
  lemma DecodeEncoded(s: seq<Byte>, i: nat, cp: nat)
    requires IsScalar(cp) && i + |Encode(cp)| <= |s| && s[i..i + |Encode(cp)|] == Encode(cp)
    ensures Decode(s, i) == Decoded(true, cp, i + |Encode(cp)|)
  {
    JoinedEncode(cp);
    DecodeExact(s, i);
    assert CharAt(s, i, |Encode(cp)|);
  }

  /** `UTF8::Validate`: like `Decode`, but it copies the bytes it takes and builds no code point. */
  function CopyTail(s: seq<Byte>, i: nat, out: seq<Byte>, masks: seq<Byte>): (bool, seq<Byte>)
    decreases |masks|
  {
    if masks == [] then (true, out)
    else
      var rest := CopyTail(s, i + 1, out + [Peek(s, i)], masks[1..]);
      (rest.0 && Trans(masks[0], Peek(s, i)), rest.1)
  }

  datatype Validated = Validated(ok: bool, copied: seq<Byte>)

  function Validate(s: seq<Byte>, i: nat): Validated {
    var b := Peek(s, i);
    if b < 0x80 then Validated(true, [b])
    else
      match Lead(b)
      case None => Validated(false, [b])
      case Some((_, masks)) =>
        var t := CopyTail(s, i + 1, [b], masks);
        Validated(t.0, t.1)
  }

  /** The `n` bytes from `i` on, with zeros past the end. */
  function Window(s: seq<Byte>, i: nat, n: nat): (w: seq<Byte>)
    ensures |w| == n
    ensures i + n <= |s| ==> w == s[i..i + n]
    decreases n
  {
    if n == 0 then [] else [Peek(s, i)] + Window(s, i + 1, n - 1)
  }

  lemma {:induction false} CopyTailAgrees(s: seq<Byte>, i: nat, out: seq<Byte>, cp: nat, masks: seq<Byte>)
    ensures CopyTail(s, i, out, masks).0 == Tail(s, i, cp, masks).0
    ensures CopyTail(s, i, out, masks).1 == out + Window(s, i, |masks|)
    decreases |masks|
  {
    if masks != [] {
      CopyTailAgrees(s, i + 1, out + [Peek(s, i)], cp * 0x40 + Peek(s, i) % 0x40, masks[1..]);
      assert out + [Peek(s, i)] + Window(s, i + 1, |masks| - 1) == out + Window(s, i, |masks|);
    }
  }

  /** `Validate` accepts what `Decode` accepts and takes as many bytes; what it accepts it copies unchanged. */
  lemma ValidateAgrees(s: seq<Byte>, i: nat)
    requires i < |s|
    ensures Validate(s, i).ok == Decode(s, i).ok
    ensures i + |Validate(s, i).copied| == Decode(s, i).next
    ensures Validate(s, i).ok ==> Decode(s, i).next <= |s| && Validate(s, i).copied == s[i..Decode(s, i).next]
  {
    DecodeExact(s, i);
    var b := s[i];
    if b >= 0x80 && Lead(b).Some? {
      var (bits, masks) := Lead(b).value;
      CopyTailAgrees(s, i + 1, [b], bits, masks);
      if Decode(s, i).ok {
        assert [b] + Window(s, i + 1, |masks|) == Window(s, i, 1 + |masks|);
      }
    }
  }

  // Whole texts.

  /** The bytes from `i` on are characters one after the other. */
  predicate IsText(s: seq<Byte>, i: nat)
    decreases |s| - i
  {
    i >= |s| || (Decode(s, i).ok && i < Decode(s, i).next && IsText(s, Decode(s, i).next))
  }

  /** UTF-16 code units. */
  type Unit16 = u: int | 0 <= u < 0x10000

  function Encode16(cp: nat): (us: seq<Unit16>)
    requires IsScalar(cp)
    ensures 1 <= |us| <= 2
  {
    if cp <= 0xFFFF then [cp]
    else
      var v := cp - 0x10000;
      [v / 0x400 + 0xD800, v % 0x400 + 0xDC00]
  }

  function Peek16(us: seq<Unit16>, i: nat): Unit16 {
    if i < |us| then us[i] else 0
  }

  /** `UTF16::Decode` at `i`. */
  function Decode16(us: seq<Unit16>, i: nat): Decoded {
    var u := Peek16(us, i);
    if u < 0xD800 || u > 0xDFFF then Decoded(true, u, i + 1)
    else if u <= 0xDBFF then
      var u2 := Peek16(us, i + 1);
      Decoded(0xDC00 <= u2 <= 0xDFFF, u % 0x400 * 0x400 + u2 % 0x400 + 0x10000, i + 2)
    else Decoded(false, 0, i + 1)
  }

  /** Section 2.2 of RFC 2781: a unit outside the surrogates by itself, or a pair of them, high half first. */
  lemma Decode16Exact(us: seq<Unit16>, i: nat)
    requires i < |us|
    ensures var d := Decode16(us, i);
            && (d.ok <==> us[i] < 0xD800 || us[i] >= 0xE000
                          || (us[i] < 0xDC00 && i + 1 < |us| && 0xDC00 <= us[i + 1] < 0xE000))
            && (d.ok ==> d.next == i + (if 0xD800 <= us[i] < 0xE000 then 2 else 1))
            && (d.ok && d.next == i + 1 ==> d.cp == us[i])
            && (d.ok && d.next == i + 2 ==> d.cp == 0x10000 + (us[i] as int - 0xD800) * 0x400 + (us[i + 1] as int - 0xDC00))
  {
  }

  lemma Decode16Encoded(us: seq<Unit16>, i: nat, cp: nat)
    requires IsScalar(cp) && i + |Encode16(cp)| <= |us| && us[i..i + |Encode16(cp)|] == Encode16(cp)
    ensures Decode16(us, i) == Decoded(true, cp, i + |Encode16(cp)|)
  {
    var e := Encode16(cp);
    assert forall k :: 0 <= k < |e| ==> us[i + k] == e[k];
  }

  /** `Transcoder<UTF8, UTF16>` until the text ends; none if it is not UTF-8. */
  function ToUtf16(s: seq<Byte>, i: nat): (r: Option<seq<Unit16>>)
    decreases |s| - i
  {
    if i >= |s| then Some([])
    else
      var d := Decode(s, i);
      if !d.ok || d.next <= i || !IsScalar(d.cp) then None
      else
        var rest := ToUtf16(s, d.next);
        if rest.Some? then Some(Encode16(d.cp) + rest.value) else None
  }

  /** `Transcoder<UTF16, UTF8>`. */
  function ToUtf8(us: seq<Unit16>, i: nat): (r: Option<seq<Byte>>)
    decreases |us| - i
  {
    if i >= |us| then Some([])
    else
      var d := Decode16(us, i);
      if !d.ok || d.cp > 0x10FFFF then None
      else
        var rest := ToUtf8(us, d.next);
        if rest.Some? then Some(Encode(d.cp) + rest.value) else None
  }

  lemma {:induction false} ToUtf8Shift(pre: seq<Unit16>, us: seq<Unit16>, i: nat)
    ensures ToUtf8(pre + us, |pre| + i) == ToUtf8(us, i)
    decreases |us| - i
  {
    hide Decode16, Encode;
    if i < |us| {
      Decode16Shift(pre, us, i);
      ToUtf8Shift(pre, us, Decode16(us, i).next);
    }
  }

  lemma Decode16Shift(pre: seq<Unit16>, us: seq<Unit16>, i: nat)
    ensures var d, e := Decode16(us, i), Decode16(pre + us, |pre| + i);
            e.ok == d.ok && e.cp == d.cp && e.next == |pre| + d.next && i < d.next
  {
    assert Peek16(pre + us, |pre| + i) == Peek16(us, i) && Peek16(pre + us, |pre| + i + 1) == Peek16(us, i + 1);
  }

  /** A text is converted to UTF-16 exactly when it is UTF-8, and converting back gives the same bytes. */
  lemma {:induction false} TranscodeRoundTrip(s: seq<Byte>, i: nat)
    requires i <= |s|
    ensures ToUtf16(s, i).Some? <==> IsText(s, i)
    ensures ToUtf16(s, i).Some? ==> ToUtf8(ToUtf16(s, i).value, 0) == Some(s[i..])
    decreases |s| - i
  {
    hide Decode, Encode, Encode16, Decode16;
    if i < |s| {
      var d := Decode(s, i);
      if d.ok {
        EncodeDecoded(s, i);
        TranscodeRoundTrip(s, d.next);
        var rest := ToUtf16(s, d.next);
        if rest.Some? {
          var e := Encode16(d.cp);
          Decode16Encoded(e + rest.value, 0, d.cp);
          ToUtf8Shift(e, rest.value, 0);
          assert s[i..d.next] + s[d.next..] == s[i..];
        }
      }
    } else {
      assert s[i..] == [];
    }
  }
}
