/**
 * Decoding a string literal in place (`GenericInsituStringStream` in stream.h, and `ParseString` with
 * kParseInsituFlag in reader.h): one buffer, read at `src` and written at `dst`. Nothing unread is overwritten,
 * and the bytes left behind are those that decoding into a separate buffer gives.
 */
module Insitu {
  import opened Chars
  import opened Events
  import Strings
  import Utf8

  class InsituReader {
    /** The text and its terminating zero. */
    const buf: array<Byte>
    var src: nat
    var dst: nat
    var error: Option<ParseError>

    constructor (buf: array<Byte>)
      ensures this.buf == buf && src == 0 && dst == 0 && error == None
    {
      this.buf := buf;
      src, dst, error := 0, 0, None;
    }

    /** The cursor is in the text, and nothing from there on differs from the text `orig` that was given. */
    ghost predicate Unread(orig: seq<Byte>)
      reads this, buf
    {
      && src < buf.Length == |orig| && orig[|orig| - 1] == 0
      && buf[src..] == orig[src..]
    }

    method Peek(ghost orig: seq<Byte>) returns (b: Byte)
      requires Unread(orig)
      ensures b == Chars.Peek(orig, src) == buf[src]
      ensures b != 0 ==> src + 1 < buf.Length
    {
      b := buf[src];
      assert buf[src..][0] == orig[src..][0];
    }

    /** `Take`, for a character that is not the terminating one. */
    method Take(ghost orig: seq<Byte>)
      requires Unread(orig) && Chars.Peek(orig, src) != 0
      modifies this`src
      ensures src == old(src) + 1 && Unread(orig)
    {
      src := src + 1;
      assert buf[src..] == buf[old(src)..][1..];
    }

    method Consume(b: Byte, ghost orig: seq<Byte>) returns (took: bool)
      requires Unread(orig) && b != 0
      modifies this`src
      ensures Unread(orig) && took == (Chars.Peek(orig, old(src)) == b)
      ensures src == if took then old(src) + 1 else old(src)
    {
      var c := Peek(orig);
      took := c == b;
      if took { Take(orig); }
    }

    method Put(b: Byte)
      requires dst < buf.Length
      modifies this`dst, buf
      ensures dst == old(dst) + 1
      ensures buf[..dst] == old(buf[..dst]) + [b] && buf[dst..] == old(buf[..])[dst..]
    {
      buf[dst] := b;
      dst := dst + 1;
    }

    /** `UTF8::Encode` onto the stream. */
    method Encode(cp: nat)
      requires cp <= 0x10FFFF && dst + |Utf8.Encode(cp)| <= buf.Length
      modifies this`dst, buf
      ensures dst == old(dst) + |Utf8.Encode(cp)|
      ensures buf[..dst] == old(buf[..dst]) + Utf8.Encode(cp) && buf[dst..] == old(buf[..])[dst..]
    {
      ghost var m0, d0 := buf[..], dst;
      ghost var bs := Utf8.Encode(cp);
      if cp <= 0x7F {
        Put(cp);
      } else if cp <= 0x7FF {
        Put(0xC0 + cp / 0x40);
        PutNext(bs, 1, 0x80 + cp % 0x40, m0, d0);
      } else if cp <= 0xFFFF {
        Put(0xE0 + cp / 0x1000);
        PutNext(bs, 1, 0x80 + cp / 0x40 % 0x40, m0, d0);
        PutNext(bs, 2, 0x80 + cp % 0x40, m0, d0);
      } else {
        Put(0xF0 + cp / 0x40000);
        PutNext(bs, 1, 0x80 + cp / 0x1000 % 0x40, m0, d0);
        PutNext(bs, 2, 0x80 + cp / 0x40 % 0x40, m0, d0);
        PutNext(bs, 3, 0x80 + cp % 0x40, m0, d0);
      }
      assert bs[..|bs|] == bs;
    }

    /** Puts byte `k` of the encoding `bs`, of which `k` have been put from `d0` on. */
    method PutNext(ghost bs: seq<Byte>, ghost k: nat, b: Byte, ghost m0: seq<Byte>, ghost d0: nat)
      requires k < |bs| && b == bs[k] && dst == d0 + k < buf.Length == |m0|
      requires buf[..dst] == m0[..d0] + bs[..k] && buf[dst..] == m0[dst..]
      modifies this`dst, buf
      ensures dst == d0 + k + 1
      ensures buf[..dst] == m0[..d0] + bs[..k + 1] && buf[dst..] == m0[dst..]
    {
      ghost var m1 := buf[..];
      Put(b);
      assert m1[dst..] == m1[d0 + k..][1..] && m0[dst..] == m0[d0 + k..][1..];
      assert bs[..k + 1] == bs[..k] + [b];
    }

    method ParseHex4(escapeOffset: nat, ghost orig: seq<Byte>) returns (codepoint: nat)
      requires Unread(orig) && error.None?
      modifies this`src, this`error
      ensures Unread(orig)
      ensures var h := Strings.HexDigits(orig, old(src), 4);
              if h.Some? then error.None? && codepoint == h.value && src == old(src) + 4
              else error == Some(ParseError(StringUnicodeEscapeInvalidHex, escapeOffset))
    {
      codepoint := 0;
      for i := 0 to 4
        invariant error.None? && Unread(orig) && src == old(src) + i
        invariant Strings.HexDigits(orig, old(src), i) == Some(codepoint)
      {
        var b := Peek(orig);
        var h := Strings.HexValue(b);
        if h.None? {
          Strings.HexStuck(orig, old(src), i + 1);
          error := Some(ParseError(StringUnicodeEscapeInvalidHex, escapeOffset));
          return;
        }
        codepoint := codepoint * 16 + h.value;
        Take(orig);
      }
    }

    /** The rest of a `\\u` escape, with the second half of a surrogate pair. */
    method ParseUnicode(escapeOffset: nat, ghost orig: seq<Byte>) returns (codepoint: nat)
      requires Unread(orig) && error.None? && src == escapeOffset + 2
      requires orig[escapeOffset] == BACKSLASH && orig[escapeOffset + 1] == LOWER_U
      modifies this`src, this`error
      ensures Unread(orig)
      ensures match Strings.UnicodeEscape(orig, escapeOffset)
              case Piece(bytes, next) =>
                error.None? && src == next && codepoint <= 0x10FFFF && bytes == Utf8.Encode(codepoint)
              case Bad(code, offset) => error == Some(ParseError(code, offset))
              case Close => false
    {
      hide Strings.HexDigits, Utf8.Encode;
      codepoint := ParseHex4(escapeOffset, orig);
      if error.Some? { return; }
      if Strings.IsLead(codepoint) {
        var second := Consume(BACKSLASH, orig);
        if second { second := Consume(LOWER_U, orig); }
        if !second {
          error := Some(ParseError(StringUnicodeSurrogateInvalid, escapeOffset));
          return;
        }
        var codepoint2 := ParseHex4(escapeOffset, orig);
        if error.Some? { return; }
        if !Strings.IsTrail(codepoint2) {
          error := Some(ParseError(StringUnicodeSurrogateInvalid, escapeOffset));
          return;
        }
        codepoint := Strings.Combine(codepoint, codepoint2);
      }
    }

    /** The escape at the cursor: its bytes go to `dst`, behind everything that has been read. */
    method ParseEscape(ghost orig: seq<Byte>)
      requires Unread(orig) && error.None? && dst <= src && Chars.Peek(orig, src) == BACKSLASH
      modifies this`src, this`dst, this`error, buf
      ensures error.None? ==> Unread(orig) && dst <= src
      ensures error.Some? ==> buf[..] == old(buf[..]) && dst == old(dst)
      ensures match Strings.NextUnit(orig, old(src))
              case Piece(bytes, next) => error.None? && src == next && buf[..dst] == old(buf[..dst]) + bytes
              case Bad(code, offset) => error == Some(ParseError(code, offset))
              case Close => false
    {
      hide Strings.UnicodeEscape, Utf8.Encode;
      var escapeOffset := src;
      Take(orig);
      var e := Peek(orig);
      if Strings.SimpleEscape(e) != 0 {
        Take(orig);
        PutBehind(Strings.SimpleEscape(e), orig);
      } else if e == LOWER_U {
        Take(orig);
        var codepoint := ParseUnicode(escapeOffset, orig);
        if error.Some? { return; }
        EncodeBehind(codepoint, orig);
      } else {
        error := Some(ParseError(StringEscapeInvalid, escapeOffset));
      }
    }

    /** A byte written where the read cursor has already passed. */
    method PutBehind(b: Byte, ghost orig: seq<Byte>)
      requires Unread(orig) && dst < src
      modifies this`dst, buf
      ensures Unread(orig) && dst == old(dst) + 1 <= src
      ensures buf[..dst] == old(buf[..dst]) + [b]
    {
      Put(b);
      assert buf[src..] == buf[dst..][src - dst..];
    }

    method EncodeBehind(cp: nat, ghost orig: seq<Byte>)
      requires cp <= 0x10FFFF && Unread(orig) && dst + |Utf8.Encode(cp)| <= src
      modifies this`dst, buf
      ensures Unread(orig) && dst == old(dst) + |Utf8.Encode(cp)| <= src
      ensures buf[..dst] == old(buf[..dst]) + Utf8.Encode(cp)
    {
      hide Utf8.Encode;
      Encode(cp);
      assert buf[src..] == buf[dst..][src - dst..];
    }

    /** One turn of the loop of `ParseStringToStream(s, s)`. */
    method ParseOne(ghost orig: seq<Byte>) returns (closed: bool)
      requires Unread(orig) && error.None? && dst <= src
      modifies this`src, this`dst, this`error, buf
      ensures error.None? ==> Unread(orig) && dst <= src
      ensures match Strings.NextUnit(orig, old(src))
              case Piece(bytes, next) => error.None? && !closed && src == next && buf[..dst] == old(buf[..dst]) + bytes
              case Close => error.None? && closed && src == old(src) + 1 && buf[..dst] == old(buf[..dst]) + [0]
              case Bad(code, offset) =>
                error == Some(ParseError(code, offset)) && dst == old(dst) && buf[..] == old(buf[..])
    {
      hide Strings.NextUnit;
      var c := Peek(orig);
      closed := false;
      if c == BACKSLASH {
        ParseEscape(orig);
      } else if c == QUOTE {
        QuoteCloses(orig, src);
        Take(orig);
        PutBehind(0, orig);
        closed := true;
      } else if c < 0x20 {
        ControlIsBad(orig, src);
        error := Some(ParseError(if c == 0 then StringMissQuotationMark else StringInvalidEncoding, src));
      } else {
        OtherIsItself(orig, src);
        Take(orig);
        PutBehind(c, orig);
      }
    }

    /** `ParseStringToStream(s, s)` from the first character of a literal on. */
    method ParseStringToStream(ghost orig: seq<Byte>)
      requires Unread(orig) && error.None? && dst == src
      modifies this`src, this`dst, this`error, buf
      ensures match Strings.Decode(orig, old(src))
              case Text(bytes, next) =>
                && error.None? && Unread(orig) && src == next && dst <= src
                && buf[..dst] == old(buf[..dst]) + bytes + [0]
              case Invalid(code, offset) => error == Some(ParseError(code, offset))
      ensures buf[..old(dst)] == old(buf[..dst])
    {
      hide Strings.NextUnit, Strings.Decode;
      ghost var whole := Strings.Decode(orig, src);
      ghost var out: seq<Byte> := [];
      ghost var before := buf[..dst];
      var closed := false;
      while !closed
        invariant Unread(orig) && error.None? && dst <= src
        invariant buf[..dst] == before + out + (if closed then [0] else [])
        invariant whole == if closed then Strings.Text(out, src) else Strings.Prepend(out, Strings.Decode(orig, src))
        decreases !closed, buf.Length - src
      {
        ghost var unit := Strings.NextUnit(orig, src);
        Strings.DecodeUnfold(orig, src);
        closed := ParseOne(orig);
        if error.Some? {
          assert buf[..|before|] == buf[..dst][..|before|];
          return;
        }
        if closed {
          assert out + [] == out;
        } else {
          Strings.PrependPiece(out, unit.bytes, Strings.Decode(orig, src));
          out := out + unit.bytes;
        }
      }
      assert buf[..|before|] == buf[..dst][..|before|];
    }

    lemma QuoteCloses(s: seq<Byte>, i: nat)
      requires i < |s| && s[i] == QUOTE
      ensures Strings.NextUnit(s, i) == Strings.Close
    {
    }

    lemma ControlIsBad(s: seq<Byte>, i: nat)
      requires i < |s| && s[i] < 0x20
      ensures Strings.NextUnit(s, i) == Strings.Bad(if s[i] == 0 then StringMissQuotationMark else StringInvalidEncoding, i)
    {
    }

    lemma OtherIsItself(s: seq<Byte>, i: nat)
      requires i < |s| && s[i] >= 0x20 && s[i] != QUOTE && s[i] != BACKSLASH
      ensures Strings.NextUnit(s, i) == Strings.Piece([s[i]], i + 1)
    {
    }

    /**
     * `ParseString` in place: nothing before the literal is touched. On success the decoded bytes, ended by a zero,
     * stand where its first character was, and everything after its closing quote is as it was.
     */
    method ParseString() returns (head: nat, length: nat)
      requires src < buf.Length && buf[buf.Length - 1] == 0 && buf[src] == QUOTE && error.None?
      modifies this, buf
      ensures match Strings.Decode(old(buf[..]), old(src) + 1)
              case Text(bytes, next) =>
                && error.None? && src == next && head == old(src) + 1
                && length == |bytes| && head + length < src
                && buf[head..head + length] == bytes && buf[head + length] == 0
                && buf[src..] == old(buf[..])[src..]
              case Invalid(code, offset) => error == Some(ParseError(code, offset))
      ensures buf[..old(src) + 1] == old(buf[..])[..old(src) + 1]
    {
      ghost var orig := buf[..];
      assert buf[src..] == orig[src..];
      head, length := 0, 0;
      Take(orig);
      dst := src;
      head := dst;
      ParseStringToStream(orig);
      if error.Some? { return; }
      length := dst - head - 1;
      ghost var bytes := Strings.Decode(orig, head).bytes;
      assert buf[head + length] == buf[..dst][head + length];
      assert buf[head..head + length] == buf[..dst][head..head + length] == bytes;
    }
  }
}
