/** `UTF8::Encode`, `Decode` and `Validate` (encodings.h) as they run on streams. */
module Utf8Streams {
  import opened Chars
  import Utf8

  /** `GenericStringStream` (stream.h). */
  class InputStream {
    const src: seq<Byte>
    var pos: nat

    constructor (src: seq<Byte>)
      ensures this.src == src && pos == 0
    {
      this.src, pos := src, 0;
    }

    method Take() returns (b: Byte)
      modifies this
      ensures b == Peek(src, old(pos)) && pos == old(pos) + 1
    {
      b := Peek(src, pos);
      pos := pos + 1;
    }
  }

  class OutputStream {
    var out: seq<Byte>

    constructor ()
      ensures out == []
    {
      out := [];
    }

    method Put(b: Byte)
      modifies this
      ensures out == old(out) + [b]
    {
      out := out + [b];
    }
  }

  method Encode(output: OutputStream, cp: nat)
    requires cp <= 0x10FFFF
    modifies output
    ensures output.out == old(output.out) + Utf8.Encode(cp)
  {
    if cp <= 0x7F {
      output.Put(cp);
    } else if cp <= 0x7FF {
      output.Put(0xC0 + cp / 0x40);
      output.Put(0x80 + cp % 0x40);
    } else if cp <= 0xFFFF {
      output.Put(0xE0 + cp / 0x1000);
      output.Put(0x80 + cp / 0x40 % 0x40);
      output.Put(0x80 + cp % 0x40);
    } else {
      output.Put(0xF0 + cp / 0x40000);
      output.Put(0x80 + cp / 0x1000 % 0x40);
      output.Put(0x80 + cp / 0x40 % 0x40);
      output.Put(0x80 + cp % 0x40);
    }
  }

  /** The switch of the source only chooses which masks to apply, so one loop over them serves every case. */
  method Decode(input: InputStream) returns (result: bool, codepoint: nat)
    modifies input
    ensures Utf8.Decoded(result, codepoint, input.pos) == Utf8.Decode(input.src, old(input.pos))
  {
    var b := input.Take();
    if b < 0x80 { return true, b; }
    var lead := Utf8.Lead(b);
    if lead.None? { return false, 0; }
    var masks := lead.value.1;
    codepoint, result := lead.value.0, true;
    ghost var whole := Utf8.Tail(input.src, input.pos, codepoint, masks);
    var k := 0;
    while k < |masks|
      invariant 0 <= k <= |masks| && input.pos == old(input.pos) + 1 + k
      invariant var rest := Utf8.Tail(input.src, input.pos, codepoint, masks[k..]);
                whole == (result && rest.0, rest.1)
    {
      Utf8.TailUnfold(input.src, input.pos, codepoint, masks[k], masks[k + 1..]);
      assert [masks[k]] + masks[k + 1..] == masks[k..];
      b := input.Take();
      codepoint := codepoint * 0x40 + b % 0x40;
      result := result && Utf8.Trans(masks[k], b);
      k := k + 1;
    }
  }

  method Validate(input: InputStream, output: OutputStream) returns (result: bool)
    modifies input, output
    ensures var v := Utf8.Validate(input.src, old(input.pos));
            && result == v.ok
            && output.out == old(output.out) + v.copied
            && input.pos == old(input.pos) + |v.copied|
  {
    var b := input.Take();
    output.Put(b);
    if b < 0x80 { return true; }
    var lead := Utf8.Lead(b);
    if lead.None? { return false; }
    var masks := lead.value.1;
    result := true;
    ghost var first, start := [b], input.pos;
    ghost var whole := Utf8.CopyTail(input.src, start, first, masks);
    ghost var copied := first;
    var k := 0;
    while k < |masks|
      invariant 0 <= k <= |masks| && input.pos == start + k
      invariant output.out == old(output.out) + copied && |copied| == 1 + k
      invariant var rest := Utf8.CopyTail(input.src, input.pos, copied, masks[k..]);
                whole == (result && rest.0, rest.1)
    {
      assert masks[k..][1..] == masks[k + 1..];
      b := input.Take();
      output.Put(b);
      copied := copied + [b];
      result := result && Utf8.Trans(masks[k], b);
      k := k + 1;
    }
  }
}
