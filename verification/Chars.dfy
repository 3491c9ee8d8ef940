/** Bytes, the character codes the JSON code tests for, and the zero-terminated view of a buffer. */
module Chars {
  type Byte = b: int | 0 <= b < 256

  const TAB: Byte := 0x09
  const LF: Byte := 0x0A
  const CR: Byte := 0x0D
  const SPACE: Byte := 0x20
  const QUOTE: Byte := 0x22
  const PLUS: Byte := 0x2B
  const STAR: Byte := 0x2A
  const COMMA: Byte := 0x2C
  const MINUS: Byte := 0x2D
  const DOT: Byte := 0x2E
  const SLASH: Byte := 0x2F
  const DIGIT_0: Byte := 0x30
  const DIGIT_9: Byte := 0x39
  const COLON: Byte := 0x3A
  const UPPER_E: Byte := 0x45
  const LBRACKET: Byte := 0x5B
  const BACKSLASH: Byte := 0x5C
  const RBRACKET: Byte := 0x5D
  const LOWER_E: Byte := 0x65
  const LOWER_F: Byte := 0x66
  const LOWER_N: Byte := 0x6E
  const LOWER_T: Byte := 0x74
  const LOWER_U: Byte := 0x75
  const LBRACE: Byte := 0x7B
  const RBRACE: Byte := 0x7D

  /** What `Peek` returns: the buffer is followed by a terminating zero. */
  function Peek(s: seq<Byte>, i: nat): Byte {
    if i < |s| then s[i] else 0
  }

  predicate IsDigit(b: Byte) {
    DIGIT_0 <= b <= DIGIT_9
  }

  predicate IsSpace(b: Byte) {
    b == SPACE || b == LF || b == CR || b == TAB
  }

  datatype Option<+T> = None | Some(value: T)

  /** The text `t` stands at position `i`. */
  predicate Occurs(s: seq<Byte>, i: nat, t: seq<Byte>) {
    i + |t| <= |s| && s[i..i + |t|] == t
  }

  lemma OccursSplit(s: seq<Byte>, i: nat, a: seq<Byte>, b: seq<Byte>)
    requires Occurs(s, i, a + b)
    ensures Occurs(s, i, a) && Occurs(s, i + |a|, b)
  {
    assert s[i..i + |a|] == (a + b)[..|a|];
    assert s[i + |a|..i + |a| + |b|] == (a + b)[|a|..];
  }

  lemma OccursAt(s: seq<Byte>, i: nat, t: seq<Byte>, k: nat)
    requires Occurs(s, i, t) && k < |t|
    ensures Peek(s, i + k) == t[k]
  {
    assert s[i..i + |t|][k] == t[k];
  }
}
