/** `SkipWhitespace` and `SkipWhitespaceAndComments` (reader.h), as functions of the cursor. */
module Whitespace {
  import opened Chars
  import opened Events

  function SkipSpaces(s: seq<Byte>, i: nat): (j: nat)
    requires i <= |s|
    ensures i <= j <= |s|
    ensures !IsSpace(Peek(s, j))
    decreases |s| - i
  {
    if IsSpace(Peek(s, i)) then SkipSpaces(s, i + 1) else i
  }

  /** The rest of a one-line comment, with its line feed. */
  function SkipLine(s: seq<Byte>, i: nat): (j: nat)
    requires i <= |s|
    ensures i <= j <= |s|
    decreases |s| - i
  {
    if Peek(s, i) == 0 then i
    else if s[i] == LF then i + 1
    else SkipLine(s, i + 1)
  }

  datatype Block = Closed(pos: nat) | Unclosed(offset: nat)

  /** The rest of a block comment, up to and including its closing mark. */
  function SkipBlock(s: seq<Byte>, i: nat): (r: Block)
    requires i <= |s|
    ensures r.Closed? ==> i < r.pos <= |s|
    ensures r.Unclosed? ==> i <= r.offset <= |s|
    decreases |s| - i
  {
    if Peek(s, i) == 0 then Unclosed(i)
    else if s[i] == STAR && Peek(s, i + 1) == SLASH then Closed(i + 2)
    else SkipBlock(s, i + 1)
  }

  /** The comment whose first slash is at `i`. */
  function SkipComment(s: seq<Byte>, i: nat): (r: Block)
    requires Peek(s, i) == SLASH
    ensures r.Closed? ==> i < r.pos <= |s|
    ensures r.Unclosed? ==> i < r.offset <= |s|
  {
    if Peek(s, i + 1) == STAR then SkipBlock(s, i + 2)
    else if Peek(s, i + 1) == SLASH then Closed(SkipLine(s, i + 2))
    else Unclosed(i + 1)
  }

  function SkipComments(s: seq<Byte>, st: St): (r: Outcome)
    requires st.pos <= |s|
    ensures r.Ok? ==> st.pos <= r.st.pos <= |s| && r.st.evs == st.evs
    ensures r.Err? ==> r.evs == st.evs && r.code == UnspecificSyntaxError && st.pos < r.offset <= |s|
    decreases |s| - st.pos
  {
    if Peek(s, st.pos) != SLASH then Ok(st)
    else
      match SkipComment(s, st.pos)
      case Unclosed(offset) => Err(UnspecificSyntaxError, offset, st.evs)
      case Closed(next) => SkipComments(s, st.(pos := SkipSpaces(s, next)))
  }

  function Ws(c: Config, s: seq<Byte>, st: St): (r: Outcome)
    requires st.pos <= |s|
    ensures r.Ok? ==> st.pos <= r.st.pos <= |s| && r.st.evs == st.evs
    ensures r.Err? ==> r.evs == st.evs && r.code == UnspecificSyntaxError && st.pos < r.offset <= |s|
  {
    var st1 := st.(pos := SkipSpaces(s, st.pos));
    if c.comments then SkipComments(s, st1) else Ok(st1)
  }
}
