/**
 * The recursive-descent parser (reader.h), as functions from a cursor to an outcome. Each function is one
 * `Parse` method of the source: the class in Reader.dfy runs the loops and is proved to compute these.
 */
module Grammar {
  import opened Chars
  import opened Events
  import opened Whitespace
  import Strings
  import Numbers

  const NULL_TEXT: seq<Byte> := [0x6E, 0x75, 0x6C, 0x6C]
  const TRUE_TEXT: seq<Byte> := [0x74, 0x72, 0x75, 0x65]
  const FALSE_TEXT: seq<Byte> := [0x66, 0x61, 0x6C, 0x73, 0x65]

  /** The first position from `i` on where the text stops agreeing with the rest `lit[k..]` of a literal. */
  function MatchEnd(s: seq<Byte>, i: nat, lit: seq<Byte>, k: nat): (j: nat)
    requires i <= |s|
    requires forall m :: 0 <= m < |lit| ==> lit[m] != 0
    ensures i <= j <= |s|
    ensures k <= |lit| ==> j <= i + |lit| - k
    decreases |lit| - k
  {
    if k < |lit| && Peek(s, i) == lit[k] then MatchEnd(s, i + 1, lit, k + 1) else i
  }

  /** `ParseNull`, `ParseTrue`, `ParseFalse`; the first character has been checked by the caller. */
  function PLiteral(c: Config, s: seq<Byte>, st: St, lit: seq<Byte>, e: Event): (r: Outcome)
    requires st.pos < |s| && |lit| > 0
    requires forall m :: 0 <= m < |lit| ==> lit[m] != 0
    ensures r.Ok? ==> st.pos < r.st.pos <= |s| && r.st.evs == st.evs + [e]
  {
    var j := MatchEnd(s, st.pos + 1, lit, 1);
    if j == st.pos + |lit| then Emit(c, st, e, j, j) else Err(ValueInvalid, j, st.evs)
  }

  function StringEvent(isKey: bool, bytes: seq<Byte>): Event {
    if isKey then Key(bytes) else String(bytes)
  }

  function PString(c: Config, s: seq<Byte>, st: St, isKey: bool): (r: Outcome)
    requires st.pos < |s|
    ensures r.Ok? ==> st.pos < r.st.pos <= |s|
    ensures r.Ok? ==> exists bytes :: r.st.evs == st.evs + [StringEvent(isKey, bytes)]
  {
    match Strings.Decode(s, st.pos + 1)
    case Invalid(code, offset) => Err(code, offset, st.evs)
    case Text(bytes, next) =>
      var r := Emit(c, st, StringEvent(isKey, bytes), next, next);
      assert r.Ok? ==> r.st.evs == st.evs + [StringEvent(isKey, bytes)];
      r
  }

  function PNumber(c: Config, s: seq<Byte>, st: St): (r: Outcome)
    requires st.pos <= |s|
    ensures r.Ok? ==> st.pos < r.st.pos <= |s|
  {
    Sent(c, st, Numbers.Lex(c, s, st.pos))
  }

  function Sent(c: Config, st: St, lexed: Numbers.Lexed): (r: Outcome)
    ensures r.Ok? ==> lexed.Number? && r.st.pos == lexed.next
  {
    match lexed
    case Malformed(code, offset) => Err(code, offset, st.evs)
    case Number(event, next) => Emit(c, st, event, next, st.pos)
  }

  function PValue(c: Config, s: seq<Byte>, st: St): (r: Outcome)
    requires st.pos <= |s|
    ensures r.Ok? ==> st.pos < r.st.pos <= |s|
    decreases |s| - st.pos, 1
  {
    var b := Peek(s, st.pos);
    if b == LOWER_N then PLiteral(c, s, st, NULL_TEXT, Null)
    else if b == LOWER_T then PLiteral(c, s, st, TRUE_TEXT, Bool(true))
    else if b == LOWER_F then PLiteral(c, s, st, FALSE_TEXT, Bool(false))
    else if b == QUOTE then PString(c, s, st, false)
    else if b == LBRACE then PObject(c, s, st)
    else if b == LBRACKET then PArray(c, s, st)
    else PNumber(c, s, st)
  }

  function PObject(c: Config, s: seq<Byte>, st: St): (r: Outcome)
    requires st.pos < |s|
    ensures r.Ok? ==> st.pos < r.st.pos <= |s|
    decreases |s| - st.pos, 0
  {
    var open :- Emit(c, st, StartObject, st.pos + 1, st.pos + 1);
    var at :- Ws(c, s, open);
    if Peek(s, at.pos) == RBRACE then Emit(c, at, EndObject(0), at.pos + 1, at.pos + 1)
    else PMembers(c, s, at, 0)
  }

  /** Name, colon and value of one member, with the white space after it. */
  function PMember(c: Config, s: seq<Byte>, st: St): (r: Outcome)
    requires st.pos <= |s|
    ensures r.Ok? ==> st.pos < r.st.pos <= |s|
    decreases |s| - st.pos, 2
  {
    if Peek(s, st.pos) != QUOTE then Err(ObjectMissName, st.pos, st.evs)
    else
      var name :- PString(c, s, st, true);
      var colon :- Ws(c, s, name);
      if Peek(s, colon.pos) != COLON then Err(ObjectMissColon, colon.pos, colon.evs)
      else
        var at :- Ws(c, s, colon.(pos := colon.pos + 1));
        var value :- PValue(c, s, at);
        Ws(c, s, value)
  }

  /** The loop of `ParseObject` from the name of member `n` on. */
  function PMembers(c: Config, s: seq<Byte>, st: St, n: nat): (r: Outcome)
    requires st.pos <= |s|
    ensures r.Ok? ==> st.pos < r.st.pos <= |s|
    decreases |s| - st.pos, 3
  {
    var end :- PMember(c, s, st);
    PMemberEnd(c, s, end, Increment(n))
  }

  /** After member number `n`: the closing bracket, or a comma and more. */
  function PMemberEnd(c: Config, s: seq<Byte>, st: St, n: nat): (r: Outcome)
    requires st.pos <= |s|
    ensures r.Ok? ==> st.pos < r.st.pos <= |s|
    decreases |s| - st.pos, 0
  {
    if Peek(s, st.pos) == COMMA then
      var at :- Ws(c, s, st.(pos := st.pos + 1));
      if c.trailingCommas && Peek(s, at.pos) == RBRACE then Emit(c, at, EndObject(n), at.pos + 1, at.pos)
      else PMembers(c, s, at, n)
    else if Peek(s, st.pos) == RBRACE then Emit(c, st, EndObject(n), st.pos + 1, st.pos + 1)
    else Err(ObjectMissCommaOrCurlyBracket, st.pos, st.evs)
  }

  function PArray(c: Config, s: seq<Byte>, st: St): (r: Outcome)
    requires st.pos < |s|
    ensures r.Ok? ==> st.pos < r.st.pos <= |s|
    decreases |s| - st.pos, 0
  {
    var open :- Emit(c, st, StartArray, st.pos + 1, st.pos + 1);
    var at :- Ws(c, s, open);
    if Peek(s, at.pos) == RBRACKET then Emit(c, at, EndArray(0), at.pos + 1, at.pos + 1)
    else PElements(c, s, at, 0)
  }

  /** The loop of `ParseArray` from element `n` on. */
  function PElements(c: Config, s: seq<Byte>, st: St, n: nat): (r: Outcome)
    requires st.pos <= |s|
    ensures r.Ok? ==> st.pos < r.st.pos <= |s|
    decreases |s| - st.pos, 2
  {
    var value :- PValue(c, s, st);
    var end :- Ws(c, s, value);
    PElementEnd(c, s, end, Increment(n))
  }

  function PElementEnd(c: Config, s: seq<Byte>, st: St, n: nat): (r: Outcome)
    requires st.pos <= |s|
    ensures r.Ok? ==> st.pos < r.st.pos <= |s|
    decreases |s| - st.pos, 0
  {
    if Peek(s, st.pos) == COMMA then
      var at :- Ws(c, s, st.(pos := st.pos + 1));
      if c.trailingCommas && Peek(s, at.pos) == RBRACKET then Emit(c, at, EndArray(n), at.pos + 1, at.pos)
      else PElements(c, s, at, n)
    else if Peek(s, st.pos) == RBRACKET then Emit(c, st, EndArray(n), st.pos + 1, st.pos + 1)
    else Err(ArrayMissCommaOrSquareBracket, st.pos, st.evs)
  }

  /** `Parse` without the iterative flag. */
  function Parse(c: Config, s: seq<Byte>): (r: Outcome)
    ensures r.Ok? ==> r.st.pos <= |s|
  {
    var start :- Ws(c, s, St(0, []));
    if Peek(s, start.pos) == 0 then Err(DocumentEmpty, start.pos, start.evs)
    else
      var value :- PValue(c, s, start);
      if c.stopWhenDone then Ok(value)
      else
        var end :- Ws(c, s, value);
        if Peek(s, end.pos) != 0 then Err(DocumentRootNotSingular, end.pos, end.evs) else Ok(end)
  }
}
