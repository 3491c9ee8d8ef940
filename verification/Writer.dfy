/**
 * `Writer` (writer.h) and `PrettyWriter` (prettywriter.h): a handler that appends text, with a stack of levels.
 * The two differ in the prefix of a value and in the white space before a closing bracket; the style says which.
 */
module WriterClass {
  import opened Chars
  import opened Values
  import opened Rendering
  import Document
  import DocumentClass
  import Events
  import Grammar
  import ParsedDocument
  import RoundTrip
  import Utf8

  /** One open container: how many names and values it has, and whether it is an array. */
  datatype Level = Level(valueCount: nat, inArray: bool)

  /** The characters before a value or name inside the given levels. */
  function PrefixText(style: Style, levels: seq<Level>): seq<Byte> {
    if levels == [] then []
    else
      var top := levels[|levels| - 1];
      if top.inArray then CommaUnless(top.valueCount == 0) + ElementSpaces(style, top.valueCount == 0, |levels|)
      else if top.valueCount % 2 == 0 then CommaUnless(top.valueCount == 0) + NameSpaces(style, |levels|)
      else [COLON] + ColonSpaces(style)
  }

  /** The levels with one more value in the innermost. */
  function Counted(levels: seq<Level>): seq<Level> {
    if levels == [] then []
    else
      var top := levels[|levels| - 1];
      levels[|levels| - 1 := top.(valueCount := top.valueCount + 1)]
  }

  /** The levels with one more, innermost. */
  function Inside(outer: seq<Level>, top: Level): seq<Level> {
    outer + [top]
  }

  /** What the assertions of `Prefix` ask for: one root only, and a name wherever an object needs one. */
  predicate Ready(levels: seq<Level>, hasRoot: bool, isString: bool) {
    if levels == [] then !hasRoot
    else levels[|levels| - 1].inArray || levels[|levels| - 1].valueCount % 2 == 1 || isString
  }

  class Writer {
    const style: Style
    var out: seq<Byte>
    var levels: seq<Level>
    var hasRoot: bool

    constructor (style: Style)
      ensures this.style == style && out == [] && levels == [] && !hasRoot
    {
      this.style := style;
      out, levels, hasRoot := [], [], false;
    }

    method Put(b: Byte)
      modifies this`out
      ensures out == old(out) + [b]
    {
      out := out + [b];
    }

    /** `WriteIndent`. */
    method WriteIndent()
      modifies this`out
      ensures out == old(out) + Repeat(style.indentChar, |levels| * style.indentCount)
    {
      var n := |levels| * style.indentCount;
      for k := 0 to n
        invariant out == old(out) + Repeat(style.indentChar, k)
      {
        Put(style.indentChar);
      }
    }

    method PutNewline()
      modifies this`out
      ensures out == old(out) + Newline(style, |levels|)
    {
      Put(LF);
      WriteIndent();
    }

    method Count()
      modifies this`levels, this`hasRoot
      ensures levels == Counted(old(levels))
      ensures hasRoot == (old(hasRoot) || old(levels) == [])
    {
      if levels != [] {
        var top := levels[|levels| - 1];
        levels := levels[|levels| - 1 := top.(valueCount := top.valueCount + 1)];
      } else {
        hasRoot := true;
      }
    }

    /** `Prefix` of `Writer`. */
    method Prefix(isString: bool)
      requires !style.pretty && Ready(levels, hasRoot, isString)
      modifies this
      ensures out == old(out) + PrefixText(style, old(levels))
      ensures levels == Counted(old(levels)) && hasRoot == (old(hasRoot) || old(levels) == [])
    {
      if levels != [] {
        var level := levels[|levels| - 1];
        if level.valueCount > 0 {
          if level.inArray {
            Put(COMMA);
          } else {
            Put(if level.valueCount % 2 == 0 then COMMA else COLON);
          }
        }
      }
      Count();
    }

    /** `PrettyPrefix` of `PrettyWriter`. */
    method PrettyPrefix(isString: bool)
      requires style.pretty && Ready(levels, hasRoot, isString)
      modifies this
      ensures out == old(out) + PrefixText(style, old(levels))
      ensures levels == Counted(old(levels)) && hasRoot == (old(hasRoot) || old(levels) == [])
    {
      hide Newline;
      if levels != [] {
        var level := levels[|levels| - 1];
        if level.inArray {
          if level.valueCount > 0 {
            Put(COMMA);
            if style.singleLineArrays { Put(SPACE); }
          }
          if !style.singleLineArrays { PutNewline(); }
        } else {
          if level.valueCount > 0 {
            if level.valueCount % 2 == 0 {
              Put(COMMA);
              PutNewline();
            } else {
              Put(COLON);
              Put(SPACE);
            }
          } else {
            PutNewline();
          }
        }
      }
      Count();
    }

    method ValuePrefix(isString: bool)
      requires Ready(levels, hasRoot, isString)
      modifies this
      ensures out == old(out) + PrefixText(style, old(levels))
      ensures levels == Counted(old(levels)) && hasRoot == (old(hasRoot) || old(levels) == [])
    {
      if style.pretty { PrettyPrefix(isString); } else { Prefix(isString); }
    }

    method PutAll(bs: seq<Byte>)
      modifies this`out
      ensures out == old(out) + bs
    {
      for k := 0 to |bs|
        invariant out == old(out) + bs[..k]
      {
        Put(bs[k]);
      }
    }

    /** Four hexadecimal digits, from the highest. */
    method PutHex4(n: nat)
      requires n < 0x10000
      modifies this`out
      ensures out == old(out) + Hex4(n)
    {
      Put(HexDigit(n / 0x1000));
      Put(HexDigit(n / 0x100 % 16));
      Put(HexDigit(n / 16 % 16));
      Put(HexDigit(n % 16));
    }

    /** A code point written as one escape, or as two for a surrogate pair. */
    method PutUnicode(codepoint: nat)
      requires Utf8.IsScalar(codepoint)
      modifies this`out
      ensures out == old(out) + UnicodeText(codepoint)
    {
      hide Hex4;
      Put(BACKSLASH);
      Put(LOWER_U);
      if codepoint <= 0xFFFF {
        PutHex4(codepoint);
      } else {
        var s := codepoint - 0x10000;
        PutHex4(s / 0x400 + 0xD800);
        Put(BACKSLASH);
        Put(LOWER_U);
        PutHex4(s % 0x400 + 0xDC00);
      }
    }

    /** A byte that may have an escape of its own. */
    method PutByte(b: Byte)
      modifies this`out
      ensures out == old(out) + ByteText(b)
    {
      var e := EscapeLetter(b);
      if e != 0 {
        Put(BACKSLASH);
        Put(e);
        if e == LOWER_U {
          Put(DIGIT_0);
          Put(DIGIT_0);
          Put(HexDigit(b / 16));
          Put(HexDigit(b % 16));
        }
      } else {
        Put(b);
      }
    }

    /** One turn of the loop of `WriteString`. */
    method WriteCharacter(str: seq<Byte>, k: nat) returns (ok: bool, next: nat, ghost piece: seq<Byte>)
      requires k < |str|
      modifies this`out
      ensures ok ==> k < next <= |str| && out == old(out) + piece
      ensures ok ==> Body(style.ascii, str, k) == piece + Body(style.ascii, str, next)
      ensures ok ==> Encodable(style.ascii, str, k) == Encodable(style.ascii, str, next)
      ensures !ok ==> out == old(out) && Body(style.ascii, str, k) == [] && !Encodable(style.ascii, str, k)
    {
      hide Utf8.Decode, UnicodeText, ByteText;
      ok, next, piece := true, k + 1, [];
      if style.ascii && str[k] >= 0x80 {
        var d := Utf8.Decode(str, k);
        if !d.ok { return false, k, []; }
        Utf8.EncodeDecoded(str, k);
        PutUnicode(d.cp);
        next, piece := d.next, UnicodeText(d.cp);
      } else {
        PutByte(str[k]);
        piece := ByteText(str[k]);
      }
    }

    method WriteBody(str: seq<Byte>) returns (ok: bool)
      modifies this`out
      ensures ok == Encodable(style.ascii, str, 0)
      ensures out == old(out) + Body(style.ascii, str, 0)
    {
      BodyEnds(style.ascii, str);
      hide Body, Encodable;
      ok := true;
      var k := 0;
      while k < |str|
        invariant k <= |str| && old(out) + Body(style.ascii, str, 0) == out + Body(style.ascii, str, k)
        invariant Encodable(style.ascii, str, k) == Encodable(style.ascii, str, 0)
        decreases |str| - k
      {
        ghost var before, piece := out, [];
        ok, k, piece := WriteCharacter(str, k);
        if !ok { return; }
        assert before + (piece + Body(style.ascii, str, k)) == before + piece + Body(style.ascii, str, k);
      }
    }

    /**
     * `WriteString`. It fails exactly at a byte of which no code point can be made where one is needed, and its
     * output never exceeds the characters reserved for it.
     */
    method WriteString(str: seq<Byte>) returns (ok: bool)
      modifies this`out
      ensures ok == Encodable(style.ascii, str, 0)
      ensures out == old(out) + if ok then Quoted(style.ascii, str) else [QUOTE] + Body(style.ascii, str, 0)
      ensures |out| - |old(out)| <= 2 + 6 * |str|
    {
      BodyFits(style.ascii, str, 0);
      QuotedParts(out, style.ascii, str);
      hide Body, Encodable, Quoted;
      Put(QUOTE);
      ok := WriteBody(str);
      if ok { Put(QUOTE); }
    }

    lemma QuotedParts(before: seq<Byte>, ascii: bool, str: seq<Byte>)
      ensures before + [QUOTE] + Body(ascii, str, 0) == before + ([QUOTE] + Body(ascii, str, 0))
      ensures before + [QUOTE] + Body(ascii, str, 0) + [QUOTE] == before + Quoted(ascii, str)
    {
      hide Body;
    }

    lemma BodyEnds(ascii: bool, str: seq<Byte>)
      ensures Body(ascii, str, |str|) == [] && Encodable(ascii, str, |str|)
    {
    }

    // The handler.

    method Leaf(v: Value) returns (ok: bool)
      requires !v.Array? && !v.Object? && Ready(levels, hasRoot, v.String?)
      modifies this
      ensures levels == Counted(old(levels)) && hasRoot == (old(hasRoot) || old(levels) == [])
      ensures ok == Writable(style.ascii, v)
      ensures ok ==> out == old(out) + PrefixText(style, old(levels)) + LeafText(style, v)
    {
      hide PrefixText, Encodable, Quoted, Counted, NumberEvent;
      ValuePrefix(v.String?);
      ok := true;
      match v
      case String(str) => ok := WriteString(str);
      case Number(n) => PutAll(NumberText(n));
      case Null => PutAll(LeafText(style, v));
      case Bool(_) => PutAll(LeafText(style, v));
      case Double(_) => PutAll(LeafText(style, v));
      case _ =>
    }

    method Key(name: seq<Byte>) returns (ok: bool)
      requires Ready(levels, hasRoot, true)
      modifies this
      ensures levels == Counted(old(levels)) && hasRoot == (old(hasRoot) || old(levels) == [])
      ensures ok == Encodable(style.ascii, name, 0)
      ensures ok ==> out == old(out) + PrefixText(style, old(levels)) + Quoted(style.ascii, name)
    {
      hide PrefixText, Encodable, Quoted, Counted;
      ValuePrefix(true);
      ok := WriteString(name);
    }

    /** `StartObject` and `StartArray`. */
    method Start(isArray: bool)
      requires Ready(levels, hasRoot, false)
      modifies this
      ensures levels == Inside(Counted(old(levels)), Level(0, isArray)) && hasRoot == (old(hasRoot) || old(levels) == [])
      ensures out == old(out) + PrefixText(style, old(levels)) + [if isArray then LBRACKET else LBRACE]
    {
      hide PrefixText, Counted;
      ValuePrefix(false);
      levels := levels + [Level(0, isArray)];
      Put(if isArray then LBRACKET else LBRACE);
    }

    /** `EndObject` and `EndArray`, with what they assert. */
    method End(isArray: bool, ghost outer: seq<Level>, ghost n: nat)
      requires levels == Inside(outer, Level(n, isArray)) && (!isArray ==> n % 2 == 0)
      modifies this
      ensures levels == outer && hasRoot == old(hasRoot)
      ensures out == old(out) + (if n == 0 then [] else ClosingSpaces(style, isArray, |outer|))
                     + [if isArray then RBRACKET else RBRACE]
    {
      hide Newline;
      var empty := levels[|levels| - 1].valueCount == 0;
      levels := levels[..|levels| - 1];
      if style.pretty && !empty && !(isArray && style.singleLineArrays) {
        PutNewline();
      }
      Put(if isArray then RBRACKET else RBRACE);
    }

    /** `End`, for a container whose text up to here is `mark` and `inner`. */
    method Finish(isArray: bool, ghost outer: seq<Level>, ghost n: nat,
                  ghost before: seq<Byte>, ghost mark: seq<Byte>, ghost inner: seq<Byte>)
      requires levels == Inside(outer, Level(n, isArray)) && (!isArray ==> n % 2 == 0)
      requires out == before + mark + inner
      modifies this
      ensures levels == outer && hasRoot == old(hasRoot)
      ensures out == before + (mark + inner + (if n == 0 then [] else ClosingSpaces(style, isArray, |outer|))
                               + [if isArray then RBRACKET else RBRACE])
    {
      hide ClosingSpaces, Inside;
      End(isArray, outer, n);
      Assemble(before, mark, inner, if n == 0 then [] else ClosingSpaces(style, isArray, |outer|),
               [if isArray then RBRACKET else RBRACE]);
    }

    /** `Accept` with this writer as its handler: the text of the value, after the prefix its place calls for. */
    method Accept(v: Value) returns (ok: bool)
      requires Ready(levels, hasRoot, v.String?)
      modifies this
      ensures ok == Writable(style.ascii, v)
      ensures ok ==> levels == Counted(old(levels)) && hasRoot == (old(hasRoot) || old(levels) == [])
      ensures ok ==> out == old(out) + PrefixText(style, old(levels)) + Text(style, v, |old(levels)|)
      decreases v, 1
    {
      hide PrefixText, Counted, LeafText;
      match v
      case Array(elems) => ok := AcceptArray(elems);
      case Object(members) => ok := AcceptObject(members);
      case _ => ok := Leaf(v);
    }

    /** The elements of an array whose level has just been opened. */
    method AcceptElements(elems: seq<Value>, ghost outer: seq<Level>) returns (ok: bool)
      requires levels == Inside(outer, Level(0, true))
      modifies this
      ensures ok == AllWritable(style.ascii, elems)
      ensures ok ==> levels == Inside(outer, Level(|elems|, true)) && hasRoot == old(hasRoot)
      ensures ok ==> out == old(out) + ElementsText(style, elems, true, |outer| + 1)
      decreases elems, 0
    {
      hide PrefixText, Counted, Text, ElementsText, Writable;
      ghost var depth := |outer| + 1;
      assert elems[0..] == elems;
      var i := 0;
      while i < |elems|
        invariant i <= |elems| && levels == outer + [Level(i, true)] && hasRoot == old(hasRoot)
        invariant forall k :: 0 <= k < i ==> Writable(style.ascii, elems[k])
        invariant old(out) + ElementsText(style, elems, true, depth) == out + ElementsText(style, elems[i..], i == 0, depth)
      {
        ghost var before, prefix, text := out, PrefixText(style, levels), Text(style, elems[i], depth);
        ElementPlace(style, outer, elems, i);
        ok := Accept(elems[i]);
        if !ok { return; }
        i := i + 1;
        Regroup(before, prefix, text, ElementsText(style, elems[i..], false, depth));
      }
      NoElements(style, i == 0, depth);
      assert elems[|elems|..] == [] && out + [] == out;
      ok := true;
    }

    method AcceptArray(elems: seq<Value>) returns (ok: bool)
      requires Ready(levels, hasRoot, false)
      modifies this
      ensures ok == Writable(style.ascii, Array(elems))
      ensures ok ==> levels == Counted(old(levels)) && hasRoot == (old(hasRoot) || old(levels) == [])
      ensures ok ==> out == old(out) + PrefixText(style, old(levels)) + Text(style, Array(elems), |old(levels)|)
      decreases elems, 1
    {
      CountedLength(levels);
      hide PrefixText, ClosingSpaces, Text, ElementsText, Counted, Encodable, Writable, Inside, AllWritable;
      ghost var depth, outer, before := |levels|, Counted(levels), out + PrefixText(style, levels);
      ghost var inner := ElementsText(style, elems, true, depth + 1);
      Start(true);
      hide Ready, PrefixText;
      ok := AcceptElements(elems, outer);
      WritableParts(style.ascii, elems, []);
      if !ok { return; }
      Finish(true, outer, |elems|, before, [LBRACKET], inner);
      ArrayLaidOut(style, elems, depth);
    }

    /** The members of an object whose level has just been opened. */
    method AcceptMembers(members: seq<Member>, ghost outer: seq<Level>) returns (ok: bool)
      requires levels == Inside(outer, Level(0, false))
      modifies this
      ensures ok == MembersWritable(style.ascii, members)
      ensures ok ==> levels == Inside(outer, Level(2 * |members|, false)) && hasRoot == old(hasRoot)
      ensures ok ==> out == old(out) + MembersText(style, members, true, |outer| + 1)
      decreases members, 0
    {
      hide PrefixText, Counted, Text, MembersText, Writable, Encodable, Quoted;
      ghost var depth := |outer| + 1;
      assert members[0..] == members;
      var i := 0;
      while i < |members|
        invariant i <= |members| && levels == outer + [Level(2 * i, false)] && hasRoot == old(hasRoot)
        invariant forall k :: 0 <= k < i ==>
                    Encodable(style.ascii, members[k].name, 0) && Writable(style.ascii, members[k].value)
        invariant old(out) + MembersText(style, members, true, depth) ==
                  out + MembersText(style, members[i..], i == 0, depth)
      {
        ghost var before := out;
        MemberPlace(style, outer, members, i);
        ok := AcceptMember(members[i]);
        if !ok { return; }
        i := i + 1;
        Regroup(before, MemberText(style, outer, members[i - 1], i - 1), [],
                MembersText(style, members[i..], false, depth));
      }
      NoElements(style, i == 0, depth);
      assert members[|members|..] == [] && out + [] == out;
      ok := true;
    }

    method AcceptMember(m: Member) returns (ok: bool)
      requires levels != [] && !levels[|levels| - 1].inArray && levels[|levels| - 1].valueCount % 2 == 0
      modifies this
      ensures ok == (Encodable(style.ascii, m.name, 0) && Writable(style.ascii, m.value))
      ensures ok ==> levels == Counted(Counted(old(levels))) && hasRoot == old(hasRoot)
      ensures ok ==>
                var outer, n := old(levels[..|levels| - 1]), old(levels[|levels| - 1]).valueCount / 2;
                out == old(out) + MemberText(style, outer, m, n)
      decreases m, 2
    {
      hide PrefixText, Text, Quoted, Encodable;
      ghost var outer, n := levels[..|levels| - 1], levels[|levels| - 1].valueCount / 2;
      assert levels == outer + [Level(2 * n, false)];
      ok := Key(m.name);
      if !ok { return; }
      assert levels == outer + [Level(2 * n + 1, false)];
      ok := Accept(m.value);
      if !ok { return; }
      Assemble(old(out), PrefixText(style, old(levels)), Quoted(style.ascii, m.name),
               PrefixText(style, outer + [Level(2 * n + 1, false)]), Text(style, m.value, |outer| + 1));
    }

    method AcceptObject(members: seq<Member>) returns (ok: bool)
      requires Ready(levels, hasRoot, false)
      modifies this
      ensures ok == Writable(style.ascii, Object(members))
      ensures ok ==> levels == Counted(old(levels)) && hasRoot == (old(hasRoot) || old(levels) == [])
      ensures ok ==> out == old(out) + PrefixText(style, old(levels)) + Text(style, Object(members), |old(levels)|)
      decreases members, 1
    {
      CountedLength(levels);
      hide PrefixText, ClosingSpaces, Text, MembersText, Counted, Encodable, Writable, Inside, MembersWritable;
      ghost var depth, outer, before := |levels|, Counted(levels), out + PrefixText(style, levels);
      ghost var inner := MembersText(style, members, true, depth + 1);
      Start(false);
      hide Ready, PrefixText;
      ok := AcceptMembers(members, outer);
      WritableParts(style.ascii, [], members);
      if !ok { return; }
      Finish(false, outer, 2 * |members|, before, [LBRACE], inner);
      ObjectLaidOut(style, members, depth);
    }
  }

  lemma CountedLength(levels: seq<Level>)
    ensures |Counted(levels)| == |levels|
  {
  }

  predicate AllWritable(ascii: bool, elems: seq<Value>) {
    forall k :: 0 <= k < |elems| ==> Writable(ascii, elems[k])
  }

  predicate MembersWritable(ascii: bool, members: seq<Member>) {
    forall k :: 0 <= k < |members| ==> Encodable(ascii, members[k].name, 0) && Writable(ascii, members[k].value)
  }

  lemma WritableParts(ascii: bool, elems: seq<Value>, members: seq<Member>)
    ensures Writable(ascii, Array(elems)) == AllWritable(ascii, elems)
    ensures Writable(ascii, Object(members)) == MembersWritable(ascii, members)
  {
    hide Encodable;
  }

  lemma Regroup(a: seq<Byte>, b: seq<Byte>, c: seq<Byte>, d: seq<Byte>)
    ensures a + (b + c + d) == a + b + c + d
  {
  }

  lemma Assemble(a: seq<Byte>, b: seq<Byte>, c: seq<Byte>, d: seq<Byte>, e: seq<Byte>)
    ensures a + b + c + (d + e) == a + (b + c + d + e)
    ensures a + b + c + d + e == a + (b + c + d + e)
  {
  }

  lemma NoElements(style: Style, first: bool, depth: nat)
    ensures ElementsText(style, [], first, depth) == [] && MembersText(style, [], first, depth) == []
  {
  }

  /** Prefix, name, prefix and value of member `i` inside the levels `outer`. */
  function MemberText(style: Style, outer: seq<Level>, m: Member, i: nat): seq<Byte> {
    PrefixText(style, outer + [Level(2 * i, false)]) + Quoted(style.ascii, m.name)
    + PrefixText(style, outer + [Level(2 * i + 1, false)]) + Text(style, m.value, |outer| + 1)
  }

  /** Inside an array, the prefix and the count of element `i`. */
  lemma ElementPlace(style: Style, outer: seq<Level>, elems: seq<Value>, i: nat)
    requires i < |elems|
    ensures var levels := outer + [Level(i, true)];
            && Counted(levels) == outer + [Level(i + 1, true)]
            && ElementsText(style, elems[i..], i == 0, |outer| + 1) ==
               PrefixText(style, levels) + Text(style, elems[i], |outer| + 1)
               + ElementsText(style, elems[i + 1..], false, |outer| + 1)
  {
    hide Text, ElementSpaces;
    assert elems[i..][1..] == elems[i + 1..];
  }

  lemma MemberPlace(style: Style, outer: seq<Level>, members: seq<Member>, i: nat)
    requires i < |members|
    ensures var levels := outer + [Level(2 * i, false)];
            && Counted(Counted(levels)) == outer + [Level(2 * i + 2, false)]
            && MembersText(style, members[i..], i == 0, |outer| + 1) ==
               MemberText(style, outer, members[i], i) + MembersText(style, members[i + 1..], false, |outer| + 1)
  {
    hide Text, NameSpaces, Quoted, ColonSpaces;
    assert members[i..][1..] == members[i + 1..];
    assert Counted(outer + [Level(2 * i, false)]) == outer + [Level(2 * i + 1, false)];
    MemberPrefixes(style, outer, i);
    hide PrefixText, CommaUnless, Counted;
    var a, b, c := CommaUnless(i == 0), NameSpaces(style, |outer| + 1), Quoted(style.ascii, members[i].name);
    var d, e, f := [COLON], ColonSpaces(style), Text(style, members[i].value, |outer| + 1);
    assert a + b + c + d + e + f == (a + b) + c + (d + e) + f;
  }

  lemma MemberPrefixes(style: Style, outer: seq<Level>, i: nat)
    ensures PrefixText(style, outer + [Level(2 * i, false)]) == CommaUnless(i == 0) + NameSpaces(style, |outer| + 1)
    ensures PrefixText(style, outer + [Level(2 * i + 1, false)]) == [COLON] + ColonSpaces(style)
  {
  }

  lemma ArrayLaidOut(style: Style, elems: seq<Value>, depth: nat)
    ensures Text(style, Array(elems), depth) ==
            [LBRACKET] + ElementsText(style, elems, true, depth + 1)
            + (if |elems| == 0 then [] else ClosingSpaces(style, true, depth)) + [RBRACKET]
  {
    hide ElementsText, ClosingSpaces;
  }

  lemma ObjectLaidOut(style: Style, members: seq<Member>, depth: nat)
    ensures Text(style, Object(members), depth) ==
            [LBRACE] + MembersText(style, members, true, depth + 1)
            + (if 2 * |members| == 0 then [] else ClosingSpaces(style, false, depth)) + [RBRACE]
  {
    hide MembersText, ClosingSpaces;
  }

  /** A value written by `Accept`: exactly its text, or a failure when some string cannot be written. */
  method Stringify(style: Style, v: Value) returns (ok: bool, text: seq<Byte>)
    ensures ok == Writable(style.ascii, v)
    ensures ok ==> text == Text(style, v, 0)
  {
    hide Text;
    var writer := new Writer(style);
    ok := writer.Accept(v);
    text := writer.out;
    assert [] + PrefixText(style, []) + Text(style, v, 0) == Text(style, v, 0);
  }

  /**
   * A value printed by a writer and parsed back by a document, through either parser: the document's root is the
   * value itself, with the same member order and the same bits and flags in every number.
   */
  method CopyThroughText(style: Style, c: Events.Config, v: Value, iterative: bool)
    returns (ok: bool, doc: DocumentClass.GenericDocument)
    requires Events.Willing(c) && Legal(style) && Proper(v) && SoundDoubles(c, v)
    ensures ok == Writable(style.ascii, v)
    ensures ok ==> doc.parseError.None? && doc.root == v
  {
    hide Text, Writable, SoundDoubles, Proper, Grammar.Parse, Document.Run, Events.Willing;
    hide ParsedDocument.Signless, ParsedDocument.Fits;
    doc := new DocumentClass.GenericDocument();
    var text;
    ok, text := Stringify(style, v);
    if ok {
      RoundTrip.PrintParse(c, style, v);
      ParsedDocument.PrintedFits(c, text, v);
      doc.Parse(c, text, iterative);
      ParsedDocument.EventsTell(v, doc.root);
    }
  }
}
