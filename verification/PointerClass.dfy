/** `GenericPointer` (pointer.h): parsing into a name buffer, printing to a stream, and resolving step by step. */
module PointerClass {
  import opened Chars
  import opened PointerText
  import opened PointerTree
  import Strings
  import Utf8
  import Rendering
  import V = Values

  datatype ParseError = ParseError(code: ErrorCode, offset: nat)

  /** A token as it is stored: where its name is in the buffer, and its index. */
  datatype Slot = Slot(start: nat, length: nat, index: nat)

  /** The slots name these tokens in the buffer, each name followed by a zero. */
  predicate Stores(buffer: seq<Byte>, slots: seq<Slot>, ts: seq<Token>) {
    && |slots| == |ts|
    && forall k :: 0 <= k < |ts| ==>
         var s := slots[k];
         && s.start + s.length < |buffer| && buffer[s.start + s.length] == 0
         && buffer[s.start..s.start + s.length] == ts[k].name && s.index == ts[k].index
  }

  lemma StoresMore(buffer: seq<Byte>, more: seq<Byte>, slots: seq<Slot>, ts: seq<Token>)
    requires Stores(buffer, slots, ts)
    ensures Stores(buffer + more, slots, ts)
  {
    forall k | 0 <= k < |ts| ensures (buffer + more)[slots[k].start..slots[k].start + slots[k].length] == ts[k].name {
      var s := slots[k];
      assert (buffer + more)[s.start..s.start + s.length] == buffer[s.start..s.start + s.length];
    }
  }

  lemma StoresOne(buffer: seq<Byte>, name: seq<Byte>, slots: seq<Slot>, ts: seq<Token>)
    requires Stores(buffer, slots, ts)
    ensures Stores(buffer + (name + [0]), slots + [Slot(|buffer|, |name|, IndexOf(name))], ts + [TokenOf(name)])
  {
    StoresMore(buffer, name + [0], slots, ts);
    assert (buffer + (name + [0]))[|buffer|..|buffer| + |name|] == name;
  }

  function Prepended(ts: seq<Token>, rest: Parsed): Parsed {
    if rest.Tokens? then Tokens(ts + rest.ts) else rest
  }

  /** `PercentDecodeStream`. */
  class PercentDecodeStream {
    const source: seq<Byte>
    var src: nat
    var valid: bool

    constructor (source: seq<Byte>, start: nat)
      ensures this.source == source && src == start && valid
    {
      this.source := source;
      src, valid := start, true;
    }

    method Take() returns (c: Byte)
      modifies this
      ensures valid == (old(valid) && Triplet(source, old(src)).Some?)
      ensures Triplet(source, old(src)).Some? ==> c == Triplet(source, old(src)).value && src == old(src) + 3
    {
      if Chars.Peek(source, src) != PERCENT || src + 3 > |source| {
        valid := false;
        return 0;
      }
      src := src + 1;
      c := 0;
      var hi := Strings.HexValue(source[src]);
      if hi.None? { valid := false; return 0; }
      src := src + 1;
      var lo := Strings.HexValue(source[src]);
      if lo.None? { valid := false; return 0; }
      src := src + 1;
      c := hi.value * 16 + lo.value;
    }
  }

  class GenericPointer {
    var nameBuffer: array<Byte>
    var slots: seq<Slot>
    var error: Option<ParseError>

    constructor ()
      ensures fresh(nameBuffer) && slots == [] && error == None
    {
      nameBuffer := new Byte[0];
      slots, error := [], None;
    }

    /** `UTF8::Validate` from a percent-encoded character at `i` into the buffer at `name`. */
    method ValidatePercent(source: seq<Byte>, i: nat, name: nat) returns (ok: bool, len: nat)
      requires i < |source| && name + 2 <= i && nameBuffer.Length == |source|
      modifies nameBuffer
      ensures nameBuffer[..name] == old(nameBuffer[..name])
      ensures ok == PercentChar(source, i).Some?
      ensures ok ==> len == |PercentChar(source, i).value|
      ensures ok ==> nameBuffer[..name + len] == old(nameBuffer[..name]) + PercentChar(source, i).value
    {
      hide Utf8.Trans, Utf8.Lead, Utf8.Validate, Utf8.CopyTail, Triplet;
      OneTriplet(source, i);
      var stream := new PercentDecodeStream(source, i);
      var b := stream.Take();
      nameBuffer[name] := b;
      len := 1;
      if !stream.valid { return false, 0; }
      if b < 0x80 { return true, 1; }
      var lead := Utf8.Lead(b);
      if lead.None? { return false, 0; }
      var masks := lead.value.1;
      ghost var bytes := [b];
      hide Triplets;
      var result := true;
      while len - 1 < |masks|
        invariant 1 <= len <= 1 + |masks|
        invariant nameBuffer[..name] == old(nameBuffer[..name])
        invariant |bytes| == len && nameBuffer[name..name + len] == bytes
        invariant stream.valid <==> Triplets(source, i, len).Some?
        invariant stream.valid ==> Triplets(source, i, len) == Some(bytes) && stream.src == i + 3 * len
        invariant result <==> forall k :: 0 <= k < len - 1 ==> Utf8.Trans(masks[k], bytes[k + 1])
      {
        TripletsLast(source, i, len);
        b := stream.Take();
        nameBuffer[name + len] := b;
        result := result && Utf8.Trans(masks[len - 1], b);
        bytes := bytes + [b];
        len := len + 1;
      }
      ok := result && stream.valid;
      if stream.valid { TransAll(bytes, masks); }
      assert nameBuffer[..name + len] == nameBuffer[..name] + nameBuffer[name..name + len];
    }

    lemma OneTriplet(s: seq<Byte>, i: nat)
      ensures Triplets(s, i, 1) == if Triplet(s, i).Some? then Some([Triplet(s, i).value]) else None
    {
      hide Triplet;
      assert Triplets(s, i + 3, 0) == Some([]);
      if Triplet(s, i).Some? { assert [Triplet(s, i).value] + [] == [Triplet(s, i).value]; }
    }

    lemma {:induction false} TripletsLast(s: seq<Byte>, i: nat, n: nat)
      ensures Triplets(s, i, n + 1).Some? <==> Triplets(s, i, n).Some? && Triplet(s, i + 3 * n).Some?
      ensures Triplets(s, i, n + 1).Some? ==>
                Triplets(s, i, n + 1).value == Triplets(s, i, n).value + [Triplet(s, i + 3 * n).value]
      decreases n
    {
      hide Triplet;
      if n > 0 {
        TripletsLast(s, i + 3, n - 1);
      } else {
        assert Triplets(s, i + 3, 0) == Some([]);
      }
    }

    /** The flags that `Validate` collects. */
    lemma TransAll(bytes: seq<Byte>, masks: seq<Byte>)
      requires |bytes| == 1 + |masks| && bytes[0] >= 0x80
      requires Utf8.Lead(bytes[0]).Some? && Utf8.Lead(bytes[0]).value.1 == masks
      ensures Utf8.Validate(bytes, 0).ok <==> forall k :: 0 <= k < |masks| ==> Utf8.Trans(masks[k], bytes[k + 1])
    {
      hide Utf8.Trans, Utf8.Lead;
      CopyAll(bytes, 1, [bytes[0]], masks);
    }

    lemma {:induction false} CopyAll(bytes: seq<Byte>, i: nat, out: seq<Byte>, masks: seq<Byte>)
      requires i + |masks| == |bytes|
      ensures Utf8.CopyTail(bytes, i, out, masks).0 <==> forall k :: 0 <= k < |masks| ==> Utf8.Trans(masks[k], bytes[i + k])
      decreases |masks|
    {
      hide Utf8.Trans;
      if masks != [] {
        CopyAll(bytes, i + 1, out + [bytes[i]], masks[1..]);
        assert forall k :: 1 <= k < |masks| ==> masks[k] == masks[1..][k - 1];
        if forall k :: 0 <= k < |masks| ==> Utf8.Trans(masks[k], bytes[i + k]) {
          forall k | 0 <= k < |masks| - 1 ensures Utf8.Trans(masks[1..][k], bytes[i + 1 + k]) {
            assert Utf8.Trans(masks[k + 1], bytes[i + (k + 1)]);
          }
        }
        if Utf8.CopyTail(bytes, i, out, masks).0 {
          forall k | 0 <= k < |masks| ensures Utf8.Trans(masks[k], bytes[i + k]) {
            if k > 0 { assert Utf8.Trans(masks[1..][k - 1], bytes[i + 1 + (k - 1)]); }
          }
        }
      }
    }

    /** One character of a token into the buffer. */
    method ParseCharacter(source: seq<Byte>, i0: nat, uri: bool, name0: nat) returns (i: nat, name: nat)
      requires i0 < |source| && nameBuffer.Length == |source| && error.None?
      requires name0 < i0 && (uri ==> name0 + 2 <= i0)
      modifies nameBuffer, this`error
      ensures match Character(source, i0, uri)
              case Name(bytes, next) =>
                && error.None? && i == next && name == name0 + |bytes|
                && nameBuffer[..name] == old(nameBuffer[..name0]) + bytes
              case BadName(code, offset) => error == Some(ParseError(code, offset))
    {
      i, name := i0, name0;
      var c := source[i];
      if uri {
        if c == PERCENT {
          var ok, len := ValidatePercent(source, i, name);
          if !ok {
            error := Some(ParseError(InvalidPercentEncoding, i));
            return;
          }
          i := i + 3 * len - 1;
          if len == 1 {
            c := nameBuffer[name];
            assert nameBuffer[..name + 1][name] == c;
          } else {
            name := name + len;
            i := i + 1;
            return;
          }
        } else if NeedPercentEncode(c) {
          error := Some(ParseError(CharacterMustPercentEncode, i));
          return;
        }
      }
      assert nameBuffer[..name0] == old(nameBuffer[..name0]);
      i := i + 1;
      if c == TILDE {
        if i < |source| && source[i] == DIGIT_0 {
          c := TILDE;
        } else if i < |source| && source[i] == 0x31 {
          c := SLASH;
        } else {
          error := Some(ParseError(InvalidEscape, i));
          return;
        }
        i := i + 1;
      }
      nameBuffer[name] := c;
      name := name + 1;
    }

    /** The characters of a token, whose solidus has been taken. */
    method ParseToken(source: seq<Byte>, i0: nat, uri: bool, name0: nat) returns (i: nat, name: nat)
      requires i0 <= |source| && nameBuffer.Length == |source| && error.None?
      requires name0 < i0 && (uri ==> name0 + 2 <= i0)
      modifies nameBuffer, this`error
      ensures match ParseName(source, i0, uri)
              case Name(bytes, next) =>
                && error.None? && i == next && name == name0 + |bytes|
                && nameBuffer[..name] == old(nameBuffer[..name0]) + bytes
              case BadName(code, offset) => error == Some(ParseError(code, offset))
    {
      hide Character;
      i, name := i0, name0;
      ghost var bytes: seq<Byte> := [];
      while i < |source| && source[i] != SLASH
        invariant i0 <= i <= |source| && error.None?
        invariant |bytes| <= i - i0 && name == name0 + |bytes| && nameBuffer[..name] == old(nameBuffer[..name0]) + bytes
        invariant ParseName(source, i0, uri) == Cons(bytes, ParseName(source, i, uri))
        decreases |source| - i
      {
        ghost var c := Character(source, i, uri);
        i, name := ParseCharacter(source, i, uri, name);
        if error.Some? { return; }
        ConsMore(bytes, c.bytes, ParseName(source, i, uri));
        bytes := bytes + c.bytes;
      }
      assert bytes + [] == bytes;
    }

    lemma ConsMore(a: seq<Byte>, b: seq<Byte>, rest: Name)
      ensures Cons(a, Cons(b, rest)) == Cons(a + b, rest)
    {
      if rest.Name? { assert a + (b + rest.bytes) == a + b + rest.bytes; }
    }

    /** The second and third checks for an index. */
    method Index(name: seq<Byte>) returns (index: nat)
      ensures index == IndexOf(name)
    {
      if !IsNumber(name) { return INVALID_INDEX; }
      var n := 0;
      for j := 0 to |name|
        invariant n < 0x1_0000_0000 && Digits32(name, 0, 0) == Digits32(name, j, n)
      {
        var m := (n * 10 + (name[j] - DIGIT_0)) % 0x1_0000_0000;
        if m < n { return INVALID_INDEX; }
        n := m;
      }
      return n;
    }

    /**
     * `Parse`. Every write stays inside a buffer as long as the source, also those of a percent-encoded
     * character that turns out to be malformed.
     */
    method Parse(source: seq<Byte>)
      requires error.None? && slots == []
      modifies this
      ensures match PointerText.Parse(source)
              case Tokens(ts) => error.None? && nameBuffer.Length == |source| && Stores(nameBuffer[..], slots, ts)
              case Failed(code, offset) => error == Some(ParseError(code, offset)) && slots == []
    {
      hide ParseName, IndexOf;
      nameBuffer := new Byte[|source|];
      var i, name := 0, 0;
      var uri := Chars.Peek(source, 0) == HASH;
      if uri { i := 1; }
      if i != |source| && Chars.Peek(source, i) != SLASH {
        error := Some(ParseError(TokenMustBeginWithSolidus, i));
        return;
      }
      ghost var u := i;
      ghost var whole := ParseTokens(source, i, uri);
      ghost var ts: seq<Token> := [];
      assert whole == Prepended([], whole);
      while i < |source|
        invariant i <= |source| && (i == |source| || source[i] == SLASH)
        invariant error.None? && nameBuffer.Length == |source| && fresh(nameBuffer)
        invariant name + u <= i && Stores(nameBuffer[..name], slots, ts)
        invariant whole == Prepended(ts, ParseTokens(source, i, uri))
        decreases |source| - i
      {
        i := i + 1;
        var start := name;
        ghost var before := nameBuffer[..name];
        ghost var read := ParseName(source, i, uri);
        i, name := ParseToken(source, i, uri, name);
        if error.Some? { slots := []; return; }
        var text := nameBuffer[start..name];
        assert text == nameBuffer[..name][start..] == read.bytes;
        var index := Index(text);
        nameBuffer[name] := 0;
        name := name + 1;
        StoresOne(before, text, slots, ts);
        assert nameBuffer[..name] == before + (text + [0]);
        slots := slots + [Slot(start, |text|, index)];
        PrependedMore(ts, TokenOf(text), ParseTokens(source, i, uri));
        ts := ts + [TokenOf(text)];
      }
      assert ts + [] == ts;
      StoresMore(nameBuffer[..name], nameBuffer[name..], slots, ts);
      assert nameBuffer[..] == nameBuffer[..name] + nameBuffer[name..];
    }

    lemma PrependedMore(ts: seq<Token>, t: Token, rest: Parsed)
      ensures Prepended(ts, if rest.Tokens? then Tokens([t] + rest.ts) else rest) == Prepended(ts + [t], rest)
    {
      if rest.Tokens? { assert ts + ([t] + rest.ts) == ts + [t] + rest.ts; }
    }
  }

  /** One name onto the stream, behind `out`. */
  method PutName(name: seq<Byte>, uri: bool, out0: seq<Byte>) returns (ok: bool, out: seq<Byte>)
    ensures ok == NameText(name, 0, uri).Some?
    ensures ok ==> out == out0 + NameText(name, 0, uri).value
  {
    hide CharacterText;
    ok, out := true, out0;
    var j := 0;
    while j < |name|
      invariant NameText(name, j, uri).Some? == NameText(name, 0, uri).Some?
      invariant NameText(name, j, uri).Some? ==> out + NameText(name, j, uri).value == out0 + NameText(name, 0, uri).value
      decreases |name| - j
    {
      var c := CharacterText(name, j, uri);
      if c.None? { return false, out; }
      var (text, next) := c.value;
      if NameText(name, next, uri).Some? {
        assert out + (text + NameText(name, next, uri).value) == out + text + NameText(name, next, uri).value;
      }
      out := out + text;
      j := next;
    }
    assert out + [] == out;
  }

  /** `Stringify`: what it puts, unless a name stops it. */
  method Print(ts: seq<Token>, uri: bool) returns (ok: bool, out: seq<Byte>)
    ensures ok == Stringify(ts, uri).Some?
    ensures ok ==> out == Stringify(ts, uri).value
  {
    hide NameText;
    out := if uri then [HASH] else [];
    ghost var mark := out;
    assert ts[0..] == ts;
    for k := 0 to |ts|
      invariant TokensText(ts[k..], uri).Some? == TokensText(ts, uri).Some?
      invariant TokensText(ts, uri).Some? ==> out + TokensText(ts[k..], uri).value == mark + TokensText(ts, uri).value
    {
      assert ts[k..][1..] == ts[k + 1..];
      ghost var before := out;
      ok, out := PutName(ts[k].name, uri, out + [SLASH]);
      if !ok { return; }
      if TokensText(ts[k + 1..], uri).Some? {
        PutOne(before, NameText(ts[k].name, 0, uri).value, TokensText(ts[k + 1..], uri).value);
      }
    }
    ok := true;
    assert ts[|ts|..] == [] && out + [] == out;
  }

  lemma PutOne(before: seq<Byte>, name: seq<Byte>, rest: seq<Byte>)
    ensures before + ([SLASH] + name + rest) == before + [SLASH] + name + rest
  {
  }

  /** `Get`: down from the root, one token at a time. */
  method Resolve(root: V.Value, ts: seq<Token>) returns (v: Option<V.Value>, unresolved: nat)
    ensures v == Get(root, ts)
    ensures v.None? ==> unresolved < |ts| && Get(root, ts[..unresolved]).Some? && Get(root, ts[..unresolved + 1]).None?
  {
    unresolved := 0;
    var at := root;
    assert ts[0..] == ts && ts[..0] == [];
    for k := 0 to |ts|
      invariant Get(root, ts) == Get(at, ts[k..]) && Get(root, ts[..k]) == Some(at)
    {
      var child := Child(at, ts[k]);
      assert ts[..k + 1] == ts[..k] + [ts[k]];
      GetAppend(root, ts[..k], [ts[k]]);
      assert ts[k..][1..] == ts[k + 1..] && [ts[k]][1..] == [];
      if child.None? { return None, k; }
      at := ChildAt(at, child.value);
    }
    v := Some(at);
  }

  lemma {:induction false} GetAppend(v: V.Value, a: seq<Token>, b: seq<Token>)
    requires Get(v, a).Some?
    ensures Get(v, a + b) == Get(Get(v, a).value, b)
    decreases |a|
  {
    if a == [] {
      assert a + b == b;
    } else {
      assert (a + b)[1..] == a[1..] + b;
      GetAppend(ChildAt(v, Child(v, a[0]).value), a[1..], b);
    }
  }
}
