/**
 * Parsing a whole document in place (kParseInsituFlag, reader.h), by either parser: the strings are decoded inside
 * the buffer that is still being read. The parse is the one of the untouched text, and every string the handler was
 * given still stands in the buffer when it ends.
 */
module InsituDocument {
  import opened Chars
  import opened Events
  import opened Whitespace
  import opened Grammar
  import opened Locality
  import A = Automaton
  import Equivalence
  import Insitu
  import Numbers
  import ReaderClass
  import Strings
  import TokenLoop

  /** A string as the handler gets it: a pointer into the buffer. */
  datatype Delivered = Delivered(at: nat, bytes: seq<Byte>)

  function TextOf(e: Event): seq<seq<Byte>> {
    match e
    case String(str) => [str]
    case Key(name) => [name]
    case _ => []
  }

  /** The strings and names among the events. */
  function Texts(evs: seq<Event>): seq<seq<Byte>> {
    if evs == [] then [] else Texts(evs[..|evs| - 1]) + TextOf(evs[|evs| - 1])
  }

  lemma TextsLast(evs: seq<Event>, e: Event)
    ensures Texts(evs + [e]) == Texts(evs) + TextOf(e)
  {
    assert (evs + [e])[..|evs|] == evs;
  }

  function EventsAfter(t: A.Step): seq<Event>
    requires !t.Stuck?
  {
    match t
    case Go(next) => next.st.evs
    case Fail(_, _, evs) => evs
  }

  /** Only strings and names bring texts. */
  lemma ScalarTexts(c: Config, s: seq<Byte>, st: St)
    requires st.pos <= |s|
    requires var b := Peek(s, st.pos); b != LBRACE && b != LBRACKET && b != QUOTE
    ensures Texts(EventsIn(PValue(c, s, st))) == Texts(st.evs)
  {
    hide MatchEnd, Numbers.Lex, Texts;
    TextsLast(st.evs, Null);
    TextsLast(st.evs, Bool(true));
    TextsLast(st.evs, Bool(false));
    var lexed := Numbers.Lex(c, s, st.pos);
    if lexed.Number? {
      NumbersAreNoTexts(c, s, st.pos);
      TextsLast(st.evs, lexed.event);
    }
  }

  lemma NumbersAreNoTexts(c: Config, s: seq<Byte>, i: nat)
    requires i <= |s| && Numbers.Lex(c, s, i).Number?
    ensures TextOf(Numbers.Lex(c, s, i).event) == []
  {
    hide Numbers.Val, Numbers.DigitsEnd, Numbers.FractionScale;
  }

  lemma TurnTexts(c: Config, s: seq<Byte>, k: A.Conf)
    requires A.Wf(k) && k.st.pos < |s|
    requires s[k.st.pos] == QUOTE ==> A.Predict(k.state, A.Tokenize(QUOTE)).ErrorState?
    ensures Texts(EventsAfter(A.Turn(c, s, k))) == Texts(k.st.evs)
  {
    hide A.Frames, PString, PValue, Texts;
    if s[k.st.pos] != LBRACE && s[k.st.pos] != LBRACKET && s[k.st.pos] != QUOTE { ScalarTexts(c, s, k.st); }
    TextsLast(k.st.evs, StartObject);
    TextsLast(k.st.evs, StartArray);
    forall n: nat
      ensures Texts(k.st.evs + [EndObject(n)]) == Texts(k.st.evs) && Texts(k.st.evs + [EndArray(n)]) == Texts(k.st.evs)
    {
      TextsLast(k.st.evs, EndObject(n));
      TextsLast(k.st.evs, EndArray(n));
    }
  }

  /** The delivered strings are those told, and stand in the buffer, each with its zero, before `limit`. */
  predicate AllStand(buf: seq<Byte>, limit: nat, kept: seq<Delivered>, told: seq<seq<Byte>>) {
    && |kept| == |told|
    && forall k :: 0 <= k < |kept| ==> Stands(buf, limit, kept[k]) && kept[k].bytes == told[k]
  }

  predicate Stands(buf: seq<Byte>, limit: nat, d: Delivered) {
    && d.at + |d.bytes| < limit && d.at + |d.bytes| < |buf|
    && buf[d.at..d.at + |d.bytes|] == d.bytes && buf[d.at + |d.bytes|] == 0
  }

  /** Writing behind the delivered strings leaves them alone. */
  lemma StillStand(before: seq<Byte>, after: seq<Byte>, p: nat, limit: nat, kept: seq<Delivered>, told: seq<seq<Byte>>)
    requires AllStand(before, p, kept, told) && p <= limit && p <= |before| == |after| && before[..p] == after[..p]
    ensures AllStand(after, limit, kept, told)
  {
    forall k | 0 <= k < |kept| ensures Stands(after, limit, kept[k]) {
      var d := kept[k];
      assert Stands(before, p, d);
      assert after[d.at..d.at + |d.bytes|] == after[..p][d.at..d.at + |d.bytes|];
      assert before[d.at..d.at + |d.bytes|] == before[..p][d.at..d.at + |d.bytes|];
      assert after[d.at + |d.bytes|] == after[..p][d.at + |d.bytes|];
      assert before[d.at + |d.bytes|] == before[..p][d.at + |d.bytes|];
    }
  }

  class InsituParser {
    const c: Config
    const text: Insitu.InsituReader
    var evs: seq<Event>
    var stack: seq<nat>
    ghost var kept: seq<Delivered>

    /** The buffer holds the text and a zero. */
    constructor (c: Config, buf: array<Byte>, ghost s: seq<Byte>)
      requires buf[..] == s + [0]
      ensures this.c == c && fresh(text) && text.buf == buf && stack == []
      ensures Inside(s) && Now() == St(0, [])
    {
      this.c := c;
      text := new Insitu.InsituReader(buf);
      evs, stack, kept := [], [], [];
      new;
      assert forall k :: 0 <= k <= |s| ==> buf[..][k] == Peek(s, k);
    }

    function Now(): St reads this, text { St(text.src, evs) }

    /** The characters from the cursor on are those of the text `s`. */
    ghost predicate Unread(s: seq<Byte>) reads text, text.buf {
      && text.src <= |s| && text.buf.Length == |s| + 1
      && forall k :: text.src <= k <= |s| ==> text.buf[k] == Peek(s, k)
    }

    /** Every delivered string stands in the buffer before `limit`. */
    ghost predicate Intact(limit: nat) reads this, text.buf {
      AllStand(text.buf[..], limit, kept, Texts(evs))
    }

    ghost predicate Inside(s: seq<Byte>) reads this, text, text.buf {
      text.error.None? && Unread(s) && Intact(text.src)
    }

    /** The parser's fields say what the outcome on the untouched text says; the delivered strings are intact. */
    ghost predicate Shows(s: seq<Byte>, r: Outcome) reads this, text, text.buf {
      match r
      case Ok(st) => Inside(s) && Now() == st
      case Err(code, offset, e) => text.error == Some(ParseError(code, offset)) && evs == e && Intact(text.buf.Length)
    }

    method Handle(e: Event) returns (ok: bool)
      requires TextOf(e) == []
      modifies this`evs
      ensures evs == old(evs) + [e] && ok == c.accepts(evs) && Texts(evs) == Texts(old(evs))
    {
      TextsLast(evs, e);
      evs := evs + [e];
      ok := c.accepts(evs);
    }

    method SetParseError(code: ErrorCode, offset: nat)
      requires text.src <= text.buf.Length && Intact(text.src)
      modifies text`error
      ensures text.error == Some(ParseError(code, offset)) && Intact(text.buf.Length)
    {
      text.error := Some(ParseError(code, offset));
      StillStand(text.buf[..], text.buf[..], text.src, text.buf.Length, kept, Texts(evs));
    }

    method Consume(b: Byte, ghost s: seq<Byte>) returns (took: bool)
      requires Inside(s) && b != 0
      modifies text`src
      ensures Inside(s) && took == (Chars.Peek(s, old(text.src)) == b)
      ensures text.src == if took then old(text.src) + 1 else old(text.src)
    {
      hide AllStand, Texts;
      took := text.buf[text.src] == b;
      if took { Advance(s); }
    }

    /** A reader over the buffer as it is now, for the routines that only read. */
    method Current(ghost s: seq<Byte>) returns (r: ReaderClass.Reader)
      requires Inside(s)
      ensures fresh(r) && r.c == c && |r.s| == |s| && Alike(s, r.s, text.src)
      ensures r.Now() == Now() && r.error == None && r.stack == stack
    {
      r := new ReaderClass.Reader(c, text.buf[..text.buf.Length - 1]);
      r.pos, r.evs, r.stack := text.src, evs, stack;
    }

    method SkipWhitespaceAndComments(ghost s: seq<Byte>)
      requires Inside(s)
      modifies text`src, text`error
      ensures Shows(s, Ws(c, s, old(Now())))
    {
      hide Ws, Texts;
      var r := Current(s);
      WsAlike(c, s, r.s, Now());
      r.SkipWhitespaceAndComments();
      text.src, text.error := r.pos, r.error;
    }

    /** A string or name is decoded where it stands; the handler gets its place in the buffer. */
    method ParseString(isKey: bool, ghost s: seq<Byte>)
      requires Inside(s) && Chars.Peek(s, text.src) == QUOTE
      modifies this`evs, this`kept, text, text.buf
      ensures Shows(s, PString(c, s, old(Now()), isKey))
    {
      hide Strings.Decode, Texts, AllStand;
      ghost var before, p := text.buf[..], text.src + 1;
      CurrentAlike(s);
      DecodeAlike(s, before, text.src, text.src + 1);
      var head, length := text.ParseString();
      StillStand(before, text.buf[..], old(text.src), text.buf.Length, kept, Texts(evs));
      if text.error.Some? { return; }
      StillStand(before, text.buf[..], old(text.src), text.src, kept, Texts(evs));
      AheadUnchanged(s, before, text.buf[..], old(text.src), text.src);
      Tell(isKey, head, length);
    }

    lemma CurrentAlike(s: seq<Byte>)
      requires Unread(s)
      ensures Alike(s, text.buf[..], text.src)
    {
    }

    /** The handler is told of the string that was just decoded. */
    method Tell(isKey: bool, head: nat, length: nat)
      requires text.error.None? && Intact(text.src) && head + length < text.src <= text.buf.Length
      requires text.buf[head + length] == 0
      modifies this`evs, this`kept, text`error
      ensures evs == old(evs) + [StringEvent(isKey, text.buf[head..head + length])]
      ensures Intact(text.src)
      ensures if c.accepts(evs) then text.error.None?
              else text.error == Some(ParseError(Termination, text.src)) && Intact(text.buf.Length)
    {
      hide Texts;
      var bytes := text.buf[head..head + length];
      TextsLast(evs, StringEvent(isKey, bytes));
      kept := kept + [Delivered(head, bytes)];
      evs := evs + [StringEvent(isKey, bytes)];
      if !c.accepts(evs) { SetParseError(Termination, text.src); }
    }

    /** Everything but strings is read from the buffer as it is. */
    method ParseScalar(ghost s: seq<Byte>)
      requires Inside(s)
      requires var b := Chars.Peek(s, text.src); b != LBRACE && b != LBRACKET && b != QUOTE
      modifies this, text, text.buf
      ensures Shows(s, PValue(c, s, old(Now())))
    {
      hide Texts, PValue, AllStand;
      ScalarTexts(c, s, Now());
      var r := Current(s);
      ScalarAlike(c, s, r.s, Now());
      r.ParseValue();
      TakeOver(r);
    }

    /** The fields of a reader that has gone on in the same text. */
    method TakeOver(r: ReaderClass.Reader)
      requires text.src <= text.buf.Length && Intact(text.src) && Texts(r.evs) == Texts(evs)
      modifies text`src, text`error, this`evs, this`stack
      ensures text.src == r.pos && text.error == r.error && evs == r.evs && stack == r.stack
      ensures Intact(text.buf.Length) && (old(text.src) <= r.pos <= text.buf.Length ==> Intact(r.pos))
    {
      hide Texts, AllStand;
      StillStand(text.buf[..], text.buf[..], text.src, text.buf.Length, kept, Texts(evs));
      if text.src <= r.pos <= text.buf.Length {
        StillStand(text.buf[..], text.buf[..], text.src, r.pos, kept, Texts(evs));
      }
      text.src, text.error, evs, stack := r.pos, r.error, r.evs, r.stack;
    }

    method ParseValue(ghost s: seq<Byte>)
      requires Inside(s)
      modifies this, text, text.buf
      ensures Shows(s, PValue(c, s, old(Now())))
      decreases |s| - text.src, 1
    {
      hide Intact;
      var b := text.buf[text.src];
      if b == QUOTE { ParseString(false, s); }
      else if b == LBRACE { ParseObject(s); }
      else if b == LBRACKET { ParseArray(s); }
      else { ParseScalar(s); }
    }

    method ParseObject(ghost s: seq<Byte>)
      requires Inside(s) && Chars.Peek(s, text.src) == LBRACE
      modifies this, text, text.buf
      ensures Shows(s, PObject(c, s, old(Now())))
      decreases |s| - text.src, 0
    {
      hide AllStand, Texts, Ws;
      Advance(s);
      var ok := Handle(StartObject);
      if !ok { SetParseError(Termination, text.src); return; }
      SkipWhitespaceAndComments(s);
      if text.error.Some? { return; }
      var empty := Consume(RBRACE, s);
      if empty {
        ok := Handle(EndObject(0));
        if !ok { SetParseError(Termination, text.src); }
        return;
      }
      ghost var all := PMembers(c, s, Now(), 0);
      var memberCount := 0;
      while true
        invariant Inside(s) && old(text.src) < text.src && all == PMembers(c, s, Now(), memberCount)
        decreases |s| - text.src
      {
        ParseMember(s);
        if text.error.Some? { return; }
        memberCount := Increment(memberCount);
        assert all == PMemberEnd(c, s, Now(), memberCount);
        var done := EndOfMember(memberCount, s);
        if done { return; }
      }
    }

    method Advance(ghost s: seq<Byte>)
      requires Inside(s) && text.src < |s|
      modifies text`src
      ensures Inside(s) && text.src == old(text.src) + 1
    {
      text.src := text.src + 1;
      StillStand(text.buf[..], text.buf[..], text.src - 1, text.src, kept, Texts(evs));
    }

    method ParseMember(ghost s: seq<Byte>)
      requires Inside(s)
      modifies this, text, text.buf
      ensures Shows(s, PMember(c, s, old(Now())))
      decreases |s| - text.src, 2
    {
      hide PString, PValue, Ws, AllStand, Texts;
      if text.buf[text.src] != QUOTE { SetParseError(ObjectMissName, text.src); return; }
      ParseString(true, s);
      if text.error.Some? { return; }
      SkipWhitespaceAndComments(s);
      if text.error.Some? { return; }
      var colon := Consume(COLON, s);
      if !colon { SetParseError(ObjectMissColon, text.src); return; }
      SkipWhitespaceAndComments(s);
      if text.error.Some? { return; }
      ParseValue(s);
      if text.error.Some? { return; }
      SkipWhitespaceAndComments(s);
    }

    method EndOfMember(memberCount: nat, ghost s: seq<Byte>) returns (done: bool)
      requires Inside(s)
      modifies this, text, text.buf
      ensures var r := PMemberEnd(c, s, old(Now()), memberCount);
              if done then Shows(s, r)
              else Inside(s) && old(text.src) < text.src && r == PMembers(c, s, Now(), memberCount)
    {
      hide AllStand, Texts, Ws, PMembers;
      var b := text.buf[text.src];
      if b == COMMA {
        Advance(s);
        SkipWhitespaceAndComments(s);
        if text.error.Some? { return true; }
      } else if b == RBRACE {
        Advance(s);
        var ok := Handle(EndObject(memberCount));
        if !ok { SetParseError(Termination, text.src); }
        return true;
      } else {
        SetParseError(ObjectMissCommaOrCurlyBracket, text.src);
        return true;
      }
      if c.trailingCommas && text.buf[text.src] == RBRACE {
        var ok := Handle(EndObject(memberCount));
        if !ok { SetParseError(Termination, text.src); return true; }
        Advance(s);
        return true;
      }
      return false;
    }

    method ParseArray(ghost s: seq<Byte>)
      requires Inside(s) && Chars.Peek(s, text.src) == LBRACKET
      modifies this, text, text.buf
      ensures Shows(s, PArray(c, s, old(Now())))
      decreases |s| - text.src, 0
    {
      hide AllStand, Texts, Ws;
      Advance(s);
      var ok := Handle(StartArray);
      if !ok { SetParseError(Termination, text.src); return; }
      SkipWhitespaceAndComments(s);
      if text.error.Some? { return; }
      var empty := Consume(RBRACKET, s);
      if empty {
        ok := Handle(EndArray(0));
        if !ok { SetParseError(Termination, text.src); }
        return;
      }
      ghost var all := PElements(c, s, Now(), 0);
      var elementCount := 0;
      while true
        invariant Inside(s) && old(text.src) < text.src && all == PElements(c, s, Now(), elementCount)
        decreases |s| - text.src
      {
        ParseValue(s);
        if text.error.Some? { return; }
        elementCount := Increment(elementCount);
        SkipWhitespaceAndComments(s);
        if text.error.Some? { return; }
        assert all == PElementEnd(c, s, Now(), elementCount);
        var done := EndOfElement(elementCount, s);
        if done { return; }
      }
    }

    method EndOfElement(elementCount: nat, ghost s: seq<Byte>) returns (done: bool)
      requires Inside(s)
      modifies this, text, text.buf
      ensures var r := PElementEnd(c, s, old(Now()), elementCount);
              if done then Shows(s, r)
              else Inside(s) && old(text.src) < text.src && r == PElements(c, s, Now(), elementCount)
    {
      hide AllStand, Texts, Ws, PElements;
      var comma := Consume(COMMA, s);
      if comma {
        SkipWhitespaceAndComments(s);
        if text.error.Some? { return true; }
      } else {
        var close := Consume(RBRACKET, s);
        if close {
          var ok := Handle(EndArray(elementCount));
          if !ok { SetParseError(Termination, text.src); }
        } else {
          SetParseError(ArrayMissCommaOrSquareBracket, text.src);
        }
        return true;
      }
      if c.trailingCommas && text.buf[text.src] == RBRACKET {
        var ok := Handle(EndArray(elementCount));
        if !ok { SetParseError(Termination, text.src); return true; }
        Advance(s);
        return true;
      }
      return false;
    }

    /** `Parse` in place, without the iterative flag. */
    method Parse(ghost s: seq<Byte>)
      requires Inside(s) && Now() == St(0, [])
      modifies this, text, text.buf
      ensures Shows(s, Grammar.Parse(c, s))
    {
      hide AllStand, Texts, Ws, PValue;
      SkipWhitespaceAndComments(s);
      if text.error.Some? { return; }
      if text.buf[text.src] == 0 { SetParseError(DocumentEmpty, text.src); return; }
      ParseValue(s);
      if text.error.Some? || c.stopWhenDone { return; }
      SkipWhitespaceAndComments(s);
      if text.error.Some? { return; }
      if text.buf[text.src] != 0 { SetParseError(DocumentRootNotSingular, text.src); }
    }

    // The iterative parser.

    ghost predicate InsideAt(s: seq<Byte>, k: A.Conf) reads this, text, text.buf {
      Inside(s) && A.Wf(k) && k.stack == stack && k.st == Now()
    }

    /** One turn: strings are decoded in place, everything else is read from the buffer as it is. */
    method Turn(src: A.State, ghost s: seq<Byte>) returns (state: A.State)
      requires InsideAt(s, A.Conf(src, stack, Now())) && text.src < |s|
      modifies this, text, text.buf
      ensures match A.Turn(c, s, old(A.Conf(src, stack, Now())))
              case Go(next) => Inside(s) && next == A.Conf(state, stack, Now())
              case Fail(code, offset, e) => Shows(s, Err(code, offset, e))
              case Stuck => false
    {
      hide AllStand, Texts;
      var n := A.Predict(src, A.Tokenize(text.buf[text.src]));
      if text.buf[text.src] == QUOTE && !n.ErrorState? {
        StringTurn(s, A.Conf(src, stack, Now()));
        hide PString, A.Frames;
        ParseString(n.MemberKeyState?, s);
        state := if text.error.Some? then A.ErrorState else if n.ValueState? then A.FinishState else n;
      } else {
        state := ReadTurn(src, s);
      }
    }

    lemma StringTurn(s: seq<Byte>, k: A.Conf)
      requires A.Wf(k) && k.st.pos < |s| && s[k.st.pos] == QUOTE
      ensures var n := A.Predict(k.state, A.Tokenize(QUOTE));
              !n.ErrorState? ==>
                A.Turn(c, s, k) == A.FromOutcome(PString(c, s, k.st, n.MemberKeyState?),
                                                 if n.ValueState? then A.FinishState else n, k.stack)
    {
      hide PString, A.Frames;
    }

    method ReadTurn(src: A.State, ghost s: seq<Byte>) returns (state: A.State)
      requires InsideAt(s, A.Conf(src, stack, Now())) && text.src < |s|
      requires s[text.src] == QUOTE ==> A.Predict(src, A.Tokenize(QUOTE)).ErrorState?
      modifies this, text, text.buf
      ensures match A.Turn(c, s, old(A.Conf(src, stack, Now())))
              case Go(next) => Inside(s) && next == A.Conf(state, stack, Now())
              case Fail(code, offset, e) => Shows(s, Err(code, offset, e))
              case Stuck => false
    {
      hide AllStand, Texts, A.Turn, A.Frames, A.Predict, A.Tokenize;
      TurnTexts(c, s, A.Conf(src, stack, Now()));
      var r := Current(s);
      TurnAlike(c, s, r.s, A.Conf(src, stack, Now()));
      state := r.Turn(src);
      ghost var t := A.Turn(c, s, old(A.Conf(src, stack, Now())));
      assert r.Took(state, t, None);
      TakeOver(r);
      assert t.Go? ==> t.next == A.Conf(state, stack, Now());
    }

    /** `Parse` in place, with the iterative flag. */
    method IterativeParse(ghost s: seq<Byte>)
      requires Inside(s) && Now() == St(0, []) && stack == []
      modifies this, text, text.buf
      ensures Shows(s, A.IterativeParse(c, s))
      ensures evs == EventsIn(Grammar.Parse(c, s))
    {
      hide AllStand, Texts, A.Turn, Ws, A.Frames, Grammar.Parse;
      Equivalence.ParsersAgree(c, s);
      TokenLoop.Started(c, s);
      var state := A.StartState;
      SkipWhitespaceAndComments(s);
      if text.error.Some? { return; }
      while text.buf[text.src] != 0
        invariant InsideAt(s, A.Conf(state, stack, Now()))
        invariant A.IterativeParse(c, s) == A.Run(c, s, A.Conf(state, stack, Now()))
        decreases |s| - text.src
      {
        state := Turn(state, s);
        if text.error.Some? { return; }
        if c.stopWhenDone && state.FinishState? { return; }
        SkipWhitespaceAndComments(s);
        if text.error.Some? { return; }
      }
      if !state.FinishState? { SetParseError(A.HandleError(state), text.src); }
    }
  }

  lemma AheadUnchanged(s: seq<Byte>, before: seq<Byte>, after: seq<Byte>, i: nat, j: nat)
    requires i <= j <= |s| && |before| == |after| == |s| + 1 && before[j..] == after[j..]
    requires forall k :: i <= k <= |s| ==> before[k] == Peek(s, k)
    ensures forall k :: j <= k <= |s| ==> after[k] == Peek(s, k)
  {
    forall k | j <= k <= |s| ensures after[k] == Peek(s, k) {
      assert before[j..][k - j] == after[j..][k - j];
    }
  }
}
