/**
 * The token-by-token interface (`IterativeParseNext`, reader.h), called until it is complete or fails. It goes on
 * after a malformed comment with the error already set, where the other parsers return.
 */
module TokenLoop {
  import opened Chars
  import opened Events
  import opened Whitespace
  import opened Grammar
  import opened Automaton
  import Equivalence
  import Numbers
  import Strings

  /**
   * How the loop ends: with the outcome `r`, or, once it has met a malformed comment, with an error set, the events
   * sent, and the answer of the last call.
   */
  datatype Ending = Clean(r: Outcome) | Dirty(evs: seq<Event>, complete: bool)

  function Sent(e: Ending): seq<Event> {
    if e.Clean? then EventsIn(e.r) else e.evs
  }

  predicate Completes(e: Ending) {
    if e.Clean? then e.r.Ok? else e.complete
  }

  /** Where the white space and comments stop, malformed or not. */
  function Reached(c: Config, s: seq<Byte>, st: St): (at: St)
    requires st.pos <= |s|
    ensures st.pos <= at.pos <= |s| && at.evs == st.evs
  {
    match Ws(c, s, st)
    case Ok(at) => at
    case Err(_, offset, _) => St(offset, st.evs)
  }

  // With an error set.

  datatype Turned = Goes(next: Conf) | Ends(evs: seq<Event>)

  /** The candidate state takes one scalar value. */
  predicate TakesScalar(dst: State) {
    dst.ElementState? || dst.MemberValueState? || dst.ValueState?
  }

  /** `Transit` with an error set: a string returns without being sent, and no value is followed by another token. */
  function DirtyTransit(c: Config, s: seq<Byte>, k: Conf, dst: State): (r: Turned)
    requires Wf(k) && k.st.pos < |s| && dst == Predict(k.state, Tokenize(s[k.st.pos]))
    ensures r.Goes? ==> Wf(r.next) && k.st.pos < r.next.st.pos <= |s|
  {
    if dst.MemberKeyState? || (TakesScalar(dst) && s[k.st.pos] == QUOTE) then Ends(k.st.evs)
    else
      match Transit(c, s, k, dst)
      case Go(next) => if TakesScalar(dst) then Ends(next.st.evs) else Goes(next)
      case Fail(_, _, evs) => Ends(evs)
      case Stuck => Ends(k.st.evs)
  }

  /** The rest of the loop with an error set, from a configuration whose cursor is past white space. */
  function DirtyRun(c: Config, s: seq<Byte>, k: Conf): (r: Ending)
    requires Wf(k) && k.st.pos <= |s| && !k.state.FinishState?
    ensures r.Dirty?
    decreases |s| - k.st.pos, 0
  {
    if Peek(s, k.st.pos) == 0 then Dirty(k.st.evs, false)
    else
      match DirtyTransit(c, s, k, Predict(k.state, Tokenize(s[k.st.pos])))
      case Ends(evs) => Dirty(evs, false)
      case Goes(next) =>
        if next.state.FinishState? then
          Dirty(next.st.evs, c.stopWhenDone || Peek(s, Reached(c, s, next.st).pos) == 0)
        else DirtyTokens(c, s, next)
  }

  /** What is left of the loop between two tokens. */
  function DirtyTokens(c: Config, s: seq<Byte>, k: Conf): (r: Ending)
    requires Wf(k) && k.st.pos <= |s| && !k.state.FinishState?
    ensures r.Dirty?
    decreases |s| - k.st.pos, 1
  {
    DirtyRun(c, s, k.(st := Reached(c, s, k.st)))
  }

  // From the start.

  /** The error at the end of the input, which is taken for the start of a number if there was white space before it. */
  function EndCode(state: State): ErrorCode {
    if Predict(state, NumberToken).ErrorState? then HandleError(state) else ValueInvalid
  }

  /** What is left of the loop between two tokens. */
  function Tokens(c: Config, s: seq<Byte>, k: Conf): Ending
    requires Wf(k) && k.st.pos <= |s| && !k.state.FinishState?
    decreases |s| - k.st.pos, 0
  {
    if Peek(s, k.st.pos) == 0 then Clean(Err(HandleError(k.state), k.st.pos, k.st.evs))
    else
      match Ws(c, s, k.st)
      case Err(_, offset, _) => DirtyRun(c, s, k.(st := St(offset, k.st.evs)))
      case Ok(at) =>
        if Peek(s, at.pos) == 0 then Clean(Err(EndCode(k.state), at.pos, at.evs))
        else
          TokensAfter(c, s, Turn(c, s, k.(st := at)))
  }

  /** What is left of the loop after a turn. */
  function TokensAfter(c: Config, s: seq<Byte>, t: Step): Ending
    requires !t.Stuck? && (t.Go? ==> Wf(t.next) && t.next.st.pos <= |s|)
    decreases if t.Go? then |s| - t.next.st.pos else 0, 1
  {
    match t
    case Fail(code, offset, evs) => Clean(Err(code, offset, evs))
    case Go(next) => if next.state.FinishState? then Last(c, s, next.st) else Tokens(c, s, next)
  }

  /** After the root value. */
  function Last(c: Config, s: seq<Byte>, st: St): Ending
    requires st.pos <= |s|
  {
    if c.stopWhenDone then Clean(Ok(st))
    else
      match Ws(c, s, st)
      case Err(_, offset, _) => Dirty(st.evs, Peek(s, offset) == 0)
      case Ok(at) =>
        Clean(if Peek(s, at.pos) == 0 then Ok(at) else Err(DocumentRootNotSingular, at.pos, at.evs))
  }

  const START: Conf := Conf(StartState, [], St(0, []))

  function TokenByToken(c: Config, s: seq<Byte>): Ending {
    Tokens(c, s, START)
  }

  // When it agrees with the other two parsers.

  /** The configuration in which a malformed comment is met, with the cursor where the error is. */
  function MalformedComment(c: Config, s: seq<Byte>, k: Conf): (m: Option<Conf>)
    requires Wf(k) && k.st.pos <= |s|
    ensures m.Some? ==> Wf(m.value) && m.value.st.pos <= |s|
    decreases |s| - k.st.pos
  {
    if k.state.FinishState? && c.stopWhenDone then None
    else
      match Ws(c, s, k.st)
      case Err(_, offset, _) => Some(k.(st := St(offset, k.st.evs)))
      case Ok(at) =>
        if Peek(s, at.pos) == 0 then None
        else
          match Turn(c, s, k.(st := at))
          case Fail(_, _, _) => None
          case Go(next) => MalformedComment(c, s, next)
  }

  /** A scalar that is no string stands at `i`, whole. */
  predicate ScalarAt(c: Config, s: seq<Byte>, i: nat)
    requires i < |s|
  {
    if s[i] == LOWER_N then MatchEnd(s, i + 1, NULL_TEXT, 1) == i + |NULL_TEXT|
    else if s[i] == LOWER_T then MatchEnd(s, i + 1, TRUE_TEXT, 1) == i + |TRUE_TEXT|
    else if s[i] == LOWER_F then MatchEnd(s, i + 1, FALSE_TEXT, 1) == i + |FALSE_TEXT|
    else s[i] != QUOTE && Numbers.Lex(c, s, i).Number?
  }

  /**
   * The handler would hear of the text at `i`, where `state` stands: of a bracket or of a scalar that is no string,
   * right here or behind a comma or colon.
   */
  predicate Audible(c: Config, s: seq<Byte>, state: State, i: nat)
    requires i <= |s|
    decreases |s| - i
  {
    Peek(s, i) != 0 &&
    match Predict(state, Tokenize(s[i]))
    case ErrorState => false
    case ObjectInitialState => true
    case ArrayInitialState => true
    case ObjectFinishState => c.trailingCommas || !state.MemberDelimiterState?
    case ArrayFinishState => c.trailingCommas || !state.ElementDelimiterState?
    case ElementState => ScalarAt(c, s, i)
    case MemberValueState => ScalarAt(c, s, i)
    case ValueState => ScalarAt(c, s, i)
    case KeyValueDelimiterState => Audible(c, s, KeyValueDelimiterState, Reached(c, s, St(i + 1, [])).pos)
    case MemberDelimiterState => Audible(c, s, MemberDelimiterState, Reached(c, s, St(i + 1, [])).pos)
    case ElementDelimiterState => Audible(c, s, ElementDelimiterState, Reached(c, s, St(i + 1, [])).pos)
    case _ => false
  }

  /** Nothing comes of a malformed comment here: the next call answers no, and the handler hears nothing more. */
  predicate Harmless(c: Config, s: seq<Byte>, k: Conf)
    requires k.st.pos <= |s|
  {
    if k.state.FinishState? then Peek(s, k.st.pos) != 0 else !Audible(c, s, k.state, k.st.pos)
  }

  /** The two runs end alike, but for a text of nothing but white space, which the loop takes for a bad value. */
  predicate SameEnd(r: Outcome, t: Outcome) {
    match r
    case Ok(st) => t == r
    case Err(code, offset, evs) =>
      && t.Err? && t.offset == offset && t.evs == evs
      && (code == t.code || (code.ValueInvalid? && t.code.DocumentEmpty?))
  }

  /** Only white space and comments are reported as unspecific errors. */
  lemma TurnCode(c: Config, s: seq<Byte>, k: Conf)
    requires Wf(k) && k.st.pos < |s|
    ensures Turn(c, s, k).Fail? ==> !Turn(c, s, k).code.UnspecificSyntaxError?
  {
    var dst := Predict(k.state, Tokenize(s[k.st.pos]));
    if TakesScalar(dst) {
      ScalarValue(c, s, k, dst);
    } else {
      hide PValue, Frames;
      StringCode(c, s, k.st.pos + 1);
    }
  }

  /** A state that takes a scalar is never predicted before a bracket. */
  lemma ScalarValue(c: Config, s: seq<Byte>, k: Conf, dst: State)
    requires Wf(k) && k.st.pos < |s| && dst == Predict(k.state, Tokenize(s[k.st.pos])) && TakesScalar(dst)
    ensures var r := PValue(c, s, k.st);
            && Transit(c, s, k, dst) == FromOutcome(r, if dst.ValueState? then FinishState else dst, k.stack)
            && (r.Err? ==> !r.code.UnspecificSyntaxError?)
            && k.st.evs <= EventsIn(r)
            && (if s[k.st.pos] == QUOTE then !ScalarAt(c, s, k.st.pos)
                else EventsIn(r) == k.st.evs <==> !ScalarAt(c, s, k.st.pos))
  {
    hide Frames, MatchEnd;
    StringCode(c, s, k.st.pos + 1);
    NumberCode(c, s, k.st.pos);
    hide Numbers.Lex;
  }

  lemma {:induction false} StringCode(c: Config, s: seq<Byte>, i: nat)
    requires i <= |s|
    ensures match Strings.Decode(s, i) case Invalid(code, _) => !code.UnspecificSyntaxError? case _ => true
    decreases |s| - i
  {
    var u := Strings.NextUnit(s, i);
    if u.Piece? { StringCode(c, s, u.next); }
  }

  lemma NumberCode(c: Config, s: seq<Byte>, i: nat)
    requires i <= |s|
    ensures match Numbers.Lex(c, s, i) case Malformed(code, _) => !code.UnspecificSyntaxError? case _ => true
  {
    hide Numbers.Val, Numbers.DigitsEnd, Numbers.FractionScale;
  }

  lemma LastEnds(c: Config, s: seq<Byte>, k: Conf)
    requires Wf(k) && k.st.pos <= |s| && k.state.FinishState?
    ensures var e, m, r := Last(c, s, k.st), MalformedComment(c, s, k), After(c, s, k);
            && (m.None? ==> e == Clean(r) && !(r.Err? && r.code.UnspecificSyntaxError?))
            && (m.Some? ==> m.value.state.FinishState? && e == Dirty(r.evs, Peek(s, r.offset) == 0))
            && (m.Some? ==> r == Err(UnspecificSyntaxError, m.value.st.pos, m.value.st.evs))
  {
    hide Frames, PValue, PString, Ws;
  }

  lemma Unfold(c: Config, s: seq<Byte>, k: Conf, at: St)
    requires Wf(k) && k.st.pos <= |s| && !k.state.FinishState?
    requires Ws(c, s, k.st) == Ok(at) && Peek(s, at.pos) != 0
    ensures var t := Turn(c, s, k.(st := at));
            && Tokens(c, s, k) == TokensAfter(c, s, t)
            && (t.Fail? ==> After(c, s, k) == Err(t.code, t.offset, t.evs) && MalformedComment(c, s, k) == None)
            && (t.Go? ==> After(c, s, k) == After(c, s, t.next))
            && (t.Go? ==> MalformedComment(c, s, k) == MalformedComment(c, s, t.next))
  {
    hide Turn, Frames, Last;
    if Peek(s, k.st.pos) == 0 { EndStays(c, s, k.st); }
  }

  /** No white space is left at the end of the input. */
  lemma EndStays(c: Config, s: seq<Byte>, st: St)
    requires st.pos <= |s| && Peek(s, st.pos) == 0
    ensures Ws(c, s, st) == Ok(st)
  {
  }

  /** One turn of the loop. */
  lemma TokensUnfold(c: Config, s: seq<Byte>, k: Conf)
    requires Wf(k) && k.st.pos <= |s| && !k.state.FinishState?
    ensures var at := k.(st := Reached(c, s, k.st));
            && (Peek(s, k.st.pos) == 0 ==> Tokens(c, s, k) == Clean(Err(HandleError(k.state), k.st.pos, k.st.evs)))
            && (Peek(s, k.st.pos) != 0 && Ws(c, s, k.st).Ok? ==>
                  Tokens(c, s, k) == if Peek(s, at.st.pos) == 0 then Clean(Err(EndCode(k.state), at.st.pos, at.st.evs))
                                     else TokensAfter(c, s, Turn(c, s, at)))
            && (Peek(s, k.st.pos) != 0 && Ws(c, s, k.st).Err? ==> Tokens(c, s, k) == DirtyRun(c, s, at))
            && DirtyTokens(c, s, k) == DirtyRun(c, s, at)
  {
    hide Turn, TokensAfter, Frames, EndCode;
  }

  /** Without a malformed comment the loop ends as the other parsers do; with one they all stop there, but not the loop. */
  lemma {:induction false} CleanEnds(c: Config, s: seq<Byte>, k: Conf)
    requires Wf(k) && k.st.pos <= |s| && !k.state.FinishState?
    ensures var e, m, r := Tokens(c, s, k), MalformedComment(c, s, k), After(c, s, k);
            && (m.None? ==> e.Clean? && SameEnd(e.r, r) && !(r.Err? && r.code.UnspecificSyntaxError?))
            && (m.Some? ==> r == Err(UnspecificSyntaxError, m.value.st.pos, m.value.st.evs))
            && (m.Some? ==> e == if m.value.state.FinishState? then Dirty(r.evs, Peek(s, r.offset) == 0)
                                 else DirtyRun(c, s, m.value))
    decreases |s| - k.st.pos
  {
    hide Turn, Frames, DirtyRun, SkipSpaces;
    var w := Ws(c, s, k.st);
    if Peek(s, k.st.pos) == 0 {
      EndStays(c, s, k.st);
    } else if w.Ok? && Peek(s, w.st.pos) != 0 {
      var at := k.(st := w.st);
      Unfold(c, s, k, w.st);
      TurnCode(c, s, at);
      hide Ws, Tokens, MalformedComment, After;
      var t := Turn(c, s, at);
      if t.Go? {
        if t.next.state.FinishState? {
          LastEnds(c, s, t.next);
        } else {
          CleanEnds(c, s, t.next);
        }
      }
    }
  }

  // What the handler hears after a malformed comment.

  /** The white space does not depend on what has been sent. */
  lemma {:induction false} ReachedAlike(c: Config, s: seq<Byte>, st: St)
    requires st.pos <= |s|
    ensures Reached(c, s, st).pos == Reached(c, s, St(st.pos, [])).pos
  {
    var i := SkipSpaces(s, st.pos);
    CommentsAlike(s, St(i, st.evs));
  }

  lemma {:induction false} CommentsAlike(s: seq<Byte>, st: St)
    requires st.pos <= |s|
    ensures match SkipComments(s, st)
            case Ok(at) => SkipComments(s, St(st.pos, [])) == Ok(St(at.pos, []))
            case Err(code, offset, _) => SkipComments(s, St(st.pos, [])) == Err(code, offset, [])
    decreases |s| - st.pos
  {
    hide SkipSpaces, SkipComment;
    if Peek(s, st.pos) == SLASH {
      var b := SkipComment(s, st.pos);
      if b.Closed? { CommentsAlike(s, St(SkipSpaces(s, b.pos), st.evs)); }
    }
  }

  /** One token with an error set: what is sent is kept, and it is something exactly when the token is audible. */
  lemma DirtyTurn(c: Config, s: seq<Byte>, k: Conf)
    requires Wf(k) && k.st.pos <= |s| && Peek(s, k.st.pos) != 0
    ensures var dst := Predict(k.state, Tokenize(s[k.st.pos]));
            match DirtyTransit(c, s, k, dst)
            case Ends(evs) =>
              k.st.evs <= evs && (evs == k.st.evs <==> !Audible(c, s, k.state, k.st.pos))
            case Goes(next) =>
              && k.st.evs <= next.st.evs && next.st.pos == k.st.pos + 1
              && if IsDelimiter(dst) then next.st.evs == k.st.evs && next.state == dst
                 else next.st.evs != k.st.evs && Audible(c, s, k.state, k.st.pos)
  {
    hide Frames, Reached, PValue, PString, Close, ScalarAt;
    var dst := Predict(k.state, Tokenize(s[k.st.pos]));
    if TakesScalar(dst) {
      ScalarValue(c, s, k, dst);
    } else if dst.ObjectFinishState? || dst.ArrayFinishState? {
      FramesInside(k);
      CloseSends(c, k, k.state.MemberValueState?, true);
      CloseSends(c, k, k.state.ElementState?, false);
    }
  }

  lemma FramesInside(k: Conf)
    requires Wf(k) && (InObject(k.state) || InArray(k.state))
    ensures Frames(k.stack) && |k.stack| >= 2
  {
  }

  predicate IsDelimiter(dst: State) {
    dst.KeyValueDelimiterState? || dst.MemberDelimiterState? || dst.ElementDelimiterState?
  }

  lemma CloseSends(c: Config, k: Conf, last: bool, isObject: bool)
    requires Frames(k.stack) && |k.stack| >= 2
    ensures match Close(c, k, last, isObject)
            case Go(next) => next.st.pos == k.st.pos + 1 && |next.st.evs| == |k.st.evs| + 1 && k.st.evs <= next.st.evs
            case Fail(_, _, evs) => |evs| == |k.st.evs| + 1 && k.st.evs <= evs
            case Stuck => false
  {
    hide Frames;
  }

  /** The run with an error set never takes back what was sent, and sends something more exactly when it is audible. */
  lemma {:induction false} DirtyHeard(c: Config, s: seq<Byte>, k: Conf)
    requires Wf(k) && k.st.pos <= |s| && !k.state.FinishState?
    ensures k.st.evs <= DirtyRun(c, s, k).evs
    ensures DirtyRun(c, s, k).evs == k.st.evs <==> !Audible(c, s, k.state, k.st.pos)
    ensures !Audible(c, s, k.state, k.st.pos) ==> !DirtyRun(c, s, k).complete
    decreases |s| - k.st.pos
  {
    hide DirtyTransit, Frames, Reached;
    if Peek(s, k.st.pos) != 0 {
      DirtyTurn(c, s, k);
      var dst := Predict(k.state, Tokenize(s[k.st.pos]));
      hide Predict, Tokenize;
      var t := DirtyTransit(c, s, k, dst);
      if t.Goes? {
        var at := Reached(c, s, t.next.st);
        ReachedAlike(c, s, t.next.st);
        if !t.next.state.FinishState? { DirtyHeard(c, s, t.next.(st := at)); }
      }
    }
  }

  lemma Started(c: Config, s: seq<Byte>)
    ensures Wf(START) && After(c, s, START) == IterativeParse(c, s)
  {
  }

  /** Same events, and the same answer. */
  predicate Agree(e: Ending, r: Outcome) {
    Sent(e) == EventsIn(r) && (Completes(e) <==> r.Ok?)
  }

  /**
   * For every input, flag setting and handler: the token-by-token loop agrees with both parsers exactly when they
   * meet no malformed comment, or meet one that nothing comes of: behind it stands nothing that the handler hears of,
   * and, if the root value is complete, not the end of the input either.
   */
  lemma TokensAgree(c: Config, s: seq<Byte>)
    ensures var e, m, r := TokenByToken(c, s), MalformedComment(c, s, START), IterativeParse(c, s);
            && (m.None? <==> e.Clean?) && (m.None? <==> !(r.Err? && r.code.UnspecificSyntaxError?))
            && (m.None? ==> SameEnd(e.r, r))
            && (m.Some? ==> r == Err(UnspecificSyntaxError, m.value.st.pos, m.value.st.evs))
            && (Agree(e, r) <==> m.None? || Harmless(c, s, m.value))
            && (Agree(e, Parse(c, s)) <==> Agree(e, r))
  {
    hide After, Frames, Tokens, MalformedComment, Audible, Parse, IterativeParse;
    Started(c, s);
    CleanEnds(c, s, START);
    Equivalence.ParsersAgree(c, s);
    var m := MalformedComment(c, s, START);
    if m.Some? && !m.value.state.FinishState? { DirtyHeard(c, s, m.value); }
  }

  const SLASHED: seq<Byte> := [SLASH, LBRACKET, RBRACKET]

  /** With the comment flag, `/[]` is no JSON text; the loop nevertheless sends an empty array and is complete. */
  lemma SlashGoesUnnoticed(c: Config)
    requires c.comments && c.accepts([StartArray]) && c.accepts([StartArray, EndArray(0)])
    ensures Parse(c, SLASHED) == Err(UnspecificSyntaxError, 1, [])
    ensures TokenByToken(c, SLASHED) == Dirty([StartArray, EndArray(0)], true)
  {
    var open := Conf(ArrayInitialState, [Code(StartState), 0], St(2, [StartArray]));
    assert Ws(c, SLASHED, St(0, [])) == Err(UnspecificSyntaxError, 1, []);
    OpenStep(c);
    CloseStep(c);
    hide DirtyTransit, Predict, Tokenize, Ws;
    EndStays(c, SLASHED, St(3, [StartArray, EndArray(0)]));
    BracketStays(c);
    assert DirtyRun(c, SLASHED, open) == Dirty([StartArray, EndArray(0)], true);
    assert DirtyTokens(c, SLASHED, open) == Dirty([StartArray, EndArray(0)], true);
    assert DirtyRun(c, SLASHED, START.(st := St(1, []))) == Dirty([StartArray, EndArray(0)], true);
  }

  lemma OpenStep(c: Config)
    requires c.accepts([StartArray])
    ensures DirtyTransit(c, SLASHED, Conf(StartState, [], St(1, [])), Predict(StartState, Tokenize(SLASHED[1]))) ==
            Goes(Conf(ArrayInitialState, [Code(StartState), 0], St(2, [StartArray])))
  {
    var k := Conf(StartState, [], St(1, []));
    assert k.stack + [Code(StartState), 0] == [Code(StartState), 0];
    assert [] + [StartArray] == [StartArray];
  }

  lemma CloseStep(c: Config)
    requires c.accepts([StartArray, EndArray(0)])
    ensures var k := Conf(ArrayInitialState, [Code(StartState), 0], St(2, [StartArray]));
            && Wf(k)
            && DirtyTransit(c, SLASHED, k, Predict(ArrayInitialState, Tokenize(SLASHED[2]))) ==
               Goes(Conf(FinishState, [], St(3, [StartArray, EndArray(0)])))
  {
    var k := Conf(ArrayInitialState, [Code(StartState), 0], St(2, [StartArray]));
    assert Below(k.stack) == [];
    assert Frames(Below(k.stack));
    assert [StartArray] + [EndArray(0)] == [StartArray, EndArray(0)];
  }

  lemma BracketStays(c: Config)
    ensures Ws(c, SLASHED, St(2, [StartArray])) == Ok(St(2, [StartArray]))
  {
  }

  /** A malformed comment can be harmless: on `/` both refuse and send nothing. */
  lemma SlashMayBeHarmless(c: Config)
    requires c.comments
    ensures Parse(c, [SLASH]) == Err(UnspecificSyntaxError, 1, [])
    ensures TokenByToken(c, [SLASH]) == Dirty([], false)
  {
    assert Ws(c, [SLASH], St(0, [])) == Err(UnspecificSyntaxError, 1, []);
  }
}
