/** The table-driven parser (`Tokenize`, `Predict`, `Transit`, `IterativeParse`; reader.h). */
module Automaton {
  import opened Chars
  import opened Events
  import opened Whitespace
  import opened Grammar

  datatype State =
    | FinishState
    | ErrorState
    | StartState
    | ObjectInitialState
    | MemberKeyState
    | MemberValueState
    | ObjectFinishState
    | ArrayInitialState
    | ElementState
    | ArrayFinishState
    | ValueState
    | ElementDelimiterState
    | MemberDelimiterState
    | KeyValueDelimiterState

  /** The position of a state in the enumeration; this number is what goes on the stack. */
  function Code(st: State): nat {
    match st
    case FinishState => 0
    case ErrorState => 1
    case StartState => 2
    case ObjectInitialState => 3
    case MemberKeyState => 4
    case MemberValueState => 5
    case ObjectFinishState => 6
    case ArrayInitialState => 7
    case ElementState => 8
    case ArrayFinishState => 9
    case ValueState => 10
    case ElementDelimiterState => 11
    case MemberDelimiterState => 12
    case KeyValueDelimiterState => 13
  }

  /** The cast back from a stack entry. */
  function StateOf(code: nat): State {
    match code
    case 0 => FinishState
    case 2 => StartState
    case 3 => ObjectInitialState
    case 4 => MemberKeyState
    case 5 => MemberValueState
    case 6 => ObjectFinishState
    case 7 => ArrayInitialState
    case 8 => ElementState
    case 9 => ArrayFinishState
    case 10 => ValueState
    case 11 => ElementDelimiterState
    case 12 => MemberDelimiterState
    case 13 => KeyValueDelimiterState
    case _ => ErrorState
  }

  datatype Token =
    | LeftBracket | RightBracket | LeftCurly | RightCurly | Comma | Colon
    | StringToken | FalseToken | TrueToken | NullToken | NumberToken

  function Tokenize(b: Byte): Token {
    if b == LBRACKET then LeftBracket
    else if b == RBRACKET then RightBracket
    else if b == LBRACE then LeftCurly
    else if b == RBRACE then RightCurly
    else if b == COMMA then Comma
    else if b == COLON then Colon
    else if b == QUOTE then StringToken
    else if b == LOWER_F then FalseToken
    else if b == LOWER_T then TrueToken
    else if b == LOWER_N then NullToken
    else NumberToken
  }

  /** The row of the table for a state that expects a value; a lone value leads to `scalar`. */
  function PredictValue(token: Token, scalar: State, close: State): State {
    match token
    case LeftBracket => ArrayInitialState
    case LeftCurly => ObjectInitialState
    case RightBracket => close
    case RightCurly => ErrorState
    case Comma => ErrorState
    case Colon => ErrorState
    case _ => scalar
  }

  /** Current state and lookahead token to candidate state. */
  function Predict(state: State, token: Token): State {
    match state
    case StartState => PredictValue(token, ValueState, ErrorState)
    case ObjectInitialState =>
      if token.RightCurly? then ObjectFinishState else if token.StringToken? then MemberKeyState else ErrorState
    case MemberKeyState =>
      if token.Colon? then KeyValueDelimiterState else ErrorState
    case MemberValueState =>
      if token.RightCurly? then ObjectFinishState else if token.Comma? then MemberDelimiterState else ErrorState
    case ArrayInitialState => PredictValue(token, ElementState, ArrayFinishState)
    case ElementState =>
      if token.RightBracket? then ArrayFinishState else if token.Comma? then ElementDelimiterState else ErrorState
    case ElementDelimiterState => PredictValue(token, ElementState, ArrayFinishState)
    case MemberDelimiterState =>
      if token.RightCurly? then ObjectFinishState else if token.StringToken? then MemberKeyState else ErrorState
    case KeyValueDelimiterState => PredictValue(token, MemberValueState, ErrorState)
    case _ => ErrorState
  }

  /** Which states each candidate can come from. */
  lemma PredictFrom(state: State, token: Token)
    ensures var dst := Predict(state, token);
            && !dst.StartState? && !dst.FinishState?
            && (dst.ObjectInitialState? || dst.ArrayInitialState? ==>
                  || state.StartState? || state.ArrayInitialState?
                  || state.ElementDelimiterState? || state.KeyValueDelimiterState?)
            && (dst.MemberKeyState? ==> state.ObjectInitialState? || state.MemberDelimiterState?)
            && (dst.KeyValueDelimiterState? ==> state.MemberKeyState?)
            && (dst.MemberValueState? ==> state.KeyValueDelimiterState?)
            && (dst.ElementState? ==> InArray(state))
            && (dst.MemberDelimiterState? ==> state.MemberValueState?)
            && (dst.ElementDelimiterState? ==> state.ElementState?)
            && (dst.ObjectFinishState? ==> InObject(state))
            && (dst.ArrayFinishState? ==> InArray(state))
            && (dst.ValueState? ==> state.StartState?)
  {
  }

  /** State, stack of (return state, count) pairs flattened as in the source, cursor and events. */
  datatype Conf = Conf(state: State, stack: seq<nat>, st: St)

  predicate InObject(state: State) {
    || state.ObjectInitialState? || state.MemberKeyState? || state.MemberValueState?
    || state.MemberDelimiterState? || state.KeyValueDelimiterState?
  }

  predicate InArray(state: State) {
    state.ArrayInitialState? || state.ElementState? || state.ElementDelimiterState?
  }

  /** A return state fits on top of the frames below it: Start at the bottom, Element or MemberValue above. */
  predicate Fits(stack: seq<nat>, code: nat) {
    if stack == [] then code == Code(StartState) else code == Code(ElementState) || code == Code(MemberValueState)
  }

  /** Pairs of a return state and a count, with the return states as `Fits` says. */
  predicate Frames(stack: seq<nat>) {
    stack == [] || (|stack| >= 2 && Fits(Below(stack), stack[|stack| - 2]) && Frames(Below(stack)))
  }

  /** The stack under its top frame. */
  function Below(stack: seq<nat>): seq<nat>
    requires |stack| >= 2
  {
    stack[..|stack| - 2]
  }

  /** The stacks that go with a state between two tokens. */
  predicate Shape(state: State, stack: seq<nat>) {
    && Frames(stack)
    && if stack == [] then (state.StartState? || state.FinishState?) else InObject(state) || InArray(state)
  }

  predicate Wf(k: Conf) {
    Shape(k.state, k.stack)
  }

  datatype Step = Go(next: Conf) | Fail(code: ErrorCode, offset: nat, evs: seq<Event>) | Stuck

  function FromOutcome(r: Outcome, state: State, stack: seq<nat>): Step {
    match r
    case Ok(st) => Go(Conf(state, stack, st))
    case Err(code, offset, evs) => Fail(code, offset, evs)
  }

  /** The state to come back to when a container opened in `src` is closed. */
  function ReturnState(src: State): State {
    match src
    case ArrayInitialState => ElementState
    case ElementDelimiterState => ElementState
    case KeyValueDelimiterState => MemberValueState
    case _ => src
  }

  /** A frame for a container that opens: where to return to, and no items yet. */
  function Pushed(k: Conf): (stack: seq<nat>)
    requires Frames(k.stack) && Fits(k.stack, Code(ReturnState(k.state)))
    ensures |stack| >= 2 && Frames(stack)
  {
    var stack := k.stack + [Code(ReturnState(k.state)), 0];
    assert Below(stack) == k.stack;
    stack
  }

  /** Pops count and return state; `last` says whether the container has one more item than its count. */
  function Close(c: Config, k: Conf, last: bool, isObject: bool): (r: Step)
    requires Frames(k.stack) && |k.stack| >= 2
    ensures r.Go? ==> Wf(r.next) && r.next.st.pos == k.st.pos + 1
    ensures !r.Stuck?
  {
    var top := k.stack[|k.stack| - 1];
    var n := if last then Increment(top) else top;
    var ret := StateOf(k.stack[|k.stack| - 2]);
    var next := if ret.StartState? then FinishState else ret;
    var e := if isObject then EndObject(n) else EndArray(n);
    FromOutcome(Emit(c, k.st, e, k.st.pos + 1, k.st.pos), next, Below(k.stack))
  }

  /** `Transit`: acts on the candidate state `dst` predicted from `k.state` and the character under the cursor. */
  function Transit(c: Config, s: seq<Byte>, k: Conf, dst: State): (r: Step)
    requires Wf(k) && k.st.pos < |s|
    requires dst == Predict(k.state, Tokenize(s[k.st.pos]))
    ensures r.Go? ==> Wf(r.next) && k.st.pos < r.next.st.pos <= |s|
    ensures r.Stuck? <==> dst.ErrorState?
  {
    PredictFrom(k.state, Tokenize(s[k.st.pos]));
    hide PValue, PString, Emit, Frames, Close, Pushed, Delimiter, Predict, Tokenize;
    var pos := k.st.pos;
    match dst
    case ErrorState => Stuck
    case ObjectInitialState =>
      FromOutcome(Emit(c, k.st, StartObject, pos + 1, pos), dst, Pushed(k))
    case ArrayInitialState =>
      FromOutcome(Emit(c, k.st, StartArray, pos + 1, pos), dst, Pushed(k))
    case MemberKeyState => FromOutcome(PString(c, s, k.st, true), dst, k.stack)
    case KeyValueDelimiterState => Go(k.(state := dst, st := k.st.(pos := pos + 1)))
    case MemberValueState => FromOutcome(PValue(c, s, k.st), dst, k.stack)
    case ElementState => FromOutcome(PValue(c, s, k.st), dst, k.stack)
    case MemberDelimiterState => Delimiter(k, dst)
    case ElementDelimiterState => Delimiter(k, dst)
    case ObjectFinishState =>
      if !c.trailingCommas && k.state.MemberDelimiterState? then Fail(ObjectMissName, pos, k.st.evs)
      else Close(c, k, k.state.MemberValueState?, true)
    case ArrayFinishState =>
      if !c.trailingCommas && k.state.ElementDelimiterState? then Fail(ValueInvalid, pos, k.st.evs)
      else Close(c, k, k.state.ElementState?, false)
    case ValueState => FromOutcome(PValue(c, s, k.st), FinishState, k.stack)
    case _ => Stuck
  }

  /** A container opens: a frame is pushed and the handler told. */
  lemma Opening(c: Config, s: seq<Byte>, k: Conf, dst: State)
    requires Wf(k) && k.st.pos < |s| && dst == Predict(k.state, Tokenize(s[k.st.pos]))
    requires dst.ObjectInitialState? || dst.ArrayInitialState?
    ensures Frames(k.stack) && Fits(k.stack, Code(ReturnState(k.state)))
    ensures Pushed(k) == k.stack + [Code(ReturnState(k.state)), 0]
    ensures var e := if dst.ObjectInitialState? then StartObject else StartArray;
            Transit(c, s, k, dst) == FromOutcome(Emit(c, k.st, e, k.st.pos + 1, k.st.pos), dst, Pushed(k))
  {
    PredictFrom(k.state, Tokenize(s[k.st.pos]));
    hide PValue, PString, Emit, Frames, Close, Delimiter, Predict, Tokenize;
  }

  /** A comma: one more item is complete. */
  function Delimiter(k: Conf, dst: State): (r: Step)
    requires Frames(k.stack) && |k.stack| >= 2
    ensures r.Go? && Frames(r.next.stack) && |r.next.stack| == |k.stack|
  {
    var top := |k.stack| - 1;
    var stack := k.stack[top := Increment(k.stack[top])];
    assert Below(stack) == Below(k.stack);
    Go(Conf(dst, stack, k.st.(pos := k.st.pos + 1)))
  }

  /** `HandleError` for a parse that stops in `state` without an error of its own. */
  function HandleError(state: State): ErrorCode {
    match state
    case StartState => DocumentEmpty
    case FinishState => DocumentRootNotSingular
    case ObjectInitialState => ObjectMissName
    case MemberDelimiterState => ObjectMissName
    case MemberKeyState => ObjectMissColon
    case MemberValueState => ObjectMissCommaOrCurlyBracket
    case KeyValueDelimiterState => ValueInvalid
    case ArrayInitialState => ValueInvalid
    case ElementDelimiterState => ValueInvalid
    case _ => ArrayMissCommaOrSquareBracket
  }

  /** One turn of the loop of `IterativeParse` up to the new state. */
  function Turn(c: Config, s: seq<Byte>, k: Conf): (r: Step)
    requires Wf(k) && k.st.pos < |s|
    ensures r.Go? ==> Wf(r.next) && k.st.pos < r.next.st.pos <= |s|
    ensures !r.Stuck?
  {
    var t := Transit(c, s, k, Predict(k.state, Tokenize(s[k.st.pos])));
    if t.Stuck? then Fail(HandleError(k.state), k.st.pos, k.st.evs) else t
  }

  /** The rest of a turn: stop, or skip white space and loop. */
  function After(c: Config, s: seq<Byte>, k: Conf): (r: Outcome)
    requires Wf(k) && k.st.pos <= |s|
    ensures r.Ok? ==> r.st.pos <= |s|
    decreases |s| - k.st.pos, 1
  {
    if c.stopWhenDone && k.state.FinishState? then Ok(k.st)
    else
      var at :- Ws(c, s, k.st);
      Run(c, s, k.(st := at))
  }

  /** The loop of `IterativeParse`, from a configuration whose cursor is past white space. */
  function Run(c: Config, s: seq<Byte>, k: Conf): (r: Outcome)
    requires Wf(k) && k.st.pos <= |s|
    ensures r.Ok? ==> r.st.pos <= |s|
    decreases |s| - k.st.pos, 0
  {
    if Peek(s, k.st.pos) == 0 then
      if k.state.FinishState? then Ok(k.st) else Err(HandleError(k.state), k.st.pos, k.st.evs)
    else
      match Turn(c, s, k)
      case Fail(code, offset, evs) => Err(code, offset, evs)
      case Go(next) => After(c, s, next)
  }

  function IterativeParse(c: Config, s: seq<Byte>): (r: Outcome)
    ensures r.Ok? ==> r.st.pos <= |s|
  {
    var start :- Ws(c, s, St(0, []));
    Run(c, s, Conf(StartState, [], start))
  }
}
