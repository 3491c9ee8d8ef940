/**
 * The stack discipline of the table-driven parser. The stack never says which bracket opened a container; the
 * events sent so far do. In every reachable configuration the two agree.
 */
module Discipline {
  import opened Chars
  import opened Events
  import opened Whitespace
  import opened Grammar
  import opened Automaton
  import Numbers
  import Strings

  datatype Kind = ObjectKind | ArrayKind

  /** The containers still open after `evs`, outermost first; none if some closing event does not match. */
  function Nesting(evs: seq<Event>): Option<seq<Kind>> {
    if evs == [] then Some([])
    else
      var before := Nesting(evs[..|evs| - 1]);
      if before.None? then None else Nest(before.value, evs[|evs| - 1])
  }

  function Nest(open: seq<Kind>, e: Event): Option<seq<Kind>> {
    match e
    case StartObject => Some(open + [ObjectKind])
    case StartArray => Some(open + [ArrayKind])
    case EndObject(_) => Unnest(open, ObjectKind)
    case EndArray(_) => Unnest(open, ArrayKind)
    case _ => Some(open)
  }

  function Unnest(open: seq<Kind>, kind: Kind): Option<seq<Kind>> {
    if open != [] && open[|open| - 1] == kind then Some(open[..|open| - 1]) else None
  }

  predicate IsBracket(e: Event) {
    e.StartObject? || e.StartArray? || e.EndObject? || e.EndArray?
  }

  /** The state to come back to inside the innermost of `open`. */
  function Resume(open: seq<Kind>): State {
    if open == [] then StartState
    else if open[|open| - 1] == ArrayKind then ElementState
    else MemberValueState
  }

  /** One frame for each open container, and its return state is the one of the container around it. */
  predicate Mirrors(stack: seq<nat>, open: seq<Kind>) {
    if open == [] then stack == []
    else
      var around := open[..|open| - 1];
      |stack| >= 2 && stack[|stack| - 2] == Code(Resume(around)) && Mirrors(Below(stack), around)
  }

  /** The current state belongs to the innermost open container. */
  predicate Belongs(state: State, open: seq<Kind>) {
    if open == [] then state.StartState? || state.FinishState?
    else if open[|open| - 1] == ArrayKind then InArray(state)
    else InObject(state)
  }

  predicate Disciplined(k: Conf) {
    var open := Nesting(k.st.evs);
    open.Some? && Mirrors(k.stack, open.value) && Belongs(k.state, open.value)
  }

  /** The configuration at the top of the loop of `IterativeParse` after `n` tokens, if the parse gets there. */
  function ConfAt(c: Config, s: seq<Byte>, n: nat): (k: Option<Conf>)
    ensures k.Some? ==> Wf(k.value) && k.value.st.pos <= |s|
  {
    if n == 0 then
      var start := Ws(c, s, St(0, []));
      if start.Ok? then Some(Conf(StartState, [], start.st)) else None
    else
      var k := ConfAt(c, s, n - 1);
      if k.None? || Peek(s, k.value.st.pos) == 0 then None
      else
        var t := Turn(c, s, k.value);
        if t.Fail? || (c.stopWhenDone && t.next.state.FinishState?) then None
        else
          var at := Ws(c, s, t.next.st);
          if at.Ok? then Some(t.next.(st := at.st)) else None
  }

  lemma NestingStep(evs: seq<Event>, e: Event)
    requires Nesting(evs).Some?
    ensures Nesting(evs + [e]) == Nest(Nesting(evs).value, e)
  {
    assert (evs + [e])[..|evs|] == evs;
  }

  /** A value that does not start with a bracket sends one event, and not a bracket. */
  lemma ScalarEvent(c: Config, s: seq<Byte>, st: St) returns (e: Event)
    requires st.pos <= |s| && Peek(s, st.pos) != LBRACE && Peek(s, st.pos) != LBRACKET
    ensures PValue(c, s, st).Ok? ==> PValue(c, s, st).st.evs == st.evs + [e] && !IsBracket(e)
  {
    hide Numbers.Lex, MatchEnd, Strings.Decode, Emit;
    var b := Peek(s, st.pos);
    if b == LOWER_N { e := Null; }
    else if b == LOWER_T { e := Bool(true); }
    else if b == LOWER_F { e := Bool(false); }
    else if b == QUOTE { e := StringSent(c, s, st); }
    else { e := NumberSent(c, s, st); }
  }

  lemma StringSent(c: Config, s: seq<Byte>, st: St) returns (e: Event)
    requires st.pos < |s|
    ensures PString(c, s, st, false).Ok? ==> PString(c, s, st, false).st.evs == st.evs + [e]
    ensures e.String?
  {
    var bytes: seq<Byte> :|
      PString(c, s, st, false).Ok? ==> PString(c, s, st, false).st.evs == st.evs + [StringEvent(false, bytes)];
    e := StringEvent(false, bytes);
  }

  lemma NumberSent(c: Config, s: seq<Byte>, st: St) returns (e: Event)
    requires st.pos <= |s|
    ensures PNumber(c, s, st).Ok? ==> PNumber(c, s, st).st.evs == st.evs + [e]
    ensures !IsBracket(e)
  {
    hide Numbers.DigitsEnd, Numbers.FractionScale, Numbers.Val, Numbers.IntEnd, Emit;
    var r := Numbers.Lex(c, s, st.pos);
    e := Null;
    if r.Number? { e := r.event; }
  }

  lemma {:induction false} MirrorsCount(stack: seq<nat>, open: seq<Kind>, n: nat)
    requires Mirrors(stack, open) && open != []
    ensures Mirrors(stack[|stack| - 1 := n], open)
  {
    assert Below(stack[|stack| - 1 := n]) == Below(stack);
  }

  /** A token keeps the discipline. */
  lemma TurnDisciplined(c: Config, s: seq<Byte>, k: Conf)
    requires Wf(k) && Disciplined(k) && k.st.pos < |s|
    ensures var t := Turn(c, s, k); t.Go? ==> Disciplined(t.next)
  {
    hide PValue, PString, Emit, Nesting, Frames;
    var dst := Predict(k.state, Tokenize(s[k.st.pos]));
    var t := Transit(c, s, k, dst);
    var open := Nesting(k.st.evs).value;
    if t.Go? {
      match dst {
        case ObjectInitialState => OpenDisciplined(k, t.next, ObjectKind);
        case ArrayInitialState => OpenDisciplined(k, t.next, ArrayKind);
        case MemberDelimiterState => MirrorsCount(k.stack, open, Increment(k.stack[|k.stack| - 1]));
        case ElementDelimiterState => MirrorsCount(k.stack, open, Increment(k.stack[|k.stack| - 1]));
        case KeyValueDelimiterState =>
        case MemberKeyState =>
          var bytes :| t.next.st.evs == k.st.evs + [StringEvent(true, bytes)];
          NestingStep(k.st.evs, StringEvent(true, bytes));
        case ObjectFinishState => CloseDisciplined(c, k, k.state.MemberValueState?, true);
        case ArrayFinishState => CloseDisciplined(c, k, k.state.ElementState?, false);
        case _ =>
          var e := ScalarEvent(c, s, k.st);
          NestingStep(k.st.evs, e);
      }
    }
  }

  lemma OpenDisciplined(k: Conf, next: Conf, kind: Kind)
    requires Wf(k) && Disciplined(k) && Fits(k.stack, Code(ReturnState(k.state)))
    requires || k.state.StartState? || k.state.ArrayInitialState?
             || k.state.ElementDelimiterState? || k.state.KeyValueDelimiterState?
    requires next.stack == Pushed(k)
    requires next.st.evs == k.st.evs + [if kind == ObjectKind then StartObject else StartArray]
    requires next.state == if kind == ObjectKind then ObjectInitialState else ArrayInitialState
    ensures Disciplined(next)
  {
    NestingStep(k.st.evs, if kind == ObjectKind then StartObject else StartArray);
    var open := Nesting(k.st.evs).value;
    assert (open + [kind])[..|open|] == open;
    assert Below(next.stack) == k.stack;
    assert ReturnState(k.state) == Resume(open);
  }

  lemma CloseDisciplined(c: Config, k: Conf, last: bool, isObject: bool)
    requires Wf(k) && Disciplined(k) && |k.stack| >= 2
    requires if isObject then InObject(k.state) else InArray(k.state)
    ensures var t := Close(c, k, last, isObject); t.Go? ==> Disciplined(t.next)
  {
    hide Emit, Frames, Nesting;
    var top := k.stack[|k.stack| - 1];
    var n := if last then Increment(top) else top;
    NestingStep(k.st.evs, if isObject then EndObject(n) else EndArray(n));
    var open := Nesting(k.st.evs).value;
    assert StateOf(Code(Resume(open[..|open| - 1]))) == Resume(open[..|open| - 1]);
  }

  /**
   * In every reachable configuration every frame of the stack mirrors one open container, and the current
   * state belongs to the innermost of them.
   */
  lemma {:induction false} ReachableDisciplined(c: Config, s: seq<Byte>, n: nat)
    ensures ConfAt(c, s, n).Some? ==> Disciplined(ConfAt(c, s, n).value)
  {
    if n == 0 {
      assert Disciplined(Conf(StartState, [], St(0, [])));
    } else if ConfAt(c, s, n).Some? {
      hide Turn, Ws, Frames, Mirrors, Belongs, Nesting;
      ReachableDisciplined(c, s, n - 1);
      TurnDisciplined(c, s, ConfAt(c, s, n - 1).value);
    }
  }

  lemma {:induction false} MirrorsAt(stack: seq<nat>, open: seq<Kind>, i: nat)
    requires Mirrors(stack, open) && i < |open|
    ensures |stack| == 2 * |open|
    ensures stack[2 * i] == Code(Resume(open[..i]))
  {
    var around := open[..|open| - 1];
    MirrorsLength(stack, open);
    if i < |around| {
      MirrorsAt(Below(stack), around, i);
      assert around[..i] == open[..i];
    }
  }

  lemma {:induction false} MirrorsLength(stack: seq<nat>, open: seq<Kind>)
    requires Mirrors(stack, open)
    ensures |stack| == 2 * |open|
  {
    if open != [] {
      MirrorsLength(Below(stack), open[..|open| - 1]);
    }
  }

  /**
   * The same by position: the stack holds two numbers for each open container; the lowest return state is
   * Start, the one above an array is Element and the one above an object is MemberValue; the parse is
   * finished only when the stack is empty and every bracket has been closed by its own kind.
   */
  lemma ReachableStack(c: Config, s: seq<Byte>, n: nat)
    requires ConfAt(c, s, n).Some?
    ensures var k := ConfAt(c, s, n).value;
            var open := Nesting(k.st.evs);
            && open.Some?
            && |k.stack| == 2 * |open.value|
            && (forall i :: 0 <= i < |open.value| ==>
                  k.stack[2 * i] == Code(if i == 0 then StartState
                                         else if open.value[i - 1] == ArrayKind then ElementState
                                         else MemberValueState))
            && (k.state.FinishState? ==> k.stack == [] && open.value == [])
            && (k.stack == [] ==> k.state.FinishState? || k.state.StartState?)
  {
    hide ConfAt, Nesting, Frames;
    ReachableDisciplined(c, s, n);
    var k := ConfAt(c, s, n).value;
    var open := Nesting(k.st.evs).value;
    MirrorsLength(k.stack, open);
    forall i | 0 <= i < |open|
      ensures k.stack[2 * i] == Code(if i == 0 then StartState
                                     else if open[i - 1] == ArrayKind then ElementState
                                     else MemberValueState)
    {
      MirrorsAt(k.stack, open, i);
    }
  }
}
