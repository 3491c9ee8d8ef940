/** The table-driven parser and the recursive-descent parser agree on every input. */
module Equivalence {
  import opened Chars
  import opened Events
  import opened Whitespace
  import opened Grammar
  import opened Automaton

  /** States in which the next token must start a value. */
  predicate ExpectsValue(state: State) {
    state.StartState? || state.ArrayInitialState? || state.ElementDelimiterState? || state.KeyValueDelimiterState?
  }

  /** The state once that value has been read. */
  function Done(src: State): State {
    Restored(ReturnState(src))
  }

  /** What a return state popped off the stack turns into. */
  function Restored(ret: State): State {
    if ret.StartState? then FinishState else ret
  }

  predicate IsStray(b: Byte) {
    b == RBRACKET || b == RBRACE || b == COMMA || b == COLON
  }

  predicate IsOpening(b: Byte) {
    b == LBRACKET || b == LBRACE
  }

  /** Both parsers fail in the same way; only a refusal by the handler may be reported one byte apart. */
  predicate SameFailure(r: Outcome, t: Outcome) {
    && r.Err? && t.Err? && t.evs == r.evs && t.code == r.code
    && if r.code.Termination? then t.offset <= r.offset <= t.offset + 1 else t.offset == r.offset
  }

  /** What is left of the run once a routine called for the current token has returned `r`. */
  function Continue(c: Config, s: seq<Byte>, r: Outcome, state: State, stack: seq<nat>): Outcome
    requires r.Ok? ==> r.st.pos <= |s| && Shape(state, stack)
  {
    if r.Ok? then After(c, s, Conf(state, stack, r.st)) else r
  }

  /**
   * The recursive routine gave `r`, the automaton's whole remaining run gave `t`: either both fail alike, or
   * that run is what is left to do from `state` and `stack` at the place where the routine stopped.
   */
  ghost predicate Sim(c: Config, s: seq<Byte>, r: Outcome, t: Outcome, state: State, stack: seq<nat>)
    requires r.Ok? ==> r.st.pos <= |s| && Shape(state, stack)
  {
    if r.Ok? then t == Continue(c, s, r, state, stack) else SameFailure(r, t)
  }

  predicate Base(stack: seq<nat>, ret: State) {
    Frames(stack) && Fits(stack, Code(ret))
  }

  /** The stack inside a container: return to `ret` and `stack` after it, `n` commas so far. */
  function Framed(stack: seq<nat>, ret: State, n: nat): (framed: seq<nat>)
    requires Base(stack, ret)
    ensures |framed| == |stack| + 2 && Frames(framed) && Below(framed) == stack
    ensures framed[|stack|] == Code(ret) && framed[|stack| + 1] == n
    ensures Shape(Restored(ret), stack)
  {
    var framed := stack + [Code(ret), n];
    assert Below(framed) == stack;
    framed
  }

  // The turns of the automaton, one lemma for each kind.

  lemma RunTransit(c: Config, s: seq<Byte>, k: Conf)
    requires Wf(k) && k.st.pos < |s| && s[k.st.pos] != 0
    ensures var t := Transit(c, s, k, Predict(k.state, Tokenize(s[k.st.pos])));
            && (t.Go? ==> Run(c, s, k) == After(c, s, t.next))
            && (t.Fail? ==> Run(c, s, k) == Err(t.code, t.offset, t.evs))
  {
    hide Transit, After, Predict, Tokenize, Frames, PValue;
  }

  lemma StuckTurn(c: Config, s: seq<Byte>, k: Conf)
    requires Wf(k) && k.st.pos <= |s|
    requires if Peek(s, k.st.pos) == 0 then !k.state.FinishState? else Predict(k.state, Tokenize(s[k.st.pos])).ErrorState?
    ensures Run(c, s, k) == Err(HandleError(k.state), k.st.pos, k.st.evs)
  {
    hide After, PValue, PString, Ws;
  }

  lemma ScalarTurn(c: Config, s: seq<Byte>, src: State, stack: seq<nat>, st: St)
    requires ExpectsValue(src) && Shape(src, stack) && st.pos < |s|
    requires !IsStray(s[st.pos]) && !IsOpening(s[st.pos]) && s[st.pos] != 0
    ensures Run(c, s, Conf(src, stack, st)) == Continue(c, s, PValue(c, s, st), Done(src), stack)
  {
    hide After, PString, Ws;
  }

  lemma OpenTurn(c: Config, s: seq<Byte>, src: State, stack: seq<nat>, st: St, dst: State, e: Event)
    requires ExpectsValue(src) && Shape(src, stack) && st.pos < |s|
    requires if dst.ArrayInitialState? then s[st.pos] == LBRACKET && e == StartArray
             else dst.ObjectInitialState? && s[st.pos] == LBRACE && e == StartObject
    ensures Base(stack, ReturnState(src))
    ensures Run(c, s, Conf(src, stack, st)) ==
            Continue(c, s, Emit(c, st, e, st.pos + 1, st.pos), dst, Framed(stack, ReturnState(src), 0))
  {
    hide Run, Turn, After, PValue, PString, Ws, Emit, Close, Frames, Predict, Tokenize, Transit, Pushed, Fits;
    var k := Conf(src, stack, st);
    OpenPredicted(src, s[st.pos], dst);
    Opening(c, s, k, dst);
    RunTransit(c, s, k);
  }

  lemma OpenPredicted(src: State, b: Byte, dst: State)
    requires ExpectsValue(src)
    requires if dst.ArrayInitialState? then b == LBRACKET else dst.ObjectInitialState? && b == LBRACE
    ensures Predict(src, Tokenize(b)) == dst
  {
  }

  lemma CloseFrame(c: Config, k: Conf, stack: seq<nat>, ret: State, n: nat, last: bool, isObject: bool)
    requires Base(stack, ret) && k.stack == Framed(stack, ret, n)
    ensures var m := if last then Increment(n) else n;
            Close(c, k, last, isObject) ==
            FromOutcome(Emit(c, k.st, if isObject then EndObject(m) else EndArray(m), k.st.pos + 1, k.st.pos),
                        Restored(ret), stack)
  {
    hide Frames, Emit;
  }

  lemma CloseArrayTurn(c: Config, s: seq<Byte>, src: State, stack: seq<nat>, ret: State, n: nat, st: St)
    requires Base(stack, ret) && st.pos < |s| && s[st.pos] == RBRACKET
    requires src.ArrayInitialState? || src.ElementState? || (src.ElementDelimiterState? && c.trailingCommas)
    ensures var m := if src.ElementState? then Increment(n) else n;
            Run(c, s, Conf(src, Framed(stack, ret, n), st)) ==
            Continue(c, s, Emit(c, st, EndArray(m), st.pos + 1, st.pos), Restored(ret), stack)
  {
    hide Run, Turn, After, PValue, PString, Ws, Frames, Emit, Close, Framed, Fits;
    var k := Conf(src, Framed(stack, ret, n), st);
    assert Predict(src, Tokenize(s[st.pos])) == ArrayFinishState;
    assert Transit(c, s, k, ArrayFinishState) == Close(c, k, src.ElementState?, false);
    hide Predict, Tokenize, Transit;
    CloseFrame(c, k, stack, ret, n, src.ElementState?, false);
    RunTransit(c, s, k);
  }

  lemma CloseObjectTurn(c: Config, s: seq<Byte>, src: State, stack: seq<nat>, ret: State, n: nat, st: St)
    requires Base(stack, ret) && st.pos < |s| && s[st.pos] == RBRACE
    requires src.ObjectInitialState? || src.MemberValueState? || (src.MemberDelimiterState? && c.trailingCommas)
    ensures var m := if src.MemberValueState? then Increment(n) else n;
            Run(c, s, Conf(src, Framed(stack, ret, n), st)) ==
            Continue(c, s, Emit(c, st, EndObject(m), st.pos + 1, st.pos), Restored(ret), stack)
  {
    hide Run, Turn, After, PValue, PString, Ws, Frames, Emit, Close, Framed, Fits;
    var k := Conf(src, Framed(stack, ret, n), st);
    assert Predict(src, Tokenize(s[st.pos])) == ObjectFinishState;
    assert Transit(c, s, k, ObjectFinishState) == Close(c, k, src.MemberValueState?, true);
    hide Predict, Tokenize, Transit;
    CloseFrame(c, k, stack, ret, n, src.MemberValueState?, true);
    RunTransit(c, s, k);
  }

  /** A closing bracket right after a comma, when that is not allowed. */
  lemma TrailingTurn(c: Config, s: seq<Byte>, src: State, stack: seq<nat>, st: St)
    requires Shape(src, stack) && st.pos < |s| && !c.trailingCommas
    requires (src.ElementDelimiterState? && s[st.pos] == RBRACKET) || (src.MemberDelimiterState? && s[st.pos] == RBRACE)
    ensures Run(c, s, Conf(src, stack, st)) == Err(HandleError(src), st.pos, st.evs)
  {
    hide After, PValue, PString, Ws;
  }

  lemma CountFrame(stack: seq<nat>, ret: State, n: nat)
    requires Base(stack, ret)
    ensures Framed(stack, ret, n)[|stack| + 1 := Increment(n)] == Framed(stack, ret, Increment(n))
  {
    assert Framed(stack, ret, n)[|stack| + 1 := Increment(n)] == Framed(stack, ret, Increment(n));
  }

  lemma CommaTurn(c: Config, s: seq<Byte>, src: State, stack: seq<nat>, ret: State, n: nat, st: St)
    requires Base(stack, ret) && st.pos < |s| && s[st.pos] == COMMA && (src.ElementState? || src.MemberValueState?)
    ensures Run(c, s, Conf(src, Framed(stack, ret, n), st)) ==
            After(c, s, Conf(if src.ElementState? then ElementDelimiterState else MemberDelimiterState,
                             Framed(stack, ret, Increment(n)), st.(pos := st.pos + 1)))
  {
    hide Run, Turn, After, PValue, PString, Ws, Frames, Framed, Emit, Close, Fits;
    RunTransit(c, s, Conf(src, Framed(stack, ret, n), st));
    CountFrame(stack, ret, n);
  }

  lemma KeyTurn(c: Config, s: seq<Byte>, src: State, stack: seq<nat>, st: St)
    requires Shape(src, stack) && st.pos < |s| && s[st.pos] == QUOTE
    requires src.ObjectInitialState? || src.MemberDelimiterState?
    ensures Run(c, s, Conf(src, stack, st)) == Continue(c, s, PString(c, s, st, true), MemberKeyState, stack)
  {
    hide After, PValue, Ws;
  }

  lemma ColonTurn(c: Config, s: seq<Byte>, stack: seq<nat>, st: St)
    requires Shape(MemberKeyState, stack) && st.pos < |s| && s[st.pos] == COLON
    ensures Run(c, s, Conf(MemberKeyState, stack, st)) ==
            After(c, s, Conf(KeyValueDelimiterState, stack, st.(pos := st.pos + 1)))
  {
    hide After, PValue, PString, Ws;
  }

  lemma StrayValue(c: Config, s: seq<Byte>, st: St)
    requires st.pos <= |s| && (Peek(s, st.pos) == 0 || IsStray(Peek(s, st.pos)))
    ensures PValue(c, s, st) == Err(ValueInvalid, st.pos, st.evs)
  {
  }

  // The simulation: one lemma for each routine of the recursive parser.

  lemma {:induction false} ValueSim(c: Config, s: seq<Byte>, src: State, stack: seq<nat>, st: St)
    requires ExpectsValue(src) && Shape(src, stack) && st.pos <= |s|
    requires src.StartState? ==> Peek(s, st.pos) != 0 && !IsStray(Peek(s, st.pos))
    requires InArray(src) ==> Peek(s, st.pos) != RBRACKET
    ensures Sim(c, s, PValue(c, s, st), Run(c, s, Conf(src, stack, st)), Done(src), stack)
    decreases |s| - st.pos, 1
  {
    var b := Peek(s, st.pos);
    if b == LBRACE {
      ObjectSim(c, s, src, stack, st);
    } else if b == LBRACKET {
      ArraySim(c, s, src, stack, st);
    } else if b == 0 || IsStray(b) {
      StuckTurn(c, s, Conf(src, stack, st));
      StrayValue(c, s, st);
    } else {
      ScalarTurn(c, s, src, stack, st);
    }
  }

  lemma {:induction false} ArraySim(c: Config, s: seq<Byte>, src: State, stack: seq<nat>, st: St)
    requires ExpectsValue(src) && Shape(src, stack) && Peek(s, st.pos) == LBRACKET
    ensures Sim(c, s, PArray(c, s, st), Run(c, s, Conf(src, stack, st)), Done(src), stack)
    decreases |s| - st.pos, 0
  {
    hide Run, Turn, Emit, Frames, Framed, Fits, Ws, PElements;
    OpenTurn(c, s, src, stack, st, ArrayInitialState, StartArray);
    var ret := ReturnState(src);
    var open := Emit(c, st, StartArray, st.pos + 1, st.pos + 1);
    if open.Ok? {
      var at := Ws(c, s, open.st);
      if at.Ok? {
        if Peek(s, at.st.pos) == RBRACKET {
          CloseArrayTurn(c, s, ArrayInitialState, stack, ret, 0, at.st);
        } else {
          ElementsSim(c, s, ArrayInitialState, stack, ret, 0, at.st);
        }
      }
    }
  }

  lemma {:induction false} ElementsSim(c: Config, s: seq<Byte>, src: State, stack: seq<nat>, ret: State, n: nat, st: St)
    requires Base(stack, ret) && (src.ArrayInitialState? || src.ElementDelimiterState?) && st.pos <= |s|
    requires Peek(s, st.pos) == RBRACKET ==> src.ElementDelimiterState? && !c.trailingCommas
    ensures Shape(Restored(ret), stack)
    ensures Sim(c, s, PElements(c, s, st, n), Run(c, s, Conf(src, Framed(stack, ret, n), st)), Restored(ret), stack)
    decreases |s| - st.pos, 2
  {
    hide Run, Turn, Emit, Frames, Framed, Fits, Ws, PElementEnd, PValue;
    if Peek(s, st.pos) != RBRACKET {
      ValueSim(c, s, src, Framed(stack, ret, n), st);
      var value := PValue(c, s, st);
      if value.Ok? {
        var end := Ws(c, s, value.st);
        if end.Ok? {
          ElementEndSim(c, s, stack, ret, n, end.st);
        }
      }
    } else {
      TrailingTurn(c, s, src, Framed(stack, ret, n), st);
      StrayValue(c, s, st);
    }
  }

  lemma {:induction false} ElementEndSim(c: Config, s: seq<Byte>, stack: seq<nat>, ret: State, n: nat, st: St)
    requires Base(stack, ret) && st.pos <= |s|
    ensures Shape(Restored(ret), stack)
    ensures Sim(c, s, PElementEnd(c, s, st, Increment(n)),
                Run(c, s, Conf(ElementState, Framed(stack, ret, n), st)), Restored(ret), stack)
    decreases |s| - st.pos, 0
  {
    hide Run, Turn, Emit, Frames, Framed, Fits, Ws, PElements;
    if Peek(s, st.pos) == COMMA {
      CommaTurn(c, s, ElementState, stack, ret, n, st);
      var at := Ws(c, s, st.(pos := st.pos + 1));
      if at.Ok? {
        if c.trailingCommas && Peek(s, at.st.pos) == RBRACKET {
          CloseArrayTurn(c, s, ElementDelimiterState, stack, ret, Increment(n), at.st);
        } else {
          ElementsSim(c, s, ElementDelimiterState, stack, ret, Increment(n), at.st);
        }
      }
    } else if Peek(s, st.pos) == RBRACKET {
      CloseArrayTurn(c, s, ElementState, stack, ret, n, st);
    } else {
      StuckTurn(c, s, Conf(ElementState, Framed(stack, ret, n), st));
    }
  }

  lemma {:induction false} ObjectSim(c: Config, s: seq<Byte>, src: State, stack: seq<nat>, st: St)
    requires ExpectsValue(src) && Shape(src, stack) && Peek(s, st.pos) == LBRACE
    ensures Sim(c, s, PObject(c, s, st), Run(c, s, Conf(src, stack, st)), Done(src), stack)
    decreases |s| - st.pos, 0
  {
    hide Run, Turn, Emit, Frames, Framed, Fits, Ws, PMembers;
    OpenTurn(c, s, src, stack, st, ObjectInitialState, StartObject);
    var ret := ReturnState(src);
    var open := Emit(c, st, StartObject, st.pos + 1, st.pos + 1);
    if open.Ok? {
      var at := Ws(c, s, open.st);
      if at.Ok? {
        if Peek(s, at.st.pos) == RBRACE {
          CloseObjectTurn(c, s, ObjectInitialState, stack, ret, 0, at.st);
        } else {
          MembersSim(c, s, ObjectInitialState, stack, ret, 0, at.st);
        }
      }
    }
  }

  lemma {:induction false} MembersSim(c: Config, s: seq<Byte>, src: State, stack: seq<nat>, ret: State, n: nat, st: St)
    requires Base(stack, ret) && (src.ObjectInitialState? || src.MemberDelimiterState?) && st.pos <= |s|
    requires Peek(s, st.pos) == RBRACE ==> src.MemberDelimiterState? && !c.trailingCommas
    ensures Shape(Restored(ret), stack)
    ensures Sim(c, s, PMembers(c, s, st, n), Run(c, s, Conf(src, Framed(stack, ret, n), st)), Restored(ret), stack)
    decreases |s| - st.pos, 2
  {
    hide Run, Turn, Emit, Frames, Framed, Fits, Ws, PMemberEnd, PValue, PString;
    var framed := Framed(stack, ret, n);
    if Peek(s, st.pos) == QUOTE {
      KeyTurn(c, s, src, framed, st);
      MemberFromName(c, s, st, n);
      var name := PString(c, s, st, true);
      hide PMembers;
      if name.Ok? { NameSim(c, s, stack, ret, n, name.st); }
    } else if Peek(s, st.pos) != RBRACE {
      StuckTurn(c, s, Conf(src, framed, st));
    } else {
      TrailingTurn(c, s, src, framed, st);
    }
  }

  lemma MemberFromName(c: Config, s: seq<Byte>, st: St, n: nat)
    requires Peek(s, st.pos) == QUOTE
    ensures var name := PString(c, s, st, true);
            PMembers(c, s, st, n) == if name.Ok? then NameRest(c, s, name.st, n) else name
  {
    hide PString, Ws, PValue, PMemberEnd;
  }

  lemma {:induction false} NameSim(c: Config, s: seq<Byte>, stack: seq<nat>, ret: State, n: nat, st: St)
    requires Base(stack, ret) && st.pos <= |s|
    ensures Shape(Restored(ret), stack)
    ensures Sim(c, s, NameRest(c, s, st, n), After(c, s, Conf(MemberKeyState, Framed(stack, ret, n), st)),
                Restored(ret), stack)
    decreases |s| - st.pos, 3
  {
    hide Run, Turn, Frames, Framed, Fits, Ws, MemberRest;
    var framed := Framed(stack, ret, n);
    var colon := Ws(c, s, st);
    if colon.Ok? {
      if Peek(s, colon.st.pos) == COLON {
        ColonTurn(c, s, framed, colon.st);
        var at := Ws(c, s, colon.st.(pos := colon.st.pos + 1));
        if at.Ok? { MemberValueSim(c, s, stack, ret, n, at.st); }
      } else {
        StuckTurn(c, s, Conf(MemberKeyState, framed, colon.st));
      }
    }
  }

  /** The part of a member after its name. */
  function NameRest(c: Config, s: seq<Byte>, st: St, n: nat): (r: Outcome)
    requires st.pos <= |s|
    ensures r.Ok? ==> r.st.pos <= |s|
  {
    var colon :- Ws(c, s, st);
    if Peek(s, colon.pos) != COLON then Err(ObjectMissColon, colon.pos, colon.evs)
    else
      var at :- Ws(c, s, colon.(pos := colon.pos + 1));
      MemberRest(c, s, at, n)
  }

  /** The part of a member after its colon, as the loop of `ParseObject` does it. */
  function MemberRest(c: Config, s: seq<Byte>, st: St, n: nat): (r: Outcome)
    requires st.pos <= |s|
    ensures r.Ok? ==> r.st.pos <= |s|
  {
    var value :- PValue(c, s, st);
    var end :- Ws(c, s, value);
    PMemberEnd(c, s, end, Increment(n))
  }

  lemma {:induction false} MemberValueSim(c: Config, s: seq<Byte>, stack: seq<nat>, ret: State, n: nat, st: St)
    requires Base(stack, ret) && st.pos <= |s|
    ensures Shape(Restored(ret), stack)
    ensures Sim(c, s, MemberRest(c, s, st, n),
                Run(c, s, Conf(KeyValueDelimiterState, Framed(stack, ret, n), st)), Restored(ret), stack)
    decreases |s| - st.pos, 2
  {
    hide Run, Turn, Emit, Frames, Framed, Fits, Ws, PMemberEnd, PValue;
    ValueSim(c, s, KeyValueDelimiterState, Framed(stack, ret, n), st);
    var value := PValue(c, s, st);
    if value.Ok? {
      var end := Ws(c, s, value.st);
      if end.Ok? {
        MemberEndSim(c, s, stack, ret, n, end.st);
      }
    }
  }

  lemma {:induction false} MemberEndSim(c: Config, s: seq<Byte>, stack: seq<nat>, ret: State, n: nat, st: St)
    requires Base(stack, ret) && st.pos <= |s|
    ensures Shape(Restored(ret), stack)
    ensures Sim(c, s, PMemberEnd(c, s, st, Increment(n)),
                Run(c, s, Conf(MemberValueState, Framed(stack, ret, n), st)), Restored(ret), stack)
    decreases |s| - st.pos, 0
  {
    hide Run, Turn, Emit, Frames, Framed, Fits, Ws, PMembers;
    if Peek(s, st.pos) == COMMA {
      CommaTurn(c, s, MemberValueState, stack, ret, n, st);
      var at := Ws(c, s, st.(pos := st.pos + 1));
      if at.Ok? {
        if c.trailingCommas && Peek(s, at.st.pos) == RBRACE {
          CloseObjectTurn(c, s, MemberDelimiterState, stack, ret, Increment(n), at.st);
        } else {
          MembersSim(c, s, MemberDelimiterState, stack, ret, Increment(n), at.st);
        }
      }
    } else if Peek(s, st.pos) == RBRACE {
      CloseObjectTurn(c, s, MemberValueState, stack, ret, n, st);
    } else {
      StuckTurn(c, s, Conf(MemberValueState, Framed(stack, ret, n), st));
    }
  }

  /** The first character after leading white space is one that can only close or separate. */
  predicate StrayRoot(c: Config, s: seq<Byte>) {
    var start := Ws(c, s, St(0, []));
    start.Ok? && IsStray(Peek(s, start.st.pos))
  }

  /**
   * For every input, flag setting and handler: both parsers accept the same inputs, stop at the same place
   * and send the same events, also on the way to an error. Their error codes differ exactly when the document
   * starts with a stray delimiter; their error offsets differ only for a refusal by the handler.
   */
  lemma ParsersAgree(c: Config, s: seq<Byte>)
    ensures var r, t := Parse(c, s), IterativeParse(c, s);
            && (r.Ok? <==> t.Ok?)
            && (r.Ok? ==> r == t)
            && (r.Err? ==> r.evs == t.evs)
            && (r.Err? && !StrayRoot(c, s) ==> SameFailure(r, t))
            && (StrayRoot(c, s) ==> r.Err? && r.code == ValueInvalid && t == Err(DocumentEmpty, r.offset, r.evs))
  {
    hide Run, After, PValue, Frames, Predict, Tokenize, Ws;
    NothingOpen();
    var start := Ws(c, s, St(0, []));
    if start.Ok? {
      var b := Peek(s, start.st.pos);
      if b == 0 || IsStray(b) {
        if b != 0 { NoStrayStart(b); }
        StuckTurn(c, s, Conf(StartState, [], start.st));
        StrayValue(c, s, start.st);
      } else {
        ValueSim(c, s, StartState, [], start.st);
        RootEnd(c, s, start.st);
      }
    }
  }

  lemma NothingOpen()
    ensures Shape(StartState, []) && Shape(FinishState, [])
  {
  }

  lemma NoStrayStart(b: Byte)
    requires IsStray(b)
    ensures Predict(StartState, Tokenize(b)).ErrorState?
  {
  }

  /** After the root value both parsers look for the end of the input. */
  lemma RootEnd(c: Config, s: seq<Byte>, st: St)
    requires st.pos <= |s|
    ensures var value := PValue(c, s, st);
            value.Ok? ==>
              After(c, s, Conf(FinishState, [], value.st)) ==
              if c.stopWhenDone then value
              else var end := Ws(c, s, value.st);
                   if end.Ok? && Peek(s, end.st.pos) != 0 then Err(DocumentRootNotSingular, end.st.pos, end.st.evs) else end
  {
    var value := PValue(c, s, st);
    if value.Ok? && !c.stopWhenDone {
      var end := Ws(c, s, value.st);
      if end.Ok? && Peek(s, end.st.pos) != 0 {
        StuckTurn(c, s, Conf(FinishState, [], end.st));
      }
    }
  }
}
