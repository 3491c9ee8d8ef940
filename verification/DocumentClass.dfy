/** `GenericDocument` (document.h) as it runs: the handler methods on its stack, filling it, and parsing into it. */
module DocumentClass {
  import opened Chars
  import opened Values
  import Automaton
  import Document
  import E = Events
  import Grammar
  import JsonAccepted
  import ParsedDocument
  import ReaderClass

  class GenericDocument {
    var stack: seq<Value>
    var root: Value
    var parseError: Option<E.ParseError>

    constructor ()
      ensures stack == [] && root == Null && parseError == None
    {
      stack, root, parseError := [], Null, None;
    }

    method Push(v: Value)
      modifies this`stack
      ensures stack == old(stack) + [v]
    {
      stack := stack + [v];
    }

    /** Takes the top `n` values off the stack, lowest first. */
    method Pop(n: nat) returns (vs: seq<Value>)
      requires n <= |stack|
      modifies this`stack
      ensures vs == old(stack)[|old(stack)| - n..] && stack == old(stack)[..|old(stack)| - n]
    {
      vs := stack[|stack| - n..];
      stack := stack[..|stack| - n];
    }

    /** Members are pairs of values on the stack: as many as the reader counted, back to the object's start. */
    method EndObject(memberCount: nat)
      requires Document.CanClose(stack, 2 * memberCount, true)
      modifies this`stack
      ensures stack == Document.Step(old(stack), E.EndObject(memberCount))
    {
      var members := Pop(2 * memberCount);
      stack := stack[|stack| - 1 := Object(Document.Unpair(members))];
    }

    method EndArray(elementCount: nat)
      requires Document.CanClose(stack, elementCount, false)
      modifies this`stack
      ensures stack == Document.Step(old(stack), E.EndArray(elementCount))
    {
      var elements := Pop(elementCount);
      stack := stack[|stack| - 1 := Array(elements)];
    }

    /** One call of the handler. */
    method Handle(e: E.Event)
      requires Document.Accepts(stack, e)
      modifies this`stack
      ensures stack == Document.Step(old(stack), e)
    {
      match e
      case Null => Push(Null);
      case Bool(b) => Push(Bool(b));
      case Int(i) => Push(Number(FromInt(i)));
      case Uint(u) => Push(Number(FromUint(u)));
      case Int64(i) => Push(Number(FromInt64(i)));
      case Uint64(u) => Push(Number(FromUint64(u)));
      case Double(literal) => Push(Double(literal));
      case String(str) => Push(String(str));
      case Key(name) => Push(String(name));
      case StartObject => Push(Object([]));
      case StartArray => Push(Array([]));
      case EndObject(n) => EndObject(n);
      case EndArray(n) => EndArray(n);
    }

    /** Takes a run of events. */
    method Receive(evs: seq<E.Event>)
      requires Document.Run(stack, evs).Some?
      modifies this`stack
      ensures Some(stack) == Document.Run(old(stack), evs)
    {
      hide Document.Step, Document.Accepts;
      assert evs[0..] == evs;
      for k := 0 to |evs|
        invariant Document.Run(stack, evs[k..]) == Document.Run(old(stack), evs)
      {
        assert evs[k..][1..] == evs[k + 1..];
        Handle(evs[k]);
      }
    }

    /** `Accept` with a document as its handler: the deep copy of a value, on top of whatever the stack held. */
    method Deliver(v: Value)
      requires Proper(v)
      modifies this`stack
      ensures stack == old(stack) + [v]
    {
      hide Document.Run, Proper;
      Document.Built(Visitor, stack, v);
      Receive(EventsOf(Visitor, v));
    }

    /** The one value of a complete run becomes the root, and the stack is cleared. */
    method TakeRoot()
      requires |stack| == 1
      modifies this`stack, this`root
      ensures stack == [] && root == old(stack)[0]
    {
      var vs := Pop(1);
      root := vs[0];
    }

    /** `Populate` with a value that is visited: the document becomes a copy of it. */
    method Populate(v: Value)
      requires stack == [] && Proper(v)
      modifies this
      ensures root == v && stack == [] && parseError == old(parseError)
    {
      Deliver(v);
      TakeRoot();
    }

    /**
     * `Parse`, by either parser, of a text in which no container has 2^32 items. On success the root is the one value
     * that the text says; on failure the root is as before. The assertion that exactly one value is on the stack never
     * fails.
     */
    method Parse(c: E.Config, s: seq<Byte>, iterative: bool)
      requires stack == [] && ParsedDocument.Fits(c, s)
      modifies this
      ensures stack == []
      ensures parseError.None? <==> Grammar.Parse(c, s).Ok?
      ensures var r := if iterative then Automaton.IterativeParse(c, s) else Grammar.Parse(c, s);
              r.Err? ==> parseError == Some(E.ParseError(r.code, r.offset))
      ensures parseError.None? ==> Proper(root)
      ensures parseError.None? ==>
                ParsedDocument.Signless(Grammar.Parse(c, s).st.evs) == EventsOf(TextReader, root)
      ensures parseError.None? && !c.stopWhenDone ==>
                forall d :: JsonAccepted.Derives(c, d, s) && Sized(ParsedDocument.ValueOf(d.root.value)) ==>
                  root == ParsedDocument.ValueOf(d.root.value)
      ensures parseError.Some? ==> root == old(root)
    {
      hide Document.Run, Proper, Grammar.Parse, Automaton.IterativeParse;
      hide JsonAccepted.Derives, ParsedDocument.ValueOf, Sized;
      var reader := new ReaderClass.Reader(c, s);
      if iterative { reader.IterativeParse(); } else { reader.Parse(); }
      parseError := reader.error;
      if parseError.None? {
        ghost var v :| Proper(v) && ParsedDocument.Signless(Grammar.Parse(c, s).st.evs) == EventsOf(TextReader, v);
        Document.Built(TextReader, [], v);
        ParsedDocument.SignlessRuns([], reader.evs);
        assert [] + [v] == [v];
        forall d | !c.stopWhenDone && JsonAccepted.Derives(c, d, s) && Sized(ParsedDocument.ValueOf(d.root.value))
          ensures v == ParsedDocument.ValueOf(d.root.value)
        {
          ParsedDocument.DerivedBuilds(c, s, d);
          assert [v][0] == [ParsedDocument.ValueOf(d.root.value)][0];
        }
        Receive(reader.evs);
        TakeRoot();
      }
    }
  }
}
