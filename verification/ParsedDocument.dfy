/** Every text the parsers accept says one value: its events are that value's, and build it in a document. */
module ParsedDocument {
  import opened Chars
  import opened Events
  import opened Grammar
  import opened JsonAccepted
  import opened JsonDerived
  import opened JsonNumbers
  import opened Rendering
  import Automaton
  import Document
  import Equivalence
  import J = Json
  import Numbers
  import RoundTrip
  import V = Values
  import Whitespace

  /** The reader sends `Int(0)` for -0; the number it makes is that of `Uint(0)`, sent for 0. */
  function SignlessEvent(e: Event): Event {
    if e == Int(0) then Uint(0) else e
  }

  function Signless(evs: seq<Event>): (r: seq<Event>)
    ensures |r| == |evs| && forall k :: 0 <= k < |evs| ==> r[k] == SignlessEvent(evs[k])
  {
    if evs == [] then [] else Signless(evs[..|evs| - 1]) + [SignlessEvent(evs[|evs| - 1])]
  }

  lemma SignlessJoins(a: seq<Event>, b: seq<Event>)
    ensures Signless(a + b) == Signless(a) + Signless(b)
  {
  }

  // The value of a derivation.

  function IntegerValue(n: J.Number): int {
    if n.minus then 0 - J.DecimalValue(n.whole) else J.DecimalValue(n.whole)
  }

  function NumberOf(n: J.Number): V.Value {
    if J.IsInteger(n) then V.Number(V.NumOf(IntegerValue(n))) else V.Double(J.NumberText(n))
  }

  function ValueOf(t: J.Tree): V.Value
    decreases t, 0
  {
    match t
    case NullTree => V.Null
    case TrueTree => V.Bool(true)
    case FalseTree => V.Bool(false)
    case NumberTree(n) => NumberOf(n)
    case StringTree(cs) => V.String(J.CharactersOctets(cs))
    case ArrayTree(_, items, _) => V.Array(ItemValues(items))
    case ObjectTree(_, members, _) => V.Object(MemberValues(members))
  }

  function ItemValues(items: seq<J.Item>): (vs: seq<V.Value>)
    ensures |vs| == |items|
    decreases items, 1
  {
    if items == [] then [] else [ValueOf(items[0].value)] + ItemValues(items[1..])
  }

  function MemberValues(members: seq<J.Member>): (ms: seq<V.Member>)
    ensures |ms| == |members|
    decreases members, 1
  {
    if members == [] then []
    else
      [V.Member(J.CharactersOctets(members[0].name), ValueOf(members[0].item.value))] + MemberValues(members[1..])
  }

  /** An integer literal arrives as that integer: the flags of all types with room for it, and its value in each. */
  lemma IntegerArrives(n: J.Number)
    requires J.ValidNumber(n) && J.IsInteger(n)
    ensures NumberOf(n).Number? && V.Holds(NumberOf(n).num, IntegerValue(n))
    ensures forall stack :: Document.Accepts(stack, J.NumberEvent(n))
                            && Document.Step(stack, J.NumberEvent(n)) == stack + [NumberOf(n)]
  {
    hide J.DecimalValue;
  }

  /** What is known of a value that was read. */
  predicate Sound(c: Config, v: V.Value) {
    V.ExactNumbers(v) && SoundDoubles(c, v)
  }

  lemma NumberSays(c: Config, n: J.Number)
    requires J.ValidNumber(n) && !J.TooBig(c, n)
    ensures Signless([J.NumberEvent(n)]) == V.EventsOf(V.TextReader, NumberOf(n)) && Sound(c, NumberOf(n))
  {
    hide J.NumberText, J.TooBig, J.DecimalValue, J.ValidNumber, Numbers.Lex;
    if J.IsInteger(n) {
      V.NumberEventExact(IntegerValue(n));
    } else {
      NumberScanned(c, J.NumberText(n), 0, n);
    }
  }

  /** What the handler is told are the events of the value, but for the sign of -0. */
  lemma {:induction false} TreeSays(c: Config, t: J.Tree)
    requires J.Valid(c, t)
    ensures Signless(J.Told(t)) == V.EventsOf(V.TextReader, ValueOf(t)) && Sound(c, ValueOf(t))
    decreases t, 0
  {
    hide Signless, J.CharactersOctets, J.ValidItem, J.ValidMember, NumberOf, J.NumberEvent, J.ValidNumber, J.TooBig;
    hide J.ItemsTold, J.MembersTold, ItemValues, MemberValues, V.ElementEvents, V.MemberEvents;
    match t
    case ArrayTree(_, items, _) =>
      ItemsSay(c, items);
      Bracketed(StartArray, J.ItemsTold(items), EndArray(|items| % 0x1_0000_0000));
    case ObjectTree(_, members, _) =>
      MembersSay(c, members);
      Bracketed(StartObject, J.MembersTold(members), EndObject(|members| % 0x1_0000_0000));
    case NumberTree(n) =>
      NumberSays(c, n);
    case NullTree => One(Null);
    case TrueTree => One(Bool(true));
    case FalseTree => One(Bool(false));
    case StringTree(cs) => One(String(J.CharactersOctets(cs)));
  }

  lemma One(e: Event)
    requires e != Int(0)
    ensures Signless([e]) == [e]
  {
  }

  lemma Bracketed(open: Event, evs: seq<Event>, close: Event)
    requires open != Int(0) && close != Int(0)
    ensures Signless([open] + evs + [close]) == [open] + Signless(evs) + [close]
  {
    SignlessJoins([open] + evs, [close]);
    SignlessJoins([open], evs);
    One(open);
    One(close);
  }

  lemma {:induction false} ItemsSay(c: Config, items: seq<J.Item>)
    requires forall k :: 0 <= k < |items| ==> J.ValidItem(c, items[k])
    ensures Signless(J.ItemsTold(items)) == V.ElementEvents(V.TextReader, ItemValues(items))
    ensures forall k :: 0 <= k < |items| ==> Sound(c, ItemValues(items)[k])
    decreases items, 1
  {
    hide V.EventsOf, J.Told, ValueOf, Sound;
    if items != [] {
      assert J.ValidItem(c, items[0]);
      TreeSays(c, items[0].value);
      ItemsSay(c, items[1..]);
      SignlessJoins(J.Told(items[0].value), J.ItemsTold(items[1..]));
    }
  }

  lemma {:induction false} MembersSay(c: Config, members: seq<J.Member>)
    requires forall k :: 0 <= k < |members| ==> J.ValidMember(c, members[k])
    ensures Signless(J.MembersTold(members)) == V.MemberEvents(V.TextReader, MemberValues(members))
    ensures forall k :: 0 <= k < |members| ==> Sound(c, MemberValues(members)[k].value)
    decreases members, 1
  {
    hide V.EventsOf, J.Told, ValueOf, Sound, J.CharactersOctets, J.ValidCharacter;
    if members != [] {
      assert J.ValidMember(c, members[0]) && J.ValidItem(c, members[0].item);
      var name := Key(J.CharactersOctets(members[0].name));
      TreeSays(c, members[0].item.value);
      MembersSay(c, members[1..]);
      SignlessJoins([name] + J.Told(members[0].item.value), J.MembersTold(members[1..]));
      SignlessJoins([name], J.Told(members[0].item.value));
      One(name);
    }
  }

  /** A text of less than 4 GiB has no room for a container of 2^32 items. */
  lemma {:induction false} TreeFits(t: J.Tree)
    requires |J.Text(t)| < V.TWO_32
    ensures V.Sized(ValueOf(t))
    decreases t, 0
  {
    hide J.GapsText, J.CommaText, J.MoreItemsText, J.MoreMembersText, J.NumberText, J.StringText, J.MemberText, J.ItemText;
    match t
    case ArrayTree(_, items, _) =>
      if items != [] {
        assert J.ItemsText(items) == J.ItemText(items[0]) + J.MoreItemsText(items[1..]);
        ItemIsLonger(items[0]);
        TreeFits(items[0].value);
        ItemsFit(items[1..]);
        assert forall k :: 1 <= k < |items| ==> ItemValues(items)[k] == ItemValues(items[1..])[k - 1];
      }
    case ObjectTree(_, members, _) =>
      if members != [] {
        assert J.MembersText(members) == J.MemberText(members[0]) + J.MoreMembersText(members[1..]);
        ItemIsLonger(members[0].item);
        MemberIsLonger(members[0]);
        TreeFits(members[0].item.value);
        MembersFit(members[1..]);
        assert forall k :: 1 <= k < |members| ==> MemberValues(members)[k] == MemberValues(members[1..])[k - 1];
      }
    case _ =>
  }

  lemma ItemIsLonger(i: J.Item)
    ensures |J.Text(i.value)| <= |J.ItemText(i)|
  {
  }

  lemma MemberIsLonger(m: J.Member)
    ensures |J.ItemText(m.item)| <= |J.MemberText(m)|
  {
  }

  lemma {:induction false} ItemsFit(items: seq<J.Item>)
    requires |J.MoreItemsText(items)| < V.TWO_32
    ensures |items| <= |J.MoreItemsText(items)| && forall k :: 0 <= k < |items| ==> V.Sized(ItemValues(items)[k])
    decreases items, 1
  {
    hide J.ItemText, J.Text, V.Sized, ValueOf;
    if items != [] {
      ItemIsLonger(items[0]);
      TreeFits(items[0].value);
      ItemsFit(items[1..]);
    }
  }

  lemma {:induction false} MembersFit(members: seq<J.Member>)
    requires |J.MoreMembersText(members)| < V.TWO_32
    ensures |members| <= |J.MoreMembersText(members)|
    ensures forall k :: 0 <= k < |members| ==> V.Sized(MemberValues(members)[k].value)
    decreases members, 1
  {
    hide J.MemberText, J.ItemText, J.Text, V.Sized, ValueOf;
    if members != [] {
      ItemIsLonger(members[0].item);
      MemberIsLonger(members[0]);
      TreeFits(members[0].item.value);
      MembersFit(members[1..]);
    }
  }

  // Building the document.

  predicate AllSized(vs: seq<V.Value>) {
    forall k :: 0 <= k < |vs| ==> V.Sized(vs[k])
  }

  /** Counts have 32 bits, and zero has no sign. */
  predicate Regular(e: Event) {
    match e
    case EndArray(n) => n < V.TWO_32
    case EndObject(n) => n < V.TWO_32
    case Int(n) => n != 0
    case _ => true
  }

  predicate AllRegular(evs: seq<Event>) {
    forall k :: 0 <= k < |evs| ==> Regular(evs[k])
  }

  lemma {:induction false} EventsAreRegular(v: V.Value)
    requires V.ExactNumbers(v)
    ensures AllRegular(V.EventsOf(V.TextReader, v))
    decreases v, 0
  {
    match v
    case Array(elems) => ElementEventsAreRegular(elems);
    case Object(members) => MemberEventsAreRegular(members);
    case _ =>
  }

  lemma {:induction false} ElementEventsAreRegular(vs: seq<V.Value>)
    requires forall k :: 0 <= k < |vs| ==> V.ExactNumbers(vs[k])
    ensures AllRegular(V.ElementEvents(V.TextReader, vs))
    decreases vs, 1
  {
    if vs != [] {
      EventsAreRegular(vs[0]);
      ElementEventsAreRegular(vs[1..]);
    }
  }

  lemma {:induction false} MemberEventsAreRegular(ms: seq<V.Member>)
    requires forall k :: 0 <= k < |ms| ==> V.ExactNumbers(ms[k].value)
    ensures AllRegular(V.MemberEvents(V.TextReader, ms))
    decreases ms, 1
  {
    if ms != [] {
      EventsAreRegular(ms[0].value);
      MemberEventsAreRegular(ms[1..]);
    }
  }

  lemma RegularIsSignless(evs: seq<Event>)
    requires AllRegular(evs)
    ensures Signless(evs) == evs
  {
    forall k | 0 <= k < |evs| ensures SignlessEvent(evs[k]) == evs[k] {
      assert Regular(evs[k]);
    }
  }

  lemma {:induction false} PairedValues(ms: seq<V.Member>)
    ensures forall k :: 0 <= k < |ms| ==> Document.Pairs(ms)[2 * k + 1] == ms[k].value
  {
    if ms != [] {
      PairedValues(ms[1..]);
      forall k | 0 < k < |ms| ensures Document.Pairs(ms)[2 * k + 1] == ms[k].value {
        assert Document.Pairs(ms)[2 * k + 1] == Document.Pairs(ms[1..])[2 * (k - 1) + 1];
      }
    }
  }

  lemma StepKeepsSized(stack: seq<V.Value>, e: Event)
    requires AllSized(stack) && Regular(e) && Document.Accepts(stack, e)
    ensures AllSized(Document.Step(stack, e))
  {
    match e
    case EndObject(n) =>
      var ms := Document.Unpair(stack[|stack| - 2 * n..]);
      PairedValues(ms);
      hide Document.Pairs;
      forall k | 0 <= k < |ms| ensures V.Sized(ms[k].value) {
        assert ms[k].value == stack[|stack| - 2 * n + 2 * k + 1];
      }
      assert V.Sized(V.Object(ms));
    case EndArray(n) =>
      assert V.Sized(V.Array(stack[|stack| - n..]));
    case _ =>
  }

  /** With 32-bit counts no run of handler calls builds a container of 2^32 items. */
  lemma {:induction false} RunKeepsSized(stack: seq<V.Value>, evs: seq<Event>)
    requires AllSized(stack) && AllRegular(evs) && Document.Run(stack, evs).Some?
    ensures AllSized(Document.Run(stack, evs).value)
    decreases |evs|
  {
    if evs != [] {
      hide V.Sized, Document.Step, Document.Accepts;
      StepKeepsSized(stack, evs[0]);
      assert AllRegular(evs[1..]);
      RunKeepsSized(Document.Step(stack, evs[0]), evs[1..]);
    }
  }

  /** The handler makes no difference between -0 and 0. */
  lemma {:induction false} SignlessRuns(stack: seq<V.Value>, evs: seq<Event>)
    ensures Document.Run(stack, Signless(evs)) == Document.Run(stack, evs)
    decreases |evs|
  {
    if evs != [] {
      assert Signless(evs)[1..] == Signless(evs[1..]);
      if Document.Accepts(stack, evs[0]) { SignlessRuns(Document.Step(stack, evs[0]), evs[1..]); }
    }
  }

  /** A document makes the derived value of the events exactly if no container in it has 2^32 items. */
  lemma TreeBuilds(c: Config, t: J.Tree)
    requires J.Valid(c, t)
    ensures Signless(J.Told(t)) == V.EventsOf(V.TextReader, ValueOf(t)) && Sound(c, ValueOf(t))
    ensures Document.Run([], J.Told(t)) == Some([ValueOf(t)]) <==> V.Sized(ValueOf(t))
  {
    hide J.Told, J.Valid, ValueOf, Document.Run, V.Sized, V.ExactNumbers, SoundDoubles;
    TreeSays(c, t);
    var v := ValueOf(t);
    var evs := V.EventsOf(V.TextReader, v);
    SignlessRuns([], J.Told(t));
    EventsAreRegular(v);
    if Document.Run([], evs) == Some([v]) {
      RunKeepsSized([], evs);
      assert [v][0] == v;
    }
    if V.Sized(v) {
      Document.Built(V.TextReader, [], v);
      assert [] + [v] == [v];
    }
  }

  /**
   * Whatever either parser accepts says one value: the events are exactly its events, but for the sign of -0; its
   * numbers are as the constructors make them, its doubles are literals. A document makes that value of them exactly
   * when no container in it has 2^32 items, which a text of less than 4 GiB has no room for.
   */
  lemma AcceptedBuilds(c: Config, s: seq<Byte>) returns (v: V.Value)
    requires Parse(c, s).Ok?
    ensures Signless(Parse(c, s).st.evs) == V.EventsOf(V.TextReader, v) && V.ExactNumbers(v) && SoundDoubles(c, v)
    ensures Document.Run([], Parse(c, s).st.evs) == Some([v]) <==> V.Sized(v)
    ensures |s| < V.TWO_32 ==> V.Sized(v)
    ensures Automaton.IterativeParse(c, s) == Parse(c, s)
  {
    hide PValue, Whitespace.Ws, Document.Run, V.Sized, J.Told, J.Text, J.Valid, ValueOf;
    Equivalence.ParsersAgree(c, s);
    var start := Whitespace.Ws(c, s, St(0, [])).st;
    var t := ValueDerived(c, s, start);
    v := ValueOf(t);
    TreeBuilds(c, t);
    assert [] + J.Told(t) == J.Told(t);
    if |s| < V.TWO_32 { TreeFits(t); }
  }

  /** The same for any derivation of the text. */
  lemma DerivedBuilds(c: Config, s: seq<Byte>, d: J.Document)
    requires !c.stopWhenDone && Parse(c, s).Ok? && Derives(c, d, s)
    ensures Signless(Parse(c, s).st.evs) == V.EventsOf(V.TextReader, ValueOf(d.root.value))
    ensures Document.Run([], Parse(c, s).st.evs) == Some([ValueOf(d.root.value)]) <==> V.Sized(ValueOf(d.root.value))
  {
    hide Parse, Document.Run, V.Sized, J.Told, J.Text, J.Valid, ValueOf, J.DocumentText;
    var d2 := DocumentDerived(c, s);
    Unambiguous(c, s, d, d2);
    TreeBuilds(c, d.root.value);
  }

  /** The text, if it is accepted, says a value that fits into memory as it is: no count in it has wrapped. */
  ghost predicate Fits(c: Config, s: seq<Byte>) {
    Parse(c, s).Ok? ==> exists v :: V.Proper(v) && Signless(Parse(c, s).st.evs) == V.EventsOf(V.TextReader, v)
  }

  lemma PrintedFits(c: Config, s: seq<Byte>, v: V.Value)
    requires V.Proper(v) && Parse(c, s).Ok? && Parse(c, s).st.evs == V.EventsOf(V.TextReader, v)
    ensures Signless(Parse(c, s).st.evs) == V.EventsOf(V.TextReader, v) && Fits(c, s)
  {
    hide Parse, Signless;
    EventsAreRegular(v);
    RegularIsSignless(V.EventsOf(V.TextReader, v));
  }

  lemma ShortFits(c: Config, s: seq<Byte>)
    requires |s| < V.TWO_32
    ensures Fits(c, s)
  {
    hide Parse, V.Sized, V.ExactNumbers;
    if Parse(c, s).Ok? { var v := AcceptedBuilds(c, s); }
  }

  /** The events of the reader tell values apart. */
  lemma EventsTell(v: V.Value, w: V.Value)
    requires V.Proper(v) && V.Proper(w) && V.EventsOf(V.TextReader, v) == V.EventsOf(V.TextReader, w)
    ensures v == w
  {
    hide V.Proper, Document.Run;
    Document.Built(V.TextReader, [], v);
    Document.Built(V.TextReader, [], w);
    assert ([] + [v])[0] == ([] + [w])[0];
  }

  /**
   * Parse, print, parse: the value that an accepted text says, printed in any legal style, is accepted to its end
   * and sends the very events of the text, with 0 for -0. For a target without Unicode its strings have to be UTF-8.
   */
  lemma ParsePrintParse(c: Config, style: Style, s: seq<Byte>) returns (v: V.Value)
    requires Willing(c) && Legal(style) && Parse(c, s).Ok?
    ensures Signless(Parse(c, s).st.evs) == V.EventsOf(V.TextReader, v)
    ensures V.Sized(v) && Writable(style.ascii, v) ==>
              var t := Text(style, v, 0); Parse(c, t) == Ok(St(|t|, Signless(Parse(c, s).st.evs)))
  {
    hide Parse, Text, Writable, V.Sized, V.ExactNumbers, SoundDoubles, Document.Run, Signless;
    v := AcceptedBuilds(c, s);
    if V.Sized(v) && Writable(style.ascii, v) { RoundTrip.PrintParse(c, style, v); }
  }
}
