/**
 * `GenericDocument` as a handler (document.h): a stack of values. The events of any value, sent by a visitor or
 * by the reader, leave exactly that value on top of what was there.
 */
module Document {
  import opened Chars
  import opened Values
  import E = Events

  /** The items of an object as they lie on the stack: name, value, name, value. */
  function Pairs(ms: seq<Member>): (vs: seq<Value>)
    ensures |vs| == 2 * |ms|
  {
    if ms == [] then [] else [String(ms[0].name), ms[0].value] + Pairs(ms[1..])
  }

  /** The members made of the values popped for an object; names are the strings at even places. */
  function Unpair(vs: seq<Value>): (ms: seq<Member>)
    requires |vs| % 2 == 0
    requires forall k :: 0 <= k < |vs| && k % 2 == 0 ==> vs[k].String?
    ensures 2 * |ms| == |vs| && Pairs(ms) == vs
  {
    if vs == [] then []
    else
      var rest := Unpair(vs[2..]);
      var ms := [Member(vs[0].str, vs[1])] + rest;
      assert ms[1..] == rest;
      ms
  }

  lemma {:induction false} PairsInjective(ms: seq<Member>, ns: seq<Member>)
    requires Pairs(ms) == Pairs(ns)
    ensures ms == ns
  {
    assert |ms| == |ns|;
    if ms != [] {
      assert Pairs(ms)[0] == Pairs(ns)[0] && Pairs(ms)[1] == Pairs(ns)[1];
      assert Pairs(ms)[2..] == Pairs(ms[1..]) && Pairs(ns)[2..] == Pairs(ns[1..]);
      PairsInjective(ms[1..], ns[1..]);
      assert ms == [ms[0]] + ms[1..] && ns == [ns[0]] + ns[1..];
    }
  }

  /** The top `n` values are there, with a container to put them into below them. */
  predicate CanClose(stack: seq<Value>, n: nat, isObject: bool) {
    && n < |stack|
    && (isObject ==> n % 2 == 0)
    && (isObject ==> forall k :: |stack| - n <= k < |stack| && (k - (|stack| - n)) % 2 == 0 ==> stack[k].String?)
  }

  /** An event the handler can take without popping what is not there. */
  predicate Accepts(stack: seq<Value>, e: E.Event) {
    match e
    case EndObject(n) => CanClose(stack, 2 * n, true)
    case EndArray(n) => CanClose(stack, n, false)
    case Int(i) => -TWO_31 <= i < TWO_31
    case Uint(u) => u < TWO_32
    case Int64(i) => -TWO_63 <= i < TWO_63
    case Uint64(u) => u < TWO_64
    case _ => true
  }

  /** One handler call. */
  function Step(stack: seq<Value>, e: E.Event): seq<Value>
    requires Accepts(stack, e)
  {
    match e
    case Null => stack + [Null]
    case Bool(b) => stack + [Bool(b)]
    case Int(i) => stack + [Number(FromInt(i))]
    case Uint(u) => stack + [Number(FromUint(u))]
    case Int64(i) => stack + [Number(FromInt64(i))]
    case Uint64(u) => stack + [Number(FromUint64(u))]
    case Double(literal) => stack + [Double(literal)]
    case String(str) => stack + [String(str)]
    case Key(name) => stack + [String(name)]
    case StartObject => stack + [Object([])]
    case StartArray => stack + [Array([])]
    case EndObject(n) =>
      var base := |stack| - 2 * n;
      stack[..base - 1] + [Object(Unpair(stack[base..]))]
    case EndArray(n) =>
      var base := |stack| - n;
      stack[..base - 1] + [Array(stack[base..])]
  }

  /** A run of handler calls, if every one of them can be taken. */
  function Run(stack: seq<Value>, evs: seq<E.Event>): Option<seq<Value>>
    decreases |evs|
  {
    if evs == [] then Some(stack)
    else if Accepts(stack, evs[0]) then Run(Step(stack, evs[0]), evs[1..])
    else None
  }

  lemma {:induction false} RunAppend(stack: seq<Value>, a: seq<E.Event>, b: seq<E.Event>)
    requires Run(stack, a).Some?
    ensures Run(stack, a + b) == Run(Run(stack, a).value, b)
    decreases |a|
  {
    if a == [] {
      assert a + b == b;
    } else {
      assert (a + b)[1..] == a[1..] + b;
      RunAppend(Step(stack, a[0]), a[1..], b);
    }
  }

  lemma LeafBuilt(via: Sender, stack: seq<Value>, v: Value)
    requires Proper(v) && !v.Array? && !v.Object?
    ensures Accepts(stack, LeafEvent(via, v)) && Step(stack, LeafEvent(via, v)) == stack + [v]
  {
    if v.Number? { NumberEventExact(IntegerOf(v.num)); }
  }

  /** An integer arrives as itself from either sender, with the flags and accessors of every type that has room for it. */
  lemma IntegerKept(via: Sender, stack: seq<Value>, v: int)
    requires IsInteger64(v)
    ensures var e := LeafEvent(via, Number(NumOf(v)));
            && Accepts(stack, e) && Step(stack, e) == stack + [Number(NumOf(v))]
            && Holds(NumOf(v), v)
  {
    NumberEventExact(v);
    LeafBuilt(via, stack, Number(NumOf(v)));
    NumberHolds(v);
  }

  lemma RunOne(stack: seq<Value>, e: E.Event)
    ensures Run(stack, [e]) == if Accepts(stack, e) then Some(Step(stack, e)) else None
  {
    if Accepts(stack, e) { assert Run(Step(stack, e), [e][1..]) == Some(Step(stack, e)); }
  }

  lemma CloseArray(stack: seq<Value>, elems: seq<Value>)
    requires |elems| < TWO_32
    ensures Run(stack + [Array([])] + elems, [E.EndArray(Size32(|elems|))]) == Some(stack + [Array(elems)])
  {
    hide Run;
    var full := stack + [Array([])] + elems;
    var n := Size32(|elems|);
    assert n == |elems| && |full| - n == |stack| + 1;
    assert full[|stack| + 1..] == elems && full[..|stack|] == stack;
    RunOne(full, E.EndArray(n));
    assert Step(full, E.EndArray(n)) == stack + [Array(elems)];
  }

  lemma CloseObject(stack: seq<Value>, ms: seq<Member>)
    requires |ms| < TWO_32
    ensures Run(stack + [Object([])] + Pairs(ms), [E.EndObject(Size32(|ms|))]) == Some(stack + [Object(ms)])
  {
    hide Run, Pairs, Step, Accepts;
    PairNames(ms);
    UnpairsTo(ms);
    RunOne(stack + [Object([])] + Pairs(ms), E.EndObject(|ms|));
    ObjectCloses(stack, Pairs(ms), |ms|);
  }

  lemma UnpairsTo(ms: seq<Member>)
    requires forall k :: 0 <= k < |Pairs(ms)| && k % 2 == 0 ==> Pairs(ms)[k].String?
    ensures Unpair(Pairs(ms)) == ms
  {
    hide Pairs;
    PairsInjective(Unpair(Pairs(ms)), ms);
  }

  lemma ObjectCloses(stack: seq<Value>, items: seq<Value>, n: nat)
    requires |items| == 2 * n && forall k :: 0 <= k < |items| && k % 2 == 0 ==> items[k].String?
    ensures var full, e := stack + [Object([])] + items, E.EndObject(n);
            Accepts(full, e) && Step(full, e) == stack + [Object(Unpair(items))]
  {
    var full := stack + [Object([])] + items;
    var base := |stack| + 1;
    assert full[base..] == items && full[..|stack|] == stack;
    assert forall k :: base <= k < |full| ==> full[k] == items[k - base];
  }

  /** The events of a value leave exactly that value, whoever sends them. */
  lemma {:induction false} Built(via: Sender, stack: seq<Value>, v: Value)
    requires Proper(v)
    ensures Run(stack, EventsOf(via, v)) == Some(stack + [v])
    decreases v, 0
  {
    match v
    case Array(elems) =>
      hide Run, Proper;
      RunOne(stack, E.StartArray);
      RunAppend(stack, [E.StartArray], ElementEvents(via, elems));
      ProperArray(v);
      ElementsBuilt(via, stack + [Array([])], elems);
      RunAppend(stack, [E.StartArray] + ElementEvents(via, elems), [E.EndArray(Size32(|elems|))]);
      CloseArray(stack, elems);
    case Object(members) =>
      hide Run, Proper;
      RunOne(stack, E.StartObject);
      RunAppend(stack, [E.StartObject], MemberEvents(via, members));
      ProperObject(v);
      MembersBuilt(via, stack + [Object([])], members);
      RunAppend(stack, [E.StartObject] + MemberEvents(via, members), [E.EndObject(Size32(|members|))]);
      CloseObject(stack, members);
    case _ =>
      LeafBuilt(via, stack, v);
      RunOne(stack, LeafEvent(via, v));
  }

  lemma ProperArray(v: Value)
    requires Proper(v) && v.Array?
    ensures |v.elems| < TWO_32 && forall k :: 0 <= k < |v.elems| ==> Proper(v.elems[k])
  {
  }

  lemma ProperObject(v: Value)
    requires Proper(v) && v.Object?
    ensures |v.members| < TWO_32 && forall k :: 0 <= k < |v.members| ==> Proper(v.members[k].value)
  {
  }

  lemma RunThen(stack: seq<Value>, a: seq<E.Event>, mid: seq<Value>, b: seq<E.Event>, end: seq<Value>)
    requires Run(stack, a) == Some(mid) && Run(mid, b) == Some(end)
    ensures Run(stack, a + b) == Some(end)
  {
    hide Run;
    RunAppend(stack, a, b);
  }

  lemma Regroup(a: seq<Value>, b: seq<Value>, c: seq<Value>)
    ensures a + b + c == a + (b + c)
  {
  }

  lemma {:induction false} ElementsBuilt(via: Sender, stack: seq<Value>, vs: seq<Value>)
    requires forall k :: 0 <= k < |vs| ==> Proper(vs[k])
    ensures Run(stack, ElementEvents(via, vs)) == Some(stack + vs)
    decreases vs, 1
  {
    if vs == [] {
      assert stack + vs == stack;
    } else {
      hide Run, Proper, EventsOf;
      var first := stack + [vs[0]];
      Built(via, stack, vs[0]);
      ElementsBuilt(via, first, vs[1..]);
      RunThen(stack, EventsOf(via, vs[0]), first, ElementEvents(via, vs[1..]), first + vs[1..]);
      Regroup(stack, [vs[0]], vs[1..]);
      assert [vs[0]] + vs[1..] == vs;
    }
  }

  lemma {:induction false} MembersBuilt(via: Sender, stack: seq<Value>, ms: seq<Member>)
    requires forall k :: 0 <= k < |ms| ==> Proper(ms[k].value)
    ensures Run(stack, MemberEvents(via, ms)) == Some(stack + Pairs(ms))
    decreases ms, 1
  {
    if ms == [] {
      assert stack + Pairs(ms) == stack;
    } else {
      hide Run, Proper, EventsOf;
      var key, name, value := E.Key(ms[0].name), [String(ms[0].name)], [ms[0].value];
      RunOne(stack, key);
      Built(via, stack + name, ms[0].value);
      RunThen(stack, [key], stack + name, EventsOf(via, ms[0].value), stack + name + value);
      MembersBuilt(via, stack + name + value, ms[1..]);
      RunThen(stack, [key] + EventsOf(via, ms[0].value), stack + name + value, MemberEvents(via, ms[1..]),
              stack + name + value + Pairs(ms[1..]));
      Regroup(stack, name, value);
      Regroup(stack, name + value, Pairs(ms[1..]));
      assert name + value == [String(ms[0].name), ms[0].value];
    }
  }

  lemma {:induction false} PairNames(ms: seq<Member>)
    ensures forall k :: 0 <= k < |Pairs(ms)| && k % 2 == 0 ==> Pairs(ms)[k].String?
  {
    if ms != [] {
      PairNames(ms[1..]);
      forall k | 0 <= k < |Pairs(ms)| && k % 2 == 0 ensures Pairs(ms)[k].String? {
        if k >= 2 { assert Pairs(ms)[k] == Pairs(ms[1..])[k - 2]; }
      }
    }
  }
}
