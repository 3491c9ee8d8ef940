/**
 * Resolving a JSON Pointer in a value (`Get`, `Create` and `Set`, pointer.h). The reference that `Create`
 * returns is modelled as the way from the root down to it.
 */
module PointerTree {
  import opened Chars
  import opened Values
  import opened PointerText
  import opened ValueEquality
  import opened Numbers

  function Nulls(n: nat): (vs: seq<Value>)
    ensures |vs| == n && forall k :: 0 <= k < n ==> vs[k] == Null
  {
    if n == 0 then [] else Nulls(n - 1) + [Null]
  }

  /** The child a token names, as the number of a child; none if the token cannot be resolved there. */
  function Child(v: Value, t: Token): (k: Option<nat>)
    ensures k.Some? ==> k.value < ChildCount(v)
    ensures v.Object? && k.Some? ==>
              v.members[k.value].name == t.name && forall i :: 0 <= i < k.value ==> v.members[i].name != t.name
    ensures v.Object? && k.None? ==> forall i :: 0 <= i < |v.members| ==> v.members[i].name != t.name
    ensures v.Array? ==> if t.index < |v.elems| && t.index != INVALID_INDEX then k == Some(t.index) else k == None
    ensures !v.Object? && !v.Array? ==> k == None
  {
    match v
    case Object(members) => if FindMember(members, t.name) < |members| then Some(FindMember(members, t.name)) else None
    case Array(elems) => if t.index == INVALID_INDEX || t.index >= |elems| then None else Some(t.index)
    case _ => None
  }

  function ChildCount(v: Value): nat {
    match v
    case Object(members) => |members|
    case Array(elems) => |elems|
    case _ => 0
  }

  function ChildAt(v: Value, k: nat): Value
    requires k < ChildCount(v)
  {
    if v.Object? then v.members[k].value else v.elems[k]
  }

  function WithChild(v: Value, k: nat, child: Value): (w: Value)
    requires k < ChildCount(v)
    ensures ChildCount(w) == ChildCount(v) && ChildAt(w, k) == child
    ensures forall i :: 0 <= i < ChildCount(v) && i != k ==> ChildAt(w, i) == ChildAt(v, i)
    ensures forall t :: Child(w, t) == Child(v, t)
    ensures child == ChildAt(v, k) ==> w == v
  {
    if v.Object? then
      var ms := v.members[k := Member(v.members[k].name, child)];
      assert forall t: Token :: FindMember(ms, t.name) == FindMember(v.members, t.name) by { SameNames(v.members, ms); }
      Object(ms)
    else Array(v.elems[k := child])
  }

  lemma SameNames(ms: seq<Member>, ns: seq<Member>)
    requires |ms| == |ns| && forall k :: 0 <= k < |ms| ==> ms[k].name == ns[k].name
    ensures forall name :: FindMember(ms, name) == FindMember(ns, name)
  {
    forall name ensures FindMember(ms, name) == FindMember(ns, name) {
      FirstIsFound(ns, name, FindMember(ms, name));
    }
  }

  function Get(v: Value, ts: seq<Token>): Option<Value>
    decreases |ts|
  {
    if ts == [] then Some(v)
    else
      var k := Child(v, ts[0]);
      if k.None? then None else Get(ChildAt(v, k.value), ts[1..])
  }

  /** The value at the end of a way. */
  function At(v: Value, way: seq<nat>): Option<Value>
    decreases |way|
  {
    if way == [] then Some(v)
    else if way[0] < ChildCount(v) then At(ChildAt(v, way[0]), way[1..])
    else None
  }

  /** An assignment through the reference at the end of a way. */
  function Assign(v: Value, way: seq<nat>, x: Value): (w: Value)
    requires At(v, way).Some?
    ensures At(w, way) == Some(x)
    decreases |way|
  {
    if way == [] then x else WithChild(v, way[0], Assign(ChildAt(v, way[0]), way[1..], x))
  }

  datatype Created = Created(tree: Value, exist: bool, way: seq<nat>)

  predicate IsDash(t: Token) { t.name == [DASH] }

  /** The value as the token wants it: an object for a name, an array for an index unless it is an object already. */
  function Coerced(v: Value, t: Token): (w: Value)
    ensures w.Object? || (w.Array? && t.index != INVALID_INDEX)
    ensures v.Object? || (v.Array? && t.index != INVALID_INDEX) ==> w == v
    ensures v.Array? && t.index == INVALID_INDEX ==> w == Object([])
    ensures !v.Object? && !v.Array? ==> w == if t.index == INVALID_INDEX then Object([]) else Array([])
  {
    if t.index == INVALID_INDEX then if v.Object? then v else Object([])
    else if v.Array? || v.Object? then v else Array([])
  }

  /** The same with the child added that the token names, if it is not there. */
  function Grown(v: Value, t: Token): (w: Value)
    requires v.Object? || (v.Array? && t.index != INVALID_INDEX)
    ensures Child(w, t).Some? && (Child(v, t).Some? ==> w == v)
    ensures Child(v, t).None? ==> ChildAt(w, Child(w, t).value) == Null
    ensures v.Object? && Child(v, t).None? ==> w == Object(v.members + [Member(t.name, Null)])
    ensures v.Array? && Child(v, t).None? ==>
              && w.Array? && |w.elems| == t.index + 1 && w.elems[..|v.elems|] == v.elems
              && forall k :: |v.elems| <= k <= t.index ==> w.elems[k] == Null
  {
    if v.Object? then
      if Child(v, t).Some? then v
      else
        FoundLast(v.members, Member(t.name, Null));
        Object(v.members + [Member(t.name, Null)])
    else if t.index >= |v.elems| then Array(v.elems + Nulls(t.index + 1 - |v.elems|))
    else v
  }

  lemma FoundLast(ms: seq<Member>, m: Member)
    requires FindMember(ms, m.name) == |ms|
    ensures FindMember(ms + [m], m.name) == |ms|
  {
    FirstIsFound(ms + [m], m.name, |ms|);
  }

  function Create(v: Value, ts: seq<Token>): (r: Created)
    ensures At(r.tree, r.way).Some?
    ensures ts != [] && v.Array? && IsDash(ts[0]) ==>
              r.tree.Array? && |r.tree.elems| == |v.elems| + 1 && r.way != [] && r.way[0] == |v.elems|
    decreases |ts|
  {
    if ts == [] then Created(v, true, [])
    else if v.Array? && IsDash(ts[0]) then
      var rest := Create(Null, ts[1..]);
      var elems := v.elems + [rest.tree];
      assert ([|v.elems|] + rest.way)[1..] == rest.way;
      Created(Array(elems), false, [|v.elems|] + rest.way)
    else
      var w := Coerced(v, ts[0]);
      var g := Grown(w, ts[0]);
      var k := Child(g, ts[0]).value;
      var rest := Create(ChildAt(g, k), ts[1..]);
      assert ([k] + rest.way)[1..] == rest.way;
      Created(WithChild(g, k, rest.tree), Child(w, ts[0]).Some? && rest.exist, [k] + rest.way)
  }

  /** `Set` assigns to what `Create` returns. */
  function Set(v: Value, ts: seq<Token>, x: Value): Value {
    var r := Create(v, ts);
    Assign(r.tree, r.way, x)
  }

  lemma DashHasNoIndex()
    ensures TokenOf([DASH]).index == INVALID_INDEX
  {
  }

  /** `Create` finds what it wants exactly when `Get` does, and then changes nothing and returns what `Get` returns. */
  lemma {:induction false} CreateExisting(v: Value, ts: seq<Token>)
    requires Indexed(ts)
    ensures Create(v, ts).exist <==> Get(v, ts).Some?
    ensures Create(v, ts).exist ==> Create(v, ts).tree == v && At(v, Create(v, ts).way) == Get(v, ts)
    decreases |ts|
  {
    if ts != [] {
      DashHasNoIndex();
      assert ts[0] == TokenOf(ts[0].name);
      if v.Array? && IsDash(ts[0]) {
      } else {
        var w := Coerced(v, ts[0]);
        var g := Grown(w, ts[0]);
        var k := Child(g, ts[0]).value;
        hide IndexOf;
        assert Indexed(ts[1..]);
        CreateExisting(ChildAt(g, k), ts[1..]);
        var rest := Create(ChildAt(g, k), ts[1..]);
        assert ([k] + rest.way)[1..] == rest.way;
        assert Child(v, ts[0]).Some? ==> w == v;
      }
    }
  }

  /** Somewhere along the creation a dash meets an array, where it stands for a new element that `Get` cannot name. */
  predicate Appends(v: Value, ts: seq<Token>)
    decreases |ts|
  {
    ts != [] &&
    if v.Array? && IsDash(ts[0]) then true
    else
      var g := Grown(Coerced(v, ts[0]), ts[0]);
      Appends(ChildAt(g, Child(g, ts[0]).value), ts[1..])
  }

  /** `Get` after `Set` returns what was set, unless a dash appended an element on the way. */
  lemma {:induction false} GetAfterSet(v: Value, ts: seq<Token>, x: Value)
    requires Indexed(ts)
    ensures Appends(v, ts) ==> Get(Set(v, ts, x), ts).None?
    ensures !Appends(v, ts) ==> Get(Set(v, ts, x), ts) == Some(x)
    decreases |ts|
  {
    if ts != [] {
      var t := ts[0];
      assert t == TokenOf(t.name);
      DashHasNoIndex();
      if v.Array? && IsDash(t) {
        var rest := Create(Null, ts[1..]);
        assert ([|v.elems|] + rest.way)[1..] == rest.way;
      } else {
        hide IndexOf;
        assert Indexed(ts[1..]);
        var g := Grown(Coerced(v, t), t);
        var k := Child(g, t).value;
        GetAfterSet(ChildAt(g, k), ts[1..], x);
        var rest := Create(ChildAt(g, k), ts[1..]);
        var r := Create(v, ts);
        assert r.way[1..] == rest.way;
        var w := Set(v, ts, x);
        assert w == WithChild(r.tree, k, Set(ChildAt(g, k), ts[1..], x));
        assert Child(w, t) == Child(r.tree, t) == Child(g, t);
      }
    }
  }

  /** Both pointers go on to different children where they first differ, in an object as in an array. */
  predicate Apart(ts: seq<Token>, us: seq<Token>)
    decreases |ts|
  {
    && ts != [] && us != []
    && if ts[0] == us[0] then Apart(ts[1..], us[1..])
       else ts[0].name != us[0].name && (ts[0].index != us[0].index || ts[0].index == INVALID_INDEX)
  }

  /** Where the pointers part, an array has to give way to an object. */
  predicate Retypes(v: Value, ts: seq<Token>, us: seq<Token>)
    decreases |ts|
  {
    && ts != [] && us != []
    && if ts[0] == us[0] then
         Child(v, ts[0]).Some? && Retypes(ChildAt(v, Child(v, ts[0]).value), ts[1..], us[1..])
       else v.Array? && ts[0].index == INVALID_INDEX && !IsDash(ts[0])
  }

  /**
   * Creating or setting a path, whether it exists or not, leaves every other resolvable path as it was, unless one
   * leads through the other; it is gone exactly if an array that it leads through has to give way to an object.
   */
  lemma {:induction false} SetElsewhere(v: Value, ts: seq<Token>, us: seq<Token>, x: Value)
    requires Indexed(ts) && Get(v, us).Some? && Apart(ts, us)
    ensures Get(Set(v, ts, x), us) == Get(Create(v, ts).tree, us) == if Retypes(v, ts, us) then None else Get(v, us)
    decreases |ts|
  {
    var t, u := ts[0], us[0];
    assert t == TokenOf(t.name);
    if v.Array? && IsDash(t) {
      DashElsewhere(v, ts, us, x);
    } else {
      var g := Grown(Coerced(v, t), t);
      var k := Child(g, t).value;
      hide IndexOf, Create, Set, Grown, Coerced, FindMember;
      CreateSteps(v, ts, x);
      assert Indexed(ts[1..]);
      var w, r := Set(v, ts, x), Create(v, ts).tree;
      assert Child(w, u) == Child(r, u) == Child(g, u);
      if t == u {
        DashOnArray(v, t);
        SetElsewhere(ChildAt(v, k), ts[1..], us[1..], x);
      } else if Retypes(v, ts, us) {
        GrownAlone(v, t, u);
      } else {
        GrownElsewhere(v, t, u);
      }
    }
  }

  lemma CreateSteps(v: Value, ts: seq<Token>, x: Value)
    requires ts != [] && !(v.Array? && IsDash(ts[0]))
    ensures var g := Grown(Coerced(v, ts[0]), ts[0]);
            var k := Child(g, ts[0]).value;
            && Create(v, ts).tree == WithChild(g, k, Create(ChildAt(g, k), ts[1..]).tree)
            && Set(v, ts, x) == WithChild(g, k, Set(ChildAt(g, k), ts[1..], x))
  {
    var g := Grown(Coerced(v, ts[0]), ts[0]);
    var k := Child(g, ts[0]).value;
    var rest := Create(ChildAt(g, k), ts[1..]);
    var r := Create(v, ts);
    assert r.way[1..] == rest.way;
    hide Grown, Coerced, Child, WithChild, FindMember;
    ChildTwice(g, k, rest.tree, Set(ChildAt(g, k), ts[1..], x));
  }

  lemma ChildTwice(v: Value, k: nat, a: Value, b: Value)
    requires k < ChildCount(v)
    ensures WithChild(WithChild(v, k, a), k, b) == WithChild(v, k, b)
  {
  }

  /** The object in place of an array has one member. */
  lemma GrownAlone(v: Value, t: Token, u: Token)
    requires v.Array? && t.index == INVALID_INDEX && t.name != u.name
    ensures Child(Grown(Coerced(v, t), t), u).None?
  {
    var g := Grown(Coerced(v, t), t);
    FirstIsFound(g.members, u.name, 1);
  }

  /** Another child stays where it was. */
  lemma GrownElsewhere(v: Value, t: Token, u: Token)
    requires Child(v, u).Some? && (v.Array? ==> t.index != INVALID_INDEX && t.index != u.index) && t.name != u.name
    ensures var g := Grown(Coerced(v, t), t);
            && Child(g, u) == Child(v, u) && Child(g, t) != Child(g, u)
            && ChildAt(g, Child(v, u).value) == ChildAt(v, Child(v, u).value)
  {
    var g := Grown(Coerced(v, t), t);
    if v.Object? { FirstIsFound(g.members, u.name, FindMember(v.members, u.name)); }
  }

  lemma DashElsewhere(v: Value, ts: seq<Token>, us: seq<Token>, x: Value)
    requires ts != [] && us != [] && v.Array? && IsDash(ts[0]) && Get(v, us).Some?
    ensures Get(Set(v, ts, x), us) == Get(Create(v, ts).tree, us) == Get(v, us)
  {
    var rest := Create(Null, ts[1..]);
    var r := Create(v, ts);
    assert r.way[1..] == rest.way;
    var k := Child(v, us[0]).value;
    assert ChildAt(r.tree, k) == ChildAt(v, k) && ChildAt(Set(v, ts, x), k) == ChildAt(v, k);
  }

  lemma DashOnArray(v: Value, t: Token)
    requires Child(v, t).Some? && t == TokenOf(t.name)
    ensures !(v.Array? && IsDash(t)) && Coerced(v, t) == v && Grown(v, t) == v
  {
    DashHasNoIndex();
  }

  // Which pointers are apart.

  lemma DigitStep(name: seq<Byte>, k: nat, n: nat)
    requires k < |name| && n < 0x1_0000_0000 && forall i :: 0 <= i < |name| ==> IsDigit(name[i])
    ensures var m := (n * 10 + (name[k] - DIGIT_0)) % 0x1_0000_0000;
            Digits32(name, k, n) == if m < n then None else Digits32(name, k + 1, m)
  {
  }

  lemma DigitsDone(name: seq<Byte>, n: nat)
    requires n < 0x1_0000_0000 && forall i :: 0 <= i < |name| ==> IsDigit(name[i])
    ensures Digits32(name, |name|, n) == Some(n)
  {
  }

  lemma PrefixBelow(name: seq<Byte>, k: nat)
    requires k <= |name| && AllDigits(name)
    ensures AllDigits(name[..k]) && Val(name[..k]) <= Val(name)
  {
    assert name[0..k] == name[..k] && name[0..|name|] == name;
    ValGrows(name, 0, k, |name|);
  }

  /** Below 2^32 no step of the accumulation wraps. */
  lemma {:induction false} Accumulated(name: seq<Byte>, k: nat)
    requires k <= |name| && AllDigits(name) && Val(name) < 0x1_0000_0000
    ensures AllDigits(name[..k]) && Val(name[..k]) < 0x1_0000_0000
    ensures Digits32(name, k, Val(name[..k])) == Some(Val(name))
    decreases |name| - k
  {
    hide Val, Digits32;
    PrefixBelow(name, k);
    if k < |name| {
      PrefixBelow(name, k + 1);
      PrefixStep(name, k);
      DigitStep(name, k, Val(name[..k]));
      Accumulated(name, k + 1);
    } else {
      assert name[..k] == name;
      DigitsDone(name, Val(name));
    }
  }

  /** The index is the number that the name spells exactly when that number fits 32 bits. */
  lemma IndexExact(name: seq<Byte>)
    requires IsNumber(name)
    ensures AllDigits(name)
    ensures IndexOf(name) == Val(name) <==> Val(name) < 0x1_0000_0000
  {
    assert AllDigits(name);
    if Val(name) < 0x1_0000_0000 {
      assert name[..0] == [];
      Accumulated(name, 0);
    }
  }

  lemma PrefixStep(name: seq<Byte>, k: nat)
    requires k < |name| && AllDigits(name)
    ensures AllDigits(name[..k]) && AllDigits(name[..k + 1])
    ensures Val(name[..k + 1]) == Val(name[..k]) * 10 + (name[k] - DIGIT_0)
  {
    assert name[..k + 1][..k] == name[..k];
  }

  /** A number without a leading zero is at least the power of ten of its length. */
  lemma {:induction false} LeadingDigit(name: seq<Byte>)
    requires name != [] && AllDigits(name) && name[0] != DIGIT_0
    ensures Val(name) >= Pow10(|name| - 1)
  {
    if |name| > 1 {
      LeadingDigit(name[..|name| - 1]);
    } else {
      assert name[..0] == [];
    }
  }

  lemma {:induction false} ValInjective(a: seq<Byte>, b: seq<Byte>)
    requires |a| == |b| && AllDigits(a) && AllDigits(b) && Val(a) == Val(b)
    ensures a == b
  {
    if a != [] {
      var n := |a| - 1;
      ValInjective(a[..n], b[..n]);
      assert a == a[..n] + [a[n]] && b == b[..n] + [b[n]];
    }
  }

  /** If the name is a number, it is one that the index can hold. */
  predicate Fits32(name: seq<Byte>) {
    IsNumber(name) ==> AllDigits(name) && Val(name) < 0x1_0000_0000
  }

  /** Of such names no two have one index, unless it is the invalid one, which 4294967295 has, too. */
  lemma DifferentIndices(a: seq<Byte>, b: seq<Byte>)
    requires a != b && Fits32(a) && Fits32(b)
    ensures IndexOf(a) != IndexOf(b) || IndexOf(a) == INVALID_INDEX
  {
    if IsNumber(a) && IsNumber(b) {
      IndexExact(a);
      IndexExact(b);
      if Val(a) == Val(b) { SameNumber(a, b); }
    }
  }

  lemma SameNumber(a: seq<Byte>, b: seq<Byte>)
    requires IsNumber(a) && IsNumber(b) && AllDigits(a) && AllDigits(b) && Val(a) == Val(b)
    ensures a == b
  {
    SameLength(a, b);
    SameLength(b, a);
    ValInjective(a, b);
  }

  lemma SameLength(a: seq<Byte>, b: seq<Byte>)
    requires IsNumber(a) && IsNumber(b) && AllDigits(a) && AllDigits(b) && Val(a) == Val(b)
    ensures |a| <= |b|
  {
    if |b| < |a| {
      LeadingDigit(a);
      ValBelowPow(b);
      Pow10Grows(|b|, |a| - 1);
    }
  }

  predicate AllFit32(ts: seq<Token>) {
    forall k :: 0 <= k < |ts| ==> Fits32(ts[k].name)
  }

  predicate IsPrefix(ts: seq<Token>, us: seq<Token>) {
    |ts| <= |us| && us[..|ts|] == ts
  }

  /** With every number below 2^32, two pointers are apart unless one is a prefix of the other. */
  lemma {:induction false} IncomparableApart(ts: seq<Token>, us: seq<Token>)
    requires Indexed(ts) && Indexed(us) && AllFit32(ts) && AllFit32(us)
    ensures Apart(ts, us) <==> !IsPrefix(ts, us) && !IsPrefix(us, ts)
    decreases |ts|
  {
    hide IndexOf, Fits32;
    if ts != [] && us != [] {
      assert ts[0] == TokenOf(ts[0].name) && us[0] == TokenOf(us[0].name);
      if ts[0] == us[0] {
        IncomparableApart(ts[1..], us[1..]);
        PrefixTail(ts, us);
        PrefixTail(us, ts);
      } else {
        DifferentIndices(ts[0].name, us[0].name);
        NoPrefix(ts, us);
        NoPrefix(us, ts);
      }
    }
  }

  lemma NoPrefix(ts: seq<Token>, us: seq<Token>)
    requires ts != [] && us != [] && ts[0] != us[0]
    ensures !IsPrefix(ts, us)
  {
    if |ts| <= |us| { assert us[..|ts|][0] == us[0]; }
  }

  lemma PrefixTail(ts: seq<Token>, us: seq<Token>)
    requires ts != [] && us != [] && ts[0] == us[0]
    ensures IsPrefix(ts, us) <==> IsPrefix(ts[1..], us[1..])
  {
    if |ts| <= |us| {
      assert us[..|ts|] == [us[0]] + us[1..][..|ts| - 1];
      assert ts == [ts[0]] + ts[1..];
    }
  }

  const FIVE_BILLION: seq<Byte> := [0x35, 0x30, 0x30, 0x30, 0x30, 0x30, 0x30, 0x30, 0x30, 0x30]
  const WRAPPED: seq<Byte> := [0x37, 0x30, 0x35, 0x30, 0x33, 0x32, 0x37, 0x30, 0x34]

  lemma FiveBillionIndex()
    ensures IsNumber(FIVE_BILLION) && IndexOf(FIVE_BILLION) == 705032704
  {
    hide Digits32;
    var a := FIVE_BILLION;
    assert |a| == 10;
    DigitStep(a, 0, 0);
    DigitStep(a, 1, 5);
    DigitStep(a, 2, 50);
    DigitStep(a, 3, 500);
    DigitStep(a, 4, 5000);
    DigitStep(a, 5, 50000);
    DigitStep(a, 6, 500000);
    DigitStep(a, 7, 5000000);
    DigitStep(a, 8, 50000000);
    DigitStep(a, 9, 500000000);
    DigitsDone(a, 705032704);
  }

  lemma WrappedIndex()
    ensures IsNumber(WRAPPED) && IndexOf(WRAPPED) == 705032704
  {
    hide Digits32;
    var b := WRAPPED;
    assert |b| == 9;
    DigitStep(b, 0, 0);
    DigitStep(b, 1, 7);
    DigitStep(b, 2, 70);
    DigitStep(b, 3, 705);
    DigitStep(b, 4, 7050);
    DigitStep(b, 5, 70503);
    DigitStep(b, 6, 705032);
    DigitStep(b, 7, 7050327);
    DigitStep(b, 8, 70503270);
    DigitsDone(b, 705032704);
  }

  /** From 2^32 on a number can wrap unnoticed: 5000000000 has the index of 705032704. */
  lemma LongNumbersCollide()
    ensures IsNumber(FIVE_BILLION) && IsNumber(WRAPPED) && FIVE_BILLION != WRAPPED
    ensures IndexOf(FIVE_BILLION) == IndexOf(WRAPPED) == 705032704
  {
    assert |FIVE_BILLION| != |WRAPPED|;
    hide IndexOf, IsNumber;
    FiveBillionIndex();
    WrappedIndex();
  }
}
