/**
 * `operator==` on values (document.h). It looks the members of the left object up in the right one and never the
 * other way round. On values without doubles and with unique member names that is nevertheless equality of what
 * the values mean when the order of members does not count.
 */
module ValueEquality {
  import opened Chars
  import opened Values
  import opened Rendering

  /** `FindMember`: the first member with that name, or the number of members. */
  function FindMember(ms: seq<Member>, name: seq<Byte>): (i: nat)
    ensures i <= |ms|
    ensures i < |ms| ==> ms[i].name == name
    ensures forall k :: 0 <= k < i ==> ms[k].name != name
  {
    if ms == [] then 0
    else if ms[0].name == name then 0
    else
      var i := FindMember(ms[1..], name);
      assert forall k :: 1 <= k < 1 + i ==> ms[k].name == ms[1..][k - 1].name;
      1 + i
  }

  /** `operator==` where no double is involved; numbers are compared by their 64 bits alone. */
  predicate Equal(a: Value, b: Value)
    requires DoubleFree(a) && DoubleFree(b)
    decreases a
  {
    match a
    case Null => b.Null?
    case Bool(x) => b == Bool(x)
    case Number(x) => b.Number? && b.num.bits == x.bits
    case String(x) => b == String(x)
    case Array(xs) => b.Array? && |b.elems| == |xs| && forall k :: 0 <= k < |xs| ==> Equal(xs[k], b.elems[k])
    case Object(ms) =>
      && b.Object? && |b.members| == |ms|
      && (forall k :: 0 <= k < |ms| ==> Matched(ms[k], b.members))
    case Double(_) => false
  }

  /** The member looked up under the name of `m` has an equal value. */
  predicate Matched(m: Member, ns: seq<Member>)
    requires DoubleFree(m.value) && forall k :: 0 <= k < |ns| ==> DoubleFree(ns[k].value)
    decreases m
  {
    var j := FindMember(ns, m.name);
    j < |ns| && Equal(m.value, ns[j].value)
  }

  method Find(ms: seq<Member>, name: seq<Byte>) returns (i: nat)
    ensures i == FindMember(ms, name)
  {
    i := 0;
    while i < |ms| && ms[i].name != name
      invariant i <= |ms| && forall k :: 0 <= k < i ==> ms[k].name != name
    {
      i := i + 1;
    }
    FirstIsFound(ms, name, i);
  }

  lemma FirstIsFound(ms: seq<Member>, name: seq<Byte>, i: nat)
    requires i <= |ms| && (i < |ms| ==> ms[i].name == name)
    requires forall k :: 0 <= k < i ==> ms[k].name != name
    ensures FindMember(ms, name) == i
  {
    var j := FindMember(ms, name);
  }

  /** The comparison as it runs, left to right with early exits. */
  method Compare(a: Value, b: Value) returns (equal: bool)
    requires DoubleFree(a) && DoubleFree(b)
    ensures equal == Equal(a, b)
    decreases a, 1
  {
    match a
    case Null => return b.Null?;
    case Bool(x) => return b == Bool(x);
    case String(x) => return b == String(x);
    case Number(x) => return b.Number? && b.num.bits == x.bits;
    case Array(xs) =>
      if !b.Array? || |xs| != |b.elems| { return false; }
      for k := 0 to |xs|
        invariant forall i :: 0 <= i < k ==> Equal(xs[i], b.elems[i])
      {
        var same := Compare(xs[k], b.elems[k]);
        if !same { return false; }
      }
      return true;
    case Object(ms) =>
      if !b.Object? || |ms| != |b.members| { return false; }
      for k := 0 to |ms|
        invariant forall i :: 0 <= i < k ==> Matched(ms[i], b.members)
      {
        var j := Find(b.members, ms[k].name);
        if j == |b.members| { return false; }
        var same := Compare(ms[k].value, b.members[j].value);
        if !same { return false; }
      }
      return true;
  }

  predicate DistinctNames(ms: seq<Member>) {
    forall i, j :: 0 <= i < j < |ms| ==> ms[i].name != ms[j].name
  }

  /** No object inside has two members of one name. */
  predicate UniqueNames(v: Value) {
    match v
    case Array(elems) => forall k :: 0 <= k < |elems| ==> UniqueNames(elems[k])
    case Object(members) => DistinctNames(members) && forall k :: 0 <= k < |members| ==> UniqueNames(members[k].value)
    case _ => true
  }

  /** What a value means when the order of members does not count. */
  datatype Meaning =
    | Atom(v: Value)
    | Bits(bits: nat)
    | Items(items: seq<Meaning>)
    | Fields(fields: map<seq<Byte>, Meaning>)

  function MeaningOf(v: Value): Meaning
    decreases v, 0
  {
    match v
    case Number(n) => Bits(n.bits)
    case Array(elems) => Items(ItemsOf(elems))
    case Object(members) => Fields(FieldsOf(members))
    case _ => Atom(v)
  }

  function ItemsOf(vs: seq<Value>): (ms: seq<Meaning>)
    ensures |ms| == |vs|
    decreases vs, 1
  {
    if vs == [] then [] else [MeaningOf(vs[0])] + ItemsOf(vs[1..])
  }

  function FieldsOf(ms: seq<Member>): map<seq<Byte>, Meaning>
    decreases ms, 1
  {
    if ms == [] then map[] else FieldsOf(ms[1..])[ms[0].name := MeaningOf(ms[0].value)]
  }

  lemma {:induction false} ItemsAt(vs: seq<Value>, k: nat)
    requires k < |vs|
    ensures ItemsOf(vs)[k] == MeaningOf(vs[k])
  {
    if k > 0 { ItemsAt(vs[1..], k - 1); }
  }

  /** A field is what the first member of that name means. */
  lemma {:induction false} FieldsAt(ms: seq<Member>, name: seq<Byte>)
    ensures var i := FindMember(ms, name);
            && (name in FieldsOf(ms) <==> i < |ms|)
            && (i < |ms| ==> FieldsOf(ms)[name] == MeaningOf(ms[i].value))
  {
    if ms != [] && ms[0].name != name {
      FieldsAt(ms[1..], name);
    }
  }

  /** There are as many fields as members exactly when no name is used twice. */
  lemma {:induction false} FieldsCount(ms: seq<Member>)
    ensures |FieldsOf(ms)| <= |ms|
    ensures |FieldsOf(ms)| == |ms| <==> DistinctNames(ms)
  {
    if ms != [] {
      var rest := ms[1..];
      FieldsCount(rest);
      FieldsAt(rest, ms[0].name);
      DistinctFrom(ms);
      assert FieldsOf(ms).Keys == FieldsOf(rest).Keys + {ms[0].name};
    }
  }

  lemma DistinctFrom(ms: seq<Member>)
    requires ms != []
    ensures DistinctNames(ms) <==> DistinctNames(ms[1..]) && FindMember(ms[1..], ms[0].name) == |ms| - 1
  {
    var rest := ms[1..];
    assert forall k :: 0 < k < |ms| ==> ms[k] == rest[k - 1];
    if DistinctNames(ms) {
      FirstIsFound(rest, ms[0].name, |rest|);
    }
  }

  lemma SubsetOfSize<T>(a: set<T>, b: set<T>)
    requires a <= b && |a| == |b|
    ensures a == b
  {
    if a != b {
      var x :| x in b && x !in a;
      SubsetSize(a, b - {x});
    }
  }

  lemma {:induction false} SubsetSize<T>(a: set<T>, b: set<T>)
    requires a <= b
    ensures |a| <= |b|
    decreases |a|
  {
    if x :| x in a { SubsetSize(a - {x}, b - {x}); }
  }

  /**
   * Without doubles and with unique names on both sides, the one-directional search decides whether the two
   * values mean the same.
   */
  lemma {:induction false} EqualIsSameMeaning(a: Value, b: Value)
    requires DoubleFree(a) && DoubleFree(b) && UniqueNames(a) && UniqueNames(b)
    ensures Equal(a, b) <==> MeaningOf(a) == MeaningOf(b)
    decreases a, 1
  {
    match a
    case Array(xs) => if b.Array? && |b.elems| == |xs| { ArraysSame(xs, b.elems); }
    case Object(ms) => if b.Object? { ObjectsSame(ms, b.members); }
    case _ =>
  }

  lemma {:induction false} ArraysSame(xs: seq<Value>, ys: seq<Value>)
    requires DoubleFree(Array(xs)) && DoubleFree(Array(ys)) && UniqueNames(Array(xs)) && UniqueNames(Array(ys))
    requires |xs| == |ys|
    ensures Equal(Array(xs), Array(ys)) <==> ItemsOf(xs) == ItemsOf(ys)
    decreases xs, 0
  {
    forall k | 0 <= k < |xs|
      ensures ItemsOf(xs)[k] == MeaningOf(xs[k]) && ItemsOf(ys)[k] == MeaningOf(ys[k])
      ensures Equal(xs[k], ys[k]) <==> MeaningOf(xs[k]) == MeaningOf(ys[k])
    {
      ItemsAt(xs, k);
      ItemsAt(ys, k);
      EqualIsSameMeaning(xs[k], ys[k]);
    }
  }

  lemma {:induction false} ObjectsSame(ms: seq<Member>, ns: seq<Member>)
    requires DoubleFree(Object(ms)) && DoubleFree(Object(ns)) && UniqueNames(Object(ms)) && UniqueNames(Object(ns))
    ensures Equal(Object(ms), Object(ns)) <==> FieldsOf(ms) == FieldsOf(ns)
    decreases ms, 0
  {
    FieldsCount(ms);
    FieldsCount(ns);
    var f, g := FieldsOf(ms), FieldsOf(ns);
    forall k | 0 <= k < |ms|
      ensures ms[k].name in f && (Matched(ms[k], ns) <==> ms[k].name in g && f[ms[k].name] == g[ms[k].name])
    {
      MemberSame(ms, ns, k);
    }
    if |ms| == |ns| && forall k :: 0 <= k < |ms| ==> Matched(ms[k], ns) {
      forall name | name in f ensures name in g && f[name] == g[name] {
        FieldsAt(ms, name);
        assert Matched(ms[FindMember(ms, name)], ns);
      }
      assert f.Keys <= g.Keys && |f.Keys| == |f| && |g.Keys| == |g|;
      SubsetOfSize(f.Keys, g.Keys);
      assert f == g;
    }
  }

  /** One member of the left object. */
  lemma {:induction false} MemberSame(ms: seq<Member>, ns: seq<Member>, k: nat)
    requires DoubleFree(Object(ms)) && DoubleFree(Object(ns)) && UniqueNames(Object(ms)) && UniqueNames(Object(ns))
    requires k < |ms|
    ensures var f, g, name := FieldsOf(ms), FieldsOf(ns), ms[k].name;
            name in f && (Matched(ms[k], ns) <==> name in g && f[name] == g[name])
    decreases ms[k], 2
  {
    var name := ms[k].name;
    FirstIsFound(ms, name, k);
    FieldsAt(ms, name);
    FieldsAt(ns, name);
    var j := FindMember(ns, name);
    if j < |ns| { EqualIsSameMeaning(ms[k].value, ns[j].value); }
  }

  /** On such values the comparison is an equivalence. */
  lemma EqualIsEquivalence(a: Value, b: Value, c: Value)
    requires DoubleFree(a) && DoubleFree(b) && DoubleFree(c) && UniqueNames(a) && UniqueNames(b) && UniqueNames(c)
    ensures Equal(a, a)
    ensures Equal(a, b) <==> Equal(b, a)
    ensures Equal(a, b) && Equal(b, c) ==> Equal(a, c)
  {
    hide Equal, MeaningOf, DoubleFree, UniqueNames;
    EqualIsSameMeaning(a, a);
    EqualIsSameMeaning(a, b);
    EqualIsSameMeaning(b, a);
    EqualIsSameMeaning(b, c);
    EqualIsSameMeaning(a, c);
  }

  /** Objects with the same members in any order are equal. */
  lemma OrderDoesNotCount(ms: seq<Member>, ns: seq<Member>)
    requires DoubleFree(Object(ms)) && UniqueNames(Object(ms)) && multiset(ms) == multiset(ns)
    ensures DoubleFree(Object(ns)) && |ns| == |ms| && Equal(Object(ms), Object(ns))
  {
    assert |multiset(ms)| == |ms| && |multiset(ns)| == |ns|;
    forall k | 0 <= k < |ns| ensures DoubleFree(ns[k].value) {
      assert ns[k] in multiset(ns);
    }
    forall k | 0 <= k < |ms| ensures Matched(ms[k], ns) {
      assert ms[k] in multiset(ms);
      assert ms[k] in ns;
      var i :| 0 <= i < |ns| && ns[i] == ms[k];
      var j := FindMember(ns, ms[k].name);
      assert j <= i;
      assert ns[j] in multiset(ns);
      assert ns[j] in ms;
      EqualIsEquivalence(ms[k].value, ms[k].value, ms[k].value);
    }
  }

  // Duplicated names.

  /** The values of the members have unique names; the members themselves may share one. */
  predicate UniqueInside(ms: seq<Member>) {
    forall k :: 0 <= k < |ms| ==> UniqueNames(ms[k].value)
  }

  /** Members that share a name have equal values. */
  predicate SameNameSameValue(ms: seq<Member>)
    requires DoubleFree(Object(ms))
  {
    forall i, j :: 0 <= i < |ms| && 0 <= j < |ms| && ms[i].name == ms[j].name ==> Equal(ms[i].value, ms[j].value)
  }

  /** Every name in `ns` occurs in `ms`. */
  predicate NamesOccur(ns: seq<Member>, ms: seq<Member>) {
    forall k :: 0 <= k < |ns| ==> FindMember(ms, ns[k].name) < |ms|
  }

  /** Unique names on the left are unique on the right, too, and the names are the same. */
  lemma EqualNames(ms: seq<Member>, ns: seq<Member>)
    requires DoubleFree(Object(ms)) && DoubleFree(Object(ns)) && Equal(Object(ms), Object(ns)) && DistinctNames(ms)
    ensures DistinctNames(ns) && NamesOccur(ns, ms)
  {
    var f, g := FieldsOf(ms), FieldsOf(ns);
    forall name | name in f ensures name in g {
      FieldsAt(ms, name);
      FieldsAt(ns, name);
      assert Matched(ms[FindMember(ms, name)], ns);
    }
    FieldsCount(ms);
    FieldsCount(ns);
    assert |f.Keys| == |f| && |g.Keys| == |g|;
    SubsetSize(f.Keys, g.Keys);
    SubsetOfSize(f.Keys, g.Keys);
    forall k | 0 <= k < |ns| ensures FindMember(ms, ns[k].name) < |ms| {
      FieldsAt(ms, ns[k].name);
      FieldsAt(ns, ns[k].name);
    }
  }

  /** A value equal to one with unique names has unique names. */
  lemma {:induction false} EqualKeepsUnique(a: Value, b: Value)
    requires DoubleFree(a) && DoubleFree(b) && Equal(a, b) && UniqueNames(a)
    ensures UniqueNames(b)
    decreases a
  {
    match a
    case Array(xs) =>
      forall k | 0 <= k < |xs| ensures UniqueNames(b.elems[k]) {
        EqualKeepsUnique(xs[k], b.elems[k]);
      }
    case Object(ms) =>
      var ns := b.members;
      EqualNames(ms, ns);
      forall j | 0 <= j < |ns| ensures UniqueNames(ns[j].value) {
        var k := FindMember(ms, ns[j].name);
        assert k < |ms|;
        assert Matched(ms[k], ns);
        FirstIsFound(ns, ns[j].name, j);
        EqualKeepsUnique(ms[k].value, ns[j].value);
      }
    case _ =>
  }

  /** Two values with unique names that both equal a third one equal each other. */
  lemma BothEqual(a: Value, b: Value, c: Value)
    requires DoubleFree(a) && DoubleFree(b) && DoubleFree(c) && UniqueNames(a) && UniqueNames(b)
    requires Equal(a, c) && Equal(b, c)
    ensures Equal(a, b)
  {
    hide Equal, DoubleFree, UniqueNames;
    EqualKeepsUnique(a, c);
    EqualIsEquivalence(b, c, c);
    EqualIsEquivalence(a, c, b);
  }

  /** What an object equals has, under each of its names, one value that all members of that name equal. */
  lemma EqualMeansConsistent(ms: seq<Member>, ns: seq<Member>)
    requires DoubleFree(Object(ms)) && DoubleFree(Object(ns)) && UniqueInside(ms) && Equal(Object(ms), Object(ns))
    ensures SameNameSameValue(ms)
  {
    forall i, j | 0 <= i < |ms| && 0 <= j < |ms| && ms[i].name == ms[j].name
      ensures Equal(ms[i].value, ms[j].value)
    {
      assert Matched(ms[i], ns) && Matched(ms[j], ns);
      BothEqual(ms[i].value, ms[j].value, ns[FindMember(ns, ms[i].name)].value);
    }
  }

  lemma ConsistentEqualsItself(ms: seq<Member>)
    requires DoubleFree(Object(ms)) && SameNameSameValue(ms)
    ensures Equal(Object(ms), Object(ms))
  {
    forall k | 0 <= k < |ms| ensures Matched(ms[k], ms) {
      var j := FindMember(ms, ms[k].name);
      assert ms[j].name == ms[k].name;
    }
  }

  /**
   * The comment in the header promises that an object with a duplicated name equals nothing. That holds exactly
   * when two members of one name have values that are not equal.
   */
  lemma EqualsNothing(ms: seq<Member>)
    requires DoubleFree(Object(ms)) && UniqueInside(ms)
    ensures (forall ns: seq<Member> :: DoubleFree(Object(ns)) ==> !Equal(Object(ms), Object(ns)))
            <==> !SameNameSameValue(ms)
  {
    hide DoubleFree, Equal;
    if SameNameSameValue(ms) {
      ConsistentEqualsItself(ms);
    } else {
      forall ns: seq<Member> | DoubleFree(Object(ns)) ensures !Equal(Object(ms), Object(ns)) {
        if Equal(Object(ms), Object(ns)) { EqualMeansConsistent(ms, ns); }
      }
    }
  }

  /**
   * When one object equals another, the converse comparison agrees exactly when the second has no name that the
   * first lacks, and its members of one name have equal values.
   */
  lemma EqualIsMutual(ms: seq<Member>, ns: seq<Member>)
    requires DoubleFree(Object(ms)) && DoubleFree(Object(ns)) && UniqueInside(ms) && UniqueInside(ns)
    requires Equal(Object(ms), Object(ns))
    ensures Equal(Object(ns), Object(ms)) <==> NamesOccur(ns, ms) && SameNameSameValue(ns)
  {
    if Equal(Object(ns), Object(ms)) {
      EqualMeansConsistent(ns, ms);
      forall k | 0 <= k < |ns| ensures FindMember(ms, ns[k].name) < |ms| {
        assert Matched(ns[k], ms);
      }
    }
    if NamesOccur(ns, ms) && SameNameSameValue(ns) { ConsistentEqualsBack(ms, ns); }
  }

  lemma ConsistentEqualsBack(ms: seq<Member>, ns: seq<Member>)
    requires DoubleFree(Object(ms)) && DoubleFree(Object(ns)) && UniqueInside(ms) && UniqueInside(ns)
    requires Equal(Object(ms), Object(ns)) && NamesOccur(ns, ms) && SameNameSameValue(ns)
    ensures Equal(Object(ns), Object(ms))
  {
    forall k | 0 <= k < |ns| ensures Matched(ns[k], ms) {
      var i := FindMember(ms, ns[k].name);
      assert i < |ms|;
      assert Matched(ms[i], ns);
      var j := FindMember(ns, ns[k].name);
      BothEqual(ns[k].value, ms[i].value, ns[j].value);
    }
  }

  const TWICE: seq<Member> := [Member([0x61], Null), Member([0x61], Null)]
  const ONCE: seq<Member> := [Member([0x61], Null), Member([0x62], Null)]

  /** The promise fails for an object with two equal members. */
  lemma DuplicatesMayBeEqual()
    ensures !UniqueNames(Object(TWICE)) && Equal(Object(TWICE), Object(TWICE))
  {
    assert TWICE[0].name == TWICE[1].name;
    FirstIsFound(TWICE, [0x61], 0);
    assert Matched(TWICE[0], TWICE);
  }

  /** With a duplicated name the comparison is not even symmetric: the other object has a name of its own. */
  lemma DuplicatesBreakSymmetry()
    ensures Equal(Object(TWICE), Object(ONCE)) && !Equal(Object(ONCE), Object(TWICE))
  {
    FirstIsFound(ONCE, [0x61], 0);
    FirstIsFound(TWICE, [0x62], 2);
    assert Matched(TWICE[0], ONCE) && !Matched(ONCE[1], TWICE);
  }

  /** Numbers are equal when they are the same integer, or when one is negative and the other 2^64 above it. */
  lemma NumbersEqual(i: int, j: int)
    requires IsInteger64(i) && IsInteger64(j)
    ensures Equal(Number(NumOf(i)), Number(NumOf(j))) <==> i == j || i == j + TWO_64 || j == i + TWO_64
  {
  }
}
