/** The texts the parsers accept are exactly those of the JSON grammar, and the handler is told the derived value. */
module JsonAccepted {
  import opened Chars
  import opened Events
  import opened Whitespace
  import opened Grammar
  import opened JsonScanned
  import opened JsonParsed
  import opened JsonDerived
  import opened Automaton
  import opened Equivalence
  import J = Json

  /** The document's text is what stands in the buffer, up to its end or its first zero. */
  predicate Derives(c: Config, d: J.Document, s: seq<Byte>) {
    var t := J.DocumentText(d);
    J.ValidDocument(c, d) && |t| <= |s| && s[..|t|] == t && (|t| < |s| ==> s[|t|] == 0)
  }

  /** Where the parsers stop: behind the value if they are told to stop when it is done. */
  function End(c: Config, d: J.Document): nat {
    if c.stopWhenDone then |J.GapsText(d.root.before)| + |J.Text(d.root.value)| else |J.DocumentText(d)|
  }

  lemma DocumentAccepted(c: Config, s: seq<Byte>, d: J.Document)
    requires Willing(c) && Derives(c, d, s)
    ensures Parse(c, s) == Ok(St(End(c, d), J.Told(d.root.value)))
  {
    hide PValue, Ws, J.Text, J.GapsText, J.TailText, J.Told, J.Valid, J.ValidGap, Occurs, Solid, Follows;
    var before, text, after, tail :=
      J.GapsText(d.root.before), J.Text(d.root.value), J.GapsText(d.root.after), J.TailText(d.tail);
    var i, e := |before|, |before| + |text|;
    DocumentStands(s, d);
    TextStarts(c, d.root.value);
    OccursAt(s, i, text, 0);
    GapsSkipped(c, s, 0, [], d.root.before);
    EndFollows(c, s, e, d.root.after, d.tail);
    ValueAccepted(c, s, i, [], d.root.value);
    assert [] + J.Told(d.root.value) == J.Told(d.root.value);
    EndSkipped(c, s, e, J.Told(d.root.value), d.root.after, d.tail);
  }

  lemma DocumentStands(s: seq<Byte>, d: J.Document)
    requires |J.DocumentText(d)| <= |s| && s[..|J.DocumentText(d)|] == J.DocumentText(d)
    ensures var i := |J.GapsText(d.root.before)|;
            var e := i + |J.Text(d.root.value)|;
            && Occurs(s, 0, J.GapsText(d.root.before)) && Occurs(s, i, J.Text(d.root.value)) && e <= |s|
            && Occurs(s, e, J.GapsText(d.root.after) + J.TailText(d.tail))
            && e + |J.GapsText(d.root.after) + J.TailText(d.tail)| == |J.DocumentText(d)|
  {
    hide J.Text, J.GapsText, J.TailText;
    var before, text, after := J.GapsText(d.root.before), J.Text(d.root.value), J.GapsText(d.root.after);
    var rest := after + J.TailText(d.tail);
    assert J.DocumentText(d) == before + (text + rest);
    assert Occurs(s, 0, before + (text + rest));
    OccursSplit(s, 0, before, text + rest);
    OccursSplit(s, |before|, text, rest);
  }

  /** No number goes on behind the root. */
  lemma EndFollows(c: Config, s: seq<Byte>, i: nat, gs: seq<J.Gap>, tail: Option<seq<Byte>>)
    requires J.ValidGaps(c.comments, gs) && Occurs(s, i, J.GapsText(gs) + J.TailText(tail))
    requires Peek(s, i + |J.GapsText(gs) + J.TailText(tail)|) == 0
    ensures Follows(Peek(s, i))
  {
    hide Occurs;
    if gs == [] && tail.None? {
    } else if gs != [] {
      assert J.ValidGap(c.comments, gs[0]);
      OccursAt(s, i, J.GapsText(gs) + J.TailText(tail), 0);
    } else {
      OccursAt(s, i, J.GapsText(gs) + J.TailText(tail), 0);
    }
  }

  lemma DocumentDerived(c: Config, s: seq<Byte>) returns (d: J.Document)
    requires !c.stopWhenDone && Parse(c, s).Ok?
    ensures Derives(c, d, s) && Parse(c, s).st == St(|J.DocumentText(d)|, J.Told(d.root.value))
  {
    hide PValue, Ws, J.Text, J.GapsText, J.TailText, J.Told, J.Valid, J.ValidGap;
    var start := Ws(c, s, St(0, [])).st;
    var before := GapsDerived(c, s, St(0, []));
    var t := ValueDerived(c, s, start);
    var value := PValue(c, s, start).st;
    var end := Ws(c, s, value).st;
    var after, tail := WsDerived(c, s, value);
    d := J.Document(J.Item(before, t, after), tail);
    Slices(s, 0, start.pos, value.pos);
    Slices(s, 0, value.pos, end.pos);
    assert s[..end.pos] == s[0..end.pos] == J.DocumentText(d);
    assert [] + J.Told(t) == J.Told(t);
  }

  /** The language of both parsers, and their translation of it. */
  lemma AcceptsJson(c: Config, s: seq<Byte>)
    requires Willing(c)
    ensures !c.stopWhenDone ==> (Parse(c, s).Ok? <==> exists d :: Derives(c, d, s))
    ensures !c.stopWhenDone ==> (IterativeParse(c, s).Ok? <==> exists d :: Derives(c, d, s))
    ensures forall d :: Derives(c, d, s) ==>
              Parse(c, s) == IterativeParse(c, s) == Ok(St(End(c, d), J.Told(d.root.value)))
  {
    hide Parse, IterativeParse, Derives, J.Told, End;
    ParsersAgree(c, s);
    forall d | Derives(c, d, s) ensures Parse(c, s) == Ok(St(End(c, d), J.Told(d.root.value))) {
      DocumentAccepted(c, s, d);
    }
    if !c.stopWhenDone && Parse(c, s).Ok? {
      var d := DocumentDerived(c, s);
    }
  }

  /** A text with line ends of two characters. */
  lemma LineEnds(c: Config)
    requires Willing(c) && !c.stopWhenDone
    ensures Parse(c, [0x0D, 0x0A, 0x5B, 0x5D, 0x0D, 0x0A]) == Ok(St(6, [StartArray, EndArray(0)]))
  {
    hide Parse;
    var line := [J.Space(0x0D), J.Space(0x0A)];
    var s: seq<Byte> := [0x0D, 0x0A, 0x5B, 0x5D, 0x0D, 0x0A];
    var d := J.Document(J.Item(line, J.ArrayTree([], [], None), line), None);
    assert J.GapsText(line) == [0x0D] + J.GapsText(line[1..]) == [0x0D, 0x0A];
    assert J.ItemsText([]) == [] && J.ItemsTold([]) == [] && J.GapsText([]) == [];
    assert J.Text(d.root.value) == [0x5B, 0x5D] && J.Told(d.root.value) == [StartArray, EndArray(0)];
    assert J.DocumentText(d) == s;
    assert J.Valid(c, d.root.value) && J.ValidGaps(c.comments, line);
    assert s[..6] == s;
    DocumentAccepted(c, s, d);
  }

  /** All derivations of what stands in a buffer have one text and tell the same. */
  lemma Unambiguous(c: Config, s: seq<Byte>, d: J.Document, d2: J.Document)
    requires Derives(c, d, s) && Derives(c, d2, s)
    ensures J.DocumentText(d) == J.DocumentText(d2) && J.Told(d.root.value) == J.Told(d2.root.value)
  {
    hide Parse, IterativeParse, J.DocumentText, J.Told, J.ValidDocument;
    var w := c.(stopWhenDone := false, accepts := evs => true);
    Regardless(c, w, d);
    Regardless(c, w, d2);
    DocumentAccepted(w, s, d);
    DocumentAccepted(w, s, d2);
  }

  lemma Regardless(c: Config, w: Config, d: J.Document)
    requires w == c.(stopWhenDone := false, accepts := w.accepts) && J.ValidDocument(c, d)
    ensures J.ValidDocument(w, d)
  {
    TreeRegardless(c, w, d.root.value);
  }

  lemma {:induction false} TreeRegardless(c: Config, w: Config, t: J.Tree)
    requires w == c.(stopWhenDone := false, accepts := w.accepts) && J.Valid(c, t)
    ensures J.Valid(w, t)
  {
    hide J.ValidGap, J.ValidCharacter, J.NumberText, J.ValidNumber, J.Scale;
    match t
    case ArrayTree(_, items, _) =>
      forall k | 0 <= k < |items| ensures J.ValidItem(w, items[k]) {
        assert J.ValidItem(c, items[k]);
        TreeRegardless(c, w, items[k].value);
      }
    case ObjectTree(_, members, _) =>
      forall k | 0 <= k < |members| ensures J.ValidMember(w, members[k]) {
        assert J.ValidMember(c, members[k]) && J.ValidItem(c, members[k].item);
        TreeRegardless(c, w, members[k].item.value);
      }
    case _ =>
  }
}
