/** What blocks and flat directives look like, element by element: the places of the begin and end
    clauses that are written, and what is built from directives that hold theirs anywhere. */
module BlockMeaning {
  import opened Wrappers
  import opened Xml
  import opened Blocks
  import opened BlockProofs
  import opened BlockFlat

  // ----- what is written

  lemma {:induction false} BeginMarked(list: Elem)
    requires !HasClause(list.kids, "begin")
    ensures MarkedAt(AddBegin(list).kids, |list.kids|, "begin")
  {
    var cs := AddBegin(list).kids;
    forall i | 0 <= i < |cs| && i != |list.kids|
      ensures AttrValue(cs[i].attrs, "name") != Some("begin")
    {
      assert cs[i] in list.kids;
    }
  }

  lemma {:induction false} EndMarked(kind: string, list: Elem)
    requires !HasClause(list.kids, "end") && (kind == "xev_pragma" ==> list.kids != [])
    ensures MarkedAt(AddEnd(kind, list).kids, if kind == "xev_pragma" then 1 else |list.kids|, "end")
  {
    var cs, k := AddEnd(kind, list).kids, if kind == "xev_pragma" then 1 else |list.kids|;
    forall i | 0 <= i < |cs| && i != k
      ensures AttrValue(cs[i].attrs, "name") != Some("end")
    {
      assert cs[i] in list.kids;
    }
  }

  lemma {:induction false} EndWritten(kind: string, list: Elem, more: bool)
    requires kind == "xev_pragma" || kind == "xevdrs_line"
    requires NoDirective(list) && NoMarks(list) && (kind == "xev_pragma" ==> list.kids != [])
    ensures var t := EndOf(kind, list, more);
            IsDirective(t) && |t.kids| == 1 && NoDirective(t.kids[0]) && Ends(t) && (Begins(t) <==> more) &&
            EndInPlace(kind, t.kids[0].kids, more)
  {
    var l1 := AddEnd(kind, list);
    AddEndFacts(kind, list);
    AddBeginFacts(l1);
    EndMarked(kind, list);
    BeginMarked(l1);
    Marks();
    if more {
      var cs := AddBegin(l1).kids;
      var k := if kind == "xev_pragma" then 1 else |list.kids|;
      assert cs == l1.kids + [BEGIN_CLAUSE];
      forall i | 0 <= i < |cs| && i != k
        ensures AttrValue(cs[i].attrs, "name") != Some("end")
      {
      }
    }
  }

  /** All directives written for structured trees are balanced, with their clauses in place. */
  lemma {:induction false} FlatMatched(open: seq<string>, ts: seq<Elem>, rest: seq<Elem>)
    requires AllStructured(ts) && AllUnmarked(ts) && Matched(open, rest)
    ensures Matched(open, Flat(ts) + rest)
    decreases ts, 1
  {
    if ts == [] {
      ConcatNothing(rest);
    } else {
      FlatMatched(open, ts[1..], rest);
      OneMatched(open, ts, Flat(ts[1..]) + rest);
      ConcatAssoc(FlatOne(ts[0]), Flat(ts[1..]), rest);
    }
  }

  lemma {:induction false} OneMatched(open: seq<string>, ts: seq<Elem>, rest: seq<Elem>)
    requires ts != [] && AllStructured(ts) && AllUnmarked(ts) && Matched(open, rest)
    ensures Matched(open, FlatOne(ts[0]) + rest)
    decreases ts, 0
  {
    var t := ts[0];
    if IsDirective(t) && |t.kids| >= 2 {
      var gs := FlatGroups(t.name, t.kids[1..], false);
      GroupsMatched(open, t.name, t.kids[1..], rest);
      BeginMatched(open, t, gs + rest);
      ConcatAssoc([BeginOf(t)], gs, rest);
    } else if IsDirective(t) {
      assert ([t] + rest)[1..] == rest && !Ends(t) && !Begins(t);
    } else {
      var t' := t.(kids := Flat(t.kids));
      FlatMatched([], t.kids, []);
      ConcatNothing(Flat(t.kids));
      assert ([t'] + rest)[1..] == rest && ([t'] + rest)[0] == t';
    }
  }

  lemma {:induction false} BeginMatched(open: seq<string>, t: Elem, rest: seq<Elem>)
    requires IsDirective(t) && t.kids != [] && NoDirective(t.kids[0]) && NoMarks(t.kids[0])
    requires Matched([t.name] + open, rest)
    ensures Matched(open, [BeginOf(t)] + rest)
  {
    var b := BeginOf(t);
    AddBeginFacts(t.kids[0]);
    BeginMarked(t.kids[0]);
    assert |b.kids| == 1 && IsDirective(b) && Begins(b) && !Ends(b);
    assert ([b] + rest)[1..] == rest;
  }

  lemma {:induction false} GroupsMatched(open: seq<string>, kind: string, gs: seq<Elem>, rest: seq<Elem>)
    requires kind == "xev_pragma" || kind == "xevdrs_line"
    requires gs != [] && Groups(kind, gs) && GroupsUnmarked(gs) && Matched(open, rest)
    ensures Matched([kind] + open, FlatGroups(kind, gs, false) + rest)
    decreases gs, 0
  {
    var body, end := gs[0].kids, EndOf(kind, gs[1], |gs| > 2);
    var tail := FlatGroups(kind, gs[2..], false) + rest;
    EndWritten(kind, gs[1], |gs| > 2);
    assert ([kind] + open)[1..] == open;
    if |gs| > 2 {
      GroupsMatched(open, kind, gs[2..], rest);
    } else {
      ConcatNothing(rest);
    }
    assert ([end] + tail)[1..] == tail;
    assert Matched([kind] + open, [end] + tail);
    FlatMatched([kind] + open, body, [end] + tail);
    ConcatAssoc(Flat(body) + [end], FlatGroups(kind, gs[2..], false), rest);
    ConcatAssoc(Flat(body), [end], tail);
  }

  /** A block of one group is written as its directive with a begin clause last, the statements, and
      a bare directive over the second clause list with an end clause in its place. */
  lemma {:induction false} BlockWritten(kind: string, attrs: seq<Attr>, l: Elem, body: seq<Elem>, l': Elem)
    requires (kind == "xev_pragma" && l'.kids != []) || kind == "xevdrs_line"
    requires NoDirective(l) && NoDirective(l') && AllStructured(body)
    ensures var t := Elem(kind, attrs, [l, Elem("xev_target", [], body), l']);
            var begin := Elem("xev_clause", [Attr("name", "begin")], []);
            var end := Elem("xev_clause", [Attr("name", "end")], []);
            var cs := if kind == "xev_pragma" then [l'.kids[0], end] + l'.kids[1..] else l'.kids + [end];
            Structured(t) && FlatOne(t) ==
            [Elem(kind, attrs, [Elem(l.name, l.attrs, l.kids + [begin])])] + Flat(body) +
            [Elem(kind, [], [Elem(l'.name, l'.attrs, cs)])]
  {
    var gs := [Elem("xev_target", [], body), l'];
    var t := Elem(kind, attrs, [l] + gs);
    assert [l] + gs == [l, gs[0], l'] && t.kids[1..] == gs && gs[2..] == [];
    ConcatNothing(Flat(body) + [EndOf(kind, l', false)]);
    assert FlatGroups(kind, gs, false) == Flat(body) + [EndOf(kind, l', false)];
    ConcatAssoc([BeginOf(t)], Flat(body), [EndOf(kind, l', false)]);
  }

  // ----- what is built

  lemma {:induction false} DropInside(p: seq<Elem>, c: Elem, q: seq<Elem>, name: string)
    requires !HasClause(p, name) && AttrValue(c.attrs, "name") == Some(name)
    ensures DropFirst(p + [c] + q, name) == p + q && HasClause(p + [c] + q, name)
  {
    assert c in p + [c] + q;
    if p == [] {
      assert p + [c] + q == [c] + q && ([c] + q)[1..] == q && p + q == q;
    } else {
      assert p == [p[0]] + p[1..];
      HasClauseCons(p[0], p[1..], name);
      DropInside(p[1..], c, q, name);
      assert (p + [c] + q)[1..] == p[1..] + [c] + q && p + q == [p[0]] + (p[1..] + q);
    }
  }

  lemma {:induction false} NotInside(p: seq<Elem>, c: Elem, q: seq<Elem>, name: string)
    requires !HasClause(p, name) && !HasClause(q, name) && AttrValue(c.attrs, "name") != Some(name)
    ensures !HasClause(p + [c] + q, name)
  {
    assert !HasClause([c], name);
    HasClauseConcat(p, [c], name);
    HasClauseConcat(p + [c], q, name);
  }

  predicate Unmarking(cs: seq<Elem>) {
    !HasClause(cs, "begin") && !HasClause(cs, "end")
  }

  /** A directive of either kind over one clause list, in which `c` stands between `p` and `q`. */
  predicate Holding(t: Elem, p: seq<Elem>, c: Elem, q: seq<Elem>, name: string) {
    && (t.name == "xev_pragma" || t.name == "xevdrs_line") && |t.kids| == 1 && NoDirective(t.kids[0])
    && t.kids[0].kids == p + [c] + q && Unmarking(p) && Unmarking(q)
    && AttrValue(c.attrs, "name") == Some(name)
  }

  lemma {:induction false} BeginStep(st: State, b: Elem, p: seq<Elem>, c: Elem, q: seq<Elem>)
    requires Holding(b, p, c, q, "begin")
    ensures Step(st, b) == Some(State(Open(st.cur, b.(kids := [b.kids[0].(kids := p + q)]), st.frames), []))
  {
    DropInside(p, c, q, "begin");
    assert "begin"[0] != "end"[0];
    NotInside(p, c, q, "end");
    NormList(b.kids[0]);
    assert b.kids == [b.kids[0]] && b.(kids := b.kids) == b && b.kids[1..] == [];
    ConcatNothing([b.kids[0].(kids := p + q)]);
  }

  lemma {:induction false} EndStep(before: seq<Elem>, h: Elem, under: Frames, body: seq<Elem>, e: Elem,
                                   p: seq<Elem>, c: Elem, q: seq<Elem>)
    requires Holding(e, p, c, q, "end")
    ensures Step(State(Open(before, h, under), body), e) ==
            Some(State(under, before + [h.(kids := h.kids + [Elem("xev_target", [], body)] +
                                                   [e.kids[0].(kids := p + q)])]))
  {
    DropInside(p, c, q, "end");
    assert "begin"[0] != "end"[0];
    NotInside(p, c, q, "begin");
    NormList(e.kids[0]);
    assert e.kids == [e.kids[0]] && e.(kids := e.kids) == e && e.kids[1..] == [];
    ConcatNothing([e.kids[0].(kids := p + q)]);
  }

  /** Directives of either kind, with a begin and an end clause anywhere in their lists, become one
      block: the first directive, a target with the blocks built from what is between, and the list of
      the second directive, both lists without these clauses. */
  lemma {:induction false} BlockBuilt(b: Elem, p: seq<Elem>, c: Elem, q: seq<Elem>, body: seq<Elem>,
                                      e: Elem, p': seq<Elem>, c': Elem, q': seq<Elem>)
    requires Holding(b, p, c, q, "begin") && Holding(e, p', c', q', "end")
    requires AllStructured(body) && AllUnmarked(body)
    ensures var l, l' := b.kids[0], e.kids[0];
            Norm([b] + Flat(body) + [e]) ==
            Some([Elem(b.name, b.attrs, [Elem(l.name, l.attrs, p + q), Elem("xev_target", [], body),
                                         Elem(l'.name, l'.attrs, p' + q')])])
  {
    var start := State(Bottom, []);
    var h := b.(kids := [b.kids[0].(kids := p + q)]);
    var inside := State(Open([], h, Bottom), []);
    BeginStep(start, b, p, c, q);
    RunOne(start, b);
    RunFlat(inside, body);
    ConcatNothing(body);
    RunConcat(start, [b], Flat(body));
    RunConcat(start, [b] + Flat(body), [e]);
    EndStep([], h, Bottom, body, e, p', c', q');
    RunOne(State(Open([], h, Bottom), body), e);
    var l' := e.kids[0].(kids := p' + q');
    assert h.kids + [Elem("xev_target", [], body)] + [l'] == [h.kids[0], Elem("xev_target", [], body), l'];
    ConcatNothing([h.(kids := h.kids + [Elem("xev_target", [], body)] + [l'])]);
  }

  /** Without a begin ahead of it, an end directive stays as it is. */
  lemma {:induction false} StrayEnd(e: Elem, p: seq<Elem>, c: Elem, q: seq<Elem>)
    requires Holding(e, p, c, q, "end")
    ensures Norm([e]) == Some([e])
  {
    DropInside(p, c, q, "end");
    assert "begin"[0] != "end"[0];
    NotInside(p, c, q, "begin");
    NormList(e.kids[0]);
    assert e.kids == [e.kids[0]] && e.(kids := e.kids) == e;
    RunOne(State(Bottom, []), e);
    ConcatNothing([e]);
  }

  /** Without an end behind it, a begin directive cannot be built from. */
  lemma {:induction false} StrayBegin(b: Elem, p: seq<Elem>, c: Elem, q: seq<Elem>)
    requires Holding(b, p, c, q, "begin")
    ensures Norm([b]) == None
  {
    BeginStep(State(Bottom, []), b, p, c, q);
    RunOne(State(Bottom, []), b);
  }

  /** A block that has its target already is not opened again, begin clause or not. */
  lemma {:induction false} BuiltBlock(t: Elem, l: Elem, target: Elem, more: seq<Elem>)
    requires (t.name == "xev_pragma" || t.name == "xevdrs_line") && t.kids == [l, target] + more
    requires target.name == "xev_target" && (forall k | k in t.kids :: NoDirective(k)) && !HasClause(l.kids, "end")
    ensures Norm([t]) == Some([t])
  {
    NormNoDirective(t.kids);
    assert t.kids[0] == l && t.kids[1] == target && t.(kids := t.kids) == t;
    RunOne(State(Bottom, []), t);
    ConcatNothing([t]);
  }
}
