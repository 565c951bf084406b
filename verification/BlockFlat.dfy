/** Writing blocks back as flat begin/end directives, and that pairing and flattening undo
    each other. */
module BlockFlat {
  import opened Wrappers
  import opened Xml
  import opened Blocks
  import opened BlockProofs

  const BEGIN_CLAUSE := Elem("xev_clause", [Attr("name", "begin")], [])
  const END_CLAUSE := Elem("xev_clause", [Attr("name", "end")], [])

  function AddBegin(list: Elem): Elem {
    list.(kids := list.kids + [BEGIN_CLAUSE])
  }

  /** The end clause of a pragma goes second, behind the directive's name; elsewhere it goes last. */
  function AddEnd(kind: string, list: Elem): Elem
    requires kind == "xev_pragma" ==> list.kids != []
  {
    if kind == "xev_pragma"
    then list.(kids := [list.kids[0], END_CLAUSE] + list.kids[1..])
    else list.(kids := list.kids + [END_CLAUSE])
  }

  /** What follows the clause list of a block: targets, each with the clause list of its end. */
  predicate Groups(kind: string, gs: seq<Elem>)
    decreases gs, 0
  {
    gs == [] ||
    (|gs| >= 2 && gs[0].name == "xev_target" && AllStructured(gs[0].kids) && NoDirective(gs[1]) &&
     (kind == "xev_pragma" ==> gs[1].kids != []) && Groups(kind, gs[2..]))
  }

  predicate Structured(t: Elem)
    decreases t, 0
  {
    if IsDirective(t)
    then t.kids != [] && NoDirective(t.kids[0]) && Groups(t.name, t.kids[1..])
    else AllStructured(t.kids)
  }

  predicate AllStructured(ts: seq<Elem>)
    decreases ts, 1
  {
    ts == [] || (Structured(ts[0]) && AllStructured(ts[1..]))
  }

  /** The end directive of a group; it also begins the next group if there is one. */
  function EndOf(kind: string, list: Elem, more: bool): Elem
    requires kind == "xev_pragma" ==> list.kids != []
  {
    Elem(kind, [], [if more then AddBegin(AddEnd(kind, list)) else AddEnd(kind, list)])
  }

  /** The groups of a block, the last one continued if `open`. */
  function FlatGroups(kind: string, gs: seq<Elem>, open: bool): seq<Elem>
    requires Groups(kind, gs)
    decreases gs, 0
  {
    if gs == [] then []
    else Flat(gs[0].kids) + [EndOf(kind, gs[1], |gs| > 2 || open)] + FlatGroups(kind, gs[2..], open)
  }

  function BeginOf(t: Elem): Elem
    requires t.kids != []
  {
    t.(kids := [AddBegin(t.kids[0])])
  }

  function FlatOne(t: Elem): seq<Elem>
    requires Structured(t)
    decreases t, 0
  {
    if IsDirective(t) && |t.kids| >= 2 then [BeginOf(t)] + FlatGroups(t.name, t.kids[1..], false)
    else if IsDirective(t) then [t]
    else [t.(kids := Flat(t.kids))]
  }

  function Flat(ts: seq<Elem>): seq<Elem>
    requires AllStructured(ts)
    decreases ts, 1
  {
    if ts == [] then [] else FlatOne(ts[0]) + Flat(ts[1..])
  }

  // ----- pairing undoes flattening

  predicate NoMarks(list: Elem) {
    !HasClause(list.kids, "begin") && !HasClause(list.kids, "end")
  }

  /** As pairing leaves things: no clause list holds a begin or an end. */
  predicate GroupsUnmarked(gs: seq<Elem>)
    decreases gs, 0
  {
    gs == [] ||
    (|gs| >= 2 && gs[0].attrs == [] && AllUnmarked(gs[0].kids) && NoMarks(gs[1]) && GroupsUnmarked(gs[2..]))
  }

  predicate AllUnmarked(ts: seq<Elem>)
    decreases ts, 1
  {
    ts == [] ||
    ((if IsDirective(ts[0])
      then ts[0].kids != [] && NoMarks(ts[0].kids[0]) && GroupsUnmarked(ts[0].kids[1..])
      else AllUnmarked(ts[0].kids)) &&
     AllUnmarked(ts[1..]))
  }

  lemma {:induction false} DropLast(cs: seq<Elem>, c: Elem, name: string)
    requires !HasClause(cs, name) && AttrValue(c.attrs, "name") == Some(name)
    ensures DropFirst(cs + [c], name) == cs
    decreases |cs|
  {
    if cs == [] {
      assert [] + [c] == [c] && [c][1..] == [];
    } else {
      assert cs == [cs[0]] + cs[1..] && (cs + [c])[1..] == cs[1..] + [c];
      HasClauseCons(cs[0], cs[1..], name);
      DropLast(cs[1..], c, name);
    }
  }

  lemma {:induction false} HasClauseConcat(a: seq<Elem>, b: seq<Elem>, name: string)
    ensures HasClause(a + b, name) <==> HasClause(a, name) || HasClause(b, name)
  {
    if HasClause(a, name) {
      var c :| c in a && AttrValue(c.attrs, "name") == Some(name);
      assert c in a + b;
    }
    if HasClause(b, name) {
      var c :| c in b && AttrValue(c.attrs, "name") == Some(name);
      assert c in a + b;
    }
  }

  lemma {:induction false} Marks()
    ensures AttrValue(BEGIN_CLAUSE.attrs, "name") == Some("begin") && AttrValue(END_CLAUSE.attrs, "name") == Some("end")
    ensures "begin" != "end"
    ensures NoDirective(BEGIN_CLAUSE) && NoDirective(END_CLAUSE)
  {
    assert "begin"[0] != "end"[0];
    assert "xev_clause"[4] != "xev_pragma"[4] && "xev_clause"[3] != "xevdrs_line"[3];
  }

  lemma {:induction false} OneClause(c: Elem, name: string)
    ensures HasClause([c], name) <==> AttrValue(c.attrs, "name") == Some(name)
  {
    assert c in [c];
  }

  lemma {:induction false} AddBeginFacts(list: Elem)
    requires !HasClause(list.kids, "begin")
    ensures HasClause(AddBegin(list).kids, "begin") &&
            HasClause(AddBegin(list).kids, "end") == HasClause(list.kids, "end")
    ensures DropFirst(AddBegin(list).kids, "begin") == list.kids
    ensures NoDirective(list) ==> NoDirective(AddBegin(list))
  {
    Marks();
    OneClause(BEGIN_CLAUSE, "begin");
    OneClause(BEGIN_CLAUSE, "end");
    HasClauseConcat(list.kids, [BEGIN_CLAUSE], "begin");
    HasClauseConcat(list.kids, [BEGIN_CLAUSE], "end");
    DropLast(list.kids, BEGIN_CLAUSE, "begin");
  }

  lemma {:induction false} AddEndFacts(kind: string, list: Elem)
    requires !HasClause(list.kids, "end") && (kind == "xev_pragma" ==> list.kids != [])
    ensures HasClause(AddEnd(kind, list).kids, "end") &&
            HasClause(AddEnd(kind, list).kids, "begin") == HasClause(list.kids, "begin")
    ensures DropFirst(AddEnd(kind, list).kids, "end") == list.kids
    ensures NoDirective(list) ==> NoDirective(AddEnd(kind, list))
  {
    Marks();
    OneClause(END_CLAUSE, "begin");
    OneClause(END_CLAUSE, "end");
    if kind == "xev_pragma" {
      var c, cs := list.kids[0], list.kids[1..];
      assert list.kids == [c] + cs && AddEnd(kind, list).kids == [c] + ([END_CLAUSE] + cs);
      HasClauseCons(c, cs, "end");
      HasClauseCons(c, cs, "begin");
      HasClauseCons(c, [END_CLAUSE] + cs, "end");
      HasClauseCons(c, [END_CLAUSE] + cs, "begin");
      HasClauseCons(END_CLAUSE, cs, "end");
      HasClauseCons(END_CLAUSE, cs, "begin");
      assert ([c] + ([END_CLAUSE] + cs))[1..] == [END_CLAUSE] + cs;
      assert ([END_CLAUSE] + cs)[1..] == cs;
    } else {
      HasClauseConcat(list.kids, [END_CLAUSE], "begin");
      HasClauseConcat(list.kids, [END_CLAUSE], "end");
      DropLast(list.kids, END_CLAUSE, "end");
    }
  }

  lemma {:induction false} NormList(list: Elem)
    requires NoDirective(list)
    ensures Norm([list]) == Some([list])
  {
    NormNoDirective([list]);
  }

  lemma {:induction false} StepBegin(st: State, t: Elem)
    requires IsDirective(t) && t.kids != [] && NoDirective(t.kids[0]) && NoMarks(t.kids[0])
    ensures Step(st, BeginOf(t)) == Some(State(Open(st.cur, t.(kids := [t.kids[0]]), st.frames), []))
  {
    var list := t.kids[0];
    AddBeginFacts(list);
    NormList(AddBegin(list));
    assert [AddBegin(list)][1..] == [];
    assert AddBegin(list).(kids := list.kids) == list;
    assert [list] + [] == [list];
  }

  lemma {:induction false} LastEnd(kind: string, list: Elem)
    requires kind == "xev_pragma" || kind == "xevdrs_line"
    requires NoDirective(list) && NoMarks(list) && (kind == "xev_pragma" ==> list.kids != [])
    ensures var e := EndOf(kind, list, false);
            !Begins(e) && Ends(e) && Unmarked(e).kids == [list] && Norm(e.kids) == Some(e.kids)
  {
    AddEndFacts(kind, list);
    var l1 := AddEnd(kind, list);
    NormList(l1);
    var e := EndOf(kind, list, false);
    assert l1.(kids := list.kids) == list;
    assert e.kids[1..] == [] && [list] + [] == [list];
  }

  lemma {:induction false} MiddleEnd(kind: string, list: Elem)
    requires kind == "xev_pragma" || kind == "xevdrs_line"
    requires NoDirective(list) && NoMarks(list) && (kind == "xev_pragma" ==> list.kids != [])
    ensures var e := EndOf(kind, list, true);
            Begins(e) && Ends(e) && Unmarked(e).kids == [list] && Norm(e.kids) == Some(e.kids)
  {
    AddEndFacts(kind, list);
    var l1 := AddEnd(kind, list);
    AddBeginFacts(l1);
    var l2 := AddBegin(l1);
    NormList(l2);
    var e := EndOf(kind, list, true);
    WithoutCommutes(e, "end", "begin");
    assert e.kids[1..] == [] && [l1] + [] == [l1] && [list] + [] == [list];
    assert l2.(kids := l1.kids) == l1 && l1.(kids := list.kids) == list;
    assert WithoutClause(e, "begin") == e.(kids := [l1]);
    assert e.(kids := [l1]).kids[1..] == [];
  }

  lemma {:induction false} StepEnd(before: seq<Elem>, h: Elem, under: Frames, body: seq<Elem>, kind: string,
                                   list: Elem, more: bool)
    requires kind == "xev_pragma" || kind == "xevdrs_line"
    requires NoDirective(list) && NoMarks(list) && (kind == "xev_pragma" ==> list.kids != [])
    ensures var h' := AddGroup(h, body, [list]);
            Step(State(Open(before, h, under), body), EndOf(kind, list, more)) ==
              Some(if more then State(Open(before, h', under), []) else State(under, before + [h']))
  {
    if more {
      MiddleEnd(kind, list);
    } else {
      LastEnd(kind, list);
    }
    var e := EndOf(kind, list, more);
    assert e.(kids := e.kids) == e;
  }

  lemma {:induction false} RunGroup(before: seq<Elem>, h: Elem, under: Frames, kind: string, gs: seq<Elem>)
    requires kind == "xev_pragma" || kind == "xevdrs_line"
    requires Groups(kind, gs) && GroupsUnmarked(gs) && gs != []
    ensures var h' := h.(kids := h.kids + gs[..2]);
            Run(State(Open(before, h, under), []), Flat(gs[0].kids) + [EndOf(kind, gs[1], |gs| > 2)]) ==
            Some(if |gs| > 2 then State(Open(before, h', under), []) else State(under, before + [h']))
    decreases gs, 0
  {
    var body, end := gs[0].kids, EndOf(kind, gs[1], |gs| > 2);
    var st := State(Open(before, h, under), []);
    RunFlat(st, body);
    assert [] + body == body;
    RunConcat(st, Flat(body), [end]);
    RunOne(State(Open(before, h, under), body), end);
    StepEnd(before, h, under, body, kind, gs[1], |gs| > 2);
    assert gs[0] == Target(body);
    assert h.kids + [gs[0]] + [gs[1]] == h.kids + gs[..2];
  }

  lemma {:induction false} RunGroups(before: seq<Elem>, h: Elem, under: Frames, kind: string, gs: seq<Elem>)
    requires kind == "xev_pragma" || kind == "xevdrs_line"
    requires Groups(kind, gs) && GroupsUnmarked(gs) && gs != []
    ensures Run(State(Open(before, h, under), []), FlatGroups(kind, gs, false)) ==
            Some(State(under, before + [h.(kids := h.kids + gs)]))
    decreases gs, 1
  {
    var rest := gs[2..];
    RunGroup(before, h, under, kind, gs);
    RunConcat(State(Open(before, h, under), []), Flat(gs[0].kids) + [EndOf(kind, gs[1], |gs| > 2)],
              FlatGroups(kind, rest, false));
    if |gs| > 2 {
      RunGroups(before, h.(kids := h.kids + gs[..2]), under, kind, rest);
      assert h.kids + gs[..2] + rest == h.kids + gs;
    } else {
      assert gs[..2] == gs && rest == [];
    }
  }

  lemma {:induction false} RunFlatOne(st: State, t: Elem)
    requires Structured(t) && AllUnmarked([t])
    ensures Run(st, FlatOne(t)) == Some(State(st.frames, st.cur + [t]))
    decreases t, 1
  {
    assert [t][0] == t;
    if IsDirective(t) && |t.kids| >= 2 {
      var gs := t.kids[1..];
      RunConcat(st, [BeginOf(t)], FlatGroups(t.name, gs, false));
      RunOne(st, BeginOf(t));
      StepBegin(st, t);
      RunGroups(st.cur, t.(kids := [t.kids[0]]), st.frames, t.name, gs);
      assert [t.kids[0]] + gs == t.kids;
    } else if IsDirective(t) {
      assert t.kids == [t.kids[0]];
      NormList(t.kids[0]);
      RunOne(st, t);
    } else {
      RunFlat(State(Bottom, []), t.kids);
      assert [] + t.kids == t.kids;
      RunOne(st, t.(kids := Flat(t.kids)));
      assert Norm(Flat(t.kids)) == Some(t.kids);
    }
  }

  lemma {:induction false} RunFlat(st: State, ts: seq<Elem>)
    requires AllStructured(ts) && AllUnmarked(ts)
    ensures Run(st, Flat(ts)) == Some(State(st.frames, st.cur + ts))
    decreases ts, 2
  {
    if ts == [] {
      assert st.cur + [] == st.cur;
    } else {
      assert [ts[0]][1..] == [];
      assert AllUnmarked([ts[0]]);
      RunConcat(st, FlatOne(ts[0]), Flat(ts[1..]));
      RunFlatOne(st, ts[0]);
      RunFlat(State(st.frames, st.cur + [ts[0]]), ts[1..]);
      assert st.cur + [ts[0]] + ts[1..] == st.cur + ts;
    }
  }

  /** Pairing the directives written for a structured tree gives the tree back. */
  lemma {:induction false} NormFlat(ys: seq<Elem>)
    requires AllStructured(ys) && AllUnmarked(ys)
    ensures Norm(Flat(ys)) == Some(ys)
  {
    RunFlat(State(Bottom, []), ys);
    assert [] + ys == ys;
  }

  // ----- flattening undoes pairing

  /** The clause at `k` is a bare mark, and no other clause has its name. */
  predicate MarkedAt(clauses: seq<Elem>, k: int, name: string) {
    && 0 <= k < |clauses| && clauses[k] == Elem("xev_clause", [Attr("name", name)], [])
    && forall i | 0 <= i < |clauses| && i != k :: AttrValue(clauses[i].attrs, "name") != Some(name)
  }

  /** Flat, balanced directives as the unparser writes them. `open` names the kinds of the open
      blocks, innermost first: an end has the kind of its begin, stands alone, and has its clause
      second in a pragma and last in a line directive; a begin clause comes last of all. */
  predicate Matched(open: seq<string>, ts: seq<Elem>)
    decreases ts
  {
    if ts == [] then open == [] else
      var t, rest := ts[0], ts[1..];
      if !IsDirective(t) then Matched([], t.kids) && Matched(open, rest)
      else
        |t.kids| == 1 && NoDirective(t.kids[0]) &&
        if Ends(t) then
          && open != [] && t.name == open[0] && t.attrs == []
          && EndInPlace(open[0], t.kids[0].kids, Begins(t))
          && Matched(if Begins(t) then open else open[1..], rest)
        else if Begins(t) then
          MarkedAt(t.kids[0].kids, |t.kids[0].kids| - 1, "begin") && Matched([t.name] + open, rest)
        else Matched(open, rest)
  }

  predicate EndInPlace(kind: string, clauses: seq<Elem>, more: bool) {
    var n := if more then |clauses| - 1 else |clauses|;
    (more ==> MarkedAt(clauses, n, "begin")) && MarkedAt(clauses, if kind == "xev_pragma" then 1 else n - 1, "end")
  }

  function Kept(list: Elem): Elem {
    list.(kids := DropFirst(DropFirst(list.kids, "begin"), "end"))
  }

  lemma {:induction false} DropNone(cs: seq<Elem>, name: string)
    requires !HasClause(cs, name)
    ensures DropFirst(cs, name) == cs
  {
    if cs != [] {
      assert cs == [cs[0]] + cs[1..];
      HasClauseCons(cs[0], cs[1..], name);
      DropNone(cs[1..], name);
    }
  }

  lemma {:induction false} DropAt(cs: seq<Elem>, k: int, name: string)
    requires MarkedAt(cs, k, name)
    ensures DropFirst(cs, name) == cs[..k] + cs[k + 1..] && !HasClause(DropFirst(cs, name), name)
    decreases |cs|
  {
    var c, rest := cs[0], cs[1..];
    if k == 0 {
      assert DropFirst(cs, name) == rest;
      forall d | d in rest
        ensures AttrValue(d.attrs, "name") != Some(name)
      {
        var i :| 0 <= i < |rest| && rest[i] == d;
        assert cs[i + 1] == d;
      }
    } else {
      forall i | 0 <= i < |rest| && i != k - 1
        ensures AttrValue(rest[i].attrs, "name") != Some(name)
      {
        assert rest[i] == cs[i + 1];
      }
      assert rest[k - 1] == cs[k];
      DropAt(rest, k - 1, name);
      HasClauseCons(c, DropFirst(rest, name), name);
      assert cs[..k] == [c] + rest[..k - 1] && cs[k + 1..] == rest[k..];
    }
  }

  lemma {:induction false} BeginPlaced(list: Elem)
    requires MarkedAt(list.kids, |list.kids| - 1, "begin") && !HasClause(list.kids, "end")
    ensures NoMarks(Kept(list)) && list == AddBegin(Kept(list))
  {
    var cs, n := list.kids, |list.kids| - 1;
    DropAt(cs, n, "begin");
    assert cs[..n] + cs[n + 1..] == cs[..n] && cs == cs[..n] + [BEGIN_CLAUSE];
    HasClauseConcat(cs[..n], [BEGIN_CLAUSE], "end");
    DropNone(cs[..n], "end");
    assert Kept(list).kids == cs[..n];
  }

  lemma {:induction false} LastEndPlaced(kind: string, list: Elem)
    requires EndInPlace(kind, list.kids, false) && !HasClause(list.kids, "begin")
    ensures (kind == "xev_pragma" ==> Kept(list).kids != []) && NoMarks(Kept(list)) && list == AddEnd(kind, Kept(list))
  {
    var cs := list.kids;
    var k := if kind == "xev_pragma" then 1 else |cs| - 1;
    DropNone(cs, "begin");
    DropAt(cs, k, "end");
    DropKeepsOthers(cs, "end", "begin");
    assert cs == cs[..k] + [END_CLAUSE] + cs[k + 1..];
  }

  lemma {:induction false} MiddleEndPlaced(kind: string, list: Elem)
    requires EndInPlace(kind, list.kids, true)
    ensures (kind == "xev_pragma" ==> Kept(list).kids != []) && NoMarks(Kept(list)) &&
            list == AddBegin(AddEnd(kind, Kept(list)))
  {
    var cs := list.kids;
    var n := |cs| - 1;
    DropAt(cs, n, "begin");
    assert cs[..n] + cs[n + 1..] == cs[..n] && cs == cs[..n] + [BEGIN_CLAUSE];
    var shorter := list.(kids := cs[..n]);
    Marks();
    var k := if kind == "xev_pragma" then 1 else n - 1;
    assert MarkedAt(cs, k, "end") && cs[k] == END_CLAUSE != BEGIN_CLAUSE && k != n;
    assert MarkedAt(shorter.kids, k, "end");
    LastEndPlaced(kind, shorter);
    DropNone(cs[..n], "begin");
    assert Kept(shorter) == Kept(list);
  }

  /** A directive with its end clause in place is the end of a group over what is left of the list. */
  lemma {:induction false} EndPlaced(kind: string, t: Elem)
    requires IsDirective(t) && |t.kids| == 1 && t.name == kind && t.attrs == []
    requires EndInPlace(kind, t.kids[0].kids, Begins(t))
    ensures var kept := Kept(t.kids[0]);
            NoMarks(kept) && (kind == "xev_pragma" ==> kept.kids != []) && t == EndOf(kind, kept, Begins(t))
  {
    if Begins(t) {
      MiddleEndPlaced(kind, t.kids[0]);
    } else {
      LastEndPlaced(kind, t.kids[0]);
    }
    assert t.kids == [t.kids[0]];
  }

  lemma {:induction false} FlatConcat(a: seq<Elem>, b: seq<Elem>)
    requires AllStructured(a) && AllStructured(b)
    ensures AllStructured(a + b) && Flat(a + b) == Flat(a) + Flat(b)
    decreases |a|
  {
    if a == [] {
      assert a + b == b && [] + Flat(b) == Flat(b);
    } else {
      assert (a + b)[0] == a[0] && (a + b)[1..] == a[1..] + b;
      FlatConcat(a[1..], b);
      ConcatAssoc(FlatOne(a[0]), Flat(a[1..]), Flat(b));
    }
  }

  lemma {:induction false} FlatSnoc(a: seq<Elem>, t: Elem)
    requires AllStructured(a) && Structured(t)
    ensures AllStructured(a + [t]) && Flat(a + [t]) == Flat(a) + FlatOne(t)
  {
    assert [t][1..] == [] && FlatOne(t) + [] == FlatOne(t);
    FlatConcat(a, [t]);
  }

  lemma {:induction false} GroupsSnoc(kind: string, gs: seq<Elem>, body: seq<Elem>, list: Elem, open: bool)
    requires Groups(kind, gs) && AllStructured(body) && NoDirective(list) && (kind == "xev_pragma" ==> list.kids != [])
    ensures Groups(kind, gs + [Target(body), list])
    ensures FlatGroups(kind, gs + [Target(body), list], open) ==
            FlatGroups(kind, gs, true) + (Flat(body) + [EndOf(kind, list, open)])
    decreases |gs|
  {
    var longer := gs + [Target(body), list];
    if gs == [] {
      assert longer == [Target(body), list] && longer[2..] == [];
      assert Flat(body) + [EndOf(kind, list, open)] + [] == [] + (Flat(body) + [EndOf(kind, list, open)]);
    } else {
      assert longer[0] == gs[0] && longer[1] == gs[1] && longer[2..] == gs[2..] + [Target(body), list];
      GroupsSnoc(kind, gs[2..], body, list, open);
      ConcatAssoc(Flat(gs[0].kids) + [EndOf(kind, gs[1], true)], FlatGroups(kind, gs[2..], true),
                  Flat(body) + [EndOf(kind, list, open)]);
    }
  }

  /** A partly built block, written as if continued. */
  function FlatHead(h: Elem): seq<Elem>
    requires Structured(h) && IsDirective(h)
  {
    [BeginOf(h)] + FlatGroups(h.name, h.kids[1..], true)
  }

  predicate FramesOk(open: seq<string>, frames: Frames) {
    match frames
    case Bottom => open == []
    case Open(before, h, under) =>
      open != [] && open[0] == h.name && IsDirective(h) && Structured(h) && AllStructured(before) &&
          FramesOk(open[1..], under)
  }

  function FlatFrames(open: seq<string>, frames: Frames): seq<Elem>
    requires FramesOk(open, frames)
  {
    match frames
    case Bottom => []
    case Open(before, h, under) => FlatFrames(open[1..], under) + Flat(before) + FlatHead(h)
  }

  lemma {:induction false} GrowHead(h: Elem, body: seq<Elem>, list: Elem, more: bool)
    requires IsDirective(h) && Structured(h) && AllStructured(body) && NoDirective(list) &&
             (h.name == "xev_pragma" ==> list.kids != [])
    ensures var h' := AddGroup(h, body, [list]);
            Structured(h') && IsDirective(h') && |h'.kids| >= 2 &&
            (if more then FlatHead(h') else FlatOne(h')) == FlatHead(h) + Flat(body) + [EndOf(h.name, list, more)]
  {
    var h' := AddGroup(h, body, [list]);
    assert h'.kids == h.kids + [Target(body), list];
    assert h'.kids[1..] == h.kids[1..] + [Target(body), list];
    GroupsSnoc(h.name, h.kids[1..], body, list, more);
    var gs, tail := FlatGroups(h.name, h.kids[1..], true), [EndOf(h.name, list, more)];
    assert [BeginOf(h)] + (gs + (Flat(body) + tail)) == ([BeginOf(h)] + gs) + Flat(body) + tail;
  }

  /** What the parser state stands for, written flat. */
  function FlatState(open: seq<string>, st: State): seq<Elem>
    requires FramesOk(open, st.frames) && AllStructured(st.cur)
  {
    FlatFrames(open, st.frames) + Flat(st.cur)
  }

  predicate StateOk(open: seq<string>, st: State) {
    FramesOk(open, st.frames) && AllStructured(st.cur)
  }

  function After(open: seq<string>, t: Elem): seq<string> {
    if Ends(t) then if Begins(t) || open == [] then open else open[1..]
    else if Begins(t) then [t.name] + open
    else open
  }

  lemma {:induction false} StepStatement(open: seq<string>, st: State, t: Elem, kids: seq<Elem>)
    requires StateOk(open, st) && !IsDirective(t)
    requires Norm(t.kids) == Some(kids) && AllStructured(kids) && Flat(kids) == t.kids
    ensures var st' := Step(st, t);
            st'.Some? && StateOk(open, st'.value) && FlatState(open, st'.value) == FlatState(open, st) + [t]
  {
    var t' := t.(kids := kids);
    FlatSnoc(st.cur, t');
    assert t'.(kids := t.kids) == t;
    ConcatAssoc(FlatFrames(open, st.frames), Flat(st.cur), [t]);
  }

  lemma {:induction false} StepAlone(open: seq<string>, st: State, t: Elem)
    requires StateOk(open, st) && IsDirective(t) && |t.kids| == 1 && NoDirective(t.kids[0]) && !Begins(t) && !Ends(t)
    ensures var st' := Step(st, t);
            st'.Some? && StateOk(open, st'.value) && FlatState(open, st'.value) == FlatState(open, st) + [t]
  {
    NormList(t.kids[0]);
    assert t.kids == [t.kids[0]] && t.(kids := t.kids) == t;
    assert Groups(t.name, t.kids[1..]);
    FlatSnoc(st.cur, t);
    ConcatAssoc(FlatFrames(open, st.frames), Flat(st.cur), [t]);
  }

  lemma {:induction false} StepOpen(open: seq<string>, st: State, t: Elem)
    requires StateOk(open, st) && IsDirective(t) && |t.kids| == 1 && Begins(t) && !Ends(t)
    requires var kept := t.kids[0].(kids := DropFirst(t.kids[0].kids, "begin"));
             NoDirective(kept) && NoMarks(kept) && t.kids[0] == AddBegin(kept)
    ensures var st' := Step(st, t);
            st'.Some? && StateOk([t.name] + open, st'.value) &&
                FlatState([t.name] + open, st'.value) == FlatState(open, st) + [t]
  {
    var kept := t.kids[0].(kids := DropFirst(t.kids[0].kids, "begin"));
    var h := t.(kids := [kept]);
    assert BeginOf(h) == t;
    StepBegin(st, h);
    assert ([t.name] + open)[1..] == open;
    assert h.kids[1..] == [] && Groups(h.name, h.kids[1..]) && FlatHead(h) == [t] + [];
    assert FlatFrames(open, st.frames) + Flat(st.cur) + [t] + [] == FlatState(open, st) + [t];
  }

  lemma {:induction false} StepClose(open: seq<string>, st: State, t: Elem, kept: Elem)
    requires StateOk(open, st) && open != []
    requires NoDirective(kept) && NoMarks(kept) && (open[0] == "xev_pragma" ==> kept.kids != [])
    requires t == EndOf(open[0], kept, Begins(t))
    ensures var open', st' := if Begins(t) then open else open[1..], Step(st, t);
            st'.Some? && StateOk(open', st'.value) && FlatState(open', st'.value) == FlatState(open, st) + [t]
  {
    var before, h, under := st.frames.before, st.frames.head, st.frames.under;
    StepEnd(before, h, under, st.cur, h.name, kept, Begins(t));
    if Begins(t) {
      GrownOpen(open, before, h, under, st.cur, kept);
    } else {
      GrownClosed(open, before, h, under, st.cur, kept);
    }
  }

  lemma {:induction false} GrownOpen(open: seq<string>, before: seq<Elem>, h: Elem, under: Frames, cur: seq<Elem>,
                                     kept: Elem)
    requires FramesOk(open, Open(before, h, under)) && AllStructured(cur) && NoDirective(kept) &&
             (h.name == "xev_pragma" ==> kept.kids != [])
    ensures var st' := State(Open(before, AddGroup(h, cur, [kept]), under), []);
            StateOk(open, st') &&
            FlatState(open, st') == FlatState(open, State(Open(before, h, under), cur)) + [EndOf(h.name, kept, true)]
  {
    GrowHead(h, cur, kept, true);
    var low, e := FlatFrames(open[1..], under) + Flat(before), [EndOf(h.name, kept, true)];
    ConcatRegroup(low, FlatHead(h), Flat(cur), e);
    ConcatNothing(low + (FlatHead(h) + Flat(cur) + e));
  }

  lemma {:induction false} GrownClosed(open: seq<string>, before: seq<Elem>, h: Elem, under: Frames, cur: seq<Elem>,
                                       kept: Elem)
    requires FramesOk(open, Open(before, h, under)) && AllStructured(cur) && NoDirective(kept) &&
             (h.name == "xev_pragma" ==> kept.kids != [])
    ensures var st' := State(under, before + [AddGroup(h, cur, [kept])]);
            StateOk(open[1..], st') &&
            FlatState(open[1..], st') == FlatState(open, State(Open(before, h, under), cur)) +
                [EndOf(h.name, kept, false)]
  {
    GrowHead(h, cur, kept, false);
    FlatSnoc(before, AddGroup(h, cur, [kept]));
    var low, e := FlatFrames(open[1..], under), [EndOf(h.name, kept, false)];
    ConcatAssoc(low, Flat(before), FlatHead(h) + Flat(cur) + e);
    ConcatRegroup(low + Flat(before), FlatHead(h), Flat(cur), e);
  }

  lemma {:induction false} RunMatched(open: seq<string>, st: State, ts: seq<Elem>)
    requires StateOk(open, st) && Matched(open, ts)
    ensures var r := Parse(st, ts);
            r.Some? && AllStructured(r.value) && Flat(r.value) == FlatState(open, st) + ts
    decreases ts
  {
    if ts == [] {
      assert [] + Flat(st.cur) == Flat(st.cur) && FlatState(open, st) + [] == FlatState(open, st);
    } else {
      var t, rest := ts[0], ts[1..];
      var open' := StepMatched(open, st, ts);
      var st' := Step(st, t).value;
      RunMatched(open', st', rest);
      ConcatAssoc(FlatState(open, st), [t], rest);
      assert [t] + rest == ts;
    }
  }

  lemma {:induction false} StepMatched(open: seq<string>, st: State, ts: seq<Elem>) returns (open': seq<string>)
    requires StateOk(open, st) && Matched(open, ts) && ts != []
    ensures var st' := Step(st, ts[0]);
            st'.Some? && StateOk(open', st'.value) && FlatState(open', st'.value) == FlatState(open, st) + [ts[0]]
    ensures Matched(open', ts[1..])
    decreases ts, 0
  {
    var t := ts[0];
    open' := open;
    if !IsDirective(t) {
      RunMatched([], State(Bottom, []), t.kids);
      var kids := Norm(t.kids).value;
      assert [] + [] + t.kids == t.kids;
      StepStatement(open, st, t, kids);
    } else {
      var list := t.kids[0];
      var kept := Kept(list);
      if Ends(t) {
        KeptNoDirective(list);
        EndPlaced(open[0], t);
        StepClose(open, st, t, kept);
        open' := if Begins(t) then open else open[1..];
      } else if Begins(t) {
        KeptNoDirective(list);
        BeginPlaced(list);
        AddBeginFacts(kept);
        StepOpen(open, st, t);
        open' := [t.name] + open;
      } else {
        StepAlone(open, st, t);
      }
    }
  }

  lemma {:induction false} KeptNoDirective(list: Elem)
    requires NoDirective(list)
    ensures NoDirective(Kept(list))
    ensures NoDirective(list.(kids := DropFirst(list.kids, "begin")))
  {
    DropMembers(list.kids, "begin");
    DropMembers(DropFirst(list.kids, "begin"), "end");
  }

  /** Flattening what the pairing of balanced flat directives gives restores them. */
  lemma {:induction false} FlatNorm(xs: seq<Elem>)
    requires Matched([], xs)
    ensures Norm(xs).Some? && AllStructured(Norm(xs).value) && Flat(Norm(xs).value) == xs
  {
    RunMatched([], State(Bottom, []), xs);
    assert [] + [] + xs == xs;
  }
}
