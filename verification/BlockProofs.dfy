/** Attaching one group of statements to its begin directive is a step that the stack
    parser does not notice, whatever surrounds it. */
module BlockProofs {
  import opened Wrappers
  import opened Xml
  import opened Blocks

  function Parse(st: State, ts: seq<Elem>): Option<seq<Elem>> {
    Finish(Run(st, ts))
  }

  /** Interchangeable at the end of any sibling list, inside any open blocks. */
  ghost predicate Same(a: seq<Elem>, b: seq<Elem>) {
    forall st: State :: Parse(st, a) == Parse(st, b)
  }

  /** Unparsable wherever it stands. */
  ghost predicate Fails(ts: seq<Elem>) {
    forall st: State :: Parse(st, ts) == None
  }

  /** Unparsable inside any open block: the end that would close it is missing. */
  ghost predicate Unclosed(ts: seq<Elem>) {
    forall st: State | st.frames.Open? :: Parse(st, ts) == None
  }

  function RunFrom(st: Option<State>, ts: seq<Elem>): Option<State> {
    if st.None? then None else Run(st.value, ts)
  }

  lemma {:induction false} RunConcat(st: State, a: seq<Elem>, b: seq<Elem>)
    ensures Run(st, a + b) == RunFrom(Run(st, a), b)
    decreases |a|
  {
    if a == [] {
      assert a + b == b;
    } else {
      assert (a + b)[0] == a[0] && (a + b)[1..] == a[1..] + b;
      var next := Step(st, a[0]);
      if next.Some? {
        RunConcat(next.value, a[1..], b);
      }
    }
  }

  lemma {:induction false} RunOne(st: State, t: Elem)
    ensures Run(st, [t]) == Step(st, t)
  {
    assert [t][1..] == [];
    var next := Step(st, t);
    if next.Some? {
      assert Run(next.value, []) == Some(next.value);
    }
  }

  // ----- lists in which nothing opens and nothing closes

  predicate Inert(t: Elem) {
    !Begins(t) && !Ends(t)
  }

  predicate AllInert(ts: seq<Elem>) {
    ts == [] || (Inert(ts[0]) && AllInert(ts[1..]))
  }

  /** Each tree with its own children parsed. */
  function Each(ts: seq<Elem>): Option<seq<Elem>> {
    if ts == [] then Some([]) else
      match Norm(ts[0].kids)
      case None => None
      case Some(kids) =>
        match Each(ts[1..])
        case None => None
        case Some(rest) => Some([ts[0].(kids := kids)] + rest)
  }

  predicate NonePlain(ts: seq<Elem>) {
    forall t | t in ts :: !IsDirective(t)
  }

  lemma {:induction false} EachConcat(a: seq<Elem>, b: seq<Elem>)
    ensures Each(a + b) == if Each(a).Some? && Each(b).Some? then Some(Each(a).value + Each(b).value) else None
    decreases |a|
  {
    if a == [] {
      assert a + b == b;
      if Each(b).Some? {
        assert [] + Each(b).value == Each(b).value;
      }
    } else {
      assert (a + b)[0] == a[0] && (a + b)[1..] == a[1..] + b;
      EachConcat(a[1..], b);
      if Norm(a[0].kids).Some? && Each(a[1..]).Some? && Each(b).Some? {
        ConcatAssoc([a[0].(kids := Norm(a[0].kids).value)], Each(a[1..]).value, Each(b).value);
      }
    }
  }

  lemma {:induction false} EachShape(ts: seq<Elem>)
    requires Each(ts).Some?
    ensures |Each(ts).value| == |ts|
    ensures forall i | 0 <= i < |ts| :: Each(ts).value[i].name == ts[i].name && Each(ts).value[i].attrs == ts[i].attrs
    ensures forall i | 0 <= i < |ts| :: Norm(ts[i].kids) == Some(Each(ts).value[i].kids)
    decreases |ts|
  {
    if ts != [] {
      EachShape(ts[1..]);
    }
  }

  lemma {:induction false} NonePlainTail(ts: seq<Elem>)
    requires ts != [] && NonePlain(ts)
    ensures !IsDirective(ts[0]) && NonePlain(ts[1..])
  {
    assert ts[0] in ts;
  }

  lemma {:induction false} RunPlain(st: State, ts: seq<Elem>)
    requires NonePlain(ts)
    ensures Run(st, ts) == if Each(ts).Some? then Some(State(st.frames, st.cur + Each(ts).value)) else None
    decreases |ts|
  {
    if ts == [] {
      assert st.cur + [] == st.cur;
    } else {
      NonePlainTail(ts);
      var kids := Norm(ts[0].kids);
      if kids.Some? {
        var t := ts[0].(kids := kids.value);
        RunPlain(State(st.frames, st.cur + [t]), ts[1..]);
        if Each(ts[1..]).Some? {
          ConcatAssoc(st.cur, [t], Each(ts[1..]).value);
        }
      }
    }
  }

  lemma {:induction false} NormPlain(ts: seq<Elem>)
    requires NonePlain(ts)
    ensures Norm(ts) == Each(ts)
  {
    RunPlain(State(Bottom, []), ts);
    if Each(ts).Some? {
      assert [] + Each(ts).value == Each(ts).value;
    }
  }

  lemma {:induction false} NormNoDirective(ts: seq<Elem>)
    requires forall t | t in ts :: NoDirective(t)
    ensures Norm(ts) == Some(ts) && Each(ts) == Some(ts)
    decreases ts
  {
    if ts != [] {
      assert ts[0] in ts;
      NormNoDirective(ts[0].kids);
      NormNoDirective(ts[1..]);
      assert ts[0].(kids := ts[0].kids) == ts[0];
      assert [ts[0]] + ts[1..] == ts;
    }
    NormPlain(ts);
  }

  /** Parsing the children of a directive leaves its clause list and its being a block alone. */
  lemma {:induction false} DirectiveKids(t: Elem)
    requires WellFormed(t) && IsDirective(t)
    ensures Norm(t.kids) == Each(t.kids)
    ensures Norm(t.kids).Some? ==>
              |Norm(t.kids).value| == |t.kids| && Norm(t.kids).value[0] == t.kids[0] &&
              (|t.kids| >= 2 ==> Norm(t.kids).value[1].name == t.kids[1].name)
  {
    NormPlain(t.kids);
    if Each(t.kids).Some? {
      EachShape(t.kids);
      NormNoDirective(t.kids[0].kids);
    }
  }

  lemma {:induction false} NormedMarks(t: Elem)
    requires WellFormed(t) && Norm(t.kids).Some?
    ensures var t' := t.(kids := Norm(t.kids).value); Begins(t') == Begins(t) && Ends(t') == Ends(t)
  {
    if IsDirective(t) {
      DirectiveKids(t);
    }
  }

  lemma {:induction false} WellFormedConcat(a: seq<Elem>, b: seq<Elem>)
    ensures AllWellFormed(a + b) <==> AllWellFormed(a) && AllWellFormed(b)
    decreases |a|
  {
    if a == [] {
      assert a + b == b;
    } else {
      assert (a + b)[1..] == a[1..] + b;
      WellFormedConcat(a[1..], b);
    }
  }

  lemma {:induction false} WellFormedCons(t: Elem, ts: seq<Elem>)
    ensures AllWellFormed([t] + ts) <==> WellFormed(t) && AllWellFormed(ts)
  {
    assert ([t] + ts)[1..] == ts;
  }

  lemma {:induction false} RunInert(st: State, ts: seq<Elem>)
    requires AllInert(ts) && AllWellFormed(ts)
    ensures Run(st, ts) == if Each(ts).Some? then Some(State(st.frames, st.cur + Each(ts).value)) else None
    decreases |ts|
  {
    if ts == [] {
      assert st.cur + [] == st.cur;
    } else {
      var kids := Norm(ts[0].kids);
      if kids.Some? {
        NormedMarks(ts[0]);
        var t := ts[0].(kids := kids.value);
        RunInert(State(st.frames, st.cur + [t]), ts[1..]);
        if Each(ts[1..]).Some? {
          ConcatAssoc(st.cur, [t], Each(ts[1..]).value);
        }
      }
    }
  }

  lemma {:induction false} NormInert(ts: seq<Elem>)
    requires AllInert(ts) && AllWellFormed(ts)
    ensures Norm(ts) == Each(ts)
  {
    RunInert(State(Bottom, []), ts);
    if Each(ts).Some? {
      assert [] + Each(ts).value == Each(ts).value;
    }
  }

  // ----- clauses

  lemma {:induction false} DropCommutes(cs: seq<Elem>, a: string, b: string)
    requires a != b
    ensures DropFirst(DropFirst(cs, a), b) == DropFirst(DropFirst(cs, b), a)
    decreases |cs|
  {
    if cs != [] {
      DropCommutes(cs[1..], a, b);
      var n := AttrValue(cs[0].attrs, "name");
      if n != Some(a) {
        assert ([cs[0]] + DropFirst(cs[1..], a))[1..] == DropFirst(cs[1..], a);
      }
      if n != Some(b) {
        assert ([cs[0]] + DropFirst(cs[1..], b))[1..] == DropFirst(cs[1..], b);
      }
    }
  }

  lemma {:induction false} WithoutCommutes(t: Elem, a: string, b: string)
    requires a != b
    ensures WithoutClause(WithoutClause(t, a), b) == WithoutClause(WithoutClause(t, b), a)
  {
    if t.kids != [] {
      DropCommutes(t.kids[0].kids, a, b);
      var ta, tb := WithoutClause(t, a), WithoutClause(t, b);
      assert ta.kids[1..] == t.kids[1..] && tb.kids[1..] == t.kids[1..];
    }
  }

  lemma {:induction false} DropKeepsOthers(cs: seq<Elem>, a: string, b: string)
    requires a != b
    ensures HasClause(DropFirst(cs, a), b) == HasClause(cs, b)
    decreases |cs|
  {
    if cs != [] {
      DropKeepsOthers(cs[1..], a, b);
      assert cs == [cs[0]] + cs[1..];
      var n := AttrValue(cs[0].attrs, "name");
      HasClauseCons(cs[0], cs[1..], b);
      if n != Some(a) {
        HasClauseCons(cs[0], DropFirst(cs[1..], a), b);
      }
    }
  }

  lemma {:induction false} HasClauseCons(c: Elem, cs: seq<Elem>, name: string)
    ensures HasClause([c] + cs, name) <==> AttrValue(c.attrs, "name") == Some(name) || HasClause(cs, name)
  {
    if HasClause(cs, name) {
      var d :| d in cs && AttrValue(d.attrs, "name") == Some(name);
      assert d in [c] + cs;
    }
    assert c in [c] + cs;
  }

  lemma {:induction false} DropMembers(cs: seq<Elem>, a: string)
    ensures forall c | c in DropFirst(cs, a) :: c in cs
    decreases |cs|
  {
    if cs != [] {
      DropMembers(cs[1..], a);
      assert cs == [cs[0]] + cs[1..];
    }
  }

  lemma {:induction false} WithoutKeeps(t: Elem, a: string)
    requires WellFormed(t) && IsDirective(t)
    ensures WellFormed(WithoutClause(t, a)) && IsDirective(WithoutClause(t, a))
    ensures |WithoutClause(t, a).kids| == |t.kids| && WithoutClause(t, a).kids[1..] == t.kids[1..]
    ensures Begins(t) && a != "begin" ==> Begins(WithoutClause(t, a))
    ensures a != "end" ==> Ends(WithoutClause(t, a)) == Ends(t)
  {
    var c := t.kids[0];
    var c' := c.(kids := DropFirst(c.kids, a));
    DropMembers(c.kids, a);
    if a != "begin" {
      DropKeepsOthers(c.kids, a, "begin");
    }
    if a != "end" {
      DropKeepsOthers(c.kids, a, "end");
    }
    assert NoDirective(c');
    NoDirectiveWellFormed(c');
    WellFormedCons(c', t.kids[1..]);
    forall k | k in WithoutClause(t, a).kids ensures !IsDirective(k) {
      assert k == c' || k in t.kids;
    }
  }

  lemma {:induction false} NoDirectiveWellFormed(t: Elem)
    requires NoDirective(t)
    ensures WellFormed(t)
    decreases t
  {
    AllNoDirectiveWellFormed(t.kids);
  }

  lemma {:induction false} AllNoDirectiveWellFormed(ts: seq<Elem>)
    requires forall t | t in ts :: NoDirective(t)
    ensures AllWellFormed(ts)
    decreases ts
  {
    if ts != [] {
      assert ts[0] in ts;
      NoDirectiveWellFormed(ts[0]);
      AllNoDirectiveWellFormed(ts[1..]);
    }
  }

  lemma {:induction false} UnmarkedKeeps(t: Elem)
    requires WellFormed(t) && IsDirective(t)
    ensures WellFormed(Unmarked(t)) && IsDirective(Unmarked(t))
    ensures |Unmarked(t).kids| == |t.kids| && Unmarked(t).kids[1..] == t.kids[1..]
  {
    WithoutKeeps(t, "end");
    if Begins(t) {
      WithoutKeeps(WithoutClause(t, "end"), "begin");
    }
  }

  /** Parsing the children and taking clauses off do not interfere. */
  lemma {:induction false} EachOfDirective(t: Elem, u: Elem)
    requires WellFormed(t) && IsDirective(t) && WellFormed(u) && IsDirective(u)
    requires |u.kids| == |t.kids| && u.kids[1..] == t.kids[1..]
    ensures Norm(t.kids).Some? == Norm(u.kids).Some?
    ensures Norm(t.kids).Some? ==>
              |Norm(t.kids).value| == |t.kids| && Norm(t.kids).value == [t.kids[0]] + Norm(t.kids).value[1..]
    ensures Norm(t.kids).Some? ==> Norm(u.kids).value == [u.kids[0]] + Norm(t.kids).value[1..]
  {
    DirectiveKids(t);
    DirectiveKids(u);
    NormNoDirective(t.kids[0].kids);
    NormNoDirective(u.kids[0].kids);
    assert t.kids[0].(kids := t.kids[0].kids) == t.kids[0] && u.kids[0].(kids := u.kids[0].kids) == u.kids[0];
  }

  lemma {:induction false} NormUnmarked(t: Elem)
    requires WellFormed(t) && IsDirective(t)
    ensures Norm(Unmarked(t).kids) ==
            if Norm(t.kids).Some? then Some(Unmarked(t.(kids := Norm(t.kids).value)).kids) else None
  {
    UnmarkedKeeps(t);
    EachOfDirective(t, Unmarked(t));
    if Norm(t.kids).Some? {
      NormedMarks(t);
    }
  }

  lemma {:induction false} NormWithout(t: Elem, a: string)
    requires WellFormed(t) && IsDirective(t)
    ensures Norm(WithoutClause(t, a).kids) ==
            if Norm(t.kids).Some? then Some(WithoutClause(t.(kids := Norm(t.kids).value), a).kids) else None
  {
    WithoutKeeps(t, a);
    EachOfDirective(t, WithoutClause(t, a));
  }

  // ----- one group

  /** The state in which the statements of the block `h` are being read, `h` without its begin clause. */
  function Opened(st: State, h: Elem): State {
    if Ends(h) && st.frames.Open?
    then State(Open(st.frames.before, AddGroup(st.frames.head, st.cur, WithoutClause(h, "end").kids),
                    st.frames.under), [])
    else State(Open(st.cur, h, st.frames), [])
  }

  function Resume(st: State, head: Elem): Option<State> {
    match Norm(head.kids)
    case None => None
    case Some(kids) => Some(Opened(st, head.(kids := kids)))
  }

  lemma {:induction false} StartGroup(st: State, x: Elem)
    requires WellFormed(x) && Begins(x)
    ensures Step(st, x) == Resume(st, WithoutClause(x, "begin"))
  {
    NormWithout(x, "begin");
    if Norm(x.kids).Some? {
      var x' := x.(kids := Norm(x.kids).value);
      NormedMarks(x);
      DirectiveKids(x);
      WithoutCommutes(x', "begin", "end");
      DropKeepsOthers(x'.kids[0].kids, "begin", "end");
      var h := WithoutClause(x', "begin");
      assert Ends(h) == Ends(x');
    }
  }

  lemma {:induction false} EachTarget(pre: seq<Elem>)
    requires AllInert(pre) && AllWellFormed(pre)
    ensures Each([Target(pre)]) == if Each(pre).Some? then Some([Target(Each(pre).value)]) else None
  {
    NormInert(pre);
    var t := Target(pre);
    assert [t][1..] == [];
    if Each(pre).Some? {
      assert t.(kids := Each(pre).value) == Target(Each(pre).value);
      assert [Target(Each(pre).value)] + [] == [Target(Each(pre).value)];
    }
  }

  lemma {:induction false} NonePlainConcat(a: seq<Elem>, b: seq<Elem>)
    requires NonePlain(a) && NonePlain(b)
    ensures NonePlain(a + b)
  {
  }

  lemma {:induction false} UnmarkedPlain(e: Elem)
    requires WellFormed(e) && IsDirective(e)
    ensures NonePlain(e.kids) && NonePlain(Unmarked(e).kids)
  {
    UnmarkedKeeps(e);
  }

  lemma {:induction false} GroupKids(h: Elem, pre: seq<Elem>, e: Elem)
    requires NonePlain(h.kids) && AllInert(pre) && AllWellFormed(pre) && WellFormed(e) && IsDirective(e)
    ensures var k := Norm(AddGroup(h, pre, Unmarked(e).kids).kids);
            if Norm(h.kids).Some? && Each(pre).Some? && Norm(e.kids).Some?
            then
              k == Some(AddGroup(h.(kids := Norm(h.kids).value), Each(pre).value,
                                 Unmarked(e.(kids := Norm(e.kids).value)).kids).kids)
            else k == None
  {
    var t, uk := [Target(pre)], Unmarked(e).kids;
    UnmarkedPlain(e);
    NormUnmarked(e);
    NormPlain(uk);
    NormPlain(h.kids);
    EachTarget(pre);
    NonePlainConcat(h.kids, t);
    NonePlainConcat(h.kids + t, uk);
    NormPlain(h.kids + t + uk);
    EachConcat(h.kids + t, uk);
    EachConcat(h.kids, t);
  }

  /** A begin, inert statements and the end that closes or continues the block. */
  lemma {:induction false} CloseGroup(st: State, h: Elem, pre: seq<Elem>, e: Elem)
    requires WellFormed(h) && IsDirective(h) && AllInert(pre) && AllWellFormed(pre)
    requires WellFormed(e) && Ends(e)
    ensures var block := AddGroup(h, pre, Unmarked(e).kids);
            RunFrom(Resume(st, h), pre + [e]) == if Begins(e) then Resume(st, block) else Step(st, block)
  {
    var block := AddGroup(h, pre, Unmarked(e).kids);
    GroupKids(h, pre, e);
    if Norm(h.kids).Some? {
      var r := Resume(st, h).value;
      RunConcat(r, pre, [e]);
      RunInert(r, pre);
      if Each(pre).Some? {
        var r' := State(r.frames, r.cur + Each(pre).value);
        assert r.cur == [] && r'.cur == Each(pre).value;
        RunOne(r', e);
        if Norm(e.kids).Some? {
          DirectiveKids(h);
          CloseShift(st, h.(kids := Norm(h.kids).value), Each(pre).value, e);
        }
      }
    }
  }

  lemma {:induction false} GrownBlock(h: Elem, body: seq<Elem>, rest: seq<Elem>)
    requires IsDirective(h) && (|h.kids| == 1 || HasTarget(h))
    ensures var block := AddGroup(h, body, rest);
            HasTarget(block) && Ends(block) == Ends(h) &&
            WithoutClause(block, "end") == AddGroup(WithoutClause(h, "end"), body, rest)
  {
    var block := AddGroup(h, body, rest);
    assert block.kids[0] == h.kids[0] && block.kids[1..] == h.kids[1..] + [Target(body)] + rest;
    var c := h.kids[0].(kids := DropFirst(h.kids[0].kids, "end"));
    assert [c] + (h.kids[1..] + [Target(body)] + rest) == [c] + h.kids[1..] + [Target(body)] + rest;
  }

  lemma {:induction false} GroupOfGroups(g: Elem, cur: seq<Elem>, h: Elem, body: seq<Elem>, rest: seq<Elem>)
    ensures AddGroup(AddGroup(g, cur, h.kids), body, rest) == AddGroup(g, cur, AddGroup(h, body, rest).kids)
  {
    var gk, t, u := g.kids + [Target(cur)], h.kids + [Target(body)], rest;
    assert gk + h.kids + [Target(body)] + rest == gk + (h.kids + [Target(body)] + rest);
  }

  lemma {:induction false} CloseShift(st: State, h: Elem, body: seq<Elem>, e: Elem)
    requires IsDirective(h) && (|h.kids| == 1 || HasTarget(h)) && WellFormed(e) && Ends(e) && Norm(e.kids).Some?
    ensures var block := AddGroup(h, body, Unmarked(e.(kids := Norm(e.kids).value)).kids);
            Step(State(Opened(st, h).frames, body), e) ==
                Some(if Begins(e) then Opened(st, block) else Shift(st, block))
  {
    NormedMarks(e);
    var rest := Unmarked(e.(kids := Norm(e.kids).value)).kids;
    GrownBlock(h, body, rest);
    if Ends(h) && st.frames.Open? {
      GroupOfGroups(st.frames.head, st.cur, WithoutClause(h, "end"), body, rest);
    }
  }

  // ----- what the steps of the pairing keep

  /** The meaning of a block still being built, followed by its remaining siblings. */
  function PendingParse(st: State, h: Elem, ts: seq<Elem>): Option<seq<Elem>> {
    Finish(RunFrom(Resume(st, h), ts))
  }

  lemma {:induction false} ParseCons(st: State, t: Elem, ts: seq<Elem>)
    ensures Parse(st, [t] + ts) == Finish(RunFrom(Step(st, t), ts))
  {
    RunConcat(st, [t], ts);
    RunOne(st, t);
  }

  lemma {:induction false} BeginPending(st: State, x: Elem, ts: seq<Elem>)
    requires WellFormed(x) && Begins(x)
    ensures Parse(st, [x] + ts) == PendingParse(st, WithoutClause(x, "begin"), ts)
  {
    ParseCons(st, x, ts);
    StartGroup(st, x);
  }

  /** Only statements at the end of the siblings: the block stays open. */
  lemma {:induction false} PendingUnclosed(st: State, h: Elem, ts: seq<Elem>)
    requires Unclosed(ts)
    ensures PendingParse(st, h, ts) == None
  {
    if Resume(st, h).Some? {
      assert Resume(st, h).value.frames.Open?;
      assert Parse(Resume(st, h).value, ts) == None;
    }
  }

  lemma {:induction false} PendingSame(st: State, h: Elem, a: seq<Elem>, b: seq<Elem>)
    requires Same(a, b)
    ensures PendingParse(st, h, a) == PendingParse(st, h, b)
  {
    if Resume(st, h).Some? {
      assert Parse(Resume(st, h).value, a) == Parse(Resume(st, h).value, b);
    }
  }

  lemma {:induction false} GroupPending(st: State, h: Elem, pre: seq<Elem>, e: Elem, en: seq<Elem>)
    requires WellFormed(h) && IsDirective(h) && AllInert(pre) && AllWellFormed(pre) && WellFormed(e) && Ends(e)
    ensures var block := AddGroup(h, pre, Unmarked(e).kids);
            PendingParse(st, h, pre + [e] + en) ==
            if Begins(e) then PendingParse(st, block, en) else Parse(st, [block] + en)
  {
    var block := AddGroup(h, pre, Unmarked(e).kids);
    CloseGroup(st, h, pre, e);
    if Resume(st, h).Some? {
      RunConcat(Resume(st, h).value, pre + [e], en);
    }
    ParseCons(st, block, en);
  }

  lemma {:induction false} SameTrans(a: seq<Elem>, b: seq<Elem>, c: seq<Elem>)
    requires Same(a, b) && Same(b, c)
    ensures Same(a, c)
  {
    forall st: State ensures Parse(st, a) == Parse(st, c) {
      assert Parse(st, a) == Parse(st, b);
    }
  }

  lemma {:induction false} SamePrefix(a: seq<Elem>, b: seq<Elem>, c: seq<Elem>)
    requires Same(b, c)
    ensures Same(a + b, a + c)
  {
    forall st: State ensures Parse(st, a + b) == Parse(st, a + c) {
      RunConcat(st, a, b);
      RunConcat(st, a, c);
      if Run(st, a).Some? {
        assert Parse(Run(st, a).value, b) == Parse(Run(st, a).value, c);
      }
    }
  }

  lemma {:induction false} FailsPrefix(a: seq<Elem>, b: seq<Elem>)
    requires Fails(b)
    ensures Fails(a + b)
  {
    forall st: State ensures Parse(st, a + b) == None {
      RunConcat(st, a, b);
      if Run(st, a).Some? {
        assert Parse(Run(st, a).value, b) == None;
      }
    }
  }

  lemma {:induction false} UnclosedPrefix(t: Elem, b: seq<Elem>)
    requires Unclosed(b) && WellFormed(t) && Inert(t)
    ensures Unclosed([t] + b)
  {
    forall st: State | st.frames.Open? ensures Parse(st, [t] + b) == None {
      ParseCons(st, t, b);
      if Norm(t.kids).Some? {
        NormedMarks(t);
        var st' := Step(st, t).value;
        assert st'.frames.Open?;
        assert Parse(st', b) == None;
      }
    }
  }

  lemma {:induction false} NothingUnclosed()
    ensures Unclosed([])
  {
    forall st: State | st.frames.Open? ensures Parse(st, []) == None {
    }
  }

  lemma {:induction false} SameFails(a: seq<Elem>, b: seq<Elem>)
    requires Same(a, b) && Fails(b)
    ensures Fails(a)
  {
    forall st: State ensures Parse(st, a) == None {
      assert Parse(st, a) == Parse(st, b) == None;
    }
  }

  lemma {:induction false} SameUnclosed(a: seq<Elem>, b: seq<Elem>)
    requires Same(a, b) && Unclosed(b)
    ensures Unclosed(a)
  {
    forall st: State | st.frames.Open? ensures Parse(st, a) == None {
      assert Parse(st, a) == Parse(st, b) == None;
    }
  }

  // ----- trees with nothing left to pair

  predicate Done(ts: seq<Elem>) {
    ts == [] || (!Begins(ts[0]) && Done(ts[0].kids) && Done(ts[1..]))
  }

  lemma {:induction false} DoneNorm(ts: seq<Elem>)
    requires Done(ts)
    ensures Norm(ts) == Some(ts)
    decreases ts, 1
  {
    DoneRun([], ts);
    assert [] + ts == ts;
  }

  lemma {:induction false} DoneRun(cur: seq<Elem>, ts: seq<Elem>)
    requires Done(ts)
    ensures Run(State(Bottom, cur), ts) == Some(State(Bottom, cur + ts))
    decreases ts, 0
  {
    if ts == [] {
      assert cur + [] == cur;
    } else {
      DoneNorm(ts[0].kids);
      assert ts[0].(kids := ts[0].kids) == ts[0];
      DoneRun(cur + [ts[0]], ts[1..]);
      assert cur + [ts[0]] + ts[1..] == cur + ts;
    }
  }

  /** The result of processing a node that opens nothing, its children and its later siblings. */
  lemma {:induction false} ConsSame(t: Elem, kids: seq<Elem>, rest: seq<Elem>, rest': seq<Elem>)
    requires Norm(t.kids) == Some(kids) && Done(kids) && Same(rest, rest')
    ensures Same([t] + rest, [t.(kids := kids)] + rest')
  {
    var t' := t.(kids := kids);
    DoneNorm(kids);
    forall st: State ensures Parse(st, [t] + rest) == Parse(st, [t'] + rest') {
      ParseCons(st, t, rest);
      ParseCons(st, t', rest');
      assert t'.(kids := kids) == t';
      assert Step(st, t) == Step(st, t');
      assert Parse(Step(st, t).value, rest) == Parse(Step(st, t).value, rest');
    }
  }

  lemma {:induction false} KidsFail(t: Elem, rest: seq<Elem>)
    requires Norm(t.kids).None?
    ensures Fails([t] + rest)
  {
    forall st: State ensures Parse(st, [t] + rest) == None {
      ParseCons(st, t, rest);
    }
  }

  lemma {:induction false} DoneResult(a: seq<Elem>, b: seq<Elem>)
    requires Same(a, b) && Done(b)
    ensures Norm(a) == Some(b)
  {
    DoneNorm(b);
    assert Parse(State(Bottom, []), a) == Parse(State(Bottom, []), b);
  }

  lemma {:induction false} FailsNorm(a: seq<Elem>)
    requires Fails(a)
    ensures Norm(a).None?
  {
    assert Parse(State(Bottom, []), a) == None;
  }
}
