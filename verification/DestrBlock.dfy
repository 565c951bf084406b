/** Turning nested blocks back into flat begin/end directives, by relinking cells in place. */
module DestrBlock {
  import opened Wrappers
  import opened Xml
  import opened XmlHeap
  import opened Blocks
  import opened BlockProofs
  import opened BlockFlat
  import opened ConstrBlock

  /** One block spread out over its own siblings; the statements in it are not yet flattened. */
  function Spread(kind: string, gs: seq<Elem>): seq<Elem>
    requires Groups(kind, gs)
    decreases |gs|
  {
    if gs == [] then [] else gs[0].kids + [EndOf(kind, gs[1], |gs| > 2)] + Spread(kind, gs[2..])
  }

  lemma {:induction false} EndStructured(kind: string, list: Elem, more: bool)
    requires kind == "xev_pragma" || kind == "xevdrs_line"
    requires NoDirective(list) && (kind == "xev_pragma" ==> list.kids != [])
    ensures Structured(EndOf(kind, list, more)) && FlatOne(EndOf(kind, list, more)) == [EndOf(kind, list, more)]
  {
    Marks();
    var e := EndOf(kind, list, more);
    assert e.kids[1..] == [];
  }

  lemma {:induction false} SpreadFlat(kind: string, gs: seq<Elem>)
    requires kind == "xev_pragma" || kind == "xevdrs_line"
    requires Groups(kind, gs)
    ensures AllStructured(Spread(kind, gs)) && Flat(Spread(kind, gs)) == FlatGroups(kind, gs, false)
    decreases |gs|
  {
    if gs != [] {
      var e := EndOf(kind, gs[1], |gs| > 2);
      EndStructured(kind, gs[1], |gs| > 2);
      SpreadFlat(kind, gs[2..]);
      FlatSnoc(gs[0].kids, e);
      FlatConcat(gs[0].kids + [e], Spread(kind, gs[2..]));
    }
  }

  lemma {:induction false} BlockSpread(t: Elem, rest: seq<Elem>)
    requires Structured(t) && IsDirective(t) && |t.kids| >= 2 && AllStructured(rest)
    ensures var ts := [BeginOf(t)] + Spread(t.name, t.kids[1..]) + rest;
            AllStructured(ts) && Flat(ts) == Flat([t] + rest)
  {
    var b := BeginOf(t);
    Marks();
    assert b.kids[1..] == [] && [b][1..] == [] && [t][1..] == [];
    SpreadFlat(t.name, t.kids[1..]);
    assert IsDirective(b) && |b.kids| == 1 && Structured(b);
    assert FlatOne(b) == [b];
    ConcatNothing([b]);
    FlatConcat([b], Spread(t.name, t.kids[1..]));
    FlatConcat([b] + Spread(t.name, t.kids[1..]), rest);
    assert ([t] + rest)[1..] == rest;
  }

  ghost function Targets(f: Forest): nat {
    match f
    case Nil => 0
    case Node(_, name, _, a, b) => (if name == "xev_target" then 1 else 0) + Targets(a) + Targets(b)
  }

  lemma {:induction false} TargetsConcat(f: Forest, g: Forest)
    ensures Targets(Concat(f, g)) == Targets(f) + Targets(g)
  {
    if f.Node? {
      TargetsConcat(f.next, g);
    }
  }

  /** Puts a clause at the end of the clause list at `c`. */
  method ClauseLast(c: XmlCell, name: string, ghost f: Forest) returns (ghost g: Forest)
    requires Rep(c, f)
    modifies c, Cells(f.child)
    ensures Rep(c, g) && (forall d | d in Cells(g) :: d in Cells(f) || fresh(d)) && g == f.(child := g.child)
    ensures Trees(g.child) == Trees(f.child) + [Elem("xev_clause", [Attr("name", name)], [])] &&
            Targets(g.child) == Targets(f.child)
  {
    assert allocated(Cells(f));
    var b := new XmlCell("xev_clause", [Attr("name", name)]);
    ghost var fb := Node(b, "xev_clause", [Attr("name", name)], Nil, Nil);
    assert Cells(fb) == {b} && Rep(b, fb);
    XmlAppendChild(c, b, f, fb);
    ConcatFacts(f.child, fb);
    TargetsConcat(f.child, fb);
    g := f.(child := Concat(f.child, fb));
  }

  /** Puts an end clause behind the first clause of the clause list at `c`. */
  method EndSecond(c: XmlCell, ghost f: Forest) returns (ghost g: Forest)
    requires Rep(c, f) && f.child.Node?
    modifies Cells(f.child)
    ensures Rep(c, g) && (forall d | d in Cells(g) :: d in Cells(f) || fresh(d)) && g == f.(child := g.child)
    ensures Trees(f.child) != [] && Trees(g.child) == [Trees(f.child)[0], END_CLAUSE] + Trees(f.child)[1..]
    ensures Targets(g.child) == Targets(f.child)
  {
    ghost var cs := f.child;
    assert Rep(c.child, cs) && Rep(c.next, f.next) && allocated(Cells(f.next)) && allocated(Cells(cs));
    var first: XmlCell := c.child;
    var b := new XmlCell("xev_clause", [Attr("name", "end")]);
    ghost var fb := Node(b, "xev_clause", [Attr("name", "end")], Nil, Nil);
    assert Cells(fb) == {b} && Rep(b, fb);
    XmlInsertNext(first, b, cs, fb);
    assert Rep(c.next, f.next);
    ConcatFacts(fb, cs.next);
    TargetsConcat(fb, cs.next);
    HeadTree(cs);
    g := f.(child := cs.(next := Concat(fb, cs.next)));
    assert Trees(fb) == [END_CLAUSE];
    assert Trees(g.child) == [Trees(cs)[0]] + ([END_CLAUSE] + Trees(cs.next));
  }

  method InsertBegin(x: XmlCell, ghost f: Forest) returns (ghost g: Forest)
    requires Rep(x, f) && f.child.Node?
    modifies Cells(f.child)
    ensures Rep(x, g) && (forall c | c in Cells(g) :: c in Cells(f) || fresh(c))
    ensures g.child.Node? && g == f.(child := f.child.(child := g.child.child))
    ensures Trees(g.child)[0] == AddBegin(Trees(f.child)[0]) && Targets(g) == Targets(f)
    ensures Trees(g.child)[0].kids == Trees(f.child)[0].kids + [Elem("xev_clause", [Attr("name", "begin")], [])]
  {
    assert Rep(x.child, f.child) && Rep(x.next, f.next) && allocated(Cells(f.next));
    ghost var list := ClauseLast(x.child, "begin", f.child);
    assert Rep(x.next, f.next);
    HeadTree(f.child);
    HeadTree(list);
    g := f.(child := list);
  }

  method InsertEnd(x: XmlCell, ghost f: Forest) returns (ghost g: Forest)
    requires Rep(x, f) && f.child.Node? && (f.name == "xev_pragma" ==> f.child.child.Node?)
    modifies Cells(f.child)
    ensures Rep(x, g) && (forall c | c in Cells(g) :: c in Cells(f) || fresh(c))
    ensures g.child.Node? && g == f.(child := f.child.(child := g.child.child))
    ensures (f.name == "xev_pragma" ==> Trees(f.child)[0].kids != []) &&
            Trees(g.child)[0] == AddEnd(f.name, Trees(f.child)[0])
    ensures var cs, end := Trees(f.child)[0].kids, Elem("xev_clause", [Attr("name", "end")], []);
            Trees(g.child)[0].kids == if f.name == "xev_pragma" then [cs[0], end] + cs[1..] else cs + [end]
    ensures Targets(g) == Targets(f)
  {
    assert Rep(x.child, f.child) && Rep(x.next, f.next) && allocated(Cells(f.next));
    ghost var list;
    HeadTree(f.child);
    if x.name == "xev_pragma" {
      list := EndSecond(x.child, f.child);
    } else {
      list := ClauseLast(x.child, "end", f.child);
    }
    assert Rep(x.next, f.next);
    HeadTree(list);
    g := f.(child := list);
  }

  /** A new directive over the clause list `l`, with an end clause put in. */
  method NewEnd(kind: string, l: XmlCell, ghost fl: Forest) returns (e: XmlCell, ghost fe: Forest)
    requires Rep(l, fl) && (kind == "xev_pragma" ==> fl.child.Node?)
    modifies Cells(fl)
    ensures Rep(e, fe) && fe.child.Node? && fe.name == kind && fe.attrs == [] && fe.next == Nil &&
            fe.child.next == fl.next
    ensures forall c | c in Cells(fe) :: c in Cells(fl) || fresh(c)
    ensures (kind == "xev_pragma" ==> Trees(fl)[0].kids != []) && Trees(fe.child)[0] == AddEnd(kind, Trees(fl)[0])
    ensures kind != "xev_target" ==> Targets(fe) == Targets(fl)
  {
    assert allocated(Cells(fl));
    e := new XmlCell(kind, []);
    fe := Node(e, kind, [], Nil, Nil);
    assert Cells(fe) == {e} && Rep(e, fe);
    XmlAppendChild(e, l, fe, fl);
    fe := InsertEnd(e, fe.(child := fl));
  }

  /** Makes the end directive that takes over the clause list `l`, and cuts off what follows the list. */
  method MakeEnd(kind: string, l: XmlCell, ghost fl: Forest) returns (e: XmlCell, t: XmlCell?, ghost fe: Forest)
    requires Rep(l, fl) && (kind == "xev_pragma" ==> fl.child.Node?)
    modifies Cells(fl)
    ensures Rep(e, fe) && Rep(t, fl.next) && Cells(fe) !! Cells(fl.next)
    ensures forall c | c in Cells(fe) :: c in Cells(fl) || fresh(c)
    ensures (kind == "xev_pragma" ==> Trees(fl)[0].kids != []) &&
            Trees(fe) == [EndOf(kind, Trees(fl)[0], fl.next.Node?)]
    ensures kind != "xev_target" ==> Targets(fe) + Targets(fl.next) <= Targets(fl)
  {
    ghost var whole;
    e, whole := NewEnd(kind, l, fl);
    t := CutAfterList(e, whole);
    ghost var cut := whole.(child := whole.child.(next := Nil));
    CutEnd(whole);
    assert Rep(e, cut) && Rep(t, fl.next) && allocated(Cells(fl.next)) && allocated(Cells(cut));
    fe := cut;
    if t != null {
      fe := InsertBegin(e, cut);
      OnlyChild(fe);
    }
  }

  lemma {:induction false} OnlyChild(f: Forest)
    requires f.Node? && f.child.Node? && f.child.next == Nil && f.next == Nil
    ensures Trees(f) == [Elem(f.name, f.attrs, [Trees(f.child)[0]])]
  {
    assert Trees(f.child) == [Trees(f.child)[0]];
  }

  lemma {:induction false} CutEnd(f: Forest)
    requires f.Node? && f.child.Node? && f.next == Nil
    ensures var cut := f.(child := f.child.(next := Nil));
            && Trees(cut) == [Elem(f.name, f.attrs, [Trees(f.child)[0]])]
            && Trees(cut.child)[0] == Trees(f.child)[0]
            && Targets(cut) + Targets(f.child.next) == Targets(f) && Cells(cut) <= Cells(f)
  {
    OnlyChild(f.(child := f.child.(next := Nil)));
  }

  method CutAfterList(e: XmlCell, ghost fe: Forest) returns (t: XmlCell?)
    requires Rep(e, fe) && fe.child.Node?
    modifies fe.child.cell
    ensures Rep(e, fe.(child := fe.child.(next := Nil))) && Rep(t, fe.child.next)
  {
    var l: XmlCell := e.child;
    assert Rep(l, fe.child);
    t := l.next;
    l.next := null;
  }

  /** Moves the statements of one target behind `x`, followed by the end directive of the group. */
  method MoveGroup(x: XmlCell, kind: string, t: XmlCell, ghost gx: Forest, ghost fg: Forest)
    returns (t': XmlCell?, ghost gx': Forest, ghost fg': Forest)
    requires Rep(x, gx) && Rep(t, fg) && Cells(gx) !! Cells(fg)
    requires Groups(kind, Trees(fg)) && (kind == "xev_pragma" || kind == "xevdrs_line")
    modifies Cells(gx), Cells(fg)
    ensures Rep(x, gx') && Rep(t', fg') && Cells(gx') !! Cells(fg')
    ensures forall c | c in Cells(gx') || c in Cells(fg') :: c in Cells(gx) || c in Cells(fg) || fresh(c)
    ensures |Trees(fg)| >= 2 && Trees(fg') == Trees(fg)[2..] && Size(fg') < Size(fg)
    ensures Trees(gx') == Trees(gx) + Trees(fg)[0].kids + [EndOf(kind, Trees(fg)[1], |Trees(fg)| > 2)]
    ensures Targets(gx') + Targets(fg') < Targets(gx) + Targets(fg)
  {
    GroupShape(kind, fg);
    ghost var body := fg.child;
    assert allocated(Cells(gx)) && Rep(x, gx);
    var n, e;
    ghost var fe;
    n, e, t', fe := SplitGroup(kind, t, fg);
    fg' := fg.next.next;
    assert allocated(Cells(gx)) && allocated(Cells(fg')) && allocated(Cells(fe)) && allocated(Cells(body));
    AppendBoth(x, n, e, gx, body, fe);
    ConcatFacts(gx, body);
    TargetsConcat(gx, body);
    ConcatFacts(Concat(gx, body), fe);
    TargetsConcat(Concat(gx, body), fe);
    gx' := Concat(Concat(gx, body), fe);
    assert Rep(t', fg');
  }

  method AppendBoth(x: XmlCell, n: XmlCell?, e: XmlCell?, ghost gx: Forest, ghost body: Forest, ghost fe: Forest)
    requires Rep(x, gx) && Rep(n, body) && Rep(e, fe)
    requires Cells(gx) !! Cells(body) && Cells(gx) !! Cells(fe) && Cells(body) !! Cells(fe)
    modifies Cells(gx), Cells(body)
    ensures Rep(x, Concat(Concat(gx, body), fe))
  {
    assert allocated(Cells(fe));
    XmlAppend(x, n, gx, body);
    ConcatFacts(gx, body);
    XmlAppend(x, e, Concat(gx, body), fe);
  }

  method SplitGroup(kind: string, t: XmlCell, ghost fg: Forest)
    returns (n: XmlCell?, e: XmlCell, t': XmlCell?, ghost fe: Forest)
    requires Rep(t, fg) && Groups(kind, Trees(fg)) && (kind == "xev_pragma" || kind == "xevdrs_line") && fg.next.Node?
    modifies Cells(fg)
    ensures Rep(n, fg.child) && Rep(e, fe) && Rep(t', fg.next.next)
    ensures Cells(fe) !! Cells(fg.child) && Cells(fe) !! Cells(fg.next.next)
    ensures forall c | c in Cells(fe) :: c in Cells(fg) || fresh(c)
    ensures |Trees(fg)| >= 2 && Trees(fe) == [EndOf(kind, Trees(fg)[1], |Trees(fg)| > 2)]
    ensures Targets(fe) + Targets(fg.next.next) + Targets(fg.child) < Targets(fg)
  {
    GroupShape(kind, fg);
    ghost var body, fl := fg.child, fg.next;
    assert Rep(t.child, body) && Rep(t.next, fl);
    n := t.child;
    t.child := null;
    var l: XmlCell := t.next;
    t.next := null;
    assert Rep(n, body) && Rep(l, fl) && allocated(Cells(body)) && allocated(Cells(fl));
    e, t', fe := MakeEnd(kind, l, fl);
  }

  lemma {:induction false} GroupShape(kind: string, fg: Forest)
    requires fg.Node? && Groups(kind, Trees(fg))
    ensures fg.name == "xev_target" && fg.next.Node? && (kind == "xev_pragma" ==> fg.next.child.Node?)
    ensures |Trees(fg)| >= 2 && Trees(fg)[0].kids == Trees(fg.child) && Trees(fg)[1] == Trees(fg.next)[0]
    ensures Trees(fg)[2..] == Trees(fg.next.next) && (|Trees(fg)| > 2 <==> fg.next.next.Node?)
  {
    HeadTree(fg);
    HeadTree(fg.next);
  }

  /** Moves the groups `t` of a block behind `x`, one after the other. */
  method MoveGroups(x: XmlCell, kind: string, head: XmlCell?, ghost gx: Forest, ghost fgs: Forest)
    returns (ghost g: Forest)
    requires Rep(x, gx) && Rep(head, fgs) && Cells(gx) !! Cells(fgs)
    requires Groups(kind, Trees(fgs)) && (kind == "xev_pragma" || kind == "xevdrs_line")
    modifies Cells(gx), Cells(fgs)
    ensures Rep(x, g) && (forall c | c in Cells(g) :: c in Cells(gx) || c in Cells(fgs) || fresh(c))
    ensures Trees(g) == Trees(gx) + Spread(kind, Trees(fgs))
    ensures Targets(g) + (if fgs.Node? then 1 else 0) <= Targets(gx) + Targets(fgs)
  {
    g := gx;
    ghost var fg, moved := fgs, false;
    var t := head;
    ConcatNothing(Trees(g));
    while t != null
      invariant Rep(x, g) && Rep(t, fg) && Cells(g) !! Cells(fg)
      invariant forall c | c in Cells(g) || c in Cells(fg) :: c in Cells(gx) || c in Cells(fgs) || fresh(c)
      invariant Groups(kind, Trees(fg))
      invariant Trees(g) + Spread(kind, Trees(fg)) == Trees(gx) + Spread(kind, Trees(fgs))
      invariant Targets(g) + Targets(fg) + (if moved then 1 else 0) <= Targets(gx) + Targets(fgs)
      invariant moved || fg == fgs
      decreases Size(fg)
    {
      ghost var g', fg';
      SpreadMore(kind, Trees(g), Trees(fg));
      t, g', fg' := MoveGroup(x, kind, t, g, fg);
      g, fg, moved := g', fg', true;
    }
    ConcatNothing(Trees(g));
  }

  lemma {:induction false} SpreadMore(kind: string, done: seq<Elem>, gs: seq<Elem>)
    requires Groups(kind, gs)
    ensures |gs| >= 2 ==>
      done + Spread(kind, gs) == done + gs[0].kids + [EndOf(kind, gs[1], |gs| > 2)] + Spread(kind, gs[2..])
  {
    if |gs| >= 2 {
      ConcatRegroup(done, gs[0].kids, [EndOf(kind, gs[1], |gs| > 2)], Spread(kind, gs[2..]));
    }
  }

  /** Spreads the block at `x` out: its statements and the end directives come right behind it. */
  method SpreadBlock(x: XmlCell, ghost f: Forest) returns (ghost g: Forest)
    requires Rep(x, f) && IsBlock(f) && Structured(Trees(f)[0])
    modifies Cells(f)
    ensures Rep(x, g) && (forall c | c in Cells(g) :: c in Cells(f) || fresh(c)) && Targets(g) < Targets(f)
    ensures Trees(g) == [BeginOf(Trees(f)[0])] + Spread(f.name, Trees(f)[0].kids[1..]) + Trees(f.next)
  {
    BlockShape(f);
    var kind := x.name;
    ghost var fgs, fn := f.child.next, f.next;
    ghost var g0 := InsertBegin(x, f);
    var en, t: XmlCell?;
    ghost var g1;
    en, t, g1 := CutBlock(x, g0);
    BlockPieces(f, g0, g1);
    assert allocated(Cells(fn)) && Rep(en, fn);
    ghost var g2 := MoveGroups(x, kind, t, g1, fgs);
    assert Rep(en, fn) && Cells(g2) !! Cells(fn);
    XmlAppend(x, en, g2, fn);
    g := Concat(g2, fn);
    ConcatFacts(g2, fn);
    TargetsConcat(g2, fn);
  }

  ghost predicate IsBlock(f: Forest) {
    && f.Node? && (f.name == "xev_pragma" || f.name == "xevdrs_line")
    && f.child.Node? && f.child.next.Node? && f.child.next.name == "xev_target"
  }

  lemma {:induction false} BlockShape(f: Forest)
    requires IsBlock(f) && Structured(Trees(f)[0])
    ensures IsDirective(Trees(f)[0]) && Trees(f)[0].kids == Trees(f.child) &&
            Trees(f)[0].kids[1..] == Trees(f.child.next)
    ensures Groups(f.name, Trees(f.child.next)) && Trees(f.child) != []
  {
    HeadTree(f);
    HeadTree(f.child);
  }

  /** The cut pieces of a block whose clause list got its begin clause. */
  lemma {:induction false} BlockPieces(f: Forest, g0: Forest, g1: Forest)
    requires IsBlock(f) && Trees(f)[0].kids == Trees(f.child) && Trees(f.child) != []
    requires g0.Node? && g0.child.Node? && g0 == f.(child := f.child.(child := g0.child.child)) &&
             Targets(g0) == Targets(f)
    requires Trees(g0.child)[0] == AddBegin(Trees(f.child)[0])
    requires g1 == g0.(child := g0.child.(next := Nil), next := Nil)
    ensures Trees(g1) == [BeginOf(Trees(f)[0])] && Targets(g1) + Targets(f.child.next) + Targets(f.next) == Targets(f)
    ensures Cells(g1) <= Cells(g0)
  {
    HeadTree(f);
    CutEnd(g0.(next := Nil));
  }

  method CutBlock(x: XmlCell, ghost f: Forest) returns (en: XmlCell?, t: XmlCell?, ghost g: Forest)
    requires Rep(x, f) && f.child.Node?
    modifies x, f.child.cell
    ensures Rep(x, g) && g == f.(child := f.child.(next := Nil), next := Nil)
    ensures Rep(en, f.next) && Rep(t, f.child.next)
  {
    assert Rep(x.child, f.child) && Rep(x.next, f.next);
    var c: XmlCell := x.child;
    assert Rep(c.next, f.child.next) && Rep(c.child, f.child.child);
    en := x.next;
    x.next := null;
    t := c.next;
    c.next := null;
    g := f.(child := f.child.(next := Nil), next := Nil);
    assert Rep(c, g.child);
  }

  method IsOpenBlock(x: XmlCell, ghost f: Forest) returns (block: bool)
    requires Rep(x, f)
    ensures block <==> IsBlock(f)
  {
    block := false;
    if x.name == "xev_pragma" || x.name == "xevdrs_line" {
      var c := x.child;
      assert Rep(c, f.child);
      if c != null {
        var n := c.next;
        assert Rep(n, f.child.next);
        block := n != null && n.name == "xev_target";
      }
    }
  }

  lemma {:induction false} QuietFlat(ts: seq<Elem>)
    requires forall t | t in ts :: NoDirective(t)
    ensures AllStructured(ts) && Flat(ts) == ts
  {
    if ts != [] {
      var t := ts[0];
      assert NoDirective(t);
      QuietFlat(t.kids);
      QuietFlat(ts[1..]);
      assert t.(kids := t.kids) == t && [t] + ts[1..] == ts;
    }
  }

  /** Outside a block, flattening goes on separately inside and behind the first statement. */
  lemma {:induction false} FlatBelow(f: Forest)
    requires f.Node? && AllStructured(Trees(f)) && !IsBlock(f)
    ensures AllStructured(Trees(f.child)) && AllStructured(Trees(f.next))
    ensures Flat(Trees(f)) == [Elem(f.name, f.attrs, Flat(Trees(f.child)))] + Flat(Trees(f.next))
  {
    HeadTree(f);
    var t := Trees(f)[0];
    if IsDirective(t) {
      HeadTree(f.child);
      assert Groups(t.name, Trees(f.child.next));
      if f.child.next.Node? {
        HeadTree(f.child.next);
      }
      assert t.kids == [t.kids[0]] + t.kids[1..];
      QuietFlat(t.kids);
    }
  }

  /** Flattens every block at `x`, below it and behind it; `x` stays the first cell. */
  method XevDestrBlock(x: XmlCell?, ghost f: Forest) returns (ghost g: Forest)
    requires Rep(x, f) && AllStructured(Trees(f))
    modifies Cells(f)
    ensures Rep(x, g) && (forall c | c in Cells(g) :: c in Cells(f) || fresh(c))
    ensures Trees(g) == Flat(Trees(f))
    decreases Targets(f), Size(f), 1
  {
    g := f;
    if x != null {
      assert allocated(Cells(f)) && Rep(x, f);
      var block := IsOpenBlock(x, f);
      assert Rep(x, f);
      if block {
        HeadTree(f);
        BlockShape(f);
        g := SpreadBlock(x, f);
        BlockSpread(Trees(f)[0], Trees(f.next));
        assert [Trees(f)[0]] + Trees(f.next) == Trees(f);
        SpreadShape(f, g);
      }
      g := DestrBelow(x, g);
    }
  }

  lemma {:induction false} SpreadShape(f: Forest, g: Forest)
    requires IsBlock(f) && Trees(f) != [] && Trees(f)[0].kids != [] && Groups(f.name, Trees(f)[0].kids[1..])
    requires Trees(g) == [BeginOf(Trees(f)[0])] + Spread(f.name, Trees(f)[0].kids[1..]) + Trees(f.next)
    ensures g.Node? && !IsBlock(g)
  {
    HeadTree(g);
    assert Trees(g)[0].kids == [AddBegin(Trees(f)[0].kids[0])];
    assert Trees(g.child) == [AddBegin(Trees(f)[0].kids[0])] && g.child.Node?;
    HeadTree(g.child);
    assert Trees(g.child.next) == [];
  }

  method DestrBelow(x: XmlCell, ghost f: Forest) returns (ghost g: Forest)
    requires Rep(x, f) && AllStructured(Trees(f)) && !IsBlock(f)
    modifies Cells(f)
    ensures Rep(x, g) && (forall c | c in Cells(g) :: c in Cells(f) || fresh(c))
    ensures Trees(g) == Flat(Trees(f))
    decreases Targets(f), Size(f), 0
  {
    FlatBelow(f);
    assert Rep(x.child, f.child) && Rep(x.next, f.next);
    assert allocated(Cells(f.child)) && allocated(Cells(f.next));
    ghost var a := XevDestrBlock(x.child, f.child);
    assert allocated(Cells(a)) && Rep(x.next, f.next);
    ghost var b := XevDestrBlock(x.next, f.next);
    g := Node(x, f.name, f.attrs, a, b);
    assert Rep(x.child, a) && Rep(x.next, b);
  }
}
