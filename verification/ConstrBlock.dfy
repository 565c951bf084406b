/** Turning flat begin/end directives into nested blocks, by relinking cells in place. */
module ConstrBlock {
  import opened Wrappers
  import opened Xml
  import opened XmlHeap
  import opened Blocks
  import opened BlockProofs

  /** The forest below the first cell without its first clause of the given name. */
  ghost function DropClause(f: Forest, name: string): Forest {
    if f.Nil? then Nil
    else if AttrValue(f.attrs, "name") == Some(name) then f.next
    else f.(next := DropClause(f.next, name))
  }

  lemma {:induction false} DropClauseFacts(f: Forest, name: string)
    ensures Trees(DropClause(f, name)) == DropFirst(Trees(f), name)
    ensures Cells(DropClause(f, name)) <= Cells(f)
    ensures Size(DropClause(f, name)) <= Size(f)
  {
    if f.Node? {
      DropClauseFacts(f.next, name);
      assert Trees(f)[1..] == Trees(f.next);
    }
  }

  /** The directive `f` without its first clause of the given name. */
  ghost function Detached(f: Forest, name: string): Forest
    requires f.Node?
  {
    if f.child.Nil? then f else f.(child := f.child.(child := DropClause(f.child.child, name)))
  }

  lemma {:induction false} DetachedFacts(f: Forest, name: string)
    requires f.Node?
    ensures Trees(Detached(f, name)) == [WithoutClause(Trees(f)[0], name)] + Trees(f.next)
    ensures Cells(Detached(f, name)) <= Cells(f)
    ensures Size(Detached(f, name)) <= Size(f)
  {
    if f.child.Node? {
      DropClauseFacts(f.child.child, name);
      assert Trees(f.child)[1..] == Trees(f.child.next);
    }
  }

  lemma {:induction false} ClauseAhead(f: Forest, name: string)
    requires HasClause(Trees(f), name)
    ensures f.Node?
    ensures AttrValue(f.attrs, "name") == Some(name) || HasClause(Trees(f.next), name)
  {
    if f.Node? {
      HasClauseCons(Trees(f)[0], Trees(f.next), name);
    }
  }

  lemma {:induction false} NoClauseAhead(f: Forest, name: string)
    requires f.Node? && AttrValue(f.attrs, "name") != Some(name)
    ensures HasClause(Trees(f), name) <==> HasClause(Trees(f.next), name)
  {
    HasClauseCons(Trees(f)[0], Trees(f.next), name);
  }

  lemma {:induction false} ClauseHere(f: Forest, name: string)
    requires f.Node? && AttrValue(f.attrs, "name") == Some(name)
    ensures HasClause(Trees(f), name)
  {
    HasClauseCons(Trees(f)[0], Trees(f.next), name);
  }

  lemma {:induction false} WellFormedNode(f: Forest)
    requires f.Node? && AllWellFormed(Trees(f))
    ensures WellFormed(Trees(f)[0]) && AllWellFormed(Trees(f.child)) && AllWellFormed(Trees(f.next))
  {
    HeadTree(f);
  }

  lemma {:induction false} BeginsShape(f: Forest)
    requires f.Node? && f.child.Node?
    ensures Begins(Trees(f)[0]) <==>
            && (f.name == "xev_pragma" || f.name == "xevdrs_line")
            && !(f.child.next.Node? && f.child.next.name == "xev_target")
            && HasClause(Trees(f.child.child), "begin")
    ensures Ends(Trees(f)[0]) <==>
            (f.name == "xev_pragma" || f.name == "xevdrs_line") && HasClause(Trees(f.child.child), "end")
  {
    HeadTree(f);
    HeadTree(f.child);
    if f.child.next.Node? {
      HeadTree(f.child.next);
      assert Trees(f.child)[1] == Trees(f.child.next)[0];
    }
  }

  /** The loops over the clauses of a directive. */
  method FindClause(cl0: XmlCell?, name: string, ghost f: Forest) returns (found: bool)
    requires Rep(cl0, f)
    ensures found == HasClause(Trees(f), name)
  {
    var cl: XmlCell? := cl0;
    ghost var g := f;
    while cl != null
      invariant Rep(cl, g) && HasClause(Trees(f), name) == HasClause(Trees(g), name)
      decreases g
    {
      if AttrValue(cl.attrs, "name") == Some(name) {
        ClauseHere(g, name);
        return true;
      }
      NoClauseAhead(g, name);
      cl, g := cl.next, g.next;
    }
    return false;
  }

  method DirectiveBegin(x: XmlCell?, ghost f: Forest) returns (b: bool)
    requires Rep(x, f) && AllWellFormed(Trees(f))
    ensures b == (f.Node? && Begins(Trees(f)[0]))
  {
    if x == null {
      return false;
    }
    HeadTree(f);
    if x.name != "xev_pragma" && x.name != "xevdrs_line" {
      return false;
    }
    BeginsShape(f);
    assert Rep(x.child, f.child) && Rep(x.child.next, f.child.next);
    if x.child.next != null && x.child.next.name == "xev_target" {
      assert f.child.next.Node? && f.child.next.name == "xev_target";
      return false;
    }
    assert !(f.child.next.Node? && f.child.next.name == "xev_target");
    b := FindClause(x.child.child, "begin", f.child.child);
  }

  method DirectiveEnd(x: XmlCell?, ghost f: Forest) returns (b: bool)
    requires Rep(x, f)
    ensures b == (f.Node? && Ends(Trees(f)[0]))
  {
    if x == null || (x.name != "xev_pragma" && x.name != "xevdrs_line") {
      return false;
    }
    HeadTree(f);
    if x.child == null {
      return false;
    }
    BeginsShape(f);
    b := FindClause(x.child.child, "end", f.child.child);
  }

  /** Takes the first clause of the given name out of the directive at `x`. */
  method DetachClause(x: XmlCell, name: string, ghost f: Forest)
    requires Rep(x, f) && f.child.Node? && HasClause(Trees(f.child.child), name)
    modifies Cells(f.child)
    ensures Rep(x, Detached(f, name)) && x.child == old(x.child) && x.next == old(x.next)
  {
    ghost var fc, cs := f.child, f.child.child;
    ClauseAhead(cs, name);
    var c: XmlCell := x.child;
    assert Rep(c, fc) && Rep(c.child, cs);
    var first: XmlCell := c.child;
    assert Rep(x.next, f.next) && Rep(c.next, fc.next) && allocated(Cells(f.next)) && allocated(Cells(fc.next));
    if AttrValue(first.attrs, "name") == Some(name) {
      c.child := first.next;
      first.next := null;
    } else {
      RemoveLater(c, first, name, cs);
    }
    DropClauseFacts(cs, name);
    assert Rep(x.next, f.next) && Rep(c.next, fc.next);
  }

  /** Finds the cell before the clause, and links it to the cell after. */
  method RemoveLater(ghost c: XmlCell, first: XmlCell, name: string, ghost cs: Forest)
    requires Rep(first, cs) && c !in Cells(cs)
    requires HasClause(Trees(cs), name) && AttrValue(cs.attrs, "name") != Some(name)
    modifies Cells(cs)
    ensures Rep(first, DropClause(cs, name))
  {
    var cl: XmlCell := first;
    ghost var k := 0;
    ClauseAhead(cs, name);
    ClauseAhead(cs.next, name);
    while AttrValue(cl.next.attrs, "name") != Some(name)
      invariant Rep(first, cs) && k < Len(cs)
      invariant cl == Head(Suffix(cs, k)) && Rep(cl, Suffix(cs, k)) && cl.next != null
      invariant DropAfter(cs, k, name)
      decreases Len(cs) - k
    {
      DropAdvance(cs, k, name);
      cl := cl.next;
      k := k + 1;
      assert Rep(cl, Suffix(cs, k)) && Rep(cl.next, Suffix(cs, k).next);
    }
    UnlinkNext(first, cl, cs, k);
  }

  /** The first clause of that name comes after the `k`-th sibling. */
  ghost predicate DropAfter(cs: Forest, k: nat, name: string) {
    && k < Len(cs) && Suffix(cs, k).Node? && Suffix(cs, k).next.Node?
    && HasClause(Trees(Suffix(cs, k).next), name)
    && DropClause(cs, name) == Splice(cs, k + 1, DropClause(Suffix(cs, k).next, name))
  }

  lemma {:induction false} DropAdvance(cs: Forest, k: nat, name: string)
    requires DropAfter(cs, k, name) && AttrValue(Suffix(cs, k).next.attrs, "name") != Some(name)
    ensures DropAfter(cs, k + 1, name) && Suffix(cs, k + 1) == Suffix(cs, k).next
  {
    var g := Suffix(cs, k).next;
    SuffixNext(cs, k);
    ClauseAhead(g, name);
    ClauseAhead(g.next, name);
    SpliceNext(cs, k + 1, DropClause(g.next, name));
  }

  /** Takes the sibling after the `k`-th one out of the list. */
  method UnlinkNext(first: XmlCell, cl: XmlCell, ghost cs: Forest, ghost k: nat)
    requires Rep(first, cs) && k < Len(cs) && cl == Head(Suffix(cs, k)) && Suffix(cs, k).next.Node?
    modifies Cells(cs)
    ensures Rep(first, Splice(cs, k + 1, Suffix(cs, k).next.next))
  {
    RepSplit(first, cs, k);
    SuffixNext(cs, k);
    RepSplit(first, cs, k + 1);
    ghost var g := Suffix(cs, k + 1);
    ghost var rest := g.next;
    var n: XmlCell := cl.next;
    assert allocated(Cells(cs));
    Relink(first, cl, n.next, cs, k, rest);
    SpliceCells(cs, k + 1, rest);
    n.next := null;
  }

  /** Sets up the target for the statements `n`, hands over the children of the end directive `e`,
      and takes the clauses off that made it an end (and the begin of a further group). */
  method AttachGroup(x: XmlCell, n: XmlCell?, e: XmlCell, cont: bool, ghost cur: Forest, ghost pre: Forest,
                     ghost fe: Forest)
    returns (ghost g: Forest)
    requires Rep(x, cur) && cur.next == Nil && Rep(e, fe) && fe.next == Nil
    requires if n == e then pre == Nil else Rep(n, pre)
    requires Cells(cur) !! Cells(pre) && Cells(cur) !! Cells(fe) && Cells(pre) !! Cells(fe)
    requires WellFormed(Trees(fe)[0]) && Ends(Trees(fe)[0]) && cont == Begins(Trees(fe)[0])
    modifies Cells(cur), Cells(pre), Cells(fe)
    ensures Rep(x, g) && g.next == Nil
    ensures forall c | c in Cells(g) :: c in Cells(cur) || c in Cells(pre) || c in Cells(fe) || fresh(c)
    ensures Trees(g) == [AddGroup(Trees(cur)[0], Trees(pre), Unmarked(Trees(fe)[0]).kids)]
    ensures Size(g) <= Size(cur) + Size(pre) + Size(fe)
  {
    assert allocated(Cells(fe)) && allocated(Cells(cur)) && allocated(Cells(pre));
    var t;
    ghost var ft;
    t, ft := NewTarget(n, n == e, pre);
    assert Rep(x, cur) && Rep(e, fe) && allocated(Cells(fe));
    XmlAppendChild(x, t, cur, ft);
    ConcatFacts(cur.child, ft);
    g := HandOver(x, e, cont, cur.(child := Concat(cur.child, ft)), fe);
  }

  /** A target with the statements `n`, unless there are none. */
  method NewTarget(n: XmlCell?, empty: bool, ghost pre: Forest) returns (t: XmlCell, ghost ft: Forest)
    requires if empty then pre == Nil else Rep(n, pre)
    ensures fresh(t) && Rep(t, ft) && Cells(ft) == {t} + Cells(pre)
    ensures Trees(ft) == [Target(Trees(pre))] && Size(ft) == 1 + Size(pre)
    ensures ft == Node(t, "xev_target", [], pre, Nil)
  {
    assert allocated(Cells(pre));
    t := new XmlCell("xev_target", []);
    ft := Node(t, "xev_target", [], Nil, Nil);
    assert Cells(ft) == {t} && t !in Cells(pre);
    if !empty {
      XmlAppendChild(t, n, ft, pre);
      ft := ft.(child := pre);
    }
  }

  lemma {:induction false} Rejoin(x: XmlCell, y: XmlCell?, cur: Forest, d: Forest, d': Forest)
    requires cur.Node? && cur.next == Nil && x == cur.cell && x.name == cur.name && x.attrs == cur.attrs &&
             x.next == null
    requires x !in Cells(cur.child)
    requires Len(cur.child) <= Len(Concat(cur.child, d))
    requires Segment(x.child, Concat(cur.child, d), Len(cur.child), y) && Rep(y, d') && Cells(d') !! Cells(cur)
    ensures Rep(x, cur.(child := Concat(cur.child, d')))
  {
    ConcatSplit(cur.child, d, Nil);
    ConcatSplit(cur.child, d, d');
    SpliceAll(cur.child, Nil);
    RepJoin(x.child, Concat(cur.child, d), Len(cur.child), y, d');
    ConcatFacts(cur.child, d');
  }

  method HandOver(x: XmlCell, e: XmlCell, cont: bool, ghost cur: Forest, ghost fe: Forest) returns (ghost g: Forest)
    requires Rep(x, cur) && cur.next == Nil && Rep(e, fe) && fe.next == Nil && Cells(cur) !! Cells(fe)
    requires WellFormed(Trees(fe)[0]) && Ends(Trees(fe)[0]) && cont == Begins(Trees(fe)[0])
    modifies Cells(cur), Cells(fe)
    ensures Rep(x, g) && g.next == Nil && Cells(g) <= Cells(cur) + Cells(fe)
    ensures Trees(g) == [Trees(cur)[0].(kids := Trees(cur.child) + Unmarked(Trees(fe)[0]).kids)]
    ensures Size(g) < Size(cur) + Size(fe)
  {
    ghost var d := ShareChildren(x, e, cont, cur, fe);
    g := cur.(child := Concat(cur.child, d));
    HandedOver(cur, fe, d);
    e.child := null;
  }

  /** Appends the children of `e` and takes its clauses off, while `e` still leads to them. */
  method ShareChildren(x: XmlCell, e: XmlCell, cont: bool, ghost cur: Forest, ghost fe: Forest)
    returns (ghost d: Forest)
    requires Rep(x, cur) && cur.next == Nil && Rep(e, fe) && fe.next == Nil && Cells(cur) !! Cells(fe)
    requires WellFormed(Trees(fe)[0]) && Ends(Trees(fe)[0]) && cont == Begins(Trees(fe)[0])
    modifies Cells(cur), Cells(fe)
    ensures Rep(x, cur.(child := Concat(cur.child, d))) && e !in Cells(d)
    ensures Cells(d) <= Cells(fe) && Size(d) <= Size(fe.child) && Trees(d) == Unmarked(Trees(fe)[0]).kids
  {
    assert allocated(Cells(fe)) && allocated(Cells(cur));
    XmlAppendChild(x, e.child, cur, fe.child);
    assert Rep(e, fe);
    ghost var k := SplitTail(x, e, cur, fe);
    ghost var fe' := Unmark(e, cont, fe);
    d := fe'.child;
    Rejoin(x, e.child, cur, fe.child, d);
  }

  lemma {:induction false} HandedOver(cur: Forest, fe: Forest, d: Forest)
    requires cur.Node? && cur.next == Nil && fe.Node? && Cells(d) <= Cells(fe) && Size(d) <= Size(fe.child)
    ensures var g := cur.(child := Concat(cur.child, d));
            && Cells(g) == Cells(cur) + Cells(d) && Size(g) < Size(cur) + Size(fe)
            && Trees(g) == [Trees(cur)[0].(kids := Trees(cur.child) + Trees(d))]
  {
    ConcatFacts(cur.child, d);
  }

  lemma {:induction false} SplitTail(x: XmlCell, e: XmlCell, cur: Forest, fe: Forest) returns (k: nat)
    requires cur.Node? && fe.Node? && Rep(x, cur.(child := Concat(cur.child, fe.child))) && Rep(e, fe)
    ensures k == Len(cur.child) <= Len(Concat(cur.child, fe.child))
    ensures Segment(x.child, Concat(cur.child, fe.child), k, e.child)
    ensures Cells(Splice(Concat(cur.child, fe.child), k, Nil)) == Cells(cur.child)
  {
    k := Len(cur.child);
    ConcatSplit(cur.child, fe.child, Nil);
    SpliceAll(cur.child, Nil);
    RepSplit(x.child, Concat(cur.child, fe.child), k);
  }

  method Unmark(e: XmlCell, cont: bool, ghost fe: Forest) returns (ghost g: Forest)
    requires Rep(e, fe) && fe.next == Nil
    requires WellFormed(Trees(fe)[0]) && Ends(Trees(fe)[0]) && cont == Begins(Trees(fe)[0])
    modifies Cells(fe.child)
    ensures Rep(e, g) && g.next == Nil && e.child == old(e.child) && Cells(g) <= Cells(fe) &&
            Cells(g.child) <= Cells(fe.child)
    ensures g.Node? && Size(g.child) <= Size(fe.child) && Trees(g.child) == Unmarked(Trees(fe)[0]).kids
  {
    HeadTree(fe);
    BeginsShape(fe);
    DetachedFacts(fe, "end");
    DetachClause(e, "end", fe);
    g := Detached(fe, "end");
    HeadTree(g);
    if cont {
      WithoutKeeps(Trees(fe)[0], "end");
      BeginsShape(g);
      DetachedFacts(g, "begin");
      DetachClause(e, "begin", g);
      g := Detached(g, "begin");
      HeadTree(g);
    }
  }

  // ----- the recursion

  /** `fe` starts with an end directive, and only statements and finished blocks come before it in `pre`. */
  ghost predicate FoundTrees(f: Forest, pre: Forest, fe: Forest) {
    && fe.Node? && (pre.Nil? ==> fe == f)
    && AllInert(Trees(pre)) && AllWellFormed(Trees(pre)) && AllWellFormed(Trees(fe)) && Ends(Trees(fe)[0])
    && Same(Trees(f), Trees(pre) + Trees(fe))
    && Size(pre) + Size(fe) <= Size(f)
  }

  ghost predicate Found(x: XmlCell?, f: Forest, e: XmlCell?, pre: Forest, fe: Forest)
    reads Cells(pre), Cells(fe)
  {
    && FoundTrees(f, pre, fe) && Rep(e, fe) && Cells(pre) !! Cells(fe)
    && (if pre.Nil? then e == x else Rep(x, pre))
  }

  /** The begin directive that heads `f` has become the block that heads `g`. */
  ghost predicate PairedTrees(f: Forest, g: Forest) {
    && f.Node? && g.Node? && AllWellFormed(Trees(g))
    && !Begins(Trees(g)[0]) && Ends(Trees(g)[0]) == Ends(Trees(f)[0])
    && Same(Trees(f), Trees(g)) && Size(g) <= Size(f)
  }

  /** Nothing is left to pair in `g`. */
  ghost predicate BuiltTrees(f: Forest, g: Forest) {
    && AllWellFormed(Trees(g)) && Done(Trees(g))
    && (f.Node? <==> g.Node?) && (f.Node? ==> Ends(Trees(g)[0]) == Ends(Trees(f)[0]))
    && Same(Trees(f), Trees(g)) && Size(g) <= Size(f)
  }

  lemma {:induction false} InertCons(t: Elem, ts: seq<Elem>)
    requires Inert(t) && AllInert(ts) && WellFormed(t) && AllWellFormed(ts)
    ensures AllInert([t] + ts) && AllWellFormed([t] + ts)
  {
    WellFormedCons(t, ts);
    assert ([t] + ts)[1..] == ts;
  }

  lemma {:induction false} FoundNext(g: Forest)
    requires g.Node? && g.next.Node? && AllWellFormed(Trees(g)) && Inert(Trees(g)[0]) && Ends(Trees(g.next)[0])
    ensures FoundTrees(g, Single(g), g.next)
  {
    HeadTree(g);
    InertCons(Trees(g)[0], []);
    assert Trees(Single(g)) == [Trees(g)[0]] + [];
    assert Trees(Single(g)) + Trees(g.next) == Trees(g);
  }

  lemma {:induction false} FoundLater(g: Forest, pre: Forest, fe: Forest)
    requires g.Node? && AllWellFormed(Trees(g)) && Inert(Trees(g)[0]) && FoundTrees(g.next, pre, fe)
    ensures FoundTrees(g, g.(next := pre), fe)
  {
    HeadTree(g);
    var t := Trees(g)[0];
    InertCons(t, Trees(pre));
    SamePrefix([t], Trees(g.next), Trees(pre) + Trees(fe));
    assert [t] + Trees(g.next) == Trees(g);
    ConcatAssoc([t], Trees(pre), Trees(fe));
  }

  lemma {:induction false} FoundFrom(f: Forest, g: Forest, pre: Forest, fe: Forest)
    requires Same(Trees(f), Trees(g)) && Size(g) <= Size(f) && FoundTrees(g, pre, fe) && pre.Node?
    ensures FoundTrees(f, pre, fe)
  {
    SameTrans(Trees(f), Trees(g), Trees(pre) + Trees(fe));
  }

  lemma {:induction false} LaterUnclosed(g: Forest)
    requires g.Node? && AllWellFormed(Trees(g)) && Inert(Trees(g)[0]) && Unclosed(Trees(g.next))
    ensures Unclosed(Trees(g))
  {
    HeadTree(g);
    UnclosedPrefix(Trees(g)[0], Trees(g.next));
    assert [Trees(g)[0]] + Trees(g.next) == Trees(g);
  }

  /** Fails when no end directive follows. A begin directive met on the way is first made a block,
      together with everything after it, past the end directive that is being looked for. */
  method FindEnd(x: XmlCell?, ghost f: Forest) returns (ok: bool, e: XmlCell?, ghost pre: Forest, ghost fe: Forest)
    requires Rep(x, f) && AllWellFormed(Trees(f))
    modifies Cells(f)
    ensures ok ==> Found(x, f, e, pre, fe) &&
                   (forall c | c in Cells(pre) || c in Cells(fe) :: c in Cells(f) || fresh(c))
    ensures !ok ==> Unclosed(Trees(f))
    decreases Size(f), 5
  {
    pre, fe, e := Nil, f, x;
    if x == null {
      NothingUnclosed();
      ok := false;
      return;
    }
    assert allocated(Cells(f));
    var isEnd := DirectiveEnd(x, f);
    if isEnd {
      assert [] + Trees(f) == Trees(f);
      ok := true;
      return;
    }
    ghost var g := f;
    var isBegin := DirectiveBegin(x, f);
    if isBegin {
      ok, g := XevConstrBlock(x, f);
      if !ok {
        return;
      }
      DoneHead(Trees(g));
    }
    ok, e, pre, fe := FindAfter(x, g);
    if ok {
      FoundFrom(f, g, pre, fe);
    } else {
      SameUnclosed(Trees(f), Trees(g));
    }
  }

  /** The search behind a node that neither begins nor ends a block. */
  method FindAfter(x: XmlCell, ghost g: Forest) returns (ok: bool, e: XmlCell?, ghost pre: Forest, ghost fe: Forest)
    requires Rep(x, g) && AllWellFormed(Trees(g)) && Inert(Trees(g)[0])
    modifies Cells(g)
    ensures ok ==> pre.Node? && Found(x, g, e, pre, fe) &&
                   (forall c | c in Cells(pre) || c in Cells(fe) :: c in Cells(g) || fresh(c))
    ensures !ok ==> Unclosed(Trees(g))
    decreases Size(g), 4
  {
    pre, fe := Nil, g;
    WellFormedNode(g);
    assert Rep(x.next, g.next) && allocated(Cells(g)) && Rep(x.child, g.child) && allocated(Cells(g.child));
    var isEnd := DirectiveEnd(x.next, g.next);
    if isEnd {
      ok := true;
      e, pre, fe := CutBehind(x, g);
      return;
    }
    ghost var rest: Forest;
    ok, e, rest, fe := FindEnd(x.next, g.next);
    if ok {
      pre := g.(next := rest);
      assert Rep(x.child, g.child) && x !in Cells(rest) + Cells(fe);
      FoundLater(g, rest, fe);
    } else {
      LaterUnclosed(g);
    }
  }

  /** The end directive comes next. */
  method CutBehind(x: XmlCell, ghost g: Forest) returns (e: XmlCell?, ghost pre: Forest, ghost fe: Forest)
    requires Rep(x, g) && AllWellFormed(Trees(g)) && Inert(Trees(g)[0]) && g.next.Node? && Ends(Trees(g.next)[0])
    modifies x
    ensures pre.Node? && Found(x, g, e, pre, fe) && Cells(pre) + Cells(fe) <= Cells(g)
  {
    assert Rep(x.next, g.next) && Rep(x.child, g.child);
    e, pre, fe := x.next, Single(g), g.next;
    x.next := null;
    FoundNext(g);
  }

  lemma {:induction false} DoneHead(ts: seq<Elem>)
    requires Done(ts) && ts != []
    ensures !Begins(ts[0]) && Done(ts[0].kids) && Done(ts[1..])
  {
  }

  /** The block being built, without the begin clause that is taken off only after the first group. */
  ghost function Pending(cur: Forest, fst: bool): Elem
    requires cur.Node?
  {
    if fst then WithoutClause(Trees(cur)[0], "begin") else Trees(cur)[0]
  }

  ghost predicate PairReady(cur: Forest, fst: bool) {
    && cur.Node? && AllWellFormed(Trees(cur)) && IsDirective(Trees(cur)[0])
    && (fst ==> Begins(Trees(cur)[0]))
  }

  lemma {:induction false} GrownWithout(h: Elem, body: seq<Elem>, rest: seq<Elem>, name: string)
    requires h.kids != []
    ensures WithoutClause(AddGroup(h, body, rest), name) == AddGroup(WithoutClause(h, name), body, rest)
  {
    var block := AddGroup(h, body, rest);
    assert block.kids[0] == h.kids[0] && block.kids[1..] == h.kids[1..] + [Target(body)] + rest;
    var c := h.kids[0].(kids := DropFirst(h.kids[0].kids, name));
    assert [c] + (h.kids[1..] + [Target(body)] + rest) == [c] + h.kids[1..] + [Target(body)] + rest;
  }

  lemma {:induction false} GrownWellFormed(h: Elem, body: seq<Elem>, e: Elem)
    requires WellFormed(h) && IsDirective(h) && AllWellFormed(body) && WellFormed(e) && IsDirective(e)
    ensures WellFormed(AddGroup(h, body, Unmarked(e).kids)) && HasTarget(AddGroup(h, body, Unmarked(e).kids))
    ensures Ends(AddGroup(h, body, Unmarked(e).kids)) == Ends(h)
  {
    UnmarkedKeeps(e);
    var rest := Unmarked(e).kids;
    GrownBlock(h, body, rest);
    var block := AddGroup(h, body, rest);
    forall k | k in block.kids ensures !IsDirective(k) {
      assert k in h.kids || k == Target(body) || k in rest;
    }
    WellFormedConcat(h.kids + [Target(body)], rest);
    WellFormedConcat(h.kids, [Target(body)]);
    WellFormedCons(Target(body), []);
    assert block.kids[0] == h.kids[0];
  }

  /** `cur'` is `cur` with one group more in its first block; `cont` when the block is still open. */
  ghost predicate PairTrees(cur: Forest, fst: bool, cont: bool, cur': Forest) {
    && PairReady(cur, fst) && PairReady(cur', false)
    && HasTarget(Trees(cur')[0]) && Ends(Trees(cur')[0]) == Ends(Trees(cur)[0])
    && forall st: State ::
         PendingParse(st, Pending(cur, fst), Trees(cur.next)) ==
         if cont then PendingParse(st, Trees(cur')[0], Trees(cur'.next)) else Parse(st, Trees(cur'))
  }

  ghost predicate Joined(cur: Forest, fst: bool, pre: Forest, fe: Forest, cur': Forest) {
    && PairReady(cur, fst) && fe.Node? && cur'.Node?
    && Trees(cur')[0] == AddGroup(Pending(cur, fst), Trees(pre), Unmarked(Trees(fe)[0]).kids)
    && Trees(cur'.next) == Trees(fe.next)
  }

  lemma {:induction false} PairShape(cur: Forest, fst: bool, pre: Forest, fe: Forest, cur': Forest)
    requires Joined(cur, fst, pre, fe, cur') && FoundTrees(cur.next, pre, fe)
    ensures PairReady(cur', false) && HasTarget(Trees(cur')[0]) && Ends(Trees(cur')[0]) == Ends(Trees(cur)[0])
    ensures WellFormed(Pending(cur, fst)) && IsDirective(Pending(cur, fst))
  {
    WellFormedNode(cur);
    WellFormedNode(fe);
    if fst {
      WithoutKeeps(Trees(cur)[0], "begin");
    }
    GrownWellFormed(Pending(cur, fst), Trees(pre), Trees(fe)[0]);
    WellFormedCons(Trees(cur')[0], Trees(cur'.next));
    HeadTree(cur');
    assert Trees(cur') == [Trees(cur')[0]] + Trees(cur'.next);
  }

  /** What one group adds to the block, and that the stack parser agrees. */
  lemma {:induction false} PairMeaning(st: State, h: Elem, next: seq<Elem>, pre: seq<Elem>, e: Elem, en: seq<Elem>)
    requires WellFormed(h) && IsDirective(h) && AllInert(pre) && AllWellFormed(pre) && WellFormed(e) && Ends(e)
    requires Same(next, pre + ([e] + en))
    ensures var block := AddGroup(h, pre, Unmarked(e).kids);
            PendingParse(st, h, next) == if Begins(e) then PendingParse(st, block, en) else Parse(st, [block] + en)
  {
    PendingSame(st, h, next, pre + ([e] + en));
    ConcatAssoc(pre, [e], en);
    GroupPending(st, h, pre, e, en);
  }

  /** Joins the group found to the block and restores the link to what follows. */
  method JoinGroup(x: XmlCell, n: XmlCell?, e: XmlCell, cont: bool, ghost cur: Forest, ghost pre: Forest,
                   ghost fe: Forest)
    returns (ghost cur': Forest)
    requires Rep(x, cur) && cur.next == Nil && fe.Node?
    requires Rep(e, fe) && (if n == e then pre == Nil else Rep(n, pre))
    requires Cells(cur) !! Cells(pre) && Cells(cur) !! Cells(fe) && Cells(pre) !! Cells(fe)
    requires WellFormed(Trees(fe)[0]) && Ends(Trees(fe)[0]) && cont == Begins(Trees(fe)[0])
    modifies Cells(cur), Cells(pre), Cells(fe)
    ensures Rep(x, cur') &&
            (forall c | c in Cells(cur') :: c in Cells(cur) || c in Cells(pre) || c in Cells(fe) || fresh(c))
    ensures Trees(cur') == [AddGroup(Trees(cur)[0], Trees(pre), Unmarked(Trees(fe)[0]).kids)] + Trees(fe.next)
    ensures Size(cur') <= Size(cur) + Size(pre) + Size(fe) && cur'.next == fe.next
  {
    assert allocated(Cells(cur)) && allocated(Cells(pre)) && allocated(Cells(fe)) && allocated(Cells(fe.next));
    var en := CutRest(e, fe);
    assert Rep(x, cur) && (n != e ==> Rep(n, pre));
    ghost var g := AttachGroup(x, n, e, cont, cur, pre, Single(fe));
    assert Rep(en, fe.next);
    cur' := LinkRest(x, en, g, fe.next);
  }

  /** Cuts the siblings behind `e` off. */
  method CutRest(e: XmlCell, ghost fe: Forest) returns (en: XmlCell?)
    requires Rep(e, fe) && fe.Node?
    modifies e
    ensures Rep(e, Single(fe)) && Rep(en, fe.next) && Trees(Single(fe))[0] == Trees(fe)[0]
    ensures Cells(Single(fe)) !! Cells(fe.next) && Cells(fe) == Cells(Single(fe)) + Cells(fe.next)
    ensures Size(fe) == Size(Single(fe)) + Size(fe.next)
  {
    HeadTree(fe);
    en := e.next;
    assert Rep(en, fe.next) && Rep(e.child, fe.child);
    e.next := null;
  }

  /** Links the siblings `y` behind the only node at `x`. */
  method LinkRest(x: XmlCell, y: XmlCell?, ghost f: Forest, ghost g: Forest) returns (ghost h: Forest)
    requires Rep(x, f) && f.next == Nil && Rep(y, g) && Cells(f) !! Cells(g)
    modifies Cells(f)
    ensures Rep(x, h) && h == f.(next := g) && Cells(h) == Cells(f) + Cells(g)
    ensures Trees(h) == Trees(f) + Trees(g) && Size(h) == Size(f) + Size(g)
  {
    XmlAppend(x, y, f, g);
    h := Concat(f, g);
    ConcatFacts(f, g);
  }

  /** After the first group the begin clause of the block is taken off. */
  method DetachBegin(x: XmlCell, fst: bool, ghost cur: Forest, ghost pre: Forest, ghost fe: Forest, ghost mid: Forest)
    returns (ghost cur': Forest)
    requires Rep(x, mid) && PairReady(cur, fst) && fe.Node?
    requires Trees(mid) == [AddGroup(Trees(cur)[0], Trees(pre), Unmarked(Trees(fe)[0]).kids)] + Trees(fe.next)
    modifies Cells(mid)
    ensures Rep(x, cur') && Cells(cur') <= Cells(mid) && Size(cur') <= Size(mid) && cur'.Node? && cur'.next == mid.next
    ensures Joined(cur, fst, pre, fe, cur')
  {
    HeadTree(mid);
    cur' := mid;
    if fst {
      WellFormedNode(cur);
      TakeBegin(Trees(cur)[0], Trees(pre), Unmarked(Trees(fe)[0]).kids);
      BeginsShape(mid);
      HeadTree(mid.child);
      DetachedFacts(mid, "begin");
      DetachClause(x, "begin", mid);
      cur' := Detached(mid, "begin");
      HeadTree(cur');
    }
  }

  lemma {:induction false} TakeBegin(h: Elem, body: seq<Elem>, rest: seq<Elem>)
    requires WellFormed(h) && Begins(h)
    ensures var block := AddGroup(h, body, rest);
            WithoutClause(block, "begin") == AddGroup(WithoutClause(h, "begin"), body, rest) &&
            block.kids != [] && HasClause(block.kids[0].kids, "begin")
  {
    GrownWithout(h, body, rest, "begin");
  }

  lemma {:induction false} PairSteps(cur: Forest, fst: bool, pre: Forest, fe: Forest, cur': Forest)
    requires Joined(cur, fst, pre, fe, cur') && FoundTrees(cur.next, pre, fe)
    ensures PairTrees(cur, fst, Begins(Trees(fe)[0]), cur')
  {
    PairShape(cur, fst, pre, fe, cur');
    WellFormedNode(fe);
    HeadTree(fe);
    HeadTree(cur');
    var h, next, p, e, en := Pending(cur, fst), Trees(cur.next), Trees(pre), Trees(fe)[0], Trees(fe.next);
    assert Trees(fe) == [e] + en && Trees(cur') == [Trees(cur')[0]] + en;
    forall st: State
      ensures PendingParse(st, h, next) ==
              if Begins(e) then PendingParse(st, Trees(cur')[0], en) else Parse(st, Trees(cur'))
    {
      PairMeaning(st, h, next, p, e, en);
    }
  }

  method GrowBlock(x: XmlCell, n: XmlCell?, e: XmlCell, cont: bool, fst: bool, ghost cur: Forest, ghost pre: Forest,
                   ghost fe: Forest)
    returns (ghost cur': Forest)
    requires PairReady(cur, fst) && Rep(x, Single(cur)) && fe.Node?
    requires Rep(e, fe) && (if n == e then pre == Nil else Rep(n, pre))
    requires Cells(Single(cur)) !! Cells(pre) && Cells(Single(cur)) !! Cells(fe) && Cells(pre) !! Cells(fe)
    requires AllWellFormed(Trees(fe)) && Ends(Trees(fe)[0]) && cont == Begins(Trees(fe)[0])
    modifies Cells(Single(cur)), Cells(pre), Cells(fe)
    ensures Rep(x, cur')
    ensures forall c | c in Cells(cur') :: c in Cells(Single(cur)) || c in Cells(pre) || c in Cells(fe) || fresh(c)
    ensures Joined(cur, fst, pre, fe, cur') && Size(cur'.next) == Size(fe.next)
    ensures Size(cur') <= Size(Single(cur)) + Size(pre) + Size(fe)
  {
    WellFormedNode(fe);
    HeadTree(Single(cur));
    HeadTree(cur);
    ghost var mid := JoinGroup(x, n, e, cont, Single(cur), pre, fe);
    cur' := DetachBegin(x, fst, cur, pre, fe, mid);
  }

  /** Cuts off the siblings behind `x` and looks for the end among them. */
  method CutToEnd(x: XmlCell, ghost cur: Forest)
    returns (ok: bool, n: XmlCell?, e: XmlCell?, ghost pre: Forest, ghost fe: Forest)
    requires Rep(x, cur) && AllWellFormed(Trees(cur.next))
    modifies Cells(cur)
    ensures ok ==> Rep(x, Single(cur)) && FoundTrees(cur.next, pre, fe)
    ensures ok ==> Rep(e, fe) && (if n == e then pre == Nil else Rep(n, pre))
    ensures ok ==> Cells(Single(cur)) !! Cells(pre) && Cells(Single(cur)) !! Cells(fe) && Cells(pre) !! Cells(fe)
    ensures ok ==> forall c | c in Cells(pre) || c in Cells(fe) :: c in Cells(cur) || fresh(c)
    ensures !ok ==> Unclosed(Trees(cur.next))
    decreases Size(cur), 0
  {
    assert allocated(Cells(cur)) && allocated(Cells(cur.next)) && allocated(Cells(cur.child));
    n := x.next;
    x.next := null;
    assert Rep(x, Single(cur));
    ok, e, pre, fe := FindEnd(n, cur.next);
    assert Rep(x, Single(cur));
    assert ok && pre.Node? ==> n in Cells(pre) && e in Cells(fe);
  }

  /** Attaches the statements up to the next end directive to the block at `x`. */
  method PairStep(x: XmlCell, fst: bool, ghost cur: Forest) returns (ok: bool, cont: bool, ghost cur': Forest)
    requires Rep(x, cur) && PairReady(cur, fst)
    modifies Cells(cur)
    ensures ok ==> Rep(x, cur') && (forall c | c in Cells(cur') :: c in Cells(cur) || fresh(c))
    ensures ok ==> PairTrees(cur, fst, cont, cur') && Size(cur') <= Size(cur) && Size(cur'.next) < Size(cur.next)
    ensures !ok ==> Unclosed(Trees(cur.next))
    decreases Size(cur), 1
  {
    WellFormedNode(cur);
    cont, cur' := false, cur;
    var n, e: XmlCell?;
    ghost var pre, fe;
    ok, n, e, pre, fe := CutToEnd(x, cur);
    if ok {
      assert Cells(Single(cur)) <= Cells(cur);
      assert allocated(Cells(Single(cur))) && allocated(Cells(pre)) && allocated(Cells(fe));
      cont, cur' := CloseGroup(x, n, e, fst, cur, pre, fe);
    }
  }

  /** Attaches the group found, which the end directive `e` closes. */
  method CloseGroup(x: XmlCell, n: XmlCell?, e: XmlCell?, fst: bool, ghost cur: Forest, ghost pre: Forest,
                    ghost fe: Forest)
    returns (cont: bool, ghost cur': Forest)
    requires PairReady(cur, fst) && Rep(x, Single(cur)) && FoundTrees(cur.next, pre, fe)
    requires Rep(e, fe) && (if n == e then pre == Nil else Rep(n, pre))
    requires Cells(Single(cur)) !! Cells(pre) && Cells(Single(cur)) !! Cells(fe) && Cells(pre) !! Cells(fe)
    modifies Cells(Single(cur)), Cells(pre), Cells(fe)
    ensures Rep(x, cur') && PairTrees(cur, fst, cont, cur')
    ensures forall c | c in Cells(cur') :: c in Cells(Single(cur)) || c in Cells(pre) || c in Cells(fe) || fresh(c)
    ensures Size(cur') <= Size(cur) && Size(cur'.next) < Size(cur.next)
  {
    assert allocated(Cells(Single(cur))) && allocated(Cells(pre)) && allocated(Cells(fe));
    cont := DirectiveBegin(e, fe);
    assert Rep(x, Single(cur)) && Rep(e, fe);
    cur' := GrowBlock(x, n, e, cont, fst, cur, pre, fe);
    PairSteps(cur, fst, pre, fe, cur');
  }

  /** Turns the begin directive at `x` into a block, group by group while the end found also begins. */
  method MakePair(x: XmlCell, ghost f: Forest) returns (ok: bool, ghost g: Forest)
    requires Rep(x, f) && AllWellFormed(Trees(f)) && Begins(Trees(f)[0])
    modifies Cells(f)
    ensures ok ==> Rep(x, g) && PairedTrees(f, g) && (forall c | c in Cells(g) :: c in Cells(f) || fresh(c))
    ensures !ok ==> Fails(Trees(f))
    decreases Size(f), 2
  {
    var fst := true;
    g := f;
    HeadTree(f);
    forall st: State ensures Parse(st, Trees(f)) == PendingParse(st, Pending(f, true), Trees(f.next)) {
      BeginPending(st, Trees(f)[0], Trees(f.next));
    }
    while true
      invariant Rep(x, g) && PairReady(g, fst) && (forall c | c in Cells(g) :: c in Cells(f) || fresh(c)) &&
                Size(g) <= Size(f)
      invariant Ends(Trees(g)[0]) == Ends(Trees(f)[0])
      invariant forall st: State :: Parse(st, Trees(f)) == PendingParse(st, Pending(g, fst), Trees(g.next))
      decreases Size(g.next)
    {
      var cont: bool;
      ghost var g': Forest;
      ok, cont, g' := PairStep(x, fst, g);
      if !ok {
        forall st: State ensures Parse(st, Trees(f)) == None {
          PendingUnclosed(st, Pending(g, fst), Trees(g.next));
        }
        return;
      }
      g, fst := g', false;
      if !cont {
        return;
      }
    }
  }

  lemma {:induction false} NormedWellFormed(t: Elem, kids: seq<Elem>)
    requires WellFormed(t) && Norm(t.kids) == Some(kids) && AllWellFormed(kids)
    ensures WellFormed(t.(kids := kids)) && Begins(t.(kids := kids)) == Begins(t) && Ends(t.(kids := kids)) == Ends(t)
  {
    NormedMarks(t);
    if IsDirective(t) {
      DirectiveKids(t);
      EachShape(t.kids);
      forall k | k in kids ensures !IsDirective(k) {
        var i :| 0 <= i < |kids| && kids[i] == k;
        assert t.kids[i] in t.kids;
      }
    }
  }

  /** A node that opens nothing, with its children and its later siblings built. */
  lemma {:induction false} BuiltNode(g: Forest, gc: Forest, gn: Forest)
    requires g.Node? && AllWellFormed(Trees(g)) && !Begins(Trees(g)[0])
    requires BuiltTrees(g.child, gc) && BuiltTrees(g.next, gn)
    ensures BuiltTrees(g, g.(child := gc, next := gn))
  {
    var t, g' := Trees(g)[0], g.(child := gc, next := gn);
    HeadTree(g);
    HeadTree(g');
    DoneResult(Trees(g.child), Trees(gc));
    NormedWellFormed(t, Trees(gc));
    ConsSame(t, Trees(gc), Trees(g.next), Trees(gn));
    assert [t] + Trees(g.next) == Trees(g);
    assert [t.(kids := Trees(gc))] + Trees(gn) == Trees(g');
  }

  lemma {:induction false} BuiltFrom(f: Forest, g: Forest, g': Forest)
    requires f.Node? && g.Node? && Same(Trees(f), Trees(g)) && Size(g) <= Size(f) &&
             Ends(Trees(g)[0]) == Ends(Trees(f)[0])
    requires BuiltTrees(g, g')
    ensures BuiltTrees(f, g')
  {
    SameTrans(Trees(f), Trees(g), Trees(g'));
  }

  lemma {:induction false} NodeFails(g: Forest)
    requires g.Node? && (Fails(Trees(g.child)) || Fails(Trees(g.next)))
    ensures Fails(Trees(g))
  {
    HeadTree(g);
    var t := Trees(g)[0];
    assert [t] + Trees(g.next) == Trees(g);
    if Fails(Trees(g.child)) {
      FailsNorm(Trees(g.child));
      KidsFail(t, Trees(g.next));
    } else {
      FailsPrefix([t], Trees(g.next));
    }
  }

  method XevConstrBlock(x: XmlCell?, ghost f: Forest) returns (ok: bool, ghost g: Forest)
    requires Rep(x, f) && AllWellFormed(Trees(f))
    modifies Cells(f)
    ensures ok ==> Rep(x, g) && BuiltTrees(f, g) && (forall c | c in Cells(g) :: c in Cells(f) || fresh(c))
    ensures !ok ==> Fails(Trees(f))
    decreases Size(f), 3
  {
    g := f;
    ok := true;
    if x == null {
      return;
    }
    assert allocated(Cells(f));
    var begins := DirectiveBegin(x, f);
    if begins {
      ok, g := MakePair(x, f);
      if !ok {
        return;
      }
    }
    ghost var g';
    ok, g' := BuildBelow(x, g);
    if ok {
      BuiltFrom(f, g, g');
      g := g';
    } else {
      SameFails(Trees(f), Trees(g));
    }
  }

  /** The two recursive calls, on the children and on the later siblings. */
  method BuildBelow(x: XmlCell, ghost g: Forest) returns (ok: bool, ghost g': Forest)
    requires Rep(x, g) && AllWellFormed(Trees(g)) && !Begins(Trees(g)[0])
    modifies Cells(g)
    ensures ok ==> Rep(x, g') && BuiltTrees(g, g') && (forall c | c in Cells(g') :: c in Cells(g) || fresh(c))
    ensures !ok ==> Fails(Trees(g))
    decreases Size(g), 1
  {
    WellFormedNode(g);
    ghost var gc, gn;
    g' := g;
    assert Rep(x.child, g.child) && Rep(x.next, g.next) && allocated(Cells(g.child)) && allocated(Cells(g.next));
    ok, gc := XevConstrBlock(x.child, g.child);
    if !ok {
      NodeFails(g);
      return;
    }
    assert allocated(Cells(gc)) && Rep(x.next, g.next);
    ok, gn := XevConstrBlock(x.next, g.next);
    if !ok {
      NodeFails(g);
      return;
    }
    BuiltNode(g, gc, gn);
    g' := g.(child := gc, next := gn);
  }

  /** Succeeds exactly when the one-pass parser does, and leaves what the parser computes. */
  method ConstrBlocks(x: XmlCell?, ghost f: Forest) returns (ok: bool, ghost g: Forest)
    requires Rep(x, f) && AllWellFormed(Trees(f))
    modifies Cells(f)
    ensures ok <==> Norm(Trees(f)).Some?
    ensures ok ==> Rep(x, g) && Trees(g) == Norm(Trees(f)).value &&
                   (forall c | c in Cells(g) :: c in Cells(f) || fresh(c))
  {
    ok, g := XevConstrBlock(x, f);
    if ok {
      DoneResult(Trees(f), Trees(g));
    } else {
      FailsNorm(Trees(f));
    }
  }
}
