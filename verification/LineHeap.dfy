/** Gathering and spreading line directives by relinking cells in place. */
module LineHeap {
  import opened Wrappers
  import opened Xml
  import opened XmlHeap
  import opened Blocks
  import opened ConstrBlock
  import opened Lines

  /** Whether the cell is a pragma whose clause list has neither a begin nor an end clause. */
  method DirectiveNoBeginEnd(x: XmlCell, ghost f: Forest) returns (b: bool)
    requires Rep(x, f) && (f.name == "xev_pragma" ==> f.child.Node?)
    ensures b == IsLine(Trees(f)[0])
  {
    HeadTree(f);
    if x.name != "xev_pragma" {
      return false;
    }
    HeadTree(f.child);
    assert Rep(x.child, f.child) && Rep(x.child.child, f.child.child);
    assert allocated(Cells(f.child.child));
    var begin := FindClause(x.child.child, "begin", f.child.child);
    var end := FindClause(x.child.child, "end", f.child.child);
    b := !begin && !end;
  }

  /** Every pragma has a clause list. */
  ghost predicate Listed(f: Forest) {
    f.Node? ==> (f.name == "xev_pragma" ==> f.child.Node?) && Listed(f.child) && Listed(f.next)
  }

  lemma {:induction false} ListedConcat(f: Forest, g: Forest)
    requires Listed(f) && Listed(g)
    ensures Listed(Concat(f, g))
  {
    if f.Node? {
      ListedConcat(f.next, g);
    }
  }

  /** Cuts off what follows `x` and hangs it below `x` as a target. */
  method Gather(x: XmlCell, ghost f: Forest) returns (ghost g: Forest)
    requires Rep(x, f)
    modifies Cells(f)
    ensures Rep(x, g) && (forall c | c in Cells(g) :: c in Cells(f) || fresh(c))
    ensures g == f.(child := g.child, next := Nil) && Trees(g.child) == Trees(f.child) + [Target(Trees(f.next))]
    ensures Listed(f) ==> Listed(g.child)
  {
    ghost var one := Single(f);
    assert allocated(Cells(f)) && allocated(Cells(f.next));
    var n := CutRest(x, f);
    assert allocated(Cells(one));
    var t;
    ghost var ft;
    t, ft := NewTarget(n, false, f.next);
    assert Rep(x, one) && Rep(t, ft);
    XmlAppendChild(x, t, one, ft);
    g := one.(child := Concat(one.child, ft));
    Gathered(f, ft);
  }

  lemma {:induction false} Gathered(f: Forest, ft: Forest)
    requires f.Node? && ft.Node? && ft == Node(ft.cell, "xev_target", [], f.next, Nil)
    ensures Trees(Concat(f.child, ft)) == Trees(f.child) + [Target(Trees(f.next))]
    ensures Cells(Concat(f.child, ft)) == Cells(f.child) + Cells(ft)
    ensures Listed(f) ==> Listed(Concat(f.child, ft))
  {
    HeadTree(ft);
    ConcatFacts(f.child, ft);
    if Listed(f) {
      assert "xev_target"[4] != "xev_pragma"[4];
      ListedConcat(f.child, ft);
    }
  }

  lemma {:induction false} GatheredTrees(f: Forest, g: Forest, gc: Forest)
    requires f.Node? && IsLine(Trees(f)[0]) && g.Node? && g == f.(child := g.child, next := Nil)
    requires Trees(g.child) == Trees(f.child) + [Target(Trees(f.next))] && Trees(gc) == ConstrLine(Trees(g.child))
    ensures Trees(g.(child := gc)) == ConstrLine(Trees(f))
  {
    HeadTree(f);
    LineUnfold(Trees(f));
  }

  lemma {:induction false} GatheredCount(f: Forest)
    requires f.Node? && IsLine(Trees(f)[0])
    ensures LineCount(Trees(f.child) + [Target(Trees(f.next))]) < LineCount(Trees(f))
  {
    HeadTree(f);
    CountSnoc(Trees(f.child), Target(Trees(f.next)));
    CountTarget(Trees(f.next));
  }

  lemma {:induction false} BelowCount(f: Forest)
    requires f.Node?
    ensures LineCount(Trees(f.child)) <= LineCount(Trees(f)) && Elements(Trees(f.child)) < Elements(Trees(f))
    ensures LineCount(Trees(f.next)) <= LineCount(Trees(f)) && Elements(Trees(f.next)) < Elements(Trees(f))
  {
    HeadTree(f);
  }

  method XevConstrLine(x: XmlCell?, ghost f: Forest) returns (ghost g: Forest)
    requires Rep(x, f) && Listed(f)
    modifies Cells(f)
    ensures Rep(x, g) && (forall c | c in Cells(g) :: c in Cells(f) || fresh(c))
    ensures Trees(g) == ConstrLine(Trees(f))
    decreases LineCount(Trees(f)), Elements(Trees(f))
  {
    g := f;
    if x != null {
      assert allocated(Cells(f));
      var line := DirectiveNoBeginEnd(x, f);
      assert Rep(x, f);
      if line {
        g := Gather(x, f);
        GatheredCount(f);
        assert Rep(x.child, g.child);
        ghost var gc := XevConstrLine(x.child, g.child);
        GatheredTrees(f, g, gc);
        g := g.(child := gc);
      } else {
        g := ConstrBelow(x, f);
      }
    }
  }

  method ConstrBelow(x: XmlCell, ghost f: Forest) returns (ghost g: Forest)
    requires Rep(x, f) && Listed(f) && !IsLine(Trees(f)[0])
    modifies Cells(f)
    ensures Rep(x, g) && (forall c | c in Cells(g) :: c in Cells(f) || fresh(c))
    ensures Trees(g) == ConstrLine(Trees(f))
    decreases LineCount(Trees(f)), Elements(Trees(f)), 0
  {
    HeadTree(f);
    BelowCount(f);
    assert Rep(x.child, f.child) && Rep(x.next, f.next);
    assert allocated(Cells(f.child)) && allocated(Cells(f.next));
    ghost var a := XevConstrLine(x.child, f.child);
    assert allocated(Cells(a)) && Rep(x.next, f.next);
    ghost var b := XevConstrLine(x.next, f.next);
    g := f.(child := a, next := b);
    assert Rep(x.child, a) && Rep(x.next, b);
  }

  // ----- and back

  ghost predicate HoldsTarget(f: Forest) {
    f.Node? && f.child.Node? && f.child.next.Node? && f.child.next.name == "xev_target" && IsLine(Trees(f)[0])
  }

  lemma {:induction false} TargetShape(f: Forest)
    requires f.Node?
    ensures HoldsTarget(f) <==> IsLine(Trees(f)[0]) && HasTarget(Trees(f)[0])
    ensures HoldsTarget(f) ==> |Trees(f)[0].kids| >= 2 && Trees(f)[0].kids[0] == Trees(f.child)[0] &&
                               Trees(f)[0].kids[1].kids == Trees(f.child.next.child)
  {
    HeadTree(f);
    if f.child.Node? {
      HeadTree(f.child);
      if f.child.next.Node? {
        HeadTree(f.child.next);
        assert Trees(f.child)[1] == Trees(f.child.next)[0];
      }
    }
  }

  method DirectiveWithTarget(x: XmlCell, ghost f: Forest) returns (b: bool)
    requires Rep(x, f) && (f.name == "xev_pragma" ==> f.child.Node?)
    ensures b == HoldsTarget(f)
  {
    TargetShape(f);
    if x.name != "xev_pragma" {
      return false;
    }
    var c := x.child;
    assert Rep(c, f.child) && Rep(c.next, f.child.next);
    if c.next == null || c.next.name != "xev_target" {
      return false;
    }
    b := DirectiveNoBeginEnd(x, f);
  }

  /** Takes the target off the directive and puts its statements behind it. */
  method Scatter(x: XmlCell, ghost f: Forest) returns (ghost g: Forest)
    requires Rep(x, f) && HoldsTarget(f)
    modifies Cells(f)
    ensures Rep(x, g) && Cells(g) <= Cells(f)
    ensures g == f.(child := f.child.(next := Nil), next := Concat(f.child.next.child, f.next))
  {
    ghost var ft, fn := f.child.next, f.next;
    assert allocated(Cells(f)) && allocated(Cells(ft.child)) && allocated(Cells(fn));
    var n, on := TakeTarget(x, f);
    ghost var f1 := f.(child := f.child.(next := Nil), next := Nil);
    ghost var f2 := LinkRest(x, n, f1, ft.child);
    assert Rep(on, fn);
    XmlAppend(x, on, f2, fn);
    ConcatFacts(f2, fn);
    g := Concat(f2, fn);
  }

  /** Cuts off the target, its statements, and what follows the directive. */
  method TakeTarget(x: XmlCell, ghost f: Forest) returns (n: XmlCell?, on: XmlCell?)
    requires Rep(x, f) && HoldsTarget(f)
    modifies Cells(f)
    ensures var f1 := f.(child := f.child.(next := Nil), next := Nil);
            && Rep(x, f1) && Rep(n, f.child.next.child) && Rep(on, f.next)
            && Cells(f1) !! Cells(f.child.next.child) && Cells(f1) !! Cells(f.next)
            && Cells(f.child.next.child) !! Cells(f.next)
            && Cells(f1) + Cells(f.child.next.child) + Cells(f.next) <= Cells(f)
  {
    ghost var l, ft, fn := f.child, f.child.next, f.next;
    var c: XmlCell := x.child;
    assert Rep(c, l) && Rep(x.next, fn) && Rep(c.next, ft);
    var t: XmlCell := c.next;
    assert Rep(t, ft) && Rep(c.child, l.child);
    assert Rep(t.child, ft.child);
    c.next := null;
    n := t.child;
    t.child := null;
    on := x.next;
    x.next := null;
    assert Rep(c, l.(next := Nil)) && Rep(n, ft.child) && Rep(on, fn);
  }

  lemma {:induction false} ScatteredTrees(f: Forest, g: Forest, gn: Forest)
    requires HoldsTarget(f) && g == f.(child := f.child.(next := Nil), next := Concat(f.child.next.child, f.next))
    requires Trees(gn) == DestrLine(Trees(g.next))
    ensures Trees(g.(next := gn)) == DestrLine(Trees(f)) && Trees(g.next) == Trees(f.child.next.child) + Trees(f.next)
  {
    HeadTree(f);
    TargetShape(f);
    ConcatFacts(f.child.next.child, f.next);
    HeadTree(f.child);
    assert Trees(f.child.(next := Nil)) == [Trees(f.child)[0]];
  }

  lemma {:induction false} ScatteredSize(f: Forest)
    requires HoldsTarget(f)
    ensures Elements(Trees(f.child.next.child) + Trees(f.next)) < Elements(Trees(f))
  {
    HeadTree(f);
    TargetShape(f);
    ElementsConcat(Trees(f.child.next.child), Trees(f.next));
    TargetSize(Trees(f)[0].kids);
  }

  method XevDestrLine(x: XmlCell?, ghost f: Forest) returns (ghost g: Forest)
    requires Rep(x, f) && Listed(f)
    modifies Cells(f)
    ensures Rep(x, g) && Cells(g) <= Cells(f)
    ensures Trees(g) == DestrLine(Trees(f))
    decreases Elements(Trees(f))
  {
    g := f;
    if x != null {
      assert allocated(Cells(f));
      var line := DirectiveWithTarget(x, f);
      assert Rep(x, f);
      if line {
        g := Scatter(x, f);
        ScatteredSize(f);
        ConcatFacts(f.child.next.child, f.next);
        assert Listed(f.child) && Listed(f.child.next);
        ListedConcat(f.child.next.child, f.next);
        assert Rep(x.next, g.next) && Rep(x.child, g.child) && allocated(Cells(g.child)) && allocated(Cells(g.next));
        ghost var gn := XevDestrLine(x.next, g.next);
        ScatteredTrees(f, g, gn);
        g := g.(next := gn);
        assert Rep(x.child, g.child) && Rep(x.next, gn);
      } else {
        g := DestrBelow(x, f);
      }
    }
  }

  method DestrBelow(x: XmlCell, ghost f: Forest) returns (ghost g: Forest)
    requires Rep(x, f) && Listed(f) && !HoldsTarget(f)
    modifies Cells(f)
    ensures Rep(x, g) && Cells(g) <= Cells(f)
    ensures Trees(g) == DestrLine(Trees(f))
    decreases Elements(Trees(f)), 0
  {
    HeadTree(f);
    TargetShape(f);
    BelowCount(f);
    assert Rep(x.child, f.child) && Rep(x.next, f.next);
    assert allocated(Cells(f.child)) && allocated(Cells(f.next));
    ghost var a := XevDestrLine(x.child, f.child);
    assert allocated(Cells(a)) && Rep(x.next, f.next);
    ghost var b := XevDestrLine(x.next, f.next);
    g := f.(child := a, next := b);
    assert Rep(x.child, a) && Rep(x.next, b);
  }
}
