/** Splitting and joining all units of a program: the walk that finds the elements that hold a unit's
    statements and relinks the cells below them. */
module ContainsWalk {
  import opened Wrappers
  import opened Xml
  import opened XmlHeap
  import opened ContainsHeap
  import C = Contains

  /** One of the siblings with other children. */
  lemma {:induction false} Swap(f: Forest, k: nat, g: Forest)
    requires k < Len(f) && Suffix(f, k).Node? && g.Node? && g.next == Suffix(f, k).next
    ensures Len(Splice(f, k, g)) == Len(f) == |Trees(f)| && Suffix(Splice(f, k, g), k + 1) == Suffix(f, k + 1)
    ensures Trees(Suffix(f, k))[0] == Trees(f)[k] && Trees(Splice(f, k, g)) == Trees(f)[k := Trees(g)[0]]
  {
    HeadTree(f);
    TreesCons(f);
    if k == 0 {
      HeadTree(g);
      TreesCons(g);
      LengthTrees(f.next);
    } else {
      Swap(f.next, k - 1, g);
      TreesCons(Splice(f, k, g));
    }
  }

  lemma {:induction false} LengthTrees(f: Forest)
    ensures |Trees(f)| == Len(f)
  {
    if f.Node? {
      LengthTrees(f.next);
    }
  }

  /** The `i`-th of the siblings, if there are that many. */
  method Nth(x: XmlCell?, i: nat, ghost f: Forest) returns (y: XmlCell?)
    requires Rep(x, f)
    ensures y != null <==> i < Len(f)
    ensures y != null ==> y == Head(Suffix(f, i)) && Suffix(f, i).Node?
  {
    y := x;
    var k: nat := 0;
    while k < i && y != null
      invariant k <= i && (y != null ==> k <= Len(f) && y == Head(Suffix(f, k)) && Rep(y, Suffix(f, k)))
      invariant y == null ==> k <= Len(f) && Len(f) <= i && Suffix(f, k) == Nil
    {
      LenSuffix(f, k);
      SuffixNext(f, k);
      y := y.next;
      k := k + 1;
      LenSuffix(f, k);
    }
    LenSuffix(f, k);
  }

  /** After a change below one of the siblings they still hang together. */
  lemma {:induction false} Rejoin(x: XmlCell?, f: Forest, k: nat, c: XmlCell, g: Forest)
    requires k < Len(f) && Suffix(f, k).Node? && Segment(x, f, k, c) && Rep(c, g)
    requires Cells(Splice(f, k, Nil)) !! Cells(g)
    ensures Rep(x, Splice(f, k, g)) && Cells(Splice(f, k, g)) == Cells(Splice(f, k, Nil)) + Cells(g)
  {
    RepJoin(x, f, k, c, g);
    SpliceCells(f, k, g);
  }

  /** Splits or joins what is below the cell. */
  method Apply(x: XmlCell, how: C.Change, ghost f: Forest) returns (ok: bool, ghost g: Forest)
    requires Rep(x, f)
    modifies x, Cells(f.child)
    ensures Trees(f) != [] && ok == C.Apply(how, Trees(f)[0]).Some?
    ensures ok ==> Changed(x, f, g, C.Apply(how, Trees(f)[0]).value)
    ensures ok ==> forall c | c in Cells(g) :: c in Cells(f) || fresh(c)
  {
    if how == C.Plus {
      ok, g := Contplus(x, f);
    } else {
      ok, g := Contminus(x, f);
    }
    if ok {
      HeadTree(g);
    }
  }

  /** The cell is where it was, and below it is now what `t` has. */
  ghost predicate Changed(x: XmlCell, f: Forest, g: Forest, t: Elem)
    requires f.Node?
    reads Cells(g)
  {
    g.Node? && g == f.(child := g.child) && Rep(x, g) && Trees(g)[0] == t
  }

  /** Changes the element at the end of the way. */
  method At(x: XmlCell, way: seq<nat>, name: string, how: C.Change, ghost f: Forest) returns (ok: bool, ghost g: Forest)
    requires Rep(x, f)
    modifies x, Cells(f.child)
    ensures Trees(f) != [] && ok == C.At(Trees(f)[0], way, name, how).Some?
    ensures ok ==> Changed(x, f, g, C.At(Trees(f)[0], way, name, how).value)
    ensures ok ==> forall c | c in Cells(g) :: c in Cells(f) || fresh(c)
    decreases |way|, 0
  {
    HeadTree(f);
    g := f;
    if way == [] {
      ok := x.name == name;
      if ok {
        ok, g := Apply(x, how, f);
      }
      return;
    }
    ghost var fc, fn, i := f.child, f.next, way[0];
    assert Rep(x.child, fc) && Rep(x.next, fn) && allocated(Cells(fc)) && allocated(Cells(fn));
    var y := Nth(x.child, way[0], fc);
    LengthTrees(fc);
    assert Rep(x.child, fc) && Rep(x.next, fn);
    if y == null {
      return false, f;
    }
    ghost var h;
    ok, h := AtKid(x.child, y, way[0], way[1..], name, how, fc);
    if ok {
      assert Rep(x.next, fn) && Rep(x.child, h);
      g := f.(child := h);
      HeadTree(g);
    }
  }

  method AtKid(x: XmlCell?, y: XmlCell, i: nat, way: seq<nat>, name: string, how: C.Change, ghost f: Forest)
    returns (ok: bool, ghost g: Forest)
    requires Rep(x, f) && i < Len(f) && Suffix(f, i).Node? && y == Head(Suffix(f, i))
    modifies Cells(f)
    ensures i < |Trees(f)| && ok == C.At(Trees(f)[i], way, name, how).Some?
    ensures ok ==> Rep(x, g) && Trees(g) == Trees(f)[i := C.At(Trees(f)[i], way, name, how).value]
    ensures ok ==> forall c | c in Cells(g) :: c in Cells(f) || fresh(c)
    decreases |way|, 1
  {
    ghost var s := Suffix(f, i);
    RepSplit(x, f, i);
    Swap(f, i, s);
    g := f;
    assert allocated(Cells(Splice(f, i, Nil))) && allocated(Cells(s));
    ghost var h;
    ok, h := At(y, way, name, how, s);
    if ok {
      assert Segment(x, f, i, y);
      Rejoin(x, f, i, y, h);
      Swap(f, i, h);
      g := Splice(f, i, h);
    }
  }

  /** The unit at the cell, before what is in it. */
  method Unit(x: XmlCell, how: C.Change, ghost f: Forest) returns (ok: bool, ghost g: Forest)
    requires Rep(x, f)
    modifies x, Cells(f.child)
    ensures Trees(f) != [] && ok == C.Unit(Trees(f)[0], how).Some?
    ensures ok ==> Changed(x, f, g, C.Unit(Trees(f)[0], how).value)
    ensures ok ==> forall c | c in Cells(g) :: c in Cells(f) || fresh(c)
  {
    HeadTree(f);
    if x.name == "SgProgramHeaderStatement" {
      ok, g := At(x, [1, 0], "SgBasicBlock", how, f);
    } else if x.name == "SgProcedureHeaderStatement" {
      ok, g := At(x, [2, 0], "SgBasicBlock", how, f);
    } else if x.name == "SgModuleStatement" {
      ok, g := At(x, [0], "SgClassDefinition", how, f);
    } else {
      ok, g := true, f;
    }
  }

  /** The unit at the cell, and all units in it. */
  method WalkOne(x: XmlCell, how: C.Change, ghost f: Forest) returns (ok: bool, ghost g: Forest)
    requires Rep(x, f)
    modifies x, Cells(f.child)
    ensures Trees(f) != [] && ok == C.WalkOne(Trees(f)[0], how).Some?
    ensures ok ==> Changed(x, f, g, C.WalkOne(Trees(f)[0], how).value)
    ensures ok ==> forall c | c in Cells(g) :: c in Cells(f) || fresh(c)
    decreases C.Units([Trees(f)[0]]), Elements([Trees(f)[0]]), 1
  {
    HeadTree(f);
    assert allocated(Cells(f));
    ok, g := Unit(x, how, f);
    if ok {
      C.UnitDown(Trees(f)[0], how);
      HeadTree(g);
      ok, g := WalkInside(x, how, g);
    }
  }

  /** The units below the cell. */
  method WalkInside(x: XmlCell, how: C.Change, ghost f: Forest) returns (ok: bool, ghost g: Forest)
    requires Rep(x, f)
    modifies x, Cells(f.child)
    ensures ok == C.Walk(Trees(f.child), how).Some?
    ensures ok ==> Changed(x, f, g, Elem(f.name, f.attrs, C.Walk(Trees(f.child), how).value))
    ensures ok ==> forall c | c in Cells(g) :: c in Cells(f) || fresh(c)
    decreases C.Units(Trees(f.child)), Elements(Trees(f.child)), 4
  {
    ghost var fn := f.next;
    assert Rep(x.child, f.child) && Rep(x.next, fn) && allocated(Cells(f.child)) && allocated(Cells(fn));
    ghost var h;
    ok, h := Walk(x.child, how, f.child);
    g := f.(child := h);
    if ok {
      assert Rep(x.child, h) && Rep(x.next, fn);
      HeadTree(g);
    }
  }

  /** The walk over a list, from its first element and the rest. */
  lemma {:induction false} WalkStep(s: Forest, how: C.Change, done: seq<Elem>)
    requires s.Node?
    ensures C.Units([Trees(s)[0]]) <= C.Units(Trees(s)) && Elements([Trees(s)[0]]) <= Elements(Trees(s))
    ensures C.Units(Trees(s.next)) <= C.Units(Trees(s)) && Elements(Trees(s.next)) <= Elements(Trees(s))
    ensures var t := C.WalkOne(Trees(s)[0], how);
            After(done, C.Walk(Trees(s), how)) ==
            if t.None? then None else After(done + [t.value], C.Walk(Trees(s.next), how))
  {
    HeadTree(s);
    C.UnitsOne(Trees(s)[0]);
    assert [Trees(s)[0]][1..] == [];
    var t, r := C.WalkOne(Trees(s)[0], how), C.Walk(Trees(s.next), how);
    if t.Some? && r.Some? {
      ConcatAssoc(done, [t.value], r.value);
    }
  }

  function After(done: seq<Elem>, r: Option<seq<Elem>>): Option<seq<Elem>> {
    if r.None? then None else Some(done + r.value)
  }

  lemma {:induction false} DoneNext(s: Forest, done: seq<Elem>, t: Elem)
    requires s.Node?
    ensures (done + Trees(s))[|done| := t] == done + [t] + Trees(s.next)
  {
    TreesCons(s);
  }

  /** Changes all units among the siblings and below them, the outer ones first. */
  method Walk(x0: XmlCell?, how: C.Change, ghost f: Forest) returns (ok: bool, ghost g: Forest)
    requires Rep(x0, f)
    modifies Cells(f)
    ensures match C.Walk(Trees(f), how)
            case None => !ok
            case Some(ts) => ok && Rep(x0, g) && Trees(g) == ts
    ensures ok ==> forall c | c in Cells(g) :: c in Cells(f) || fresh(c)
    decreases C.Units(Trees(f)), Elements(Trees(f)), 3
  {
    ok, g := true, f;
    var x := x0;
    ghost var s, done, goal := f, [], C.Walk(Trees(f), how);
    ConcatNothing(Trees(f));
    if goal.Some? {
      ConcatNothing(goal.value);
    }
    while x != null
      invariant Rep(x0, g) && AtRest(g, |done|, s) && x == Head(s) && Trees(g) == done + Trees(s)
      invariant goal == After(done, C.Walk(Trees(s), how))
      invariant C.Units(Trees(s)) <= C.Units(Trees(f)) && Elements(Trees(s)) <= Elements(Trees(f))
      invariant forall c | c in Cells(g) :: c in Cells(f) || fresh(c)
      decreases s
    {
      WalkStep(s, how, done);
      assert allocated(Cells(g));
      ghost var h;
      ok, h, done := WalkKid(x0, x, how, g, s, done);
      if !ok {
        return;
      }
      x := x.next;
      g, s := h, s.next;
    }
    ConcatNothing(done);
  }

  /** `s` is what the siblings are from the `k`-th on. */
  ghost predicate AtRest(g: Forest, k: nat, s: Forest) {
    k <= Len(g) && Suffix(g, k) == s
  }

  method WalkKid(x0: XmlCell?, x: XmlCell, how: C.Change, ghost f: Forest, ghost s: Forest, ghost done: seq<Elem>)
    returns (ok: bool, ghost g: Forest, ghost more: seq<Elem>)
    requires Rep(x0, f) && AtRest(f, |done|, s) && s.Node? && x == s.cell && Trees(f) == done + Trees(s)
    modifies Cells(f)
    ensures ok == C.WalkOne(Trees(s)[0], how).Some?
    ensures ok ==> Rep(x0, g) && AtRest(g, |more|, s.next) && x.next == Head(s.next)
    ensures ok ==> more == done + [C.WalkOne(Trees(s)[0], how).value] && Trees(g) == more + Trees(s.next)
    ensures ok ==> forall c | c in Cells(g) :: c in Cells(f) || fresh(c)
    decreases C.Units([Trees(s)[0]]), Elements([Trees(s)[0]]), 2
  {
    ghost var k := |done|;
    LenSuffix(f, k);
    RepSplit(x0, f, k);
    SuffixNext(f, k);
    Swap(f, k, s);
    g, more := f, done;
    assert allocated(Cells(Splice(f, k, Nil))) && allocated(Cells(s));
    ghost var h;
    ok, h := WalkOne(x, how, s);
    if ok {
      assert Segment(x0, f, k, x);
      Rejoin(x0, f, k, x, h);
      Swap(f, k, h);
      g := Splice(f, k, h);
      assert Rep(x.next, s.next);
      more := done + [Trees(h)[0]];
      DoneNext(s, done, Trees(h)[0]);
    }
  }
}
