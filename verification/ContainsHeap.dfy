/** Splitting and joining the children of a program unit by relinking cells in place. */
module ContainsHeap {
  import opened Wrappers
  import opened Xml
  import opened XmlHeap
  import C = Contains

  lemma {:induction false} TreesCons(f: Forest)
    requires f.Node?
    ensures Trees(f) == [Elem(f.name, f.attrs, Trees(f.child))] + Trees(f.next)
  {
  }

  /** The first `k` siblings are what precedes the contains statement, if the next is one. */
  lemma {:induction false} SplitAt(f: Forest, k: nat)
    requires k <= Len(f) && AtContains(f, k)
    ensures Trees(Splice(f, k, Nil)) == C.Head(Trees(f))
    ensures k == Len(f) ==> Suffix(f, k) == Nil && C.Tail(Trees(f)) == []
    ensures k < Len(f) ==> Suffix(f, k).Node? && Trees(Suffix(f, k).next) == C.Tail(Trees(f))
  {
    if f.Node? {
      HeadTree(f);
      if k > 0 {
        SplitAt(f.next, k - 1);
      }
    }
  }

  ghost predicate NoContains(f: Forest, k: nat)
    requires k <= Len(f)
  {
    k > 0 ==> f.name != "SgContainsStatement" && NoContains(f.next, k - 1)
  }

  /** The first `k` siblings are no contains statements, and the next, if there is one, is. */
  ghost predicate AtContains(f: Forest, k: nat)
    requires k <= Len(f)
  {
    NoContains(f, k) && (k < Len(f) ==> Suffix(f, k).Node? && Suffix(f, k).name == "SgContainsStatement")
  }

  lemma {:induction false} NoContainsMore(f: Forest, k: nat)
    requires k < Len(f) && NoContains(f, k) && Suffix(f, k).Node? && Suffix(f, k).name != "SgContainsStatement"
    ensures NoContains(f, k + 1)
  {
    if k > 0 {
      NoContainsMore(f.next, k - 1);
    }
  }

  lemma {:induction false} LenSuffix(f: Forest, k: nat)
    requires k <= Len(f)
    ensures Suffix(f, k).Node? <==> k < Len(f)
  {
    if k > 0 {
      LenSuffix(f.next, k - 1);
    }
  }

  /** Looks for the contains statement: `c` is the statement or null, `p` the cell before it. */
  method FindContains(x: XmlCell?, ghost f: Forest) returns (p: XmlCell?, c: XmlCell?, ghost k: nat)
    requires Rep(x, f)
    ensures k <= Len(f) && AtContains(f, k)
    ensures c == Head(Suffix(f, k)) && p == (if k == 0 then null else Head(Suffix(f, k - 1)))
  {
    p, c, k := null, x, 0;
    while c != null && c.name != "SgContainsStatement"
      invariant k <= Len(f) && NoContains(f, k) && Rep(c, Suffix(f, k))
      invariant p == (if k == 0 then null else Head(Suffix(f, k - 1)))
      decreases Len(f) - k
    {
      LenSuffix(f, k);
      SuffixNext(f, k);
      NoContainsMore(f, k);
      p := c;
      c := c.next;
      k := k + 1;
    }
    LenSuffix(f, k);
  }

  ghost function BodyForest(c0: XmlCell, c1: XmlCell, c2: XmlCell, h: Forest, t: Forest): Forest {
    Node(c0, "contains_body", [], Node(c1, "contains_head", [], h, Node(c2, "contains_tail", [], t, Nil)), Nil)
  }

  lemma {:induction false} BodyTrees(c0: XmlCell, c1: XmlCell, c2: XmlCell, h: Forest, t: Forest)
    ensures Trees(BodyForest(c0, c1, c2, h, t)) == [C.Body(Trees(h), Trees(t))]
  {
    var g := BodyForest(c0, c1, c2, h, t);
    HeadTree(g);
    HeadTree(g.child);
    HeadTree(g.child.next);
    assert Trees(g.child) == [Elem("contains_head", [], Trees(h)), Elem("contains_tail", [], Trees(t))];
  }

  /** Three new elements, the latter two inside the first. */
  method EmptyBody() returns (c0: XmlCell, c1: XmlCell, c2: XmlCell)
    ensures Rep(c0, BodyForest(c0, c1, c2, Nil, Nil)) && fresh(c0) && fresh(c1) && fresh(c2)
  {
    c0 := new XmlCell("contains_body", []);
    c1 := new XmlCell("contains_head", []);
    c2 := new XmlCell("contains_tail", []);
    c0.child := c1;
    c1.next := c2;
    assert Rep(c2, Node(c2, "contains_tail", [], Nil, Nil));
    assert Rep(c1, Node(c1, "contains_head", [], Nil, Node(c2, "contains_tail", [], Nil, Nil)));
  }

  /** The element with what precedes and what follows the contains statement. */
  method MakeBody(x: XmlCell?, y: XmlCell?, ghost h: Forest, ghost t: Forest) returns (c0: XmlCell, ghost g: Forest)
    requires Rep(x, h) && Rep(y, t) && Cells(h) !! Cells(t)
    modifies Cells(h), Cells(t)
    ensures Rep(c0, g) && g.next == Nil && Trees(g) == [C.Body(Trees(h), Trees(t))]
    ensures forall c | c in Cells(g) :: c in Cells(h) || c in Cells(t) || fresh(c)
  {
    assert allocated(Cells(h)) && allocated(Cells(t));
    var c1, c2;
    c0, c1, c2 := EmptyBody();
    ghost var f2 := Node(c2, "contains_tail", [], Nil, Nil);
    ghost var f1 := Node(c1, "contains_head", [], Nil, f2);
    assert Cells(f2) == {c2} && Cells(f1) == {c1, c2} && Rep(c0.child, f1);
    FillHead(c1, c2, x, y, h, t);
    g := BodyForest(c0, c1, c2, h, t);
    assert Rep(c0.child, g.child);
    BodyTrees(c0, c1, c2, h, t);
  }

  method FillHead(c1: XmlCell, c2: XmlCell, x: XmlCell?, y: XmlCell?, ghost h: Forest, ghost t: Forest)
    requires Rep(c1, Node(c1, "contains_head", [], Nil, Node(c2, "contains_tail", [], Nil, Nil)))
    requires Rep(x, h) && Rep(y, t) && Cells(h) !! Cells(t) && c1 !in Cells(h) + Cells(t) && c2 !in Cells(h) + Cells(t)
    modifies c1, c2
    ensures Rep(c1, Node(c1, "contains_head", [], h, Node(c2, "contains_tail", [], t, Nil)))
  {
    ghost var f2 := Node(c2, "contains_tail", [], Nil, Nil);
    ghost var f1 := Node(c1, "contains_head", [], Nil, f2);
    assert Cells(f2) == {c2} && Cells(f1) == {c1, c2} && Rep(c1.next, f2);
    assert allocated(Cells(h)) && allocated(Cells(t));
    XmlAppendChild(c1, x, f1, h);
    assert Rep(y, t) && Rep(c1.child, h) && Rep(c1.next, f2);
    XmlAppendChild(c2, y, f2, t);
    assert Rep(c1.child, h) && Rep(c1.next, f2.(child := t));
  }

  lemma {:induction false} FirstIsContains(f: Forest, k: nat)
    requires k <= Len(f) && AtContains(f, k)
    ensures Trees(f) != [] && C.IsContains(Trees(f)[0]) <==> k == 0 && f.Node?
  {
    if f.Node? {
      HeadTree(f);
    }
  }

  /** Cuts the links behind `p`, the cell before the `k`-th sibling. */
  method CutBefore(x: XmlCell, p: XmlCell, ghost f: Forest, ghost k: nat)
    requires Rep(x, f) && 0 < k < Len(f) && p == Head(Suffix(f, k - 1))
    modifies Cells(f)
    ensures Rep(x, Splice(f, k, Nil)) && Rep(Head(Suffix(f, k)), Suffix(f, k))
    ensures Cells(Splice(f, k, Nil)) !! Cells(Suffix(f, k)) &&
            Cells(f) == Cells(Splice(f, k, Nil)) + Cells(Suffix(f, k))
  {
    RepSplit(x, f, k);
    SpliceNext(f, k - 1, Nil);
    SpliceCells(f, k - 1, Suffix(f, k - 1).(next := Nil));
    SpliceCells(f, k, Nil);
    ghost var rest := Suffix(f, k);
    assert Rep(Head(rest), rest) && allocated(Cells(rest));
    Relink(x, p, null, f, k - 1, Nil);
  }

  /** Cuts a list of siblings before the contains statement; what follows that is `y`. Fails if there
      is nothing before it. */
  method SplitSiblings(x: XmlCell?, ghost fc: Forest) returns (ok: bool, y: XmlCell?, ghost h: Forest, ghost t: Forest)
    requires Rep(x, fc)
    modifies Cells(fc)
    ensures ok <==> !(Trees(fc) != [] && C.IsContains(Trees(fc)[0]))
    ensures ok ==> Rep(x, h) && Rep(y, t) && Cells(h) <= Cells(fc) && Cells(t) <= Cells(fc) && Cells(h) !! Cells(t)
    ensures ok ==> Trees(h) == C.Head(Trees(fc)) && Trees(t) == C.Tail(Trees(fc))
  {
    assert allocated(Cells(fc));
    var p, c, k := FindContains(x, fc);
    assert Rep(x, fc);
    LenSuffix(fc, k);
    SplitAt(fc, k);
    FirstIsContains(fc, k);
    RepSplit(x, fc, k);
    h, t := Splice(fc, k, Nil), if c == null then Nil else Suffix(fc, k).next;
    y := if c == null then null else c.next;
    ok := true;
    if c == null {
      SpliceAll(fc, Nil);
    } else {
      if k > 0 {
        LenSuffix(fc, k - 1);
      }
      if p == null {
        return false, null, Nil, Nil;
      }
      CutBefore(x, p, fc, k);
      assert Rep(c, Suffix(fc, k));
    }
  }

  /** Splits the children of `parent` at the contains statement; fails if they start with it. */
  method Contplus(parent: XmlCell, ghost f: Forest) returns (ok: bool, ghost g: Forest)
    requires Rep(parent, f)
    modifies parent, Cells(f.child)
    ensures Trees(f) != [] && ok == C.Contplus(Trees(f)[0]).Some?
    ensures ok ==> Rep(parent, g) && g == f.(child := g.child) &&
                   (forall c | c in Cells(g) :: c in Cells(f) || fresh(c))
    ensures ok ==> Trees(g) == [C.Contplus(Trees(f)[0]).value] + Trees(f.next)
  {
    HeadTree(f);
    TreesCons(f);
    ghost var fc, fn := f.child, f.next;
    assert Rep(parent.child, fc) && Rep(parent.next, fn) && allocated(Cells(fc)) && allocated(Cells(fn));
    g := f;
    var x, y := parent.child, null;
    parent.child := null;
    ghost var h, t;
    ok, y, h, t := SplitSiblings(x, fc);
    if !ok {
      return;
    }
    assert Rep(parent.next, fn) && allocated(Cells(h)) && allocated(Cells(t));
    var c0;
    ghost var b;
    c0, b := MakeBody(x, y, h, t);
    assert Rep(parent, f.(child := Nil)) && allocated(Cells(b)) && allocated(Cells(f.(child := Nil)));
    XmlAppendChild(parent, c0, f.(child := Nil), b);
    g := f.(child := b);
  }

  // ----- and back

  /** The last of the siblings `x`. */
  method LastOf(x: XmlCell, ghost f: Forest) returns (p: XmlCell)
    requires Rep(x, f)
    ensures Len(f) > 0 && p == Head(Suffix(f, Len(f) - 1))
  {
    p := x;
    ghost var k := 0;
    while p.next != null
      invariant k < Len(f) && Rep(p, Suffix(f, k)) && Suffix(f, k).Node?
      decreases Len(f) - k
    {
      SuffixNext(f, k);
      LenSuffix(f, k + 1);
      p := p.next;
      k := k + 1;
    }
    SuffixNext(f, k);
    LenSuffix(f, k + 1);
  }

  /** Hangs the siblings `y` behind the last of the siblings `x`. */
  method LinkLast(x: XmlCell, p: XmlCell, y: XmlCell?, ghost f: Forest, ghost g: Forest)
    requires Rep(x, f) && Rep(y, g) && Cells(f) !! Cells(g) && Len(f) > 0 && p == Head(Suffix(f, Len(f) - 1))
    modifies p
    ensures Rep(x, Concat(f, g)) && Trees(Concat(f, g)) == Trees(f) + Trees(g) &&
            Cells(Concat(f, g)) == Cells(f) + Cells(g)
  {
    SpliceAll(f, g);
    SpliceAll(f, Nil);
    ConcatFacts(f, g);
    Relink(x, p, y, f, Len(f) - 1, g);
  }

  lemma {:induction false} LastCell(f: Forest)
    requires Len(f) > 0 && Suffix(f, Len(f) - 1).Node?
    ensures Head(Suffix(f, Len(f) - 1)) in Cells(f)
  {
    if Len(f) > 1 {
      LastCell(f.next);
    }
  }

  lemma {:induction false} ConcatLen(f: Forest, c: Forest)
    requires c.Node? && c.next == Nil
    ensures Len(Concat(f, c)) == Len(f) + 1 && Suffix(Concat(f, c), Len(f)) == c
  {
    if f.Node? {
      ConcatLen(f.next, c);
    }
  }

  /** Puts a contains statement and the siblings `y` behind the siblings `x`. */
  method LinkTail(x: XmlCell, y: XmlCell, ghost h: Forest, ghost t: Forest) returns (ghost g: Forest)
    requires Rep(x, h) && Rep(y, t) && Cells(h) !! Cells(t)
    modifies Cells(h)
    ensures Rep(x, g) && Trees(g) == Trees(h) + ([C.CONTAINS] + Trees(t))
    ensures forall d | d in Cells(g) :: d in Cells(h) || d in Cells(t) || fresh(d)
  {
    assert allocated(Cells(h)) && allocated(Cells(t));
    var p := LastOf(x, h);
    assert Rep(x, h) && Rep(y, t);
    LenSuffix(h, Len(h) - 1);
    LastCell(h);
    var c := new XmlCell("SgContainsStatement", []);
    ghost var fc := Node(c, "SgContainsStatement", [], Nil, Nil);
    assert Cells(fc) == {c} && Rep(c, fc) && Rep(x, h) && Rep(y, t);
    LinkLast(x, p, c, h, fc);
    ConcatLen(h, fc);
    ghost var hc := Concat(h, fc);
    assert Rep(y, t);
    LinkLast(x, c, y, hc, t);
    g := Concat(hc, t);
    assert Trees(fc) == [C.CONTAINS];
    ConcatAssoc(Trees(h), [C.CONTAINS], Trees(t));
  }

  ghost predicate Joinable(f: Forest) {
    f.Node? && f.child.Node? && f.child.child.Node? && f.child.child.next.Node? && f.child.child.child.Node?
  }

  lemma {:induction false} JoinShape(f: Forest)
    requires f.Node?
    ensures Joinable(f) <==> C.Contminus(Trees(f)[0]).Some?
    ensures Joinable(f) ==>
              var h, t := f.child.child.child, f.child.child.next.child;
              C.Contminus(Trees(f)[0]) ==
                  Some(Elem(f.name, f.attrs, Trees(h) + if t.Nil? then [] else [C.CONTAINS] + Trees(t)))
  {
    HeadTree(f);
    if f.child.Node? {
      HeadTree(f.child);
      if f.child.child.Node? {
        HeadTree(f.child.child);
        if f.child.child.next.Node? {
          HeadTree(f.child.child.next);
          assert Trees(f.child.child)[1] == Trees(f.child.child.next)[0];
          if f.child.child.child.Node? {
            HeadTree(f.child.child.child);
          }
        }
      }
    }
  }

  /** What the element below `parent` holds, cut off from it. */
  method TakeParts(parent: XmlCell, ghost f: Forest) returns (x: XmlCell, y: XmlCell?)
    requires Rep(parent, f) && Joinable(f)
    modifies parent
    ensures parent.child == null && Rep(parent, f.(child := Nil))
    ensures Rep(x, f.child.child.child) && Rep(y, f.child.child.next.child)
    ensures Cells(f.child.child.child) !! Cells(f.child.child.next.child)
    ensures Cells(f.child.child.child) + Cells(f.child.child.next.child) <= Cells(f.child)
  {
    ghost var fc, f0 := f.child, f.child.child;
    assert Rep(parent.child, fc) && Rep(parent.next, f.next);
    var c0: XmlCell := parent.child;
    assert Rep(c0.child, f0);
    var c1: XmlCell := c0.child;
    assert Rep(c1.child, f0.child) && Rep(c1.next, f0.next);
    var c2: XmlCell := c1.next;
    assert Rep(c2.child, f0.next.child);
    x, y := c1.child, c2.child;
    parent.child := null;
  }

  /** Joins what was split below `parent`. */
  method Contminus(parent: XmlCell, ghost f: Forest) returns (ok: bool, ghost g: Forest)
    requires Rep(parent, f)
    modifies parent, Cells(f.child)
    ensures Trees(f) != [] && ok == C.Contminus(Trees(f)[0]).Some?
    ensures ok ==> Rep(parent, g) && g == f.(child := g.child) &&
                   (forall c | c in Cells(g) :: c in Cells(f) || fresh(c))
    ensures ok ==> Trees(g) == [C.Contminus(Trees(f)[0]).value] + Trees(f.next)
  {
    HeadTree(f);
    TreesCons(f);
    JoinShape(f);
    g := f;
    assert allocated(Cells(f));
    ok := HasParts(parent, f);
    if !ok {
      return;
    }
    assert Rep(parent, f);
    var x, y := TakeParts(parent, f);
    g := JoinParts(parent, x, y, f, f.child.child.child, f.child.child.next.child);
  }

  method JoinParts(parent: XmlCell, x: XmlCell, y: XmlCell?, ghost f: Forest, ghost h: Forest, ghost t: Forest)
    returns (ghost g: Forest)
    requires f.Node? && Rep(parent, f.(child := Nil)) && Rep(x, h) && Rep(y, t) && Cells(h) !! Cells(t)
    requires Cells(f.(child := Nil)) !! Cells(h) && Cells(f.(child := Nil)) !! Cells(t)
    modifies parent, Cells(h)
    ensures Rep(parent, g) && g == f.(child := g.child)
    ensures forall c | c in Cells(g) :: c in Cells(f.(child := Nil)) || c in Cells(h) || c in Cells(t) || fresh(c)
    ensures Trees(g) == [Elem(f.name, f.attrs, Trees(h) + if t.Nil? then [] else [C.CONTAINS] + Trees(t))] +
            Trees(f.next)
  {
    ghost var b, fn := h, f.next;
    assert allocated(Cells(fn)) && Rep(parent.next, fn);
    ConcatNothing(Trees(h));
    if y != null {
      b := LinkTail(x, y, h, t);
    }
    assert Rep(parent.next, fn) && Rep(x, b);
    parent.child := x;
    g := f.(child := b);
    assert Rep(parent.child, b);
  }

  method HasParts(parent: XmlCell, ghost f: Forest) returns (ok: bool)
    requires Rep(parent, f)
    ensures ok == Joinable(f)
  {
    var c0 := parent.child;
    assert Rep(c0, f.child);
    if c0 == null {
      return false;
    }
    var c1 := c0.child;
    assert Rep(c1, f.child.child);
    if c1 == null {
      return false;
    }
    assert Rep(c1.next, f.child.child.next) && Rep(c1.child, f.child.child.child);
    ok := c1.next != null && c1.child != null;
  }
}
