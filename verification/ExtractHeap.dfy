/** Placing and collecting code expressions by relinking cells: the queue holds links to the cells of
    the expressions, and these cells move between the queue and the program. */
module ExtractHeap {
  import opened Wrappers
  import opened Xml
  import opened XmlHeap
  import opened CellQueue
  import opened LangStr
  import opened Directive
  import opened DirectiveCount
  import opened PragmaTree
  import opened PragmaWalk

  // ----- collecting

  /** A statement that carries an expression has a list to carry it in. */
  predicate Carried(ts: seq<Elem>) {
    ts == [] || ((IsExtract(ts[0]) ==> |ts[0].kids[0].kids| >= 2) && Carried(ts[0].kids) && Carried(ts[1..]))
  }

  /** What is left and what is queued together are what there was. */
  ghost predicate Taken(f: Forest, fs: seq<Forest>, g: Forest, gs: seq<Forest>) {
    && XmlHeap.Size(g) <= XmlHeap.Size(f) && Carried(Trees(g))
    && Collect(Trees(g)).trees == Collect(Trees(f)).trees
    && Values(gs) + Collect(Trees(g)).queue == Values(fs) + Collect(Trees(f)).queue
  }

  lemma {:induction false} TakenStep(f: Forest, fs: seq<Forest>, g: Forest, gs: seq<Forest>, hs: seq<Forest>)
    requires Taken(f, fs, g, gs) && g.Node? && IsExtract(Trees(g)[0]) &&
             Values(hs) == Values(gs) + [Extracted(Trees(g)[0])]
    ensures Taken(f, fs, g.next, hs)
  {
    HeadTree(g);
    ConcatAssoc(Values(gs), [Extracted(Trees(g)[0])], Collect(Trees(g.next)).queue);
  }

  /** Cells have only gone from the structure to the queue, if not away. */
  ghost predicate Moved(f: Forest, fs: seq<Forest>, g: Forest, gs: seq<Forest>) {
    Cells(g) <= Cells(f) && CellsOf(gs) <= CellsOf(fs) + Cells(f) && CellsOf(gs) !! Cells(g)
  }

  lemma {:induction false} MovedStep(f: Forest, fs: seq<Forest>, g: Forest, gs: seq<Forest>, hs: seq<Forest>)
    requires Moved(f, fs, g, gs) && g.Node? && CellsOf(hs) <= CellsOf(gs) + Cells(g.child) &&
             CellsOf(hs) !! Cells(g.next)
    ensures Moved(f, fs, g.next, hs)
  {
  }

  lemma {:induction false} MovedBelow(f: Forest, fs: seq<Forest>, g: Forest, gs: seq<Forest>)
    requires f.Node? && f.cell !in Cells(f.next) && Cells(f.child) !! Cells(f.next) && f.cell !in Cells(f.child)
    requires Moved(f.child, fs, g, gs) && CellsOf(fs) !! Cells(f)
    ensures Moved(f, fs, f.(child := g), gs)
  {
  }

  lemma {:induction false} MovedBehind(f: Forest, g: Forest, fs: seq<Forest>, gs: seq<Forest>, h: Forest,
                                       hs: seq<Forest>)
    requires f.Node? && Moved(f, fs, f.(child := g), gs) && Moved(f.next, gs, h, hs)
    requires f.cell !in Cells(f.next) && Cells(g) !! Cells(f.next)
    ensures Moved(f, fs, f.(child := g, next := h), hs)
  {
  }

  lemma {:induction false} Apart(f: Forest, g: Forest, fs: seq<Forest>, gs: seq<Forest>)
    requires f.Node? && g.Node? && Cells(g) <= Cells(f) - {f.cell} && CellsOf(fs) !! Cells(f)
    requires g.cell !in Cells(g.child) && Cells(g.child) !! Cells(g.next) && CellsOf(gs) <= CellsOf(fs) + Cells(g.child)
    ensures f.cell !in CellsOf(gs) && g.cell !in CellsOf(gs) && CellsOf(gs) !! Cells(g.next)
  {
  }

  class Collector {
    var exList: seq<XmlCell?>

    constructor ()
      ensures exList == []
    {
      exList := [];
    }

    method LooksExtract(x: XmlCell, ghost f: Forest) returns (b: bool)
      requires Rep(x, f)
      ensures b == IsExtract(Trees(f)[0])
      ensures b ==> f.child.Node? && f.child.child.Node?
    {
      KidTree(f);
      if x.name != "SgExprStatement" || x.child == null || x.child.name != "SgFunctionCallExp" {
        return false;
      }
      KidTree(f.child);
      var c: XmlCell := x.child;
      assert Rep(c, f.child) && Rep(c.child, f.child.child);
      if c.child == null || c.child.name != "SgFunctionRefExp" {
        return false;
      }
      assert Rep(c.child, f.child.child);
      b := AttrValue(c.child.attrs, "name") == Some("xevparse_extract_exp");
    }

    /** Cuts the expression off the statement that carries it and queues it. */
    method Cut(x: XmlCell, ghost f: Forest, ghost fs: seq<Forest>) returns (ghost gs: seq<Forest>)
      requires Rep(x, f) && Queued(exList, fs) && CellsOf(fs) !! Cells(f) && Carried(Trees(f)) && IsExtract(Trees(f)[0])
      requires f.child.Node? && f.child.child.Node?
      modifies this, Cells(f.child)
      ensures Queued(exList, gs)
      ensures Values(gs) == Values(fs) + [Extracted(Trees(f)[0])] && CellsOf(gs) <= CellsOf(fs) + Cells(f.child)
    {
      KidTree(f);
      KidTree(f.child);
      ghost var refs := f.child.child;
      assert |Trees(refs)| >= 2;
      HeadTree(refs);
      ghost var fl := refs.next;
      HeadTree(fl);
      assert Trees(refs)[1] == Trees(fl)[0];
      assert Rep(x.child, f.child) && Rep(x.child.child, refs);
      assert Rep(x.child.child.next, fl);
      var list: XmlCell := x.child.child.next;
      var e := list.child;
      assert Rep(e, fl.child) && allocated(CellsOf(fs)) && list !in CellsOf(fs);
      list.child := null;
      exList := exList + [e];
      assert Rep(e, fl.child) && Queued(old(exList), fs);
      QueuedSnoc(old(exList), fs, e, fl.child);
      gs := fs + [fl.child];
    }

    method CheckExp(x: XmlCell, ghost f: Forest, ghost fs: seq<Forest>) returns (b: bool, ghost gs: seq<Forest>)
      requires Rep(x, f) && Queued(exList, fs) && CellsOf(fs) !! Cells(f) && Carried(Trees(f))
      modifies this, Cells(f.child)
      ensures b == IsExtract(Trees(f)[0]) && Queued(exList, gs)
      ensures if b then Values(gs) == Values(fs) + [Extracted(Trees(f)[0])] &&
                        CellsOf(gs) <= CellsOf(fs) + Cells(f.child)
              else gs == fs && Rep(x, f)
    {
      assert allocated(Cells(f)) && allocated(CellsOf(fs));
      b := LooksExtract(x, f);
      if !b {
        return b, fs;
      }
      gs := Cut(x, f, fs);
    }

    /** Takes the first child off if it carries an expression. */
    method TakeChild(x: XmlCell, ghost f: Forest, ghost fs: seq<Forest>) returns (b: bool, ghost gs: seq<Forest>)
      requires Rep(x, f) && f.child.Node? && Queued(exList, fs) && CellsOf(fs) !! Cells(f) && Carried(Trees(f.child))
      modifies this, x, Cells(f.child)
      ensures b == IsExtract(Trees(f.child)[0]) && Queued(exList, gs)
      ensures if b then Rep(x, f.(child := f.child.next)) &&
                        Values(gs) == Values(fs) + [Extracted(Trees(f.child)[0])] &&
                        CellsOf(gs) <= CellsOf(fs) + Cells(f.child.child) && CellsOf(gs) !! Cells(f.child.next)
              else gs == fs && Rep(x, f)
    {
      ghost var g, fn := f.child, f.next;
      assert Rep(x.child, g) && Rep(x.next, fn) && allocated(Cells(g)) && allocated(Cells(fn));
      var y: XmlCell := x.child;
      assert Rep(y.next, g.next) && allocated(Cells(g.next));
      b, gs := CheckExp(y, g, fs);
      assert Rep(x.next, fn);
      if !b {
        return;
      }
      Apart(f, g, fs, gs);
      assert allocated(CellsOf(gs)) && Rep(y.next, g.next);
      DetachChild(x, y, f);
    }

    method TakeNext(x: XmlCell, ghost f: Forest, ghost fs: seq<Forest>) returns (b: bool, ghost gs: seq<Forest>)
      requires Rep(x, f) && f.next.Node? && Queued(exList, fs) && CellsOf(fs) !! Cells(f) && Carried(Trees(f.next))
      modifies this, x, Cells(f.next)
      ensures b == IsExtract(Trees(f.next)[0]) && Queued(exList, gs)
      ensures if b then Rep(x, f.(next := f.next.next)) && Values(gs) == Values(fs) + [Extracted(Trees(f.next)[0])] &&
                        CellsOf(gs) <= CellsOf(fs) + Cells(f.next.child) && CellsOf(gs) !! Cells(f.next.next)
              else gs == fs && Rep(x, f)
    {
      ghost var g, fc := f.next, f.child;
      assert Rep(x.next, g) && Rep(x.child, fc) && allocated(Cells(g)) && allocated(Cells(fc));
      var y: XmlCell := x.next;
      assert Rep(y.next, g.next) && allocated(Cells(g.next));
      b, gs := CheckExp(y, g, fs);
      assert Rep(x.child, fc);
      if !b {
        return;
      }
      Apart(f, g, fs, gs);
      assert allocated(CellsOf(gs)) && Rep(y.next, g.next);
      DetachNext(x, y, f);
    }

    /** Takes statements that carry expressions off the front of the children. */
    method TakeChildren(x: XmlCell, ghost f: Forest, ghost fs: seq<Forest>)
      returns (ghost g: Forest, ghost gs: seq<Forest>)
      requires Rep(x, f) && Queued(exList, fs) && CellsOf(fs) !! Cells(f) && Carried(Trees(f.child))
      modifies this, x, Cells(f.child)
      ensures Rep(x, f.(child := g)) && Queued(exList, gs) && Moved(f.child, fs, g, gs)
      ensures Taken(f.child, fs, g, gs) && (g.Node? ==> !IsExtract(Trees(g)[0]))
    {
      g, gs := f.child, fs;
      ConcatNothing(Values(fs));
      while x.child != null
        invariant Rep(x, f.(child := g)) && Queued(exList, gs) && Moved(f.child, fs, g, gs) && Taken(f.child, fs, g, gs)
        decreases XmlHeap.Size(g)
      {
        assert allocated(Cells(g));
        var b;
        ghost var hs;
        b, hs := TakeChild(x, f.(child := g), gs);
        if !b {
          break;
        }
        TakenStep(f.child, fs, g, gs, hs);
        MovedStep(f.child, fs, g, gs, hs);
        g, gs := g.next, hs;
      }
    }

    /** The same for what follows the cell. */
    method TakeFollowing(x: XmlCell, ghost f: Forest, ghost fs: seq<Forest>)
      returns (ghost g: Forest, ghost gs: seq<Forest>)
      requires Rep(x, f) && Queued(exList, fs) && CellsOf(fs) !! Cells(f) && Carried(Trees(f.next))
      modifies this, x, Cells(f.next)
      ensures Rep(x, f.(next := g)) && Queued(exList, gs) && Moved(f.next, fs, g, gs)
      ensures Taken(f.next, fs, g, gs) && (g.Node? ==> !IsExtract(Trees(g)[0]))
    {
      g, gs := f.next, fs;
      ConcatNothing(Values(fs));
      while x.next != null
        invariant Rep(x, f.(next := g)) && Queued(exList, gs) && Moved(f.next, fs, g, gs) && Taken(f.next, fs, g, gs)
        decreases XmlHeap.Size(g)
      {
        assert allocated(Cells(g));
        var b;
        ghost var hs;
        b, hs := TakeNext(x, f.(next := g), gs);
        if !b {
          break;
        }
        TakenStep(f.next, fs, g, gs, hs);
        MovedStep(f.next, fs, g, gs, hs);
        g, gs := g.next, hs;
      }
    }

    /** Takes them all out, below and behind the cell. */
    method CollectExp(x: XmlCell, ghost f: Forest, ghost fs: seq<Forest>)
      returns (ghost g: Forest, ghost gs: seq<Forest>)
      requires Rep(x, f) && Queued(exList, fs) && CellsOf(fs) !! Cells(f) && Carried(Trees(f)) &&
               !IsExtract(Trees(f)[0])
      modifies this, Cells(f)
      ensures Rep(x, g) && Queued(exList, gs) && Moved(f, fs, g, gs)
      ensures Trees(g) == Collect(Trees(f)).trees && Values(gs) == Values(fs) + Collect(Trees(f)).queue
      decreases XmlHeap.Size(f), 1
    {
      HeadTree(f);
      assert allocated(Cells(f));
      ghost var mid, ms := CollectBelow(x, f, fs);
      MovedBelow(f, fs, mid.child, ms);
      g, gs := CollectBehind(x, mid, ms);
      MovedBehind(f, mid.child, fs, ms, g.next, gs);
      ConcatAssoc(Values(fs), Collect(Trees(f.child)).queue, Collect(Trees(f.next)).queue);
    }

    method CollectBelow(x: XmlCell, ghost f: Forest, ghost fs: seq<Forest>)
      returns (ghost g: Forest, ghost gs: seq<Forest>)
      requires Rep(x, f) && Queued(exList, fs) && CellsOf(fs) !! Cells(f) && Carried(Trees(f))
      modifies this, x, Cells(f.child)
      ensures g.Node? && g == f.(child := g.child) && Rep(x, g) && Queued(exList, gs) && Moved(f.child, fs, g.child, gs)
      ensures Trees(g.child) == Collect(Trees(f.child)).trees &&
              Values(gs) == Values(fs) + Collect(Trees(f.child)).queue
      decreases XmlHeap.Size(f), 0
    {
      HeadTree(f);
      ghost var k, hs := TakeChildren(x, f, fs);
      g, gs := f.(child := k), hs;
      ConcatNothing(Values(hs));
      if x.child != null {
        ghost var fn := f.next;
        assert Rep(x.next, fn) && allocated(Cells(fn)) && allocated(Cells(k)) && x !in CellsOf(hs) && Rep(x.child, k);
        k, hs := CollectExp(x.child, k, hs);
        assert Rep(x.next, fn);
        g, gs := f.(child := k), hs;
      }
    }

    method CollectBehind(x: XmlCell, ghost f: Forest, ghost fs: seq<Forest>)
      returns (ghost g: Forest, ghost gs: seq<Forest>)
      requires Rep(x, f) && Queued(exList, fs) && CellsOf(fs) !! Cells(f) && Carried(Trees(f.next))
      modifies this, x, Cells(f.next)
      ensures g.Node? && g == f.(next := g.next) && Rep(x, g) && Queued(exList, gs) && Moved(f.next, fs, g.next, gs)
      ensures Trees(g.next) == Collect(Trees(f.next)).trees && Values(gs) == Values(fs) + Collect(Trees(f.next)).queue
      decreases XmlHeap.Size(f.next), 2
    {
      ghost var k, hs := TakeFollowing(x, f, fs);
      g, gs := f.(next := k), hs;
      ConcatNothing(Values(hs));
      if x.next != null {
        ghost var fc := f.child;
        assert Rep(x.child, fc) && allocated(Cells(fc)) && allocated(Cells(k)) && x !in CellsOf(hs) && Rep(x.next, k);
        k, hs := CollectExp(x.next, k, hs);
        assert Rep(x.child, fc);
        g, gs := f.(next := k), hs;
      }
    }
  }

  // ----- placing

  lemma {:induction false} CarryTrees(f: Forest, exp: Exp)
    requires f.Node? && f.child.Node? && f.next.Nil? && f.name == "SgExprStatement" && f.attrs == []
    requires var call := f.child;
             call.child.Node? && call.next.Nil? && call.name == "SgFunctionCallExp" && call.attrs == []
    requires var ref := f.child.child;
             && ref.name == "SgFunctionRefExp" && ref.attrs == [Attr("name", "xevparse_extract_exp"), Attr("kind", "2")]
             && ref.child.Nil? && Trees(ref.next) == [Elem("SgExprListExp", [], exp)]
    ensures Trees(f) == [Extract(exp)]
  {
    var call, ref := f.child, f.child.child;
    assert Trees(ref) == [Elem(ref.name, ref.attrs, []), Elem("SgExprListExp", [], exp)];
    assert Trees(call) == [Elem(call.name, call.attrs, Trees(ref))];
  }

  /** A new list of the expression `e` leads to. */
  method CarryList(e: XmlCell?, ghost fe: Forest) returns (x: XmlCell, ghost f: Forest)
    requires Rep(e, fe)
    modifies Cells(fe)
    ensures fresh(x) && Rep(x, f) && f == Node(x, "SgExprListExp", [], fe, Nil)
  {
    assert allocated(Cells(fe));
    x := new XmlCell("SgExprListExp", []);
    f := Node(x, "SgExprListExp", [], Nil, Nil);
    CellsOne(f);
    assert Rep(x, f) && Rep(e, fe);
    if e != null {
      XmlInsertChild(x, e, f, fe);
    }
    SpliceAll(fe, Nil);
    f := f.(child := fe);
  }

  /** A new cell with the children `y`. */
  method Around(name: string, y: XmlCell, ghost h: Forest) returns (x: XmlCell, ghost f: Forest)
    requires Rep(y, h)
    ensures fresh(x) && Rep(x, f) && f == Node(x, name, [], h, Nil)
  {
    assert allocated(Cells(h));
    x := new XmlCell(name, []);
    x.child := y;
    assert Rep(y, h);
    f := Node(x, name, [], h, Nil);
  }

  /** The mark of a carried expression, with `y` behind it. */
  method Marked(y: XmlCell, ghost h: Forest) returns (x: XmlCell, ghost f: Forest)
    requires Rep(y, h)
    ensures fresh(x) && Rep(x, f)
    ensures f == Node(x, "SgFunctionRefExp", [Attr("name", "xevparse_extract_exp"), Attr("kind", "2")], Nil, h)
  {
    assert allocated(Cells(h));
    x := new XmlCell("SgFunctionRefExp", [Attr("name", "xevparse_extract_exp"), Attr("kind", "2")]);
    x.next := y;
    assert Rep(y, h);
    f := Node(x, "SgFunctionRefExp", [Attr("name", "xevparse_extract_exp"), Attr("kind", "2")], Nil, h);
  }

  /** A new statement that carries the expression `e` leads to. */
  method Carry(e: XmlCell?, ghost fe: Forest) returns (e1: XmlCell, ghost g: Forest)
    requires Rep(e, fe)
    modifies Cells(fe)
    ensures Rep(e1, g) && Trees(g) == [Extract(Trees(fe))]
    ensures forall c | c in Cells(g) :: c in Cells(fe) || fresh(c)
  {
    assert allocated(Cells(fe));
    var e4, e3, e2;
    ghost var f4, f3, f2;
    e4, f4 := CarryList(e, fe);
    e3, f3 := Marked(e4, f4);
    e2, f2 := Around("SgFunctionCallExp", e3, f3);
    e1, g := Around("SgExprStatement", e2, f2);
    assert Trees(f4) == [Elem("SgExprListExp", [], Trees(fe))];
    CarryTrees(g, Trees(fe));
  }

  /** Puts a statement that carries the expression `e` leads to behind the cell. */
  method InsertOne(x: XmlCell, e: XmlCell?, ghost f: Forest, ghost fe: Forest) returns (ghost g: Forest)
    requires Rep(x, f) && Rep(e, fe) && Cells(fe) !! Cells(f)
    modifies x, Cells(fe)
    ensures g.Node? && g == f.(next := g.next) && Rep(x, g) && Trees(g.next) == [Extract(Trees(fe))] + Trees(f.next)
    ensures forall k | k in Cells(g) :: k in Cells(f) || k in Cells(fe) || fresh(k)
  {
    assert allocated(Cells(f));
    var e1;
    ghost var h;
    e1, h := Carry(e, fe);
    assert Rep(x, f) && Cells(h) !! Cells(f);
    XmlInsertNext(x, e1, f, h);
    ConcatFacts(h, f.next);
    g := f.(next := Concat(h, f.next));
  }

  /** The same for the last of the links `first`, while `list` stays as it is. */
  method InsertLast(x: XmlCell, first: seq<XmlCell?>, ghost f: Forest, ghost fs: seq<Forest>,
                    ghost list: seq<XmlCell?>, ghost rest: seq<Forest>)
    returns (ghost g: Forest)
    requires Rep(x, f) && first != [] && Queued(first, fs) && CellsOf(fs) !! Cells(f)
    requires Queued(list, rest) && CellsOf(fs) !! CellsOf(rest) && Cells(f) !! CellsOf(rest)
    modifies x, CellsOf(fs)
    ensures var n := |first| - 1;
            && |fs| == n + 1 == |Values(fs)| && Queued(first[..n], fs[..n]) && Values(fs[..n]) == Values(fs)[..n]
            && g.Node? && g == f.(next := g.next) && Rep(x, g) &&
                Trees(g.next) == [Extract(Values(fs)[n])] + Trees(f.next)
            && CellsOf(fs[..n]) <= CellsOf(fs) && CellsOf(fs[..n]) !! Cells(g)
    ensures Queued(list, rest) && CellsOf(rest) !! Cells(g)
    ensures forall k | k in Cells(g) :: k in Cells(f) || k in CellsOf(fs) || fresh(k)
  {
    QueuedLast(first, fs);
    ghost var n := |first| - 1;
    ghost var pre, fe := fs[..n], fs[n];
    assert allocated(CellsOf(rest)) && allocated(CellsOf(pre)) && allocated(Cells(f));
    assert x !in CellsOf(pre) && x !in CellsOf(rest);
    g := InsertOne(x, first[|first| - 1], f, fe);
    assert Queued(first[..n], pre) && Queued(list, rest);
  }

  lemma {:induction false} TakeLast<T>(s: seq<T>, l: nat)
    requires l < |s|
    ensures s[..l + 1][..l] == s[..l] && s[..l + 1][l] == s[l]
  {
  }

  /** The same for all of them, the last one first. */
  method InsertAll(x: XmlCell, first: seq<XmlCell?>, ghost f: Forest, ghost fs: seq<Forest>,
                   ghost list: seq<XmlCell?>, ghost rest: seq<Forest>)
    returns (ghost g: Forest)
    requires Rep(x, f) && Queued(first, fs) && CellsOf(fs) !! Cells(f)
    requires Queued(list, rest) && CellsOf(fs) !! CellsOf(rest) && Cells(f) !! CellsOf(rest)
    modifies x, CellsOf(fs)
    ensures g.Node? && g == f.(next := g.next) && Rep(x, g) && Trees(g.next) == Extracts(Values(fs)) + Trees(f.next)
    ensures Queued(list, rest) && CellsOf(rest) !! Cells(g)
    ensures forall k | k in Cells(g) :: k in Cells(f) || k in CellsOf(fs) || fresh(k)
  {
    QueuedLength(first, fs);
    var l := |first|;
    ghost var pre, vs := fs, Values(fs);
    g := f;
    assert vs[l..] == [] && first[..l] == first && vs[..l] == vs;
    ConcatNothing(Trees(f.next));
    while l > 0
      invariant l <= |first| == |vs| && Queued(list, rest) && Queued(first[..l], pre) && Values(pre) == vs[..l]
      invariant CellsOf(pre) !! CellsOf(rest) && CellsOf(pre) <= CellsOf(fs)
      invariant g.Node? && g == f.(next := g.next) && Rep(x, g) && CellsOf(pre) !! Cells(g) && CellsOf(rest) !! Cells(g)
      invariant Trees(g.next) == Extracts(vs[l..]) + Trees(f.next)
      invariant forall k | k in Cells(g) :: k in Cells(f) || k in CellsOf(fs) || fresh(k)
    {
      assert allocated(Cells(g));
      ghost var h := InsertLast(x, first[..l], g, pre, list, rest);
      l := l - 1;
      TakeLast(first, l);
      TakeLast(vs, l);
      ExtractsSnoc(vs, l);
      ConcatAssoc([Extract(vs[l])], Extracts(vs[l + 1..]), Trees(f.next));
      pre := pre[..l];
      g := h;
    }
    assert vs[0..] == vs;
  }

  /** What the walk still has to go through once the statements behind the first element are in. */
  lemma {:induction false} SplitHere(ts: seq<Elem>, q: seq<Exp>, c: nat)
    requires ts != [] && c <= |q| && Wanted(ts[0]) == Some(c) && TextsNulFree(ts) && QuietExps(q)
    ensures QuietExps(q[..c]) && QuietExps(q[c..]) && TextsNulFree(Extracts(q[..c]) + ts[1..])
    ensures var next := Extracts(q[..c]) + ts[1..];
            Declarations(next) < Declarations(ts) ||
            (Declarations(next) == Declarations(ts) && PragmaWalk.Size(next) < PragmaWalk.Size(ts))
    ensures Declarations(ts[0].kids) <= Declarations(ts) && PragmaWalk.Size(ts[0].kids) < PragmaWalk.Size(ts) &&
            TextsNulFree(ts[0].kids)
  {
    QuietSplit(q, c);
    PlaceExtracts(q[..c], ts[1..], []);
    if c == 0 {
      assert q[..0] == [];
      ConcatNothing(ts[1..]);
    }
  }

  lemma {:induction false} PlaceJoin(ts: seq<Elem>, q: seq<Exp>, c: nat, kids: seq<Elem>, q': seq<Exp>)
    requires ts != [] && c <= |q| && Wanted(ts[0]) == Some(c) && QuietExps(q[..c]) &&
             Place(ts[0].kids, q[c..]) == Walked(kids, q')
    ensures match Place(Extracts(q[..c]) + ts[1..], q')
            case WalkFail => Place(ts, q).WalkFail?
            case Walked(next, q'') => Place(ts, q) == Walked([ts[0].(kids := kids)] + next, q'')
  {
    PlaceExtracts(q[..c], ts[1..], q');
    if Place(ts[1..], q').Walked? {
      ConcatAssoc([ts[0].(kids := kids)], Extracts(q[..c]), Place(ts[1..], q').trees);
    }
  }

  lemma {:induction false} CountAt(s: string, i: nat)
    requires i < |s|
    ensures CountExp(s[i..]) ==
            if IsQuote(s[i]) then
              ClosingBound(s[i + 1..], s[i]);
              match Closing(s[i + 1..], s[i]) case None => None case Some(n) => CountExp(s[i + n + 2..])
            else if s[i] == '`' then
              match IndexOf(s[i + 1..], '`') case None => None case Some(k) => AddTo(1, CountExp(s[i + k + 2..]))
            else CountExp(s[i + 1..])
  {
    var u := s[i..];
    assert u[0] == s[i] && u[1..] == s[i + 1..];
    if IsQuote(s[i]) {
      ClosingBound(s[i + 1..], s[i]);
      if Closing(s[i + 1..], s[i]).Some? {
        assert u[Closing(s[i + 1..], s[i]).value + 2..] == s[i + Closing(s[i + 1..], s[i]).value + 2..];
      }
    } else if s[i] == '`' && IndexOf(s[i + 1..], '`').Some? {
      assert u[IndexOf(s[i + 1..], '`').value + 2..] == s[i + IndexOf(s[i + 1..], '`').value + 2..];
    }
  }

  lemma {:induction false} AddToSum(k: nat, l: nat, c: Option<nat>)
    ensures AddTo(k, AddTo(l, c)) == AddTo(k + l, c)
  {
  }

  /** Passes over a string, an expression or any other character, up to its last one. */
  method PassItem(s: string, i: nat) returns (ok: bool, j: nat, d: nat)
    requires NulFree(s) && i < |s|
    ensures ok ==> i <= j < |s| && CountExp(s[i..]) == AddTo(d, CountExp(s[j + 1..]))
    ensures !ok ==> CountExp(s[i..]) == None
  {
    ok, j, d := true, i, 0;
    CountAt(s, i);
    if s[i] == '"' || s[i] == '\'' {
      assert s[i..][1..] == s[i + 1..];
      var e := EndstrF(s[i..]);
      if e.None? {
        ok := false;
        return;
      }
      ClosingBound(s[i + 1..], s[i]);
      j := i + e.value;
    } else if s[i] == '`' {
      var k := FindBackQuote(s, i + 1);
      if k.None? {
        ok := false;
        return;
      }
      j, d := k.value, 1;
    }
  }

  /** Counts the expressions between back quotes; fails where the source aborts. */
  method CountExpressions(s: string) returns (r: Option<nat>)
    requires NulFree(s)
    ensures r == CountExp(s)
  {
    var c, i: nat := 0, 0;
    assert s[0..] == s;
    while At(s, i) != '\0'
      invariant i <= |s| && CountExp(s) == AddTo(c, CountExp(s[i..]))
      decreases |s| - i
    {
      var ok, j, d := PassItem(s, i);
      if !ok {
        return None;
      }
      AddToSum(c, d, CountExp(s[j + 1..]));
      c, i := c + d, j + 1;
    }
    assert s[i..] == "";
    r := Some(c);
  }

  method FindBackQuote(s: string, i: nat) returns (r: Option<nat>)
    requires NulFree(s) && i <= |s|
    ensures match IndexOf(s[i..], '`') case None => r == None case Some(k) => r == Some(i + k)
  {
    var p: nat := i;
    while At(s, p) != '`' && At(s, p) != '\0'
      invariant i <= p <= |s|
      invariant IndexOf(s[i..], '`') == match IndexOf(s[p..], '`') case None => None case Some(k) => Some(p - i + k)
      decreases |s| - p
    {
      assert s[p..][1..] == s[p + 1..];
      p := p + 1;
    }
    r := if p == |s| then None else Some(p);
  }

  class ExpQueue {
    var list: seq<XmlCell?>

    constructor (list: seq<XmlCell?>)
      ensures this.list == list
    {
      this.list := list;
    }

    /** Puts the next `c` expressions as statements between the cell and what followed it, in their
        order: the first `c` are turned round and put in one by one. */
    method Insert(x: XmlCell, c: nat, ghost f: Forest, ghost fs: seq<Forest>) returns (ghost g: Forest)
      requires Rep(x, f) && Queued(list, fs) && c <= |list| && CellsOf(fs) !! Cells(f)
      modifies this, x, CellsOf(fs)
      ensures c <= |fs| == |Values(fs)| && g.Node? && g == f.(next := g.next) && Rep(x, g)
      ensures Trees(g.next) == Extracts(Values(fs)[..c]) + Trees(f.next)
      ensures Queued(list, fs[c..]) && CellsOf(fs[c..]) !! Cells(g)
      ensures forall k | k in Cells(g) :: k in Cells(f) || k in CellsOf(fs) || fresh(k)
    {
      QueuedSplit(list, fs, c);
      var first := list[..c];
      list := list[c..];
      g := InsertAll(x, first, f, fs[..c], list, fs[c..]);
    }

    /** How many expressions the text of a directive asks for. */
    method CheckExp(x: XmlCell, ghost f: Forest) returns (c: Option<nat>)
      requires Rep(x, f) && TextsNulFree(Trees(f))
      ensures c == Wanted(Trees(f)[0])
    {
      HeadTree(f);
      KidTree(f);
      if x.name != "SgPragmaDeclaration" {
        return Some(0);
      }
      if x.child == null {
        return None;
      }
      assert Rep(x.child, f.child);
      var text := AttrValue(x.child.attrs, "pragma");
      if text.None? {
        return None;
      }
      c := CountExpressions(text.value);
    }

    /** What a walk has made of the cells at `x` and of the queue. */
    ghost predicate Placed(ok: bool, x: XmlCell?, g: Forest, gs: seq<Forest>, r: Walked)
      reads this, Cells(g), CellsOf(gs)
    {
      match r
      case WalkFail => !ok
      case Walked(ts, q) =>
        && ok && Rep(x, g) && Queued(list, gs) && CellsOf(gs) !! Cells(g)
        && Trees(g) == ts && Values(gs) == q && QuietExps(q)
    }

    /** Puts behind the cell what its own text asks for. */
    method PlaceHere(x: XmlCell, ghost f: Forest, ghost fs: seq<Forest>)
      returns (ok: bool, ghost c: nat, ghost g: Forest, ghost gs: seq<Forest>)
      requires Rep(x, f) && Queued(list, fs) && CellsOf(fs) !! Cells(f)
      modifies this, x, CellsOf(fs)
      requires TextsNulFree(Trees(f)) && QuietExps(Values(fs))
      ensures ok == (Wanted(Trees(f)[0]).Some? && Wanted(Trees(f)[0]).value <= |Values(fs)|)
      ensures ok ==>
                && Wanted(Trees(f)[0]) == Some(c) && c <= |Values(fs)| && g.Node? && g == f.(next := g.next) &&
                    Rep(x, g)
                && Trees(g.next) == Extracts(Values(fs)[..c]) + Trees(f.next) && Values(gs) == Values(fs)[c..]
                && Queued(list, gs) && CellsOf(gs) !! Cells(g)
      ensures ok ==> forall k | k in Cells(g) + CellsOf(gs) :: k in Cells(f) || k in CellsOf(fs) || fresh(k)
    {
      c, g, gs := 0, f, fs;
      QueuedLength(list, fs);
      assert allocated(Cells(f)) && allocated(CellsOf(fs));
      var w := CheckExp(x, f);
      if w.None? || w.value > |list| {
        return false, 0, f, fs;
      }
      QueuedSplit(list, fs, w.value);
      g := Insert(x, w.value, f, fs);
      ok, c, gs := true, w.value, fs[w.value..];
    }

    /** Puts expressions behind the directives at, below and behind the cell; it walks through the
        statements it has put in as well. */
    method PlaceExp(x: XmlCell, ghost f: Forest, ghost fs: seq<Forest>)
      returns (ok: bool, ghost g: Forest, ghost gs: seq<Forest>)
      requires Rep(x, f) && Queued(list, fs) && CellsOf(fs) !! Cells(f)
      requires TextsNulFree(Trees(f)) && QuietExps(Values(fs))
      modifies this, Cells(f), CellsOf(fs)
      ensures Placed(ok, x, g, gs, Place(Trees(f), Values(fs)))
      ensures ok ==> forall k | k in Cells(g) + CellsOf(gs) :: k in Cells(f) || k in CellsOf(fs) || fresh(k)
      decreases Declarations(Trees(f)), PragmaWalk.Size(Trees(f)), 1
    {
      g, gs := f, fs;
      HeadTree(f);
      assert allocated(Cells(f)) && allocated(CellsOf(fs));
      ghost var c, h, hs;
      ok, c, h, hs := PlaceHere(x, f, fs);
      if !ok {
        return;
      }
      assert allocated(Cells(h)) && allocated(CellsOf(hs));
      ok, g, gs := PlaceRest(x, c, Trees(f), Values(fs), h, hs);
    }

    /** The same once the `c` statements behind the first element of `ts` are in. */
    method PlaceRest(x: XmlCell, ghost c: nat, ghost ts: seq<Elem>, ghost q: seq<Exp>, ghost f: Forest,
                     ghost fs: seq<Forest>)
      returns (ok: bool, ghost g: Forest, ghost gs: seq<Forest>)
      requires Rep(x, f) && Queued(list, fs) && CellsOf(fs) !! Cells(f)
      requires ts != [] && TextsNulFree(ts) && QuietExps(q) && c <= |q| && Wanted(ts[0]) == Some(c)
      requires Trees(f) != [] && Trees(f)[0] == ts[0] && Values(fs) == q[c..]
      requires f.Node? && Trees(f.next) == Extracts(q[..c]) + ts[1..]
      modifies this, Cells(f), CellsOf(fs)
      ensures Placed(ok, x, g, gs, Place(ts, q))
      ensures ok ==> forall k | k in Cells(g) + CellsOf(gs) :: k in Cells(f) || k in CellsOf(fs) || fresh(k)
      decreases Declarations(ts), PragmaWalk.Size(ts), 0
    {
      HeadTree(f);
      SplitHere(ts, q, c);
      assert allocated(Cells(f)) && allocated(CellsOf(fs));
      ok, g, gs := PlaceBelow(x, f, fs);
      if !ok {
        return;
      }
      ghost var h, hs := g, gs;
      assert allocated(Cells(h)) && allocated(CellsOf(hs));
      PlaceJoin(ts, q, c, Trees(h.child), Values(hs));
      ok, g, gs := PlaceBehind(x, h, hs);
    }

    method PlaceBelow(x: XmlCell, ghost f: Forest, ghost fs: seq<Forest>)
      returns (ok: bool, ghost g: Forest, ghost gs: seq<Forest>)
      requires Rep(x, f) && Queued(list, fs) && CellsOf(fs) !! Cells(f)
      requires TextsNulFree(Trees(f.child)) && QuietExps(Values(fs))
      modifies this, x, Cells(f.child), CellsOf(fs)
      ensures match Place(Trees(f.child), Values(fs))
              case WalkFail => !ok
              case Walked(ts, q) =>
                && ok && g.Node? && g == f.(child := g.child) && Rep(x, g) && Queued(list, gs) &&
                    CellsOf(gs) !! Cells(g)
                && Trees(g.child) == ts && Values(gs) == q && QuietExps(q)
      ensures ok ==> forall k | k in Cells(g) + CellsOf(gs) :: k in Cells(f) || k in CellsOf(fs) || fresh(k)
      decreases Declarations(Trees(f.child)), PragmaWalk.Size(Trees(f.child)), 2
    {
      ok, g, gs := true, f, fs;
      if x.child != null {
        ghost var fn := f.next;
        assert Rep(x.next, fn) && Rep(x.child, f.child) && allocated(Cells(fn)) && x !in CellsOf(fs);
        ghost var k;
        ok, k, gs := PlaceExp(x.child, f.child, fs);
        if ok {
          assert Rep(x.next, fn) && Rep(x.child, k);
          g := f.(child := k);
        }
      }
    }

    method PlaceBehind(x: XmlCell, ghost f: Forest, ghost fs: seq<Forest>)
      returns (ok: bool, ghost g: Forest, ghost gs: seq<Forest>)
      requires Rep(x, f) && Queued(list, fs) && CellsOf(fs) !! Cells(f)
      requires TextsNulFree(Trees(f.next)) && QuietExps(Values(fs))
      modifies this, x, Cells(f.next), CellsOf(fs)
      ensures match Place(Trees(f.next), Values(fs))
              case WalkFail => !ok
              case Walked(ts, q) =>
                && ok && g.Node? && g == f.(next := g.next) && Rep(x, g) && Queued(list, gs) && CellsOf(gs) !! Cells(g)
                && Trees(g.next) == ts && Values(gs) == q && QuietExps(q)
      ensures ok ==> forall k | k in Cells(g) + CellsOf(gs) :: k in Cells(f) || k in CellsOf(fs) || fresh(k)
      decreases Declarations(Trees(f.next)), PragmaWalk.Size(Trees(f.next)), 2
    {
      ok, g, gs := true, f, fs;
      if x.next != null {
        ghost var fc := f.child;
        assert Rep(x.child, fc) && Rep(x.next, f.next) && allocated(Cells(fc)) && x !in CellsOf(fs);
        ghost var k;
        ok, k, gs := PlaceExp(x.next, f.next, fs);
        if ok {
          assert Rep(x.child, fc) && Rep(x.next, k);
          g := f.(next := k);
        }
      }
    }
  }
}
