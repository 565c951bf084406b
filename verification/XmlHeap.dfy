/** The mutable element tree: cells linked by first child and next sibling, and the
    operations that cut and join those links in place. A `Forest` names the cells a link leads to
    and what they hold, so that methods can say which structure they leave behind. */
module XmlHeap {
  import opened Wrappers
  import opened Xml

  class XmlCell {
    var name: string
    var attrs: seq<Attr>
    var child: XmlCell?
    var next: XmlCell?

    constructor (name: string, attrs: seq<Attr>)
      ensures this.name == name && this.attrs == attrs && child == null && next == null
    {
      this.name, this.attrs := name, attrs;
      child, next := null, null;
    }
  }

  datatype Forest = Nil | Node(cell: XmlCell, name: string, attrs: seq<Attr>, child: Forest, next: Forest)

  ghost function Cells(f: Forest): set<XmlCell> {
    match f
    case Nil => {}
    case Node(c, _, _, a, b) => {c} + Cells(a) + Cells(b)
  }

  function Head(f: Forest): XmlCell? {
    if f.Nil? then null else f.cell
  }

  /** `x` leads to exactly the structure `f`, and no cell is reached twice. */
  ghost predicate Rep(x: XmlCell?, f: Forest)
    reads Cells(f)
  {
    match f
    case Nil => x == null
    case Node(c, name, attrs, a, b) =>
      && x == c && c.name == name && c.attrs == attrs
      && c !in Cells(a) && c !in Cells(b) && Cells(a) !! Cells(b)
      && Rep(c.child, a) && Rep(c.next, b)
  }

  ghost function Trees(f: Forest): seq<Elem> {
    match f
    case Nil => []
    case Node(_, name, attrs, a, b) => [Elem(name, attrs, Trees(a))] + Trees(b)
  }

  lemma {:induction false} HeadTree(f: Forest)
    requires f.Node?
    ensures Trees(f)[0] == Elem(f.name, f.attrs, Trees(f.child)) && Trees(f)[1..] == Trees(f.next)
  {
  }

  lemma {:induction false} KidTree(f: Forest)
    requires f.Node?
    ensures Trees(f)[0].kids == Trees(f.child) && (Trees(f.child) != [] <==> f.child.Node?)
    ensures f.child.Node? ==> Trees(f.child)[0].name == f.child.name && Trees(f.child)[0].attrs == f.child.attrs
    ensures f.child.Node? ==> Trees(f.child)[0].kids == Trees(f.child.child) &&
                              Trees(f.child)[1..] == Trees(f.child.next)
  {
    HeadTree(f);
    if f.child.Node? {
      HeadTree(f.child);
    }
  }

  lemma {:induction false} CellsOne(f: Forest)
    requires f.Node? && f.child.Nil? && f.next.Nil?
    ensures Cells(f) == {f.cell}
  {
  }

  ghost function Size(f: Forest): nat {
    match f
    case Nil => 0
    case Node(_, _, _, a, b) => 1 + Size(a) + Size(b)
  }

  ghost function Len(f: Forest): nat {
    if f.Nil? then 0 else 1 + Len(f.next)
  }

  ghost function Suffix(f: Forest, k: nat): Forest
    requires k <= Len(f)
  {
    if k == 0 then f else Suffix(f.next, k - 1)
  }

  /** `f` with everything after its first `k` siblings replaced by `g`. */
  ghost function Splice(f: Forest, k: nat, g: Forest): Forest
    requires k <= Len(f)
  {
    if k == 0 then g else f.(next := Splice(f.next, k - 1, g))
  }

  ghost function Concat(f: Forest, g: Forest): Forest {
    if f.Nil? then g else f.(next := Concat(f.next, g))
  }

  ghost function Single(f: Forest): Forest
    requires f.Node?
  {
    f.(next := Nil)
  }

  lemma {:induction false} SpliceCells(f: Forest, k: nat, g: Forest)
    requires k <= Len(f)
    ensures Cells(Splice(f, k, g)) == Cells(Splice(f, k, Nil)) + Cells(g)
    ensures Cells(f) == Cells(Splice(f, k, Nil)) + Cells(Suffix(f, k))
  {
    if k > 0 {
      SpliceCells(f.next, k - 1, g);
    }
  }

  lemma {:induction false} SpliceAll(f: Forest, g: Forest)
    ensures Splice(f, Len(f), g) == Concat(f, g)
    ensures Concat(f, Nil) == f
  {
    if f.Node? {
      SpliceAll(f.next, g);
    }
  }

  lemma {:induction false} ConcatFacts(f: Forest, g: Forest)
    ensures Cells(Concat(f, g)) == Cells(f) + Cells(g)
    ensures Trees(Concat(f, g)) == Trees(f) + Trees(g)
    ensures Size(Concat(f, g)) == Size(f) + Size(g)
    ensures Head(Concat(f, g)) == if f.Nil? then Head(g) else Head(f)
  {
    if f.Nil? {
      assert [] + Trees(g) == Trees(g);
    } else {
      ConcatFacts(f.next, g);
      assert [Elem(f.name, f.attrs, Trees(f.child))] + (Trees(f.next) + Trees(g)) == Trees(f) + Trees(g);
    }
  }

  lemma {:induction false} ConcatSplit(f: Forest, g: Forest, h: Forest)
    ensures Len(f) <= Len(Concat(f, g))
    ensures Suffix(Concat(f, g), Len(f)) == g && Splice(Concat(f, g), Len(f), h) == Concat(f, h)
  {
    if f.Node? {
      ConcatSplit(f.next, g, h);
    }
  }

  /** The first `k` siblings of `f`, from `x` to just before `y`. */
  ghost predicate Segment(x: XmlCell?, f: Forest, k: nat, y: XmlCell?)
    requires k <= Len(f)
    reads Cells(Splice(f, k, Nil))
  {
    if k == 0 then x == y else
      && x == f.cell && f.cell.name == f.name && f.cell.attrs == f.attrs
      && f.cell !in Cells(f.child) && f.cell !in Cells(Splice(f.next, k - 1, Nil))
      && Cells(f.child) !! Cells(Splice(f.next, k - 1, Nil))
      && Rep(f.cell.child, f.child) && Segment(f.cell.next, f.next, k - 1, y)
  }

  lemma {:induction false} RepSplit(x: XmlCell?, f: Forest, k: nat)
    requires Rep(x, f) && k <= Len(f)
    ensures var g := Suffix(f, k); Segment(x, f, k, Head(g)) && Rep(Head(g), g)
    ensures Cells(f) == Cells(Splice(f, k, Nil)) + Cells(Suffix(f, k))
    ensures Cells(Splice(f, k, Nil)) !! Cells(Suffix(f, k))
  {
    if k > 0 {
      RepSplit(f.cell.next, f.next, k - 1);
    }
  }

  lemma {:induction false} RepJoin(x: XmlCell?, f: Forest, k: nat, y: XmlCell?, g: Forest)
    requires k <= Len(f) && Segment(x, f, k, y) && Rep(y, g)
    requires Cells(Splice(f, k, Nil)) !! Cells(g)
    ensures Rep(x, Splice(f, k, g))
  {
    if k > 0 {
      SpliceCells(f.next, k - 1, g);
      RepJoin(f.cell.next, f.next, k - 1, y, g);
    }
  }

  lemma {:induction false} SuffixNext(f: Forest, k: nat)
    requires k < Len(f)
    ensures Suffix(f, k).Node? && Suffix(f, k).next == Suffix(f, k + 1)
    ensures Len(Suffix(f, k)) == Len(f) - k
  {
    if k > 0 {
      SuffixNext(f.next, k - 1);
    }
  }

  lemma {:induction false} SpliceNext(f: Forest, k: nat, g: Forest)
    requires k < Len(f)
    ensures Suffix(f, k).Node?
    ensures Splice(f, k, Suffix(f, k).(next := g)) == Splice(f, k + 1, g)
  {
    if k > 0 {
      SpliceNext(f.next, k - 1, g);
    }
  }

  /** Sets the link after the `k`-th sibling `c`: the siblings up to there stay as they are. */
  method Relink(x: XmlCell, c: XmlCell, y: XmlCell?, ghost f: Forest, ghost k: nat, ghost g: Forest)
    requires Rep(x, f) && k < Len(f) && c == Head(Suffix(f, k))
    requires Rep(y, g) && Cells(g) !! Cells(Splice(f, k + 1, Nil))
    modifies c
    ensures Rep(x, Splice(f, k + 1, g))
  {
    RepSplit(x, f, k);
    SpliceNext(f, k, Nil);
    SpliceNext(f, k, g);
    ghost var here := Suffix(f, k);
    SpliceCells(f, k, here.(next := Nil));
    assert Cells(here.(next := Nil)) == {c} + Cells(here.child);
    c.next := y;
    assert Rep(c, here.(next := g));
    RepJoin(x, f, k, c, here.(next := g));
  }

  method XmlAppend(x: XmlCell, y: XmlCell?, ghost f: Forest, ghost g: Forest)
    requires Rep(x, f) && Rep(y, g) && Cells(f) !! Cells(g)
    modifies Cells(f)
    ensures Rep(x, Concat(f, g))
  {
    var xx: XmlCell := x;
    ghost var k := 0;
    while xx.next != null
      invariant Rep(x, f) && Rep(y, g)
      invariant k < Len(f) && xx == Head(Suffix(f, k)) && Rep(xx, Suffix(f, k))
      decreases Len(f) - k
    {
      SuffixNext(f, k);
      xx := xx.next;
      k := k + 1;
    }
    SuffixNext(f, k);
    RepSplit(x, f, k);
    assert Len(f) == k + 1;
    SpliceCells(f, k + 1, Nil);
    SpliceAll(f, g);
    Relink(x, xx, y, f, k, g);
  }

  method XmlAppendChild(x: XmlCell, c: XmlCell?, ghost f: Forest, ghost g: Forest)
    requires Rep(x, f) && Rep(c, g) && Cells(f) !! Cells(g)
    modifies x, Cells(f.child)
    ensures Rep(x, f.(child := Concat(f.child, g)))
  {
    ConcatFacts(f.child, g);
    assert Rep(x.next, f.next) && Cells(f.next) !! Cells(f.child) && x !in Cells(f.next);
    assert allocated(Cells(f.next));
    if x.child == null {
      x.child := c;
    } else {
      XmlAppend(x.child, c, f.child, g);
    }
    assert Rep(x.next, f.next);
  }

  /** Puts the siblings `n` between `x` and what followed it. */
  method XmlInsertNext(x: XmlCell, n: XmlCell, ghost f: Forest, ghost g: Forest)
    requires Rep(x, f) && Rep(n, g) && Cells(f) !! Cells(g)
    modifies x, Cells(g)
    ensures Rep(x, f.(next := Concat(g, f.next)))
  {
    assert Rep(x.child, f.child) && Cells(f.child) !! Cells(g) && x !in Cells(f.child);
    assert allocated(Cells(f.child));
    XmlAppend(n, x.next, g, f.next);
    ConcatFacts(g, f.next);
    x.next := n;
    assert Rep(x.child, f.child);
  }

  /** Puts the siblings `c` ahead of the children of `x`. */
  method XmlInsertChild(x: XmlCell, c: XmlCell, ghost f: Forest, ghost g: Forest)
    requires Rep(x, f) && Rep(c, g) && Cells(f) !! Cells(g)
    modifies x, Cells(g)
    ensures Rep(x, f.(child := Concat(g, f.child)))
  {
    assert Rep(x.next, f.next) && Cells(f.next) !! Cells(g) && x !in Cells(f.next);
    assert allocated(Cells(f.next));
    XmlAppend(c, x.child, g, f.child);
    ConcatFacts(g, f.child);
    x.child := c;
    assert Rep(x.next, f.next);
  }

  /** Takes the first child `y` off, whatever has become of the cells below it. */
  method DetachChild(x: XmlCell, y: XmlCell, ghost f: Forest)
    requires f.Node? && f.child.Node? && x == f.cell && y == f.child.cell && x.child == y && x.name == f.name &&
             x.attrs == f.attrs
    requires x !in Cells(f.child) && x !in Cells(f.next) && Cells(f.child) !! Cells(f.next) && y !in Cells(f.child.next)
    requires Rep(x.next, f.next) && Rep(y.next, f.child.next)
    modifies x, y
    ensures Rep(x, f.(child := f.child.next))
    ensures y.next == null && y.child == old(y.child) && y.name == old(y.name) && y.attrs == old(y.attrs)
  {
    ghost var g, fn := f.child, f.next;
    x.child := y.next;
    y.next := null;
    assert Rep(x.child, g.next) && Rep(x.next, fn);
  }

  method DetachNext(x: XmlCell, y: XmlCell, ghost f: Forest)
    requires f.Node? && f.next.Node? && x == f.cell && y == f.next.cell && x.next == y && x.name == f.name &&
             x.attrs == f.attrs
    requires x !in Cells(f.child) && x !in Cells(f.next) && Cells(f.child) !! Cells(f.next) && y !in Cells(f.next.next)
    requires Rep(x.child, f.child) && Rep(y.next, f.next.next)
    modifies x, y
    ensures Rep(x, f.(next := f.next.next))
    ensures y.next == null && y.child == old(y.child) && y.name == old(y.name) && y.attrs == old(y.attrs)
  {
    ghost var g, fc := f.next, f.child;
    x.next := y.next;
    y.next := null;
    assert Rep(x.next, g.next) && Rep(x.child, fc);
  }
}
