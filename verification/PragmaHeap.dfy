/** Printing and parsing all directives of a program by replacing cells, with the code expressions moving
    to and from a queue. */
module PragmaHeap {
  import opened Wrappers
  import opened Xml
  import opened XmlHeap
  import opened CellQueue
  import opened LangStr
  import opened Directive
  import opened DirectivePrinter
  import opened DirectiveReader
  import opened PragmaTree
  import opened PragmaWalk

  // ----- printing

  /** `h` is the text of a directive, numbered from `n` on, and its code expressions are queued. */
  ghost predicate Printed(t: Elem, fs: seq<Forest>, n: nat, h: Forest, gs: seq<Forest>, m: nat) {
    var cs := PragmaOf(t);
    && Trees(h) == [Declaration(PragmaText(cs, n))]
    && Values(gs) == Values(fs) + PragmaCodes(cs) && m == n + |PragmaCodes(cs)|
  }

  /** Text in place of a directive; its code expressions go to the queue. */
  method RestorePragma(out: Unparser, y: XmlCell, ghost fy: Forest, ghost fs: seq<Forest>)
    returns (z: XmlCell, ghost h: Forest, ghost gs: seq<Forest>)
    requires Rep(y, fy) && fy.child.Node? && PrintableClauses(Trees(fy.child.child))
    requires Queued(out.exlist, fs) && CellsOf(fs) !! Cells(fy)
    modifies out, Cells(fy.child.child)
    ensures Rep(z, h) && forall k | k in Cells(h) :: fresh(k)
    ensures Queued(out.exlist, gs) && CellsOf(gs) <= CellsOf(fs) + Cells(fy) && CellsOf(gs) !! Cells(h)
    ensures Printed(Trees(fy)[0], fs, old(out.numEx), h, gs, out.numEx)
  {
    HeadTree(fy);
    HeadTree(fy.child);
    assert Rep(y.child, fy.child) && Rep(y.child.child, fy.child.child);
    assert allocated(Cells(fy.child.child)) && allocated(CellsOf(fs));
    var text;
    text, gs := out.XevUnparsePragma(y.child.child, fy.child.child, fs);
    assert allocated(CellsOf(gs));
    z, h := NewDeclaration(text);
  }

  method NewDeclaration(text: string) returns (z: XmlCell, ghost h: Forest)
    ensures Rep(z, h) && Trees(h) == [Declaration(text)] && forall k | k in Cells(h) :: fresh(k)
  {
    z := new XmlCell("SgPragmaDeclaration", []);
    var c := new XmlCell("SgPragma", [Attr("pragma", text)]);
    z.child := c;
    h := Node(z, z.name, z.attrs, Node(c, c.name, c.attrs, Nil, Nil), Nil);
    CellsOne(h.child);
    assert Trees(h.child) == [Elem("SgPragma", c.attrs, [])];
  }

  /** What becomes of a list whose first element is printed if it is a directive. */
  ghost predicate Restored(f: Forest, fs: seq<Forest>, n: nat, g: Forest, gs: seq<Forest>, m: nat) {
    var ts, us := Trees(f), Trees(g);
    && m >= n && Unparse(us, m) == Unparse(ts, n) && m + |CodesIn(us)| == n + |CodesIn(ts)|
    && Values(gs) + CodesIn(us) == Values(fs) + CodesIn(ts)
    && PragmaWalk.Size(us) <= PragmaWalk.Size(ts) && PrintableTrees(us) && (us != [] ==> !IsPragma(us[0]))
  }

  lemma {:induction false} RestoredHead(f: Forest, fs: seq<Forest>, n: nat, h: Forest, gs: seq<Forest>, m: nat)
    requires f.Node? && PrintableTrees(Trees(f)) && IsPragma(Trees(f)[0]) && Printed(Trees(f)[0], fs, n, h, gs, m)
    ensures Restored(f, fs, n, Concat(h, f.next), gs, m)
  {
    HeadTree(f);
    HeadRestored(Trees(f), n);
    ConcatFacts(h, f.next);
    var us := Trees(Concat(h, f.next));
    ConcatAssoc(Values(fs), CodesOne(Trees(f)[0]), CodesIn(us));
  }

  lemma {:induction false} NotRestored(f: Forest, fs: seq<Forest>, n: nat)
    requires PrintableTrees(Trees(f)) && (f.Node? ==> f.name != "xev_pragma")
    ensures Restored(f, fs, n, f, fs, n)
  {
    if f.Node? {
      HeadTree(f);
    }
  }

  lemma {:induction false} PragmaShape(f: Forest)
    requires f.Node? && f.name == "xev_pragma" && PrintableTrees(Trees(f))
    ensures f.child.Node? && PrintableClauses(Trees(f.child.child)) && IsPragma(Trees(f)[0])
    ensures Trees(Single(f)) == [Trees(f)[0]] && Cells(Single(f)) == {f.cell} + Cells(f.child)
  {
    HeadTree(f);
    KidTree(f);
  }

  /** Takes the first child off. */
  method TakeOff(x: XmlCell, ghost f: Forest) returns (y: XmlCell)
    requires Rep(x, f) && f.child.Node?
    modifies x, Cells(f.child)
    ensures y == f.child.cell && Rep(x, f.(child := f.child.next)) && Rep(y, Single(f.child))
  {
    ghost var fy := f.child;
    assert Rep(x.child, fy) && Rep(x.next, f.next) && fy.cell == x.child;
    y := x.child;
    assert Rep(y.next, fy.next) && Rep(y.child, fy.child);
    assert allocated(Cells(fy.child));
    DetachChild(x, y, f);
  }

  method RestoreChild(out: Unparser, x: XmlCell, ghost f: Forest, ghost fs: seq<Forest>)
    returns (ghost g: Forest, ghost gs: seq<Forest>)
    requires Rep(x, f) && Queued(out.exlist, fs) && CellsOf(fs) !! Cells(f) && PrintableTrees(Trees(f.child))
    modifies out, x, Cells(f.child)
    ensures g.Node? && g == f.(child := g.child) && Rep(x, g) && Queued(out.exlist, gs) && CellsOf(gs) !! Cells(g)
    ensures CellsOf(gs) <= CellsOf(fs) + Cells(f.child) && forall k | k in Cells(g) :: k in Cells(f) || fresh(k)
    ensures Restored(f.child, fs, old(out.numEx), g.child, gs, out.numEx)
  {
    if x.child == null || x.child.name != "xev_pragma" {
      NotRestored(f.child, fs, out.numEx);
      return f, fs;
    }
    PragmaShape(f.child);
    assert allocated(CellsOf(fs)) && allocated(Cells(f));
    var cold := TakeOff(x, f);
    assert Queued(out.exlist, fs);
    ghost var h;
    h, gs := RestoreOne(out, x, cold, f, Single(f.child), fs);
    RestoredHead(f.child, fs, old(out.numEx), h, gs, out.numEx);
    g := f.(child := Concat(h, f.child.next));
  }

  /** Puts text for the detached directive `cold` ahead of the children. */
  method RestoreOne(out: Unparser, x: XmlCell, cold: XmlCell, ghost f: Forest, ghost fy: Forest, ghost fs: seq<Forest>)
    returns (ghost h: Forest, ghost gs: seq<Forest>)
    requires f.Node? && f.child.Node? && Rep(x, f.(child := f.child.next)) && fy == Single(f.child) && Rep(cold, fy)
    requires Cells(fy) !! Cells(f.(child := f.child.next)) && fy.child.Node? && PrintableClauses(Trees(fy.child.child))
    requires Queued(out.exlist, fs) && CellsOf(fs) !! Cells(f)
    modifies out, x, Cells(fy.child.child)
    ensures Rep(x, f.(child := Concat(h, f.child.next))) && Queued(out.exlist, gs) &&
            CellsOf(gs) !! Cells(f.(child := Concat(h, f.child.next)))
    ensures CellsOf(gs) <= CellsOf(fs) + Cells(f.child) &&
            forall k | k in Cells(f.(child := Concat(h, f.child.next))) :: k in Cells(f) || fresh(k)
    ensures Printed(Trees(fy)[0], fs, old(out.numEx), h, gs, out.numEx)
  {
    ghost var g := f.(child := f.child.next);
    assert allocated(Cells(g)) && allocated(CellsOf(fs)) && Cells(fy) <= Cells(f.child);
    var cnew;
    cnew, h, gs := RestorePragma(out, cold, fy, fs);
    assert Rep(x, g) && allocated(CellsOf(gs));
    XmlInsertChild(x, cnew, g, h);
    ConcatFacts(h, g.child);
  }

  method TakeOffNext(x: XmlCell, ghost f: Forest) returns (y: XmlCell)
    requires Rep(x, f) && f.next.Node?
    modifies x, Cells(f.next)
    ensures y == f.next.cell && Rep(x, f.(next := f.next.next)) && Rep(y, Single(f.next))
  {
    ghost var fy := f.next;
    assert Rep(x.next, fy) && Rep(x.child, f.child) && fy.cell == x.next;
    y := x.next;
    assert Rep(y.next, fy.next) && Rep(y.child, fy.child);
    assert allocated(Cells(fy.child));
    DetachNext(x, y, f);
  }

  method RestoreNext(out: Unparser, x: XmlCell, ghost f: Forest, ghost fs: seq<Forest>)
    returns (ghost g: Forest, ghost gs: seq<Forest>)
    requires Rep(x, f) && Queued(out.exlist, fs) && CellsOf(fs) !! Cells(f) && PrintableTrees(Trees(f.next))
    modifies out, x, Cells(f.next)
    ensures g.Node? && g == f.(next := g.next) && Rep(x, g) && Queued(out.exlist, gs) && CellsOf(gs) !! Cells(g)
    ensures CellsOf(gs) <= CellsOf(fs) + Cells(f.next) && forall k | k in Cells(g) :: k in Cells(f) || fresh(k)
    ensures Restored(f.next, fs, old(out.numEx), g.next, gs, out.numEx)
  {
    if x.next == null || x.next.name != "xev_pragma" {
      NotRestored(f.next, fs, out.numEx);
      return f, fs;
    }
    PragmaShape(f.next);
    assert allocated(CellsOf(fs)) && allocated(Cells(f));
    var pold := TakeOffNext(x, f);
    assert Queued(out.exlist, fs);
    ghost var h;
    h, gs := RestoreBehind(out, x, pold, f, Single(f.next), fs);
    RestoredHead(f.next, fs, old(out.numEx), h, gs, out.numEx);
    g := f.(next := Concat(h, f.next.next));
  }

  /** Puts text for the detached directive `pold` behind the cell. */
  method RestoreBehind(out: Unparser, x: XmlCell, pold: XmlCell, ghost f: Forest, ghost fy: Forest,
                       ghost fs: seq<Forest>)
    returns (ghost h: Forest, ghost gs: seq<Forest>)
    requires f.Node? && f.next.Node? && Rep(x, f.(next := f.next.next)) && fy == Single(f.next) && Rep(pold, fy)
    requires Cells(fy) !! Cells(f.(next := f.next.next)) && fy.child.Node? && PrintableClauses(Trees(fy.child.child))
    requires Queued(out.exlist, fs) && CellsOf(fs) !! Cells(f)
    modifies out, x, Cells(fy.child.child)
    ensures Rep(x, f.(next := Concat(h, f.next.next))) && Queued(out.exlist, gs) &&
            CellsOf(gs) !! Cells(f.(next := Concat(h, f.next.next)))
    ensures CellsOf(gs) <= CellsOf(fs) + Cells(f.next) &&
            forall k | k in Cells(f.(next := Concat(h, f.next.next))) :: k in Cells(f) || fresh(k)
    ensures Printed(Trees(fy)[0], fs, old(out.numEx), h, gs, out.numEx)
  {
    ghost var g := f.(next := f.next.next);
    assert allocated(Cells(g)) && allocated(CellsOf(fs)) && Cells(fy) <= Cells(f.next);
    var pnew;
    pnew, h, gs := RestorePragma(out, pold, fy, fs);
    assert Rep(x, g) && allocated(CellsOf(gs));
    XmlInsertNext(x, pnew, g, h);
    ConcatFacts(h, g.next);
  }

  lemma {:induction false} UnparseParts(f: Forest, n: nat)
    requires f.Node? && !IsPragma(Trees(f)[0]) && PrintableTrees(Trees(f))
    ensures PrintableTrees(Trees(f.child)) && PrintableTrees(Trees(f.next))
    ensures PragmaWalk.Size(Trees(f.child)) < PragmaWalk.Size(Trees(f)) &&
            PragmaWalk.Size(Trees(f.next)) < PragmaWalk.Size(Trees(f))
    ensures var a := CodesIn(Trees(f.child));
            && CodesIn(Trees(f)) == a + CodesIn(Trees(f.next))
            && Unparse(Trees(f), n) == [Elem(f.name, f.attrs, Unparse(Trees(f.child), n))] +
                Unparse(Trees(f.next), n + |a|)
  {
    HeadTree(f);
  }

  /** The trees are printed, numbered from `n` on, and their code expressions queued. */
  ghost predicate Unparsed(f: Forest, fs: seq<Forest>, n: nat, g: Forest, gs: seq<Forest>, m: nat) {
    && Trees(g) == Unparse(Trees(f), n)
    && Values(gs) == Values(fs) + CodesIn(Trees(f)) && m == n + |CodesIn(Trees(f))|
  }

  lemma {:induction false} QueueSum(v: seq<Exp>, a: seq<Exp>, b: seq<Exp>, v1: seq<Exp>, v2: seq<Exp>, n: nat,
                                    m: nat, k: nat)
    requires v1 == v + a && m == n + |a| && v2 == v1 + b && k == m + |b|
    ensures v2 == v + (a + b) && k == n + |a + b|
  {
    ConcatAssoc(v, a, b);
  }

  lemma {:induction false} UnparsedBoth(f: Forest, fs: seq<Forest>, n: nat, h: Forest, hs: seq<Forest>, m: nat,
                                        g: Forest, gs: seq<Forest>, k: nat)
    requires f.Node? && !IsPragma(Trees(f)[0]) && PrintableTrees(Trees(f))
    requires h.Node? && h == f.(child := h.child) && g.Node? && g == h.(next := g.next)
    requires Unparsed(f.child, fs, n, h.child, hs, m) && Unparsed(f.next, hs, m, g.next, gs, k)
    ensures Unparsed(f, fs, n, g, gs, k)
  {
    var a, b := CodesIn(Trees(f.child)), CodesIn(Trees(f.next));
    assert Trees(g) == Unparse(Trees(f), n) && CodesIn(Trees(f)) == a + b by {
      UnparseParts(f, n);
      TreesOfNode(g, f.name, f.attrs, h.child);
    }
    QueueSum(Values(fs), a, b, Values(hs), Values(gs), n, m, k);
  }

  lemma {:induction false} TreesOfNode(g: Forest, name: string, attrs: seq<Attr>, child: Forest)
    requires g.Node? && g.name == name && g.attrs == attrs && g.child == child
    ensures Trees(g) == [Elem(name, attrs, Trees(child))] + Trees(g.next)
  {
  }

  /** Prints every directive below and behind the cell. */
  method UnparsePragma(out: Unparser, x: XmlCell, ghost f: Forest, ghost fs: seq<Forest>)
    returns (ghost g: Forest, ghost gs: seq<Forest>)
    requires Rep(x, f) && Queued(out.exlist, fs) && CellsOf(fs) !! Cells(f) && PrintableTrees(Trees(f)) &&
             !IsPragma(Trees(f)[0])
    modifies out, Cells(f)
    ensures Rep(x, g) && Queued(out.exlist, gs) && CellsOf(gs) !! Cells(g)
    ensures forall k | k in Cells(g) + CellsOf(gs) :: k in Cells(f) || k in CellsOf(fs) || fresh(k)
    ensures Unparsed(f, fs, old(out.numEx), g, gs, out.numEx)
    decreases PragmaWalk.Size(Trees(f)), 1
  {
    UnparseParts(f, out.numEx);
    assert allocated(Cells(f)) && allocated(CellsOf(fs));
    ghost var h, hs := UnparseBelow(out, x, f, fs);
    assert allocated(Cells(h)) && allocated(CellsOf(hs));
    ghost var m := out.numEx;
    g, gs := UnparseBehind(out, x, h, hs);
    UnparsedBoth(f, fs, old(out.numEx), h, hs, m, g, gs, out.numEx);
  }

  method UnparseBelow(out: Unparser, x: XmlCell, ghost f: Forest, ghost fs: seq<Forest>)
    returns (ghost g: Forest, ghost gs: seq<Forest>)
    requires Rep(x, f) && Queued(out.exlist, fs) && CellsOf(fs) !! Cells(f) && PrintableTrees(Trees(f.child))
    modifies out, x, Cells(f.child)
    ensures g.Node? && g == f.(child := g.child) && Rep(x, g) && Queued(out.exlist, gs) && CellsOf(gs) !! Cells(g)
    ensures forall k | k in Cells(g) + CellsOf(gs) :: k in Cells(f) || k in CellsOf(fs) || fresh(k)
    ensures Unparsed(f.child, fs, old(out.numEx), g.child, gs, out.numEx)
    decreases PragmaWalk.Size(Trees(f.child)), 3
  {
    assert allocated(Cells(f)) && allocated(CellsOf(fs));
    g, gs := RestoreChild(out, x, f, fs);
    ConcatNothing(Values(gs));
    if x.child != null {
      assert allocated(Cells(g)) && allocated(CellsOf(gs));
      g, gs := UnparseInside(out, x, g, gs);
    }
  }

  method UnparseInside(out: Unparser, x: XmlCell, ghost f: Forest, ghost fs: seq<Forest>)
    returns (ghost g: Forest, ghost gs: seq<Forest>)
    requires Rep(x, f) && f.child.Node? && Queued(out.exlist, fs) && CellsOf(fs) !! Cells(f)
    requires PrintableTrees(Trees(f.child)) && !IsPragma(Trees(f.child)[0])
    modifies out, x, Cells(f.child)
    ensures g.Node? && g == f.(child := g.child) && Rep(x, g) && Queued(out.exlist, gs) && CellsOf(gs) !! Cells(g)
    ensures forall k | k in Cells(g) + CellsOf(gs) :: k in Cells(f) || k in CellsOf(fs) || fresh(k)
    ensures Unparsed(f.child, fs, old(out.numEx), g.child, gs, out.numEx)
    decreases PragmaWalk.Size(Trees(f.child)), 2
  {
    ghost var fn, k := f.next, f.child;
    assert Rep(x.child, k) && Rep(x.next, fn) && allocated(Cells(f)) && allocated(Cells(fn)) && x !in CellsOf(fs);
    k, gs := UnparsePragma(out, x.child, k, fs);
    assert Rep(x.next, fn);
    g := f.(child := k);
  }

  method UnparseBehind(out: Unparser, x: XmlCell, ghost f: Forest, ghost fs: seq<Forest>)
    returns (ghost g: Forest, ghost gs: seq<Forest>)
    requires Rep(x, f) && Queued(out.exlist, fs) && CellsOf(fs) !! Cells(f) && PrintableTrees(Trees(f.next))
    modifies out, x, Cells(f.next)
    ensures g.Node? && g == f.(next := g.next) && Rep(x, g) && Queued(out.exlist, gs) && CellsOf(gs) !! Cells(g)
    ensures forall k | k in Cells(g) + CellsOf(gs) :: k in Cells(f) || k in CellsOf(fs) || fresh(k)
    ensures Unparsed(f.next, fs, old(out.numEx), g.next, gs, out.numEx)
    decreases PragmaWalk.Size(Trees(f.next)), 2
  {
    assert allocated(Cells(f)) && allocated(CellsOf(fs));
    g, gs := RestoreNext(out, x, f, fs);
    ConcatNothing(Values(gs));
    if x.next != null {
      ghost var fc, k := f.child, g.next;
      assert Rep(x.next, k) && Rep(x.child, fc) && allocated(Cells(k)) && allocated(CellsOf(gs)) && x !in CellsOf(gs);
      k, gs := UnparsePragma(out, x.next, k, gs);
      assert Rep(x.child, fc);
      g := f.(next := k);
    }
  }

  // ----- parsing

  lemma {:induction false} PragmaTrees(h: Forest, cs: seq<Clause>)
    requires h.Node? && h.next.Nil? && h.name == "xev_pragma" && h.attrs == []
    requires var c := h.child;
             c.Node? && c.next.Nil? && c.name == "xev_clause_list" && c.attrs == [] && Trees(c.child) == ClauseElems(cs)
    ensures Trees(h) == [PragmaElem(cs)]
  {
    assert Trees(h.child) == [Elem("xev_clause_list", [], ClauseElems(cs))];
  }

  /** A directive over the clauses at `p`. */
  method NewPragma(p: XmlCell?, ghost hp: Forest, ghost cs: seq<Clause>) returns (r: XmlCell, ghost h: Forest)
    requires Rep(p, hp) && Trees(hp) == ClauseElems(cs)
    modifies Cells(hp)
    ensures Rep(r, h) && Trees(h) == [PragmaElem(cs)] && forall k | k in Cells(h) :: k in Cells(hp) || fresh(k)
  {
    assert allocated(Cells(hp));
    r := new XmlCell("xev_pragma", []);
    var c := new XmlCell("xev_clause_list", []);
    r.child := c;
    ghost var hc := Node(c, c.name, c.attrs, Nil, Nil);
    CellsOne(hc);
    assert Rep(p, hp) && Rep(c, hc);
    if p != null {
      XmlInsertChild(c, p, hc, hp);
    }
    SpliceAll(hp, Nil);
    hc := hc.(child := hp);
    assert Rep(c, hc);
    h := Node(r, r.name, r.attrs, hc, Nil);
    PragmaTrees(h, cs);
  }

  /** What the walk makes of a list from `us` on is what it makes of `ts`. */
  predicate HeadParsed(ts: seq<Elem>, q: seq<Exp>, us: seq<Elem>, q': seq<Exp>) {
    && Parse(us, q') == Parse(ts, q) && QuietExps(q') && TextsNulFree(us)
    && (us != [] ==> !IsDeclaration(us[0])) && (us == ts || Declarations(us) < Declarations(ts))
  }

  lemma {:induction false} DeclarationShape(f: Forest)
    requires f.Node? && f.name == "SgPragmaDeclaration" && TextsNulFree(Trees(f))
    ensures IsDeclaration(Trees(f)[0]) && Trees(Single(f)) == [Trees(f)[0]] &&
            Cells(Single(f)) == {f.cell} + Cells(f.child)
    ensures var text := DeclarationText(Trees(f)[0]); text.Some? ==> NulFree(text.value)
  {
    HeadTree(f);
  }

  lemma {:induction false} NotParsed(f: Forest)
    ensures f.Node? && f.name != "SgPragmaDeclaration" ==> !IsDeclaration(Trees(f)[0])
  {
    if f.Node? {
      HeadTree(f);
    }
  }

  /** A directive has been made of a text, or could not be. */
  ghost predicate Grown(ok: bool, t: Elem, q: seq<Exp>, h: Forest, gs: seq<Forest>) {
    match ParseDeclaration(t, q)
    case ParseFail => !ok
    case Parsed(p, q') =>
      && ok && Trees(h) == [p] && Values(gs) == q' && QuietExps(q')
      && exists cs :: p == PragmaElem(cs) && QuietExps(PragmaCodes(cs))
  }

  lemma {:induction false} HeadReplaced(f: Forest, q: seq<Exp>, h: Forest, q': seq<Exp>)
    requires f.Node? && IsDeclaration(Trees(f)[0]) && TextsNulFree(Trees(f)) && QuietExps(q')
    requires var r := ParseDeclaration(Trees(f)[0], q);
             && r.Parsed? && Trees(h) == [r.tree] && r.queue == q'
             && exists cs :: r.tree == PragmaElem(cs) && QuietExps(PragmaCodes(cs))
    ensures HeadParsed(Trees(f), q, Trees(Concat(h, f.next)), q')
  {
    HeadTree(f);
    ConcatFacts(h, f.next);
    var p := ParseDeclaration(Trees(f)[0], q).tree;
    var cs :| p == PragmaElem(cs) && QuietExps(PragmaCodes(cs));
    QuietPragma(cs, Trees(f.next), q');
    HeadTail(p, Trees(f.next));
  }

  /** The walk over a list, from its parts. */
  lemma {:induction false} ParseParts(f: Forest, q: seq<Exp>)
    requires f.Node? && !IsDeclaration(Trees(f)[0]) && TextsNulFree(Trees(f))
    ensures TextsNulFree(Trees(f.child)) && TextsNulFree(Trees(f.next))
    ensures Declarations(Trees(f.child)) <= Declarations(Trees(f)) &&
            PragmaWalk.Size(Trees(f.child)) < PragmaWalk.Size(Trees(f))
    ensures Declarations(Trees(f.next)) <= Declarations(Trees(f)) &&
            PragmaWalk.Size(Trees(f.next)) < PragmaWalk.Size(Trees(f))
    ensures Parse(Trees(f), q) ==
            match Parse(Trees(f.child), q)
            case WalkFail => WalkFail
            case Walked(kids, q') =>
              match Parse(Trees(f.next), q')
              case WalkFail => WalkFail
              case Walked(rest, q'') => Walked([Elem(f.name, f.attrs, kids)] + rest, q'')
  {
    HeadTree(f);
  }

  lemma {:induction false} TextOf(f: Forest)
    requires f.Node?
    ensures DeclarationText(Trees(f)[0]) == if f.child.Nil? then None else AttrValue(f.child.attrs, "pragma")
  {
    KidTree(f);
  }

  class PragmaParser {
    var exList: seq<XmlCell?>

    constructor (exList: seq<XmlCell?>)
      ensures this.exList == exList
    {
      this.exList := exList;
    }

    /** The directive that the text at the cell stands for. */
    method GetPragma(x: XmlCell, ghost f: Forest, ghost fs: seq<Forest>)
      returns (r: XmlCell?, ghost h: Forest, ghost gs: seq<Forest>)
      requires Rep(x, f) && Queued(exList, fs) && QuietExps(Values(fs))
      requires var text := DeclarationText(Trees(f)[0]); text.Some? ==> NulFree(text.value)
      modifies this, CellsOf(fs)
      ensures Grown(r != null, Trees(f)[0], Values(fs), h, gs)
      ensures r != null ==> Rep(r, h) && Queued(exList, gs) && Cells(h) !! CellsOf(gs)
      ensures forall k | k in Cells(h) + CellsOf(gs) :: k in CellsOf(fs) || fresh(k)
    {
      h, gs := Nil, fs;
      TextOf(f);
      if x.child == null {
        return null, Nil, fs;
      }
      assert Rep(x.child, f.child) && allocated(CellsOf(fs));
      var text := AttrValue(x.child.attrs, "pragma");
      if text.None? || text.value == "" || !IsNameChar(text.value[0]) {
        return null, Nil, fs;
      }
      ghost var goal := ParsePragma(text.value, Values(fs), []);
      assert ParseDeclaration(Trees(f)[0], Values(fs)) ==
             if goal.PragmaFail? then ParseFail else Parsed(PragmaElem(goal.clauses), goal.queue);
      r, h, gs := ParsedPragma(text.value, fs);
    }

    method ParsedPragma(text: string, ghost fs: seq<Forest>)
      returns (r: XmlCell?, ghost h: Forest, ghost gs: seq<Forest>)
      requires Queued(exList, fs) && QuietExps(Values(fs)) && NulFree(text)
      modifies this, CellsOf(fs)
      ensures match ParsePragma(text, Values(fs), [])
              case PragmaFail => r == null
              case PragmaGot(cs, q) =>
                && r != null && Rep(r, h) && Trees(h) == [PragmaElem(cs)] && QuietExps(PragmaCodes(cs))
                && Queued(exList, gs) && Values(gs) == q && QuietExps(q) && Cells(h) !! CellsOf(gs)
      ensures forall k | k in Cells(h) + CellsOf(gs) :: k in CellsOf(fs) || fresh(k)
    {
      assert allocated(CellsOf(fs));
      var ok, res, list;
      ghost var hp;
      ok, res, list, hp, gs := ParseText(text, exList, fs);
      if !ok {
        return null, Nil, fs;
      }
      exList := list;
      QuietParse(text, Values(fs), []);
      assert allocated(CellsOf(gs)) && Rep(res, hp) && Queued(exList, gs);
      r, h := NewPragma(res, hp, ParsePragma(text, Values(fs), []).clauses);
    }

    /** The clauses of a text, and what is left of the queue. */
    static method ParseText(text: string, list: seq<XmlCell?>, ghost fs: seq<Forest>)
      returns (ok: bool, res: XmlCell?, list': seq<XmlCell?>, ghost h: Forest, ghost gs: seq<Forest>)
      requires Queued(list, fs) && NulFree(text)
      modifies CellsOf(fs)
      ensures match ParsePragma(text, Values(fs), [])
              case PragmaFail => !ok
              case PragmaGot(cs, q) =>
                && ok && Rep(res, h) && Trees(h) == ClauseElems(cs) && Queued(list', gs) && Values(gs) == q
                && Cells(h) !! CellsOf(gs)
      ensures forall k | k in Cells(h) + CellsOf(gs) :: k in CellsOf(fs) || fresh(k)
    {
      assert allocated(CellsOf(fs));
      var p := new Parser(text, list);
      assert Queued(p.exList, fs);
      ok, res, h, gs := p.XevParsePragma(fs);
      list' := p.exList;
    }

    /** Replaces the first child if it is the text of a directive. */
    method ParseChild(x: XmlCell, ghost f: Forest, ghost fs: seq<Forest>)
      returns (ok: bool, ghost g: Forest, ghost gs: seq<Forest>)
      requires Rep(x, f) && Queued(exList, fs) && CellsOf(fs) !! Cells(f) && TextsNulFree(Trees(f.child)) &&
               QuietExps(Values(fs))
      modifies this, x, Cells(f.child), CellsOf(fs)
      ensures !ok ==> Parse(Trees(f.child), Values(fs)).WalkFail?
      ensures ok ==> g.Node? && g == f.(child := g.child) && Rep(x, g) && Queued(exList, gs) && CellsOf(gs) !! Cells(g)
      ensures ok ==> HeadParsed(Trees(f.child), Values(fs), Trees(g.child), Values(gs))
      ensures ok ==> forall k | k in Cells(g) + CellsOf(gs) :: k in Cells(f) || k in CellsOf(fs) || fresh(k)
    {
      ok, g, gs := true, f, fs;
      if x.child == null || x.child.name != "SgPragmaDeclaration" {
        NotParsed(f.child);
        return;
      }
      DeclarationShape(f.child);
      assert allocated(CellsOf(fs)) && allocated(Cells(f));
      var y := TakeOff(x, f);
      assert Queued(exList, fs);
      ghost var h;
      ok, h, gs := GrowChild(x, y, f, Single(f.child), fs);
      if ok {
        g := f.(child := Concat(h, f.child.next));
        HeadReplaced(f.child, Values(fs), h, Values(gs));
      }
    }

    method GrowChild(x: XmlCell, y: XmlCell, ghost f: Forest, ghost fy: Forest, ghost fs: seq<Forest>)
      returns (ok: bool, ghost h: Forest, ghost gs: seq<Forest>)
      requires f.Node? && f.child.Node? && Rep(x, f.(child := f.child.next)) && fy == Single(f.child) && Rep(y, fy)
      requires Cells(fy) !! Cells(f.(child := f.child.next)) && Queued(exList, fs) && CellsOf(fs) !! Cells(f) &&
               QuietExps(Values(fs))
      requires var text := DeclarationText(Trees(fy)[0]); text.Some? ==> NulFree(text.value)
      modifies this, x, CellsOf(fs)
      ensures Grown(ok, Trees(fy)[0], Values(fs), h, gs)
      ensures ok ==> var g := f.(child := Concat(h, f.child.next));
                     Rep(x, g) && Queued(exList, gs) && CellsOf(gs) !! Cells(g)
      ensures ok ==> forall k | k in Cells(f.(child := Concat(h, f.child.next))) + CellsOf(gs) ::
                       k in Cells(f) || k in CellsOf(fs) || fresh(k)
    {
      ghost var g := f.(child := f.child.next);
      assert allocated(Cells(g)) && allocated(CellsOf(fs)) && x !in CellsOf(fs);
      var z;
      z, h, gs := GetPragma(y, fy, fs);
      ok := z != null;
      if ok {
        assert Rep(x, g) && allocated(CellsOf(gs)) && allocated(Cells(h));
        XmlInsertChild(x, z, g, h);
        ConcatFacts(h, f.child.next);
      }
    }

    method ParseBelow(x: XmlCell, ghost f: Forest, ghost fs: seq<Forest>)
      returns (ok: bool, ghost g: Forest, ghost gs: seq<Forest>)
      requires Rep(x, f) && Queued(exList, fs) && CellsOf(fs) !! Cells(f) && TextsNulFree(Trees(f.child)) &&
               QuietExps(Values(fs))
      modifies this, x, Cells(f.child), CellsOf(fs)
      ensures match Parse(Trees(f.child), Values(fs))
              case WalkFail => !ok
              case Walked(ts, q) =>
                && ok && g.Node? && g == f.(child := g.child) && Rep(x, g) && Queued(exList, gs) &&
                    CellsOf(gs) !! Cells(g)
                && Trees(g.child) == ts && Values(gs) == q && QuietExps(q)
      ensures ok ==> forall k | k in Cells(g) + CellsOf(gs) :: k in Cells(f) || k in CellsOf(fs) || fresh(k)
      decreases Declarations(Trees(f.child)), PragmaWalk.Size(Trees(f.child)), 3
    {
      assert allocated(Cells(f)) && allocated(CellsOf(fs));
      ok, g, gs := ParseChild(x, f, fs);
      if ok && x.child != null {
        assert allocated(Cells(g)) && allocated(CellsOf(gs));
        ok, g, gs := ParseInside(x, g, gs);
      }
    }

    method ParseInside(x: XmlCell, ghost f: Forest, ghost fs: seq<Forest>)
      returns (ok: bool, ghost g: Forest, ghost gs: seq<Forest>)
      requires Rep(x, f) && f.child.Node? && Queued(exList, fs) && CellsOf(fs) !! Cells(f)
      requires !IsDeclaration(Trees(f.child)[0]) && TextsNulFree(Trees(f.child)) && QuietExps(Values(fs))
      modifies this, x, Cells(f.child), CellsOf(fs)
      ensures match Parse(Trees(f.child), Values(fs))
              case WalkFail => !ok
              case Walked(ts, q) =>
                && ok && g.Node? && g == f.(child := g.child) && Rep(x, g) && Queued(exList, gs) &&
                    CellsOf(gs) !! Cells(g)
                && Trees(g.child) == ts && Values(gs) == q && QuietExps(q)
      ensures ok ==> forall k | k in Cells(g) + CellsOf(gs) :: k in Cells(f) || k in CellsOf(fs) || fresh(k)
      decreases Declarations(Trees(f.child)), PragmaWalk.Size(Trees(f.child)), 2
    {
      ghost var fn, k := f.next, f.child;
      assert Rep(x.child, k) && Rep(x.next, fn) && allocated(Cells(f)) && allocated(Cells(fn)) && x !in CellsOf(fs);
      ok, k, gs := ParsePragmas(x.child, k, fs);
      g := f.(child := k);
      assert ok ==> Rep(x.next, fn);
    }

    /** Replaces what follows the cell if it is the text of a directive. */
    method ParseNext(x: XmlCell, ghost f: Forest, ghost fs: seq<Forest>)
      returns (ok: bool, ghost g: Forest, ghost gs: seq<Forest>)
      requires Rep(x, f) && Queued(exList, fs) && CellsOf(fs) !! Cells(f) && TextsNulFree(Trees(f.next)) &&
               QuietExps(Values(fs))
      modifies this, x, Cells(f.next), CellsOf(fs)
      ensures !ok ==> Parse(Trees(f.next), Values(fs)).WalkFail?
      ensures ok ==> g.Node? && g == f.(next := g.next) && Rep(x, g) && Queued(exList, gs) && CellsOf(gs) !! Cells(g)
      ensures ok ==> HeadParsed(Trees(f.next), Values(fs), Trees(g.next), Values(gs))
      ensures ok ==> forall k | k in Cells(g) + CellsOf(gs) :: k in Cells(f) || k in CellsOf(fs) || fresh(k)
    {
      ok, g, gs := true, f, fs;
      if x.next == null || x.next.name != "SgPragmaDeclaration" {
        NotParsed(f.next);
        return;
      }
      DeclarationShape(f.next);
      assert allocated(CellsOf(fs)) && allocated(Cells(f));
      var y := TakeOffNext(x, f);
      assert Queued(exList, fs);
      ghost var h;
      ok, h, gs := GrowNext(x, y, f, Single(f.next), fs);
      if ok {
        g := f.(next := Concat(h, f.next.next));
        HeadReplaced(f.next, Values(fs), h, Values(gs));
      }
    }

    method GrowNext(x: XmlCell, y: XmlCell, ghost f: Forest, ghost fy: Forest, ghost fs: seq<Forest>)
      returns (ok: bool, ghost h: Forest, ghost gs: seq<Forest>)
      requires f.Node? && f.next.Node? && Rep(x, f.(next := f.next.next)) && fy == Single(f.next) && Rep(y, fy)
      requires Cells(fy) !! Cells(f.(next := f.next.next)) && Queued(exList, fs) && CellsOf(fs) !! Cells(f) &&
               QuietExps(Values(fs))
      requires var text := DeclarationText(Trees(fy)[0]); text.Some? ==> NulFree(text.value)
      modifies this, x, CellsOf(fs)
      ensures Grown(ok, Trees(fy)[0], Values(fs), h, gs)
      ensures ok ==> var g := f.(next := Concat(h, f.next.next));
                     Rep(x, g) && Queued(exList, gs) && CellsOf(gs) !! Cells(g)
      ensures ok ==> forall k | k in Cells(f.(next := Concat(h, f.next.next))) + CellsOf(gs) ::
                       k in Cells(f) || k in CellsOf(fs) || fresh(k)
    {
      ghost var g := f.(next := f.next.next);
      assert allocated(Cells(g)) && allocated(CellsOf(fs)) && x !in CellsOf(fs);
      var z;
      z, h, gs := GetPragma(y, fy, fs);
      ok := z != null;
      if ok {
        assert Rep(x, g) && allocated(CellsOf(gs)) && allocated(Cells(h));
        XmlInsertNext(x, z, g, h);
        ConcatFacts(h, f.next.next);
      }
    }

    method ParseBehind(x: XmlCell, ghost f: Forest, ghost fs: seq<Forest>)
      returns (ok: bool, ghost g: Forest, ghost gs: seq<Forest>)
      requires Rep(x, f) && Queued(exList, fs) && CellsOf(fs) !! Cells(f) && TextsNulFree(Trees(f.next)) &&
               QuietExps(Values(fs))
      modifies this, x, Cells(f.next), CellsOf(fs)
      ensures match Parse(Trees(f.next), Values(fs))
              case WalkFail => !ok
              case Walked(ts, q) =>
                && ok && g.Node? && g == f.(next := g.next) && Rep(x, g) && Queued(exList, gs) &&
                    CellsOf(gs) !! Cells(g)
                && Trees(g.next) == ts && Values(gs) == q && QuietExps(q)
      ensures ok ==> forall k | k in Cells(g) + CellsOf(gs) :: k in Cells(f) || k in CellsOf(fs) || fresh(k)
      decreases Declarations(Trees(f.next)), PragmaWalk.Size(Trees(f.next)), 2
    {
      assert allocated(Cells(f)) && allocated(CellsOf(fs));
      ok, g, gs := ParseNext(x, f, fs);
      if ok && x.next != null {
        ghost var fc, k := f.child, g.next;
        assert Rep(x.next, k) && Rep(x.child, fc) && allocated(Cells(k)) && allocated(CellsOf(gs)) && x !in CellsOf(gs);
        ok, k, gs := ParsePragmas(x.next, k, gs);
        if ok {
          assert Rep(x.child, fc);
          g := f.(next := k);
        }
      }
    }

    /** Parses every directive below and behind the cell; the walk goes on inside the directives it
        has made. */
    method ParsePragmas(x: XmlCell, ghost f: Forest, ghost fs: seq<Forest>)
      returns (ok: bool, ghost g: Forest, ghost gs: seq<Forest>)
      requires Rep(x, f) && Queued(exList, fs) && CellsOf(fs) !! Cells(f)
      requires !IsDeclaration(Trees(f)[0]) && TextsNulFree(Trees(f)) && QuietExps(Values(fs))
      modifies this, Cells(f), CellsOf(fs)
      ensures match Parse(Trees(f), Values(fs))
              case WalkFail => !ok
              case Walked(ts, q) =>
                ok && Rep(x, g) && Queued(exList, gs) && CellsOf(gs) !! Cells(g) && Trees(g) == ts &&
                    Values(gs) == q && QuietExps(q)
      ensures ok ==> forall k | k in Cells(g) + CellsOf(gs) :: k in Cells(f) || k in CellsOf(fs) || fresh(k)
      decreases Declarations(Trees(f)), PragmaWalk.Size(Trees(f)), 1
    {
      ParseParts(f, Values(fs));
      assert allocated(Cells(f)) && allocated(CellsOf(fs));
      ghost var h, hs;
      ok, h, hs := ParseBelow(x, f, fs);
      g, gs := h, hs;
      if ok {
        assert allocated(Cells(h)) && allocated(CellsOf(hs));
        ok, g, gs := ParseBehind(x, h, hs);
      }
    }
  }
}
