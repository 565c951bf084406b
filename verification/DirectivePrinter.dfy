/** The directive printer, which goes along cells, fills a buffer and moves code expressions to a queue. */
module DirectivePrinter {
  import opened Wrappers
  import opened Xml
  import opened XmlHeap
  import opened CellQueue
  import opened PragmaTree
  import opened LangStr
  import D = Directive

  function ArgsSep(i: nat): string {
    if i == 0 then "" else ", "
  }

  /** What is still to be printed when `i` arguments are. */
  function ArgsTail(ts: seq<D.Term>, i: nat, n: nat): string {
    if ts == [] then "" else ArgsSep(i) + D.ArgsText(ts, n)
  }

  /** With the arguments in `g` still to come, text, queue and number will be `text`, `codes` and `end`. */
  ghost predicate ArgsDone(g: Forest, i: nat, buf: string, queue: seq<D.Exp>, n: nat, text: string,
                           codes: seq<D.Exp>, end: nat) {
    var ts := TermsOf(Trees(g));
    buf + ArgsTail(ts, i, n) == text && queue + D.CodesOf(ts) == codes && n + |D.CodesOf(ts)| == end
  }

  lemma {:induction false} ArgsStep(g: Forest, i: nat, buf: string, queue: seq<D.Exp>, n: nat, text: string,
                                    codes: seq<D.Exp>, end: nat)
    requires g.Node? && ArgsDone(g, i, buf, queue, n, text, codes, end)
    ensures var t := TermOf(Trees(g)[0]);
            ArgsDone(g.next, i + 1, buf + ArgsSep(i) + D.TermText(t, n), queue + D.Codes(t), n + |D.Codes(t)|,
                     text, codes, end)
  {
    var ts := TermsOf(Trees(g));
    TermsAhead(g);
    ArgsCons(ts, i, n);
    TextOn(buf, ArgsSep(i), D.TermText(ts[0], n), ArgsTail(ts[1..], i + 1, n + |D.Codes(ts[0])|));
    ConcatAssoc(queue, D.Codes(ts[0]), D.CodesOf(ts[1..]));
  }

  lemma {:induction false} TermsAhead(g: Forest)
    requires g.Node?
    ensures var ts := TermsOf(Trees(g)); ts != [] && ts[0] == TermOf(Trees(g)[0]) && ts[1..] == TermsOf(Trees(g.next))
  {
    HeadTree(g);
  }

  lemma {:induction false} ArgsCons(ts: seq<D.Term>, i: nat, n: nat)
    requires ts != []
    ensures ArgsTail(ts, i, n) == ArgsSep(i) + (D.TermText(ts[0], n) + ArgsTail(ts[1..], i + 1, n + |D.Codes(ts[0])|))
    ensures D.CodesOf(ts) == D.Codes(ts[0]) + D.CodesOf(ts[1..])
  {
    assert |ts[1..]| == |ts| - 1;
    ConcatNothing(D.TermText(ts[0], n));
  }

  lemma {:induction false} TextOn(buf: string, sep: string, text: string, tail: string)
    ensures buf + sep + text + tail == buf + (sep + (text + tail))
  {
    ConcatAssoc(buf, sep, text + tail);
    ConcatAssoc(buf + sep, text, tail);
  }

  lemma {:induction false} ArgsEnds(g: Forest, i: nat, buf: string, queue: seq<D.Exp>, n: nat, text: string,
                                    codes: seq<D.Exp>, end: nat)
    ensures var ts := TermsOf(Trees(g));
            ArgsDone(g, 0, buf, queue, n, buf + D.ArgsText(ts, n), queue + D.CodesOf(ts), n + |D.CodesOf(ts)|)
    ensures g.Nil? && ArgsDone(g, i, buf, queue, n, text, codes, end) ==> buf == text && queue == codes && n == end
  {
    ConcatNothing(buf);
    ConcatNothing(queue);
    ConcatNothing(D.ArgsText(TermsOf(Trees(g)), n));
  }

  function ClauseSep(buf: string): string {
    if buf == "" then "" else " "
  }

  function ClausesTail(cs: seq<D.Clause>, buf: string, n: nat): string {
    if cs == [] then "" else ClauseSep(buf) + D.PragmaText(cs, n)
  }

  ghost predicate ClausesDone(g: Forest, buf: string, queue: seq<D.Exp>, n: nat, text: string, codes: seq<D.Exp>,
                              end: nat) {
    var cs := ClausesOf(Trees(g));
    buf + ClausesTail(cs, buf, n) == text && queue + D.PragmaCodes(cs) == codes && n + |D.PragmaCodes(cs)| == end
  }

  lemma {:induction false} ClausesStep(g: Forest, buf: string, queue: seq<D.Exp>, n: nat, text: string,
                                       codes: seq<D.Exp>, end: nat)
    requires g.Node? && ClausesDone(g, buf, queue, n, text, codes, end) && ClausesOf(Trees(g))[0].name != ""
    ensures var c := ClausesOf(Trees(g))[0];
            ClausesDone(g.next, buf + ClauseSep(buf) + D.ClauseText(c, n), queue + D.CodesOf(c.args),
                        n + |D.CodesOf(c.args)|, text, codes, end)
  {
    HeadTree(g);
    var cs, rest := ClausesOf(Trees(g)), ClausesOf(Trees(g.next));
    var c := cs[0];
    assert cs[1..] == rest;
    var t, n' := D.ClauseText(c, n), n + |D.CodesOf(c.args)|;
    var buf' := buf + ClauseSep(buf) + t;
    assert |t| > 0 && |buf'| > 0;
    assert D.PragmaText(cs, n) == t + ClausesTail(rest, buf', n') by {
      ConcatNothing(t);
    }
    TextOn(buf, ClauseSep(buf), t, ClausesTail(rest, buf', n'));
    ConcatAssoc(queue, D.CodesOf(c.args), D.PragmaCodes(rest));
  }

  lemma {:induction false} ClausesEnds(g: Forest, buf: string, queue: seq<D.Exp>, n: nat, text: string,
                                       codes: seq<D.Exp>, end: nat)
    ensures var cs := ClausesOf(Trees(g));
            ClausesDone(g, "", queue, n, D.PragmaText(cs, n), queue + D.PragmaCodes(cs), n + |D.PragmaCodes(cs)|)
    ensures g.Nil? && ClausesDone(g, buf, queue, n, text, codes, end) ==> buf == text && queue == codes && n == end
  {
    ConcatNothing(buf);
    ConcatNothing(queue);
    ConcatNothing(D.PragmaText(ClausesOf(Trees(g)), n));
  }

  /** A printed element is of a known kind, with the attributes and children of its kind. */
  predicate PrintableTerm(e: Elem)
    decreases e, 0
  {
    if e.name == "xev_integer" then HasAttr(e, "value")
    else if e.name == "xev_string" then HasAttr(e, "value") && NulFree(Value(e, "value"))
    else if e.name == "xev_boolean" then Value(e, "value") == "true" || Value(e, "value") == "false"
    else if e.name == "xev_pair" then |e.kids| == 2 && PrintableTerm(e.kids[0]) && PrintableTerm(e.kids[1])
    else if e.name == "xev_func_call" then HasAttr(e, "name") && PrintableTerms(e.kids)
    else e.name == "xevparse_code_exp" || (e.name == "xev_literal" && HasAttr(e, "name"))
  }

  predicate PrintableTerms(es: seq<Elem>)
    decreases es, 1
  {
    es == [] || (PrintableTerm(es[0]) && PrintableTerms(es[1..]))
  }

  predicate HasAttr(e: Elem, name: string) {
    AttrValue(e.attrs, name).Some?
  }

  predicate PrintableClauses(es: seq<Elem>) {
    es == [] ||
        (HasAttr(es[0], "name") && Value(es[0], "name") != "" && PrintableTerms(es[0].kids) &&
         PrintableClauses(es[1..]))
  }

  lemma {:induction false} PairTrees(f: Forest)
    requires |Trees(f)| == 2
    ensures f.Node? && f.next.Node? && f.next.next.Nil? && Trees(f)[1] == Trees(f.next)[0]
  {
    HeadTree(f);
    HeadTree(f.next);
  }

  lemma {:induction false} FirstClause(g: Forest)
    requires g.Node? && PrintableClauses(Trees(g))
    ensures ClausesOf(Trees(g)) != [] && ClausesOf(Trees(g))[0].name != "" && PrintableClauses(Trees(g.next))
  {
    HeadTree(g);
  }

  /** Printing `t` leads from a text, a number and a queue to others. */
  ghost predicate Printed(t: D.Term, b: string, n: nat, q: seq<D.Exp>, b': string, n': nat, q': seq<D.Exp>) {
    b' == b + D.TermText(t, n) && q' == q + D.Codes(t) && n' == n + |D.Codes(t)|
  }

  lemma {:induction false} PairPrinted(x: D.Term, y: D.Term, b: string, n: nat, q: seq<D.Exp>,
                                       b1: string, n1: nat, q1: seq<D.Exp>, b2: string, n2: nat, q2: seq<D.Exp>)
    requires Printed(x, b, n, q, b1, n1, q1) && Printed(y, b1 + ":", n1, q1, b2, n2, q2)
    ensures Printed(D.Pair(x, y), b, n, q, b2, n2, q2)
  {
    ConcatAssoc(q, D.Codes(x), D.Codes(y));
    ConcatRegroup(b, D.TermText(x, n), ":", D.TermText(y, n1));
  }

  lemma {:induction false} ArgPrinted(g: Forest, i: nat, b: string, q: seq<D.Exp>, n: nat, b': string,
                                      q': seq<D.Exp>, n': nat,
                                      text: string, codes: seq<D.Exp>, end: nat)
    requires g.Node? && PrintableTerms(Trees(g)) && ArgsDone(g, i, b, q, n, text, codes, end)
    requires Printed(TermOf(Trees(g)[0]), b + ArgsSep(i), n, q, b', n', q')
    ensures PrintableTerms(Trees(g.next)) && ArgsDone(g.next, i + 1, b', q', n', text, codes, end)
  {
    HeadTree(g);
    ArgsStep(g, i, b, q, n, text, codes, end);
  }

  /** The same for a clause. */
  ghost predicate PrintedClause(c: D.Clause, b: string, n: nat, q: seq<D.Exp>, b': string, n': nat, q': seq<D.Exp>) {
    && b' == b + ClauseSep(b) + D.ClauseText(c, n)
    && q' == q + D.CodesOf(c.args) && n' == n + |D.CodesOf(c.args)|
  }

  lemma {:induction false} NextPrinted(g: Forest, b: string, q: seq<D.Exp>, n: nat, b': string, q': seq<D.Exp>, n': nat,
                                       text: string, codes: seq<D.Exp>, end: nat)
    requires g.Node? && PrintableClauses(Trees(g)) && ClausesDone(g, b, q, n, text, codes, end)
    requires ClausesOf(Trees(g)) != [] && PrintedClause(ClausesOf(Trees(g))[0], b, n, q, b', n', q')
    ensures PrintableClauses(Trees(g.next)) && ClausesDone(g.next, b', q', n', text, codes, end)
  {
    FirstClause(g);
    ClausesStep(g, b, q, n, text, codes, end);
  }

  class Unparser {
    var buf: string
    var exlist: seq<XmlCell?>
    var numEx: nat

    constructor ()
      ensures buf == "" && exlist == [] && numEx == 0
    {
      buf, exlist, numEx := "", [], 0;
    }

    /** Queues an expression under the next number. */
    method GetNumEx(e: XmlCell?, ghost fe: Forest, ghost fs: seq<Forest>) returns (n: nat, ghost gs: seq<Forest>)
      requires Queued(exlist, fs) && Rep(e, fe) && Cells(fe) !! CellsOf(fs)
      modifies this
      ensures n == old(numEx) && numEx == n + 1 && buf == old(buf)
      ensures Queued(exlist, gs) && Values(gs) == Values(fs) + [Trees(fe)] && CellsOf(gs) == CellsOf(fs) + Cells(fe)
    {
      n := numEx;
      numEx := numEx + 1;
      QueuedSnoc(exlist, fs, e, fe);
      exlist := exlist + [e];
      gs := fs + [fe];
    }

    /** Prints one term, whose code expressions are cut off and queued. */
    method PutTerm(x: XmlCell, ghost f: Forest, ghost fs: seq<Forest>) returns (ghost gs: seq<Forest>)
      requires Rep(x, f) && Queued(exlist, fs) && CellsOf(fs) !! Cells(f) && PrintableTerm(Trees(f)[0])
      modifies this, x, Cells(f.child)
      ensures x.next == old(x.next) && Queued(exlist, gs) && CellsOf(gs) <= CellsOf(fs) + Cells(f.child)
      ensures Printed(TermOf(Trees(f)[0]), old(buf), old(numEx), Values(fs), buf, numEx, Values(gs))
      decreases XmlHeap.Size(f), 1
    {
      gs := fs;
      HeadTree(f);
      ConcatNothing(Values(fs));
      assert allocated(Cells(f)) && allocated(CellsOf(fs));
      if x.name == "xev_integer" || x.name == "xev_boolean" {
        buf := buf + AttrValue(x.attrs, "value").value;
      } else if x.name == "xev_string" {
        var t := StrG2F(AttrValue(x.attrs, "value").value, '\'');
        buf := buf + t;
      } else if x.name == "xev_pair" {
        gs := PutPair(x, f, fs);
      } else if x.name == "xevparse_code_exp" {
        gs := PutCode(x, f, fs);
      } else if x.name == "xev_func_call" {
        gs := PutCall(x, f, fs);
      } else {
        buf := buf + AttrValue(x.attrs, "name").value;
      }
    }

    method PutCode(x: XmlCell, ghost f: Forest, ghost fs: seq<Forest>) returns (ghost gs: seq<Forest>)
      requires Rep(x, f) && Queued(exlist, fs) && CellsOf(fs) !! Cells(f) && f.name == "xevparse_code_exp"
      modifies this, x
      ensures x.next == old(x.next) && Queued(exlist, gs) && CellsOf(gs) <= CellsOf(fs) + Cells(f.child)
      ensures Printed(D.Code(Trees(f.child)), old(buf), old(numEx), Values(fs), buf, numEx, Values(gs))
    {
      assert allocated(Cells(f.child)) && allocated(CellsOf(fs)) && x !in CellsOf(fs);
      var ex := x.child;
      x.child := null;
      assert Rep(ex, f.child) && Queued(exlist, fs);
      var n;
      n, gs := GetNumEx(ex, f.child, fs);
      buf := buf + ("`" + D.Decimal(n) + "`");
    }

    method PutPair(x: XmlCell, ghost f: Forest, ghost fs: seq<Forest>) returns (ghost gs: seq<Forest>)
      requires Rep(x, f) && Queued(exlist, fs) && CellsOf(fs) !! Cells(f) && f.name == "xev_pair" &&
               PrintableTerm(Trees(f)[0])
      modifies this, Cells(f.child)
      ensures x.next == old(x.next) && Queued(exlist, gs) && CellsOf(gs) <= CellsOf(fs) + Cells(f.child)
      ensures Printed(TermOf(Trees(f)[0]), old(buf), old(numEx), Values(fs), buf, numEx, Values(gs))
      decreases XmlHeap.Size(f), 0
    {
      HeadTree(f);
      PairTrees(f.child);
      ghost var a, b := TermOf(Trees(f.child)[0]), TermOf(Trees(f.child)[1]);
      var fst: XmlCell := x.child;
      ghost var fa, fb := f.child, f.child.next;
      assert Rep(fst, fa) && Rep(fst.next, fb) && allocated(Cells(fb));
      var snd: XmlCell := fst.next;
      ghost var hs := PutTerm(fst, fa, fs);
      assert allocated(CellsOf(hs)) && Rep(snd, fb);
      ghost var before, n := buf, numEx;
      buf := buf + ":";
      gs := PutTerm(snd, fb, hs);
      PairPrinted(a, b, old(buf), old(numEx), Values(fs), before, n, Values(hs), buf, numEx, Values(gs));
    }

    method PutCall(x: XmlCell, ghost f: Forest, ghost fs: seq<Forest>) returns (ghost gs: seq<Forest>)
      requires Rep(x, f) && Queued(exlist, fs) && CellsOf(fs) !! Cells(f) && f.name == "xev_func_call" &&
               PrintableTerm(Trees(f)[0])
      modifies this, Cells(f.child)
      ensures x.next == old(x.next) && Queued(exlist, gs) && CellsOf(gs) <= CellsOf(fs) + Cells(f.child)
      ensures Printed(TermOf(Trees(f)[0]), old(buf), old(numEx), Values(fs), buf, numEx, Values(gs))
      decreases XmlHeap.Size(f), 0
    {
      HeadTree(f);
      ghost var args := TermsOf(Trees(f.child));
      var name := AttrValue(x.attrs, "name").value;
      assert Rep(x.child, f.child) && allocated(Cells(f.child)) && allocated(CellsOf(fs));
      buf := buf + (name + "(");
      gs := PutArgs(x.child, f.child, fs);
      ConcatRegroup(old(buf), name + "(", D.ArgsText(args, old(numEx)), ")");
      buf := buf + ")";
    }

    /** The arguments with commas between them. */
    method PutArgs(x: XmlCell?, ghost f: Forest, ghost fs: seq<Forest>) returns (ghost gs: seq<Forest>)
      requires Rep(x, f) && Queued(exlist, fs) && CellsOf(fs) !! Cells(f) && PrintableTerms(Trees(f))
      modifies this, Cells(f)
      ensures Queued(exlist, gs) && CellsOf(gs) <= CellsOf(fs) + Cells(f)
      ensures var xs := TermsOf(Trees(f));
              && buf == old(buf) + D.ArgsText(xs, old(numEx))
              && Values(gs) == Values(fs) + D.CodesOf(xs) && numEx == old(numEx) + |D.CodesOf(xs)|
      decreases XmlHeap.Size(f), 3
    {
      gs := fs;
      var c: nat := 0;
      var cur := x;
      ghost var g, xs := f, TermsOf(Trees(f));
      ghost var text, codes, end := buf + D.ArgsText(xs, numEx), Values(fs) + D.CodesOf(xs), numEx + |D.CodesOf(xs)|;
      ArgsEnds(f, 0, buf, Values(fs), numEx, "", [], 0);
      while cur != null
        invariant Ahead(cur, g, gs, f, fs) && PrintableTerms(Trees(g)) &&
                  ArgsDone(g, c, buf, Values(gs), numEx, text, codes, end)
        decreases XmlHeap.Size(g)
      {
        ghost var hs := PutArg(cur, c, g, gs, f, fs, text, codes, end);
        c := c + 1;
        cur := cur.next;
        g, gs := g.next, hs;
      }
      ArgsEnds(g, c, buf, Values(gs), numEx, text, codes, end);
    }

    /** The cell leads to what is still to be printed of `f`. */
    ghost predicate Ahead(x: XmlCell?, g: Forest, gs: seq<Forest>, f: Forest, fs: seq<Forest>)
      reads this`exlist, Cells(g), CellsOf(gs)
    {
      && Rep(x, g) && Queued(exlist, gs) && CellsOf(gs) !! Cells(g) && CellsOf(gs) <= CellsOf(fs) + Cells(f)
      && Cells(g) <= Cells(f) && XmlHeap.Size(g) <= XmlHeap.Size(f)
    }

    method PutArg(x: XmlCell, c: nat, ghost g: Forest, ghost gs: seq<Forest>, ghost f: Forest, ghost fs: seq<Forest>,
                  ghost text: string, ghost codes: seq<D.Exp>, ghost end: nat)
      returns (ghost hs: seq<Forest>)
      requires g.Node? && Ahead(x, g, gs, f, fs) && PrintableTerms(Trees(g))
      requires ArgsDone(g, c, buf, Values(gs), numEx, text, codes, end)
      modifies this, x, Cells(g.child)
      ensures x.next == old(x.next) && Ahead(x.next, g.next, hs, f, fs) && PrintableTerms(Trees(g.next))
      ensures ArgsDone(g.next, c + 1, buf, Values(hs), numEx, text, codes, end)
      decreases XmlHeap.Size(g), 2
    {
      HeadTree(g);
      assert Rep(x.next, g.next) && allocated(Cells(g.next)) && allocated(CellsOf(gs));
      ghost var b, n := buf, numEx;
      buf := buf + if c != 0 then ", " else "";
      hs := PutTerm(x, g, gs);
      ArgPrinted(g, c, b, Values(gs), n, buf, Values(hs), numEx, text, codes, end);
    }

    method XevUnparsePragma(x: XmlCell?, ghost f: Forest, ghost fs: seq<Forest>)
      returns (text: string, ghost gs: seq<Forest>)
      requires Rep(x, f) && Queued(exlist, fs) && CellsOf(fs) !! Cells(f) && PrintableClauses(Trees(f))
      modifies this, Cells(f)
      ensures Queued(exlist, gs) && CellsOf(gs) <= CellsOf(fs) + Cells(f)
      ensures var cs := ClausesOf(Trees(f));
              && text == D.PragmaText(cs, old(numEx))
              && Values(gs) == Values(fs) + D.PragmaCodes(cs) && numEx == old(numEx) + |D.PragmaCodes(cs)|
    {
      gs := fs;
      buf := "";
      var cur := x;
      ghost var g, cs := f, ClausesOf(Trees(f));
      ghost var goal, codes := D.PragmaText(cs, numEx), Values(fs) + D.PragmaCodes(cs);
      ghost var end := numEx + |D.PragmaCodes(cs)|;
      ClausesEnds(f, "", Values(fs), numEx, "", [], 0);
      while cur != null
        invariant Ahead(cur, g, gs, f, fs) && PrintableClauses(Trees(g)) &&
                  ClausesDone(g, buf, Values(gs), numEx, goal, codes, end)
        decreases XmlHeap.Size(g)
      {
        ghost var hs := PutNext(cur, g, gs, f, fs, goal, codes, end);
        cur := cur.next;
        g, gs := g.next, hs;
      }
      ClausesEnds(g, buf, Values(gs), numEx, goal, codes, end);
      text := buf;
    }

    /** The next clause, with a blank ahead of it unless it is the first. */
    method PutNext(x: XmlCell, ghost g: Forest, ghost gs: seq<Forest>, ghost f: Forest, ghost fs: seq<Forest>,
                   ghost text: string, ghost codes: seq<D.Exp>, ghost end: nat)
      returns (ghost hs: seq<Forest>)
      requires g.Node? && Ahead(x, g, gs, f, fs) && PrintableClauses(Trees(g))
      requires ClausesDone(g, buf, Values(gs), numEx, text, codes, end)
      modifies this, Cells(g.child)
      ensures x.next == old(x.next) && Ahead(x.next, g.next, hs, f, fs) && PrintableClauses(Trees(g.next))
      ensures ClausesDone(g.next, buf, Values(hs), numEx, text, codes, end)
    {
      assert Rep(x.next, g.next) && allocated(Cells(g.next)) && allocated(CellsOf(gs));
      ghost var b, n := buf, numEx;
      FirstClause(g);
      hs := PutClause(x, g, gs);
      NextPrinted(g, b, Values(gs), n, buf, Values(hs), numEx, text, codes, end);
    }

    method PutClause(x: XmlCell, ghost f: Forest, ghost fs: seq<Forest>) returns (ghost gs: seq<Forest>)
      requires Rep(x, f) && Queued(exlist, fs) && CellsOf(fs) !! Cells(f) && PrintableClauses(Trees(f))
      modifies this, Cells(f.child)
      ensures Queued(exlist, gs) && CellsOf(gs) <= CellsOf(fs) + Cells(f.child)
      ensures PrintedClause(ClausesOf(Trees(f))[0], old(buf), old(numEx), Values(fs), buf, numEx, Values(gs))
    {
      HeadTree(f);
      gs := fs;
      buf := buf + if buf != "" then " " else "";
      ghost var before := buf;
      var name := AttrValue(x.attrs, "name").value;
      ghost var args := TermsOf(Trees(f.child));
      assert ClausesOf(Trees(f))[0] == D.Clause(name, args);
      assert Rep(x.child, f.child) && allocated(Cells(f.child)) && allocated(CellsOf(fs));
      if x.child == null {
        ConcatNothing(name);
        ConcatNothing(Values(fs));
        buf := buf + name;
      } else {
        buf := buf + name + "(";
        gs := PutArgs(x.child, f.child, fs);
        ClauseRegroup(before, name, D.ArgsText(args, old(numEx)));
        buf := buf + ")";
      }
    }
  }

  lemma {:induction false} ClauseRegroup(o: string, name: string, args: string)
    ensures o + name + "(" + args + ")" == o + (name + ("(" + args + ")"))
  {
    ConcatAssoc(o, name, "(" + args + ")");
    ConcatRegroup(o + name, "(", args, ")");
  }
}
