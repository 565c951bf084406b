/** The two walks over blocks one after the other, in place: what the second demands holds where the
    first has left off, and in the end the cells hold the trees they had. */
module BlockRun {
  import opened Wrappers
  import opened Xml
  import opened XmlHeap
  import opened Blocks
  import opened BlockProofs
  import opened BlockFlat
  import opened ConstrBlock
  import opened DestrBlock

  lemma {:induction false} MarkedList(kind: string, list: Elem)
    requires NoDirective(list) && (kind == "xev_pragma" ==> list.kids != [])
    ensures NoDirective(AddBegin(list)) && NoDirective(AddEnd(kind, list))
  {
    Marks();
  }

  lemma {:induction false} ListWellFormed(t: Elem)
    requires IsDirective(t) && |t.kids| == 1 && NoDirective(t.kids[0])
    ensures WellFormed(t)
  {
    NoDirectiveWellFormed(t.kids[0]);
    assert t.kids[1..] == [];
  }

  lemma {:induction false} EndWellFormed(kind: string, list: Elem, more: bool)
    requires kind == "xev_pragma" || kind == "xevdrs_line"
    requires NoDirective(list) && (kind == "xev_pragma" ==> list.kids != [])
    ensures WellFormed(EndOf(kind, list, more))
  {
    MarkedList(kind, list);
    MarkedList("xevdrs_line", AddEnd(kind, list));
    ListWellFormed(EndOf(kind, list, more));
  }

  lemma {:induction false} GroupsWellFormed(kind: string, gs: seq<Elem>, open: bool)
    requires (kind == "xev_pragma" || kind == "xevdrs_line") && Groups(kind, gs)
    ensures AllWellFormed(FlatGroups(kind, gs, open))
    decreases gs, 0
  {
    if gs != [] {
      var body, end := Flat(gs[0].kids), EndOf(kind, gs[1], |gs| > 2 || open);
      FlatWellFormed(gs[0].kids);
      EndWellFormed(kind, gs[1], |gs| > 2 || open);
      GroupsWellFormed(kind, gs[2..], open);
      WellFormedCons(end, []);
      ConcatNothing([end]);
      WellFormedConcat(body, [end]);
      WellFormedConcat(body + [end], FlatGroups(kind, gs[2..], open));
    }
  }

  lemma {:induction false} OneWellFormed(t: Elem)
    requires Structured(t)
    ensures AllWellFormed(FlatOne(t))
    decreases t, 0
  {
    if IsDirective(t) && |t.kids| >= 2 {
      MarkedList("xevdrs_line", t.kids[0]);
      ListWellFormed(BeginOf(t));
      GroupsWellFormed(t.name, t.kids[1..], false);
      WellFormedCons(BeginOf(t), FlatGroups(t.name, t.kids[1..], false));
    } else if IsDirective(t) {
      ListWellFormed(t);
    } else {
      var t' := t.(kids := Flat(t.kids));
      FlatWellFormed(t.kids);
      assert !IsDirective(t') && WellFormed(t');
      assert [t'][1..] == [] && FlatOne(t) == [t'];
    }
  }

  /** What is written for structured trees can be built from again. */
  lemma {:induction false} FlatWellFormed(ts: seq<Elem>)
    requires AllStructured(ts)
    ensures AllWellFormed(Flat(ts))
    decreases ts, 1
  {
    if ts != [] {
      OneWellFormed(ts[0]);
      FlatWellFormed(ts[1..]);
      WellFormedConcat(FlatOne(ts[0]), Flat(ts[1..]));
    }
  }

  /** Balanced flat directives can be built from. */
  lemma {:induction false} MatchedWellFormed(open: seq<string>, ts: seq<Elem>)
    requires Matched(open, ts)
    ensures AllWellFormed(ts)
    decreases ts
  {
    if ts != [] {
      var t := ts[0];
      if IsDirective(t) {
        ListWellFormed(t);
        MatchedWellFormed(if Ends(t) then (if Begins(t) then open else open[1..])
                          else if Begins(t) then [t.name] + open else open, ts[1..]);
      } else {
        MatchedWellFormed([], t.kids);
        MatchedWellFormed(open, ts[1..]);
      }
    }
  }

  /** Taking all blocks apart and building them again leaves the trees as they were. */
  method DestrConstr(x: XmlCell?, ghost f: Forest) returns (ok: bool, ghost g: Forest)
    requires Rep(x, f) && AllStructured(Trees(f)) && AllUnmarked(Trees(f))
    modifies Cells(f)
    ensures ok && Rep(x, g) && Trees(g) == Trees(f)
  {
    FlatWellFormed(Trees(f));
    NormFlat(Trees(f));
    assert allocated(Cells(f));
    ghost var h := XevDestrBlock(x, f);
    ok, g := ConstrBlocks(x, h);
  }

  /** Building all blocks and taking them apart again leaves the trees as they were. */
  method ConstrDestr(x: XmlCell?, ghost f: Forest) returns (ok: bool, ghost g: Forest)
    requires Rep(x, f) && Matched([], Trees(f))
    modifies Cells(f)
    ensures ok && Rep(x, g) && Trees(g) == Trees(f)
  {
    MatchedWellFormed([], Trees(f));
    FlatNorm(Trees(f));
    assert allocated(Cells(f));
    ghost var h;
    ok, h := ConstrBlocks(x, f);
    g := XevDestrBlock(x, h);
  }
}
