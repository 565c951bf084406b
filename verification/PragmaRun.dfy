/** The four walks one after the other, in place: what each of them demands holds where the one before
    has left off, and in the end the program is as it was. */
module PragmaRun {
  import opened Wrappers
  import opened Xml
  import opened XmlHeap
  import opened CellQueue
  import opened LangStr
  import opened Directive
  import opened DirectiveProofs
  import opened DirectivePrinter
  import opened PragmaTree
  import opened PragmaTrip
  import opened PragmaWalk
  import opened ExtractHeap
  import opened PragmaHeap

  // ----- directives of the grammar can be printed

  predicate NulFreeTerm(t: Term)
    decreases t, 0
  {
    match t
    case Str(value) => NulFree(value)
    case Pair(a, b) => NulFreeTerm(a) && NulFreeTerm(b)
    case Call(_, args) => NulFreeTerms(args)
    case _ => true
  }

  predicate NulFreeTerms(ts: seq<Term>)
    decreases ts, 1
  {
    ts == [] || (NulFreeTerm(ts[0]) && NulFreeTerms(ts[1..]))
  }

  predicate NulFreeClauses(cs: seq<Clause>) {
    cs == [] || (NulFreeTerms(cs[0].args) && NulFreeClauses(cs[1..]))
  }

  /** No string in a directive holds the character that ends a string. */
  predicate NulFreeTrees(ts: seq<Elem>) {
    ts == [] ||
    ((if IsPragma(ts[0]) then NulFreeClauses(PragmaOf(ts[0])) else NulFreeTrees(ts[0].kids)) && NulFreeTrees(ts[1..]))
  }

  lemma {:induction false} TermPrintable(t: Term)
    requires NulFreeTerm(t)
    ensures PrintableTerm(TermElem(t))
    decreases t, 0
  {
    KindsDiffer();
    match t {
      case Pair(a, b) =>
        TermPrintable(a);
        TermPrintable(b);
      case Call(_, args) =>
        TermsPrintable(args);
      case _ =>
    }
  }

  lemma {:induction false} TermsPrintable(ts: seq<Term>)
    requires NulFreeTerms(ts)
    ensures PrintableTerms(TermElems(ts))
    decreases ts, 1
  {
    if ts != [] {
      TermPrintable(ts[0]);
      TermsPrintable(ts[1..]);
      assert TermElems(ts)[0] == TermElem(ts[0]) && TermElems(ts)[1..] == TermElems(ts[1..]);
    }
  }

  lemma {:induction false} ClausesPrintable(cs: seq<Clause>)
    requires LegalClauses(cs) && NulFreeClauses(cs)
    ensures PrintableClauses(ClauseElems(cs))
  {
    if cs != [] {
      TermsPrintable(cs[0].args);
      ClausesPrintable(cs[1..]);
      assert ClauseElems(cs)[0] == ClauseElem(cs[0]) && ClauseElems(cs)[1..] == ClauseElems(cs[1..]);
    }
  }

  lemma {:induction false} QuietPrintable(ts: seq<Elem>)
    requires Quiet(ts)
    ensures PrintableTrees(ts) && Carried(ts)
  {
    if ts != [] {
      QuietPrintable(ts[0].kids);
      QuietPrintable(ts[1..]);
    }
  }

  lemma {:induction false} PragmaQuiet(cs: seq<Clause>)
    requires QuietExps(PragmaCodes(cs))
    ensures Quiet(PragmaElem(cs).kids)
  {
    TermNames();
    QuietClauseElems(cs);
    QuietCons(PragmaElem(cs).kids[0], []);
    ConcatNothing([PragmaElem(cs).kids[0]]);
  }

  lemma {:induction false} CleanPrintable(ts: seq<Elem>)
    requires Clean(ts) && NulFreeTrees(ts)
    ensures PrintableTrees(ts)
  {
    if ts != [] {
      if IsPragma(ts[0]) {
        var cs := PragmaOf(ts[0]);
        ClausesPrintable(cs);
        PragmaQuiet(cs);
        QuietPrintable(ts[0].kids);
      } else {
        CleanPrintable(ts[0].kids);
      }
      CleanPrintable(ts[1..]);
    }
  }

  // ----- their text holds no NUL

  lemma {:induction false} NulFreeConcat(a: string, b: string)
    requires NulFree(a) && NulFree(b)
    ensures NulFree(a + b)
  {
  }

  lemma {:induction false} NameNulFree(s: string)
    requires NameLen(s) == |s|
    ensures NulFree(s)
  {
    if s != "" {
      NameNulFree(s[1..]);
      assert s == [s[0]] + s[1..];
    }
  }

  lemma {:induction false} DigitsNulFree(s: string)
    requires DigitsLen(s) == |s|
    ensures NulFree(s)
  {
    if s != "" {
      DigitsNulFree(s[1..]);
      assert s == [s[0]] + s[1..];
    }
  }

  lemma {:induction false} QuotedNulFree(s: string, q: char)
    requires NulFree(s) && IsQuote(q)
    ensures NulFree(Expand(DoubleChar(q), s))
  {
    if s != "" {
      QuotedNulFree(s[1..], q);
      assert s == [s[0]] + s[1..];
      NulFreeConcat(DoubleChar(q)(s[0]), Expand(DoubleChar(q), s[1..]));
    }
  }

  lemma {:induction false} DecimalNulFree(n: nat)
    ensures NulFree(Decimal(n))
  {
    DecimalDigits(n);
  }

  lemma {:induction false} TermNulFree(t: Term, n: nat)
    requires LegalTerm(t) && NulFreeTerm(t)
    ensures NulFree(TermText(t, n))
    decreases t, 0
  {
    match t {
      case Integer(text) =>
        DigitsNulFree(text[1..]);
        assert text == [text[0]] + text[1..];
      case Str(value) =>
        QuotedNulFree(value, '\'');
      case Boolean(_) =>
      case Literal(name) =>
        NameNulFree(name);
      case Pair(a, b) =>
        TermNulFree(a, n);
        TermNulFree(b, n + |Codes(a)|);
      case Code(_) =>
        DecimalNulFree(n);
      case Call(name, args) =>
        NameNulFree(name);
        ArgsNulFree(args, n);
    }
  }

  lemma {:induction false} ArgsNulFree(ts: seq<Term>, n: nat)
    requires LegalTerms(ts) && NulFreeTerms(ts)
    ensures NulFree(ArgsText(ts, n))
    decreases ts, 1
  {
    if ts != [] {
      TermNulFree(ts[0], n);
      ArgsNulFree(ts[1..], n + |Codes(ts[0])|);
    }
  }

  lemma {:induction false} ClauseNulFree(c: Clause, n: nat)
    requires IsName(c.name) && LegalTerms(c.args) && NulFreeTerms(c.args)
    ensures NulFree(ClauseText(c, n))
  {
    NameNulFree(c.name);
    ArgsNulFree(c.args, n);
  }

  lemma {:induction false} JoinNulFree(t: string, rest: string, last: bool, text: string)
    requires NulFree(t) && NulFree(rest) && text == t + (if last then "" else " " + rest)
    ensures NulFree(text)
  {
    NulFreeConcat(" ", rest);
    NulFreeConcat(t, if last then "" else " " + rest);
  }

  lemma {:induction false} PragmaNulFree(cs: seq<Clause>, n: nat)
    requires LegalClauses(cs) && NulFreeClauses(cs)
    ensures NulFree(PragmaText(cs, n))
    decreases |cs|
  {
    if cs == [] {
      NoText(n);
    } else {
      var c, rest, n' := cs[0], cs[1..], n + |CodesOf(cs[0].args)|;
      LegalCons(cs);
      PragmaNulFree(rest, n');
      ClauseNulFree(c, n);
      TextNulFree(cs, c, rest, n, n');
    }
  }

  lemma {:induction false} NoText(n: nat)
    ensures NulFree(PragmaText([], n))
  {
  }

  lemma {:induction false} LegalCons(cs: seq<Clause>)
    requires cs != [] && LegalClauses(cs) && NulFreeClauses(cs)
    ensures IsName(cs[0].name) && LegalTerms(cs[0].args) && NulFreeTerms(cs[0].args)
    ensures LegalClauses(cs[1..]) && NulFreeClauses(cs[1..])
  {
  }

  lemma {:induction false} TextNulFree(cs: seq<Clause>, c: Clause, rest: seq<Clause>, n: nat, n': nat)
    requires cs != [] && c == cs[0] && rest == cs[1..] && n' == n + |CodesOf(c.args)|
    requires NulFree(ClauseText(c, n)) && NulFree(PragmaText(rest, n'))
    ensures NulFree(PragmaText(cs, n))
  {
    JoinNulFree(ClauseText(c, n), PragmaText(rest, n'), |cs| == 1, PragmaText(cs, n));
  }

  lemma {:induction false} UnparsedNulFree(ts: seq<Elem>, n: nat)
    requires Clean(ts) && NulFreeTrees(ts)
    ensures TextsNulFree(Unparse(ts, n))
    decreases ts
  {
    if ts != [] {
      UnparsedNulFree(ts[1..], n + |CodesOne(ts[0])|);
      if IsPragma(ts[0]) {
        PragmaNulFree(PragmaOf(ts[0]), n);
        DeclarationNulFree(PragmaText(PragmaOf(ts[0]), n));
      } else {
        UnparsedNulFree(ts[0].kids, n);
      }
      UnparseCons(ts, n);
    }
  }

  lemma {:induction false} DeclarationNulFree(text: string)
    requires NulFree(text)
    ensures DeclarationText(Declaration(text)) == Some(text) && TextsNulFree(Declaration(text).kids)
  {
    NamesDiffer();
    assert Declaration(text).kids[1..] == [];
  }

  lemma {:induction false} QuietCodes(ts: seq<Elem>)
    requires Clean(ts)
    ensures QuietExps(CodesIn(ts))
  {
    if ts != [] {
      QuietCodes(ts[1..]);
      if !IsPragma(ts[0]) {
        QuietCodes(ts[0].kids);
      }
      QuietConcat(CodesOne(ts[0]), CodesIn(ts[1..]));
    }
  }

  // ----- every statement put in has a list to carry its expression in

  lemma {:induction false} CarriedConcat(a: seq<Elem>, b: seq<Elem>)
    requires Carried(a) && Carried(b)
    ensures Carried(a + b)
  {
    if a == [] {
      ConcatNothing(b);
    } else {
      CarriedConcat(a[1..], b);
      assert (a + b)[1..] == a[1..] + b && (a + b)[0] == a[0];
    }
  }

  lemma {:induction false} CarriedExtracts(exps: seq<Exp>)
    requires QuietExps(exps)
    ensures Carried(Extracts(exps))
  {
    if exps != [] {
      CarriedExtracts(exps[1..]);
      QuietExtract(exps[0]);
      QuietPrintable(Extract(exps[0]).kids);
      assert Extracts(exps)[0] == Extract(exps[0]) && Extracts(exps)[1..] == Extracts(exps[1..]);
    }
  }

  lemma {:induction false} CarriedCons(d: Elem, exps: seq<Exp>, rest: seq<Elem>)
    requires !IsExtract(d) && Carried(d.kids) && QuietExps(exps) && Carried(rest)
    ensures Carried([d] + Extracts(exps) + rest)
  {
    CarriedExtracts(exps);
    CarriedConcat(Extracts(exps), rest);
    FirstOf(d, Extracts(exps), rest);
    HeadTail(d, Extracts(exps) + rest);
  }

  ghost predicate PlacedWell(p: Walked, q: seq<Exp>) {
    p.Walked? && p.queue == q && Carried(p.trees) && (p.trees != [] ==> !IsExtract(p.trees[0]))
  }

  lemma {:induction false} PlacedCarried(ts: seq<Elem>, n: nat, q: seq<Exp>)
    requires Clean(ts)
    ensures PlacedWell(Place(Unparse(ts, n), CodesIn(ts) + q), q)
    decreases ts
  {
    if ts == [] {
      ConcatNothing(q);
    } else {
      PlacedCarried(ts[1..], n + |CodesOne(ts[0])|, q);
      UnparseCons(ts, n);
      ConcatAssoc(CodesOne(ts[0]), CodesIn(ts[1..]), q);
      if IsPragma(ts[0]) {
        CarriedPragma(ts, n, q);
      } else {
        PlacedCarried(ts[0].kids, n, CodesIn(ts[1..]) + q);
        CarriedPlain(ts, n, q);
      }
    }
  }

  lemma {:induction false} CarriedPragma(ts: seq<Elem>, n: nat, q: seq<Exp>)
    requires ts != [] && Clean(ts) && IsPragma(ts[0])
    requires PlacedWell(Place(Unparse(ts[1..], n + |CodesOne(ts[0])|), CodesIn(ts[1..]) + q), q)
    ensures PlacedWell(Place(Unparse(ts, n), CodesOne(ts[0]) + (CodesIn(ts[1..]) + q)), q)
  {
    var codes, q' := CodesOne(ts[0]), CodesIn(ts[1..]) + q;
    PlacedPragma(ts[0], n, q');
    UnparseCons(ts, n);
    var u := Unparse(ts, n);
    assert u[0].(kids := u[0].kids) == u[0];
    DeclarationCarried(PragmaText(PragmaOf(ts[0]), n));
    var rest := Place(u[1..], q').trees;
    CarriedCons(u[0], codes, rest);
    FirstOf(u[0], Extracts(codes), rest);
  }

  lemma {:induction false} DeclarationCarried(text: string)
    ensures Carried(Declaration(text).kids)
  {
    NamesDiffer();
    assert Declaration(text).kids[1..] == [];
  }

  lemma {:induction false} CarriedPlain(ts: seq<Elem>, n: nat, q: seq<Exp>)
    requires ts != [] && Clean(ts) && !IsPragma(ts[0])
    requires PlacedWell(Place(Unparse(ts[1..], n + |CodesOne(ts[0])|), CodesIn(ts[1..]) + q), q)
    requires var q' := CodesIn(ts[1..]) + q; PlacedWell(Place(Unparse(ts[0].kids, n), CodesIn(ts[0].kids) + q'), q')
    ensures PlacedWell(Place(Unparse(ts, n), CodesOne(ts[0]) + (CodesIn(ts[1..]) + q)), q)
  {
    var q0 := CodesOne(ts[0]) + (CodesIn(ts[1..]) + q);
    UnparseCons(ts, n);
    var u := Unparse(ts, n);
    assert q0[0..] == q0 && q0[..0] == [] && Extracts([]) == [];
    var d := u[0].(kids := Place(u[0].kids, q0).trees);
    if IsExtract(d) {
      PlacedExtract(u[0], q0);
      assert ts[0].kids != [];
      UnparsedExtract(ts[0], n);
    }
    var rest := Place(u[1..], CodesIn(ts[1..]) + q).trees;
    CarriedCons(d, [], rest);
    FirstOf(d, [], rest);
  }

  // ----- the run

  /** What the walks demand, one after the other. */
  lemma {:induction false} Ready(ts: seq<Elem>)
    requires Clean(ts) && NulFreeTrees(ts) && ts != [] && !IsPragma(ts[0])
    ensures PrintableTrees(ts)
    ensures TextsNulFree(Unparse(ts, 0)) && QuietExps(CodesIn(ts)) && !IsDeclaration(Unparse(ts, 0)[0])
    ensures var p := Place(Unparse(ts, 0), CodesIn(ts));
            p.Walked? && p.trees != [] && Carried(p.trees) && !IsExtract(p.trees[0])
  {
    CleanPrintable(ts);
    UnparsedNulFree(ts, 0);
    QuietCodes(ts);
    PlacedCarried(ts, 0, []);
    ConcatNothing(CodesIn(ts));
    UnparseCons(ts, 0);
    PlaceHead(Unparse(ts, 0), CodesIn(ts));
  }

  /** Prints all directives below and behind the cell and places their expressions. */
  method UnparseF(x: XmlCell, ghost f: Forest) returns (ok: bool, ghost g: Forest)
    requires Rep(x, f) && PrintableTrees(Trees(f)) && !IsPragma(Trees(f)[0])
    requires TextsNulFree(Unparse(Trees(f), 0)) && QuietExps(CodesIn(Trees(f)))
    modifies Cells(f)
    ensures match Place(Unparse(Trees(f), 0), CodesIn(Trees(f)))
            case WalkFail => !ok
            case Walked(ts, _) => ok && Rep(x, g) && Trees(g) == ts
    ensures ok ==> forall k | k in Cells(g) :: k in Cells(f) || fresh(k)
  {
    assert allocated(Cells(f));
    var out := new Unparser();
    ghost var h, hs := UnparsePragma(out, x, f, []);
    ConcatNothing(CodesIn(Trees(f)));
    assert allocated(Cells(h)) && allocated(CellsOf(hs));
    ok, g := PlaceAll(x, out.exlist, h, hs);
  }

  /** Places the queued expressions below and behind the cell. */
  method PlaceAll(x: XmlCell, list: seq<XmlCell?>, ghost f: Forest, ghost fs: seq<Forest>)
    returns (ok: bool, ghost g: Forest)
    requires Rep(x, f) && Queued(list, fs) && CellsOf(fs) !! Cells(f)
    requires TextsNulFree(Trees(f)) && QuietExps(Values(fs))
    modifies Cells(f), CellsOf(fs)
    ensures match Place(Trees(f), Values(fs))
            case WalkFail => !ok
            case Walked(ts, _) => ok && Rep(x, g) && Trees(g) == ts
    ensures ok ==> forall k | k in Cells(g) :: k in Cells(f) || k in CellsOf(fs) || fresh(k)
  {
    assert allocated(Cells(f)) && allocated(CellsOf(fs));
    var queue := new ExpQueue(list);
    assert Rep(x, f) && Queued(queue.list, fs);
    ghost var gs;
    ok, g, gs := queue.PlaceExp(x, f, fs);
  }

  /** Collects the expressions below and behind the cell and parses all directives. */
  method PostparseF(x: XmlCell, ghost f: Forest) returns (ok: bool, ghost g: Forest)
    requires Rep(x, f) && Carried(Trees(f)) && !IsExtract(Trees(f)[0])
    requires var c := Collect(Trees(f)); TextsNulFree(c.trees) && QuietExps(c.queue) && !IsDeclaration(c.trees[0])
    modifies Cells(f)
    ensures match Parse(Collect(Trees(f)).trees, Collect(Trees(f)).queue)
            case WalkFail => !ok
            case Walked(ts, _) => ok && Rep(x, g) && Trees(g) == ts
  {
    assert allocated(Cells(f));
    var c := new Collector();
    ghost var h, hs := c.CollectExp(x, f, []);
    ConcatNothing(Collect(Trees(f)).queue);
    assert allocated(Cells(h)) && allocated(CellsOf(hs));
    var p := new PragmaParser(c.exList);
    assert Rep(x, h) && Queued(p.exList, hs);
    ghost var gs;
    ok, g, gs := p.ParsePragmas(x, h, hs);
  }

  /** One after the other they leave the cell with the trees it had. */
  method Run(x: XmlCell, ghost f: Forest) returns (ok: bool, ghost g: Forest)
    requires Rep(x, f) && Clean(Trees(f)) && NulFreeTrees(Trees(f)) && !IsPragma(Trees(f)[0])
    modifies Cells(f)
    ensures ok && Rep(x, g) && Trees(g) == Trees(f)
  {
    Ready(Trees(f));
    RoundTrip(Trees(f));
    PlaceCollect(Trees(f), 0, []);
    ConcatNothing(CodesIn(Trees(f)));
    ghost var h;
    ok, h := UnparseF(x, f);
    ok, g := PostparseF(x, h);
  }
}
