/** The walks go from an element to its first child and on to its next sibling, and replace, insert and
    remove statements ahead of each step: why what is inserted is walked through without effect, and
    why the walks end. */
module PragmaWalk {
  import opened Wrappers
  import opened Xml
  import opened LangStr
  import opened Directive
  import opened DirectivePrinter
  import opened PragmaTree
  import opened PragmaTrip

  function Size(ts: seq<Elem>): nat {
    if ts == [] then 0 else (if IsPragma(ts[0]) then 3 else 1) + Size(ts[0].kids) + Size(ts[1..])
  }

  function Declarations(ts: seq<Elem>): nat {
    if ts == [] then 0 else (if IsDeclaration(ts[0]) then 1 else 0) + Declarations(ts[0].kids) + Declarations(ts[1..])
  }

  lemma {:induction false} HeadTail<T>(t: T, ts: seq<T>)
    ensures ([t] + ts)[0] == t && ([t] + ts)[1..] == ts
  {
  }

  // ----- printing

  predicate PrintableTrees(ts: seq<Elem>) {
    ts == [] ||
    ((IsPragma(ts[0]) ==> ts[0].kids != [] && PrintableClauses(ts[0].kids[0].kids)) &&
     PrintableTrees(ts[0].kids) && PrintableTrees(ts[1..]))
  }

  /** With its first directive replaced by text, a list prints as before, that directive's
      expressions being out already. */
  lemma {:induction false} HeadRestored(ts: seq<Elem>, n: nat)
    requires ts != [] && IsPragma(ts[0])
    ensures var d := Declaration(PragmaText(PragmaOf(ts[0]), n)); var ts' := [d] + ts[1..];
            && Unparse(ts', n + |CodesOne(ts[0])|) == Unparse(ts, n) && CodesIn(ts) == CodesOne(ts[0]) + CodesIn(ts')
            && Size(ts') <= Size(ts) && !IsPragma(d) && (PrintableTrees(ts) ==> PrintableTrees(ts'))
  {
    NamesDiffer();
    var d := Declaration(PragmaText(PragmaOf(ts[0]), n));
    var e := d.kids[0];
    HeadTail(d, ts[1..]);
    assert d.kids[1..] == [] && d.(kids := d.kids) == d && e.(kids := []) == e;
    assert CodesIn(e.kids) == [] && CodesIn(d.kids) == [] && Unparse(d.kids, n + |CodesOne(ts[0])|) == d.kids;
    ConcatNothing(CodesIn(ts[1..]));
    assert Size(d.kids) == 1;
    assert PrintableTrees(d.kids);
  }

  // ----- placing

  /** No text holds the character that ends a string. */
  predicate TextsNulFree(ts: seq<Elem>) {
    ts == [] ||
    ((IsDeclaration(ts[0]) && DeclarationText(ts[0]).Some? ==> NulFree(DeclarationText(ts[0]).value)) &&
     TextsNulFree(ts[0].kids) && TextsNulFree(ts[1..]))
  }

  lemma {:induction false} QuietTrees(ts: seq<Elem>, q: seq<Exp>)
    requires Quiet(ts)
    ensures Place(ts, q) == Walked(ts, q) && Parse(ts, q) == Walked(ts, q) && Collect(ts) == Collected(ts, [])
    ensures Declarations(ts) == 0 && TextsNulFree(ts)
    decreases ts
  {
    if ts != [] {
      QuietTrees(ts[0].kids, q);
      QuietTrees(ts[1..], q);
      assert q[0..] == q && q[..0] == [] && Extracts([]) == [];
      assert [ts[0]] + [] + ts[1..] == ts && [ts[0]] + ts[1..] == ts && ts[0].(kids := ts[0].kids) == ts[0];
    }
  }

  lemma {:induction false} QuietSplit(exps: seq<Exp>, c: nat)
    requires QuietExps(exps) && c <= |exps|
    ensures QuietExps(exps[..c]) && QuietExps(exps[c..])
  {
    if c > 0 {
      QuietSplit(exps[1..], c - 1);
      assert exps[..c][1..] == exps[1..][..c - 1] && exps[c..] == exps[1..][c - 1..];
    } else {
      assert exps[..0] == [] && exps[0..] == exps;
    }
  }

  /** Inside a statement that carries a quiet expression nothing is to be done. */
  lemma {:induction false} QuietExtract(exp: Exp)
    requires Quiet(exp)
    ensures Quiet(Extract(exp).kids) && !IsDeclaration(Extract(exp)) && !IsPragma(Extract(exp))
  {
    NamesDiffer();
    var call := Extract(exp).kids[0];
    var ref, list := call.kids[0], call.kids[1];
    assert |"SgFunctionRefExp"| == 16 && |"SgExprListExp"| == 13 && |"SgFunctionCallExp"| == 17;
    assert call.kids[1..] == [list] && [list][1..] == [] && Extract(exp).kids[1..] == [];
    assert Quiet(list.kids) && Quiet([list]) && Quiet(call.kids);
  }

  lemma {:induction false} PlaceExtracts(exps: seq<Exp>, rest: seq<Elem>, q: seq<Exp>)
    requires QuietExps(exps)
    ensures Place(Extracts(exps) + rest, q) ==
            match Place(rest, q) case WalkFail => WalkFail case Walked(ts, q') => Walked(Extracts(exps) + ts, q')
    ensures Declarations(Extracts(exps) + rest) == Declarations(rest) &&
            (TextsNulFree(rest) ==> TextsNulFree(Extracts(exps) + rest))
  {
    if exps == [] {
      ConcatNothing(rest);
      if Place(rest, q).Walked? {
        ConcatNothing(Place(rest, q).trees);
      }
    } else {
      var e, more := Extract(exps[0]), Extracts(exps[1..]) + rest;
      PlaceExtracts(exps[1..], rest, q);
      QuietExtract(exps[0]);
      QuietTrees(e.kids, q);
      ConcatAssoc([e], Extracts(exps[1..]), rest);
      HeadTail(e, more);
      assert q[0..] == q && q[..0] == [] && Extracts([]) == [] && e.(kids := e.kids) == e;
      if Place(rest, q).Walked? {
        ConcatNothing([e]);
        ConcatAssoc([e], Extracts(exps[1..]), Place(rest, q).trees);
      }
    }
  }

  lemma {:induction false} ExtractsSnoc(exps: seq<Exp>, c: nat)
    requires c < |exps|
    ensures Extracts(exps[c..]) == [Extract(exps[c])] + Extracts(exps[c + 1..])
  {
    assert exps[c..][0] == exps[c] && exps[c..][1..] == exps[c + 1..];
  }

  // ----- parsing

  /** The expressions of parsed terms come from the queue. */
  lemma {:induction false} QuietTerm(t: string, q: seq<Exp>)
    requires QuietExps(q) && ParseTerm(t, q).TermGot?
    ensures QuietExps(Codes(ParseTerm(t, q).term)) && QuietExps(ParseTerm(t, q).queue)
    decreases |t|, 1
  {
    if !IsDigit(t[0]) && t[0] != '-' && !IsQuote(t[0]) && t[0] != '`' {
      QuietNamed(t[..NameLen(t)], t[NameLen(t)..], q);
    }
  }

  lemma {:induction false} QuietNamed(name: string, t: string, q: seq<Exp>)
    requires QuietExps(q) && ParseNamed(name, t, q).TermGot?
    ensures QuietExps(Codes(ParseNamed(name, t, q).term)) && QuietExps(ParseNamed(name, t, q).queue)
    decreases |t|, 4
  {
    var rest := SkipBlanks(t);
    if name != "true" && name != "false" && rest[0] == '(' {
      QuietArgs(rest[1..], q, None, [], true);
    }
  }

  predicate QuietPending(fst: Option<Term>, acc: seq<Term>) {
    (fst.Some? ==> QuietExps(Codes(fst.value))) && QuietExps(CodesOf(acc))
  }

  lemma {:induction false} QuietConcat(a: seq<Exp>, b: seq<Exp>)
    requires QuietExps(a) && QuietExps(b)
    ensures QuietExps(a + b)
  {
    if a == [] {
      ConcatNothing(b);
    } else {
      QuietConcat(a[1..], b);
      assert (a + b)[1..] == a[1..] + b && (a + b)[0] == a[0];
    }
  }

  lemma {:induction false} CodesSnoc(ts: seq<Term>, t: Term)
    ensures CodesOf(ts + [t]) == CodesOf(ts) + Codes(t)
    decreases |ts|
  {
    if ts == [] {
      ConcatNothing([t]);
      assert [t][1..] == [];
      ConcatNothing(Codes(t));
    } else {
      assert (ts + [t])[1..] == ts[1..] + [t] && (ts + [t])[0] == ts[0];
      CodesSnoc(ts[1..], t);
      ConcatAssoc(Codes(ts[0]), CodesOf(ts[1..]), Codes(t));
    }
  }

  lemma {:induction false} QuietArgs(t: string, q: seq<Exp>, fst: Option<Term>, acc: seq<Term>, call: bool)
    requires QuietExps(q) && QuietPending(fst, acc) && ParseArgs(t, q, fst, acc, call).ArgsGot?
    ensures QuietExps(CodesOf(ParseArgs(t, q, fst, acc, call).args)) && QuietExps(ParseArgs(t, q, fst, acc, call).queue)
    decreases |t|, 2
  {
    var t0 := if call then SkipBlanks(t) else t;
    if !(call && t0 != "" && t0[0] == ')') {
      QuietTerm(t0, q);
      var r := ParseTerm(t0, q);
      QuietAfter(if call then SkipBlanks(r.rest) else r.rest, r.queue, fst, r.term, acc, call);
    }
  }

  lemma {:induction false} QuietAfter(t: string, q: seq<Exp>, fst: Option<Term>, x: Term, acc: seq<Term>, call: bool)
    requires QuietExps(q) && QuietPending(fst, acc) && QuietExps(Codes(x)) &&
             ParseAfter(t, q, fst, x, acc, call).ArgsGot?
    ensures QuietExps(CodesOf(ParseAfter(t, q, fst, x, acc, call).args)) &&
            QuietExps(ParseAfter(t, q, fst, x, acc, call).queue)
    decreases |t|, 3
  {
    if t[0] == ':' {
      QuietArgs(SkipBlanks(t[1..]), q, Some(x), acc, call);
    } else {
      var y := if fst.Some? then Pair(fst.value, x) else x;
      if fst.Some? {
        QuietConcat(Codes(fst.value), Codes(x));
      }
      CodesSnoc(acc, y);
      QuietConcat(CodesOf(acc), Codes(y));
      if t[0] == ',' {
        QuietArgs(SkipBlanks(t[1..]), q, None, acc + [y], call);
      }
    }
  }

  lemma {:induction false} PragmaCodesSnoc(cs: seq<Clause>, c: Clause)
    ensures PragmaCodes(cs + [c]) == PragmaCodes(cs) + CodesOf(c.args)
    decreases |cs|
  {
    if cs == [] {
      ConcatNothing([c]);
      assert [c][1..] == [];
      ConcatNothing(CodesOf(c.args));
    } else {
      assert (cs + [c])[1..] == cs[1..] + [c] && (cs + [c])[0] == cs[0];
      PragmaCodesSnoc(cs[1..], c);
      ConcatAssoc(CodesOf(cs[0].args), PragmaCodes(cs[1..]), CodesOf(c.args));
    }
  }

  lemma {:induction false} QuietParse(t: string, q: seq<Exp>, acc: seq<Clause>)
    requires QuietExps(q) && QuietExps(PragmaCodes(acc)) && ParsePragma(t, q, acc).PragmaGot?
    ensures QuietExps(PragmaCodes(ParsePragma(t, q, acc).clauses)) && QuietExps(ParsePragma(t, q, acc).queue)
    decreases |t|
  {
    var t0 := SkipBlanks(t);
    SkippedStart(t);
    if t0 != "" && t0[0] != '!' {
      var t1 := if t0[0] == '&' then t0[1..] else t0;
      QuietClause(t1, q);
      var r := ParseClause(t1, q);
      PragmaCodesSnoc(acc, r.clause);
      QuietConcat(PragmaCodes(acc), CodesOf(r.clause.args));
      QuietParse(r.rest, r.queue, acc + [r.clause]);
    }
  }

  lemma {:induction false} QuietClause(t: string, q: seq<Exp>)
    requires QuietExps(q) && ParseClause(t, q).ClauseGot?
    ensures QuietExps(CodesOf(ParseClause(t, q).clause.args)) && QuietExps(ParseClause(t, q).queue)
  {
    var brace := t != "" && (t[0] == '{' || t[0] == '}');
    var t1 := SkipBlanks(t[if brace then 1 else NameLen(t)..]);
    if t1 != "" && t1[0] == '(' {
      QuietArgs(t1[1..], q, None, [], false);
    }
  }

  lemma {:induction false} QuietCons(t: Elem, ts: seq<Elem>)
    requires Quiet(t.kids) && Quiet(ts) && !IsPragma(t) && !IsDeclaration(t) && t.name != "SgExprStatement"
    ensures Quiet([t] + ts)
  {
    HeadTail(t, ts);
  }

  lemma {:induction false} TermNames()
    ensures var names := ["xev_integer", "xev_string", "xev_boolean", "xev_pair", "xevparse_code_exp", "xev_func_call",
                          "xev_literal", "xev_clause", "xev_clause_list"];
            forall i :: 0 <= i < 9 ==> names[i] != "xev_pragma" && names[i] != "SgPragmaDeclaration" &&
                                       names[i] != "SgExprStatement"
  {
    assert "xev_pragma"[4] == 'p' && "xev_string"[4] == 's' && "xev_clause"[4] == 'c';
    assert |"SgExprStatement"| == 15 && "SgExprStatement"[0] == 'S' && "xev_clause_list"[0] == 'x';
  }

  lemma {:induction false} QuietTermElem(t: Term, ts: seq<Elem>)
    requires QuietExps(Codes(t)) && Quiet(ts)
    ensures Quiet([TermElem(t)] + ts)
    decreases t, 0
  {
    TermNames();
    match t {
      case Pair(a, b) =>
        QuietPrefix(Codes(a), Codes(b));
        QuietTermElem(b, []);
        ConcatNothing([TermElem(b)]);
        QuietTermElem(a, [TermElem(b)]);
        assert [TermElem(a), TermElem(b)] == [TermElem(a)] + [TermElem(b)];
      case Call(_, args) =>
        QuietTermElems(args);
      case Code(exp) =>
        assert QuietExps([exp]) && [exp][0] == exp;
      case _ =>
    }
    QuietCons(TermElem(t), ts);
  }

  lemma {:induction false} QuietTermElems(ts: seq<Term>)
    requires QuietExps(CodesOf(ts))
    ensures Quiet(TermElems(ts))
    decreases ts, 1
  {
    if ts != [] {
      QuietPrefix(Codes(ts[0]), CodesOf(ts[1..]));
      QuietTermElems(ts[1..]);
      QuietTermElem(ts[0], TermElems(ts[1..]));
    }
  }

  lemma {:induction false} QuietPrefix(a: seq<Exp>, b: seq<Exp>)
    requires QuietExps(a + b)
    ensures QuietExps(a) && QuietExps(b)
  {
    QuietSplit(a + b, |a|);
    assert (a + b)[..|a|] == a && (a + b)[|a|..] == b;
  }

  lemma {:induction false} QuietClauseElems(cs: seq<Clause>)
    requires QuietExps(PragmaCodes(cs))
    ensures Quiet(ClauseElems(cs))
  {
    if cs != [] {
      TermNames();
      QuietPrefix(CodesOf(cs[0].args), PragmaCodes(cs[1..]));
      QuietTermElems(cs[0].args);
      QuietClauseElems(cs[1..]);
      QuietCons(Elem("xev_clause", [Attr("name", cs[0].name)], TermElems(cs[0].args)), ClauseElems(cs[1..]));
    }
  }

  /** A parsed directive holds nothing that a walk would change. */
  lemma {:induction false} QuietPragma(cs: seq<Clause>, rest: seq<Elem>, q: seq<Exp>)
    requires QuietExps(PragmaCodes(cs))
    ensures var p := PragmaElem(cs);
            && !IsDeclaration(p) && ParseOne(p, q) == Parsed(p, q)
            && Declarations([p] + rest) == Declarations(rest) && (TextsNulFree(rest) ==> TextsNulFree([p] + rest))
  {
    var p := PragmaElem(cs);
    TermNames();
    NamesDiffer();
    QuietClauseElems(cs);
    QuietCons(p.kids[0], []);
    ConcatNothing([p.kids[0]]);
    QuietTrees(p.kids, q);
    HeadTail(p, rest);
  }
}
