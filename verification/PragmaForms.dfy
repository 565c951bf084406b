/** Directives written out: how they are printed, the elements that stand for them, and what each walk
    makes of the elements it looks for. */
module PragmaForms {
  import opened Wrappers
  import opened Xml
  import opened LangStr
  import opened Directive
  import opened DirectiveProofs
  import opened DirectiveCount
  import opened DirectiveLayout
  import opened PragmaTree

  // ----- text

  lemma {:induction false} Quoting()
    ensures G2F("it's", '\'') == "'it''s'" && G2F("it's", '"') == "\"it's\""
  {
    var f, g := DoubleChar('\''), DoubleChar('"');
    assert "it's"[1..] == "t's" && "t's"[1..] == "'s" && "'s"[1..] == "s" && "s"[1..] == "";
    assert Expand(f, "s") == "s" && Expand(f, "'s") == "''s" && Expand(f, "t's") == "t''s";
    assert Expand(g, "s") == "s" && Expand(g, "'s") == "'s" && Expand(g, "t's") == "t's";
  }

  lemma {:induction false} TwoArgs(a: Term, b: Term, n: nat)
    ensures ArgsText([a, b], n) == TermText(a, n) + (", " + TermText(b, n + |Codes(a)|))
  {
    assert [a, b][1..] == [b];
  }

  lemma {:induction false} PrintedCall(exp: Exp)
    ensures TermText(Call("f", [Code(exp), Integer("-1")]), 12) == "f(`12`, -1)"
    ensures Codes(Call("f", [Code(exp), Integer("-1")])) == [exp]
  {
    var args := [Code(exp), Integer("-1")];
    TwoArgs(args[0], args[1], 12);
    assert Decimal(12) == Decimal(1) + "2" == "12";
    assert TermText(args[0], 12) == "`" + "12" + "`" == "`12`";
    assert ArgsText(args, 12) == "`12`" + (", " + "-1") == "`12`, -1";
    assert args[1..] == [Integer("-1")] && CodesOf(args[1..]) == [];
    assert CodesOf(args) == [exp] + [] == [exp];
  }

  /** Pairs with a colon, one blank behind commas, single quotes, expressions by number. */
  lemma {:induction false} PrintedClause(exp: Exp)
    ensures ClauseText(Clause("map", [Pair(Literal("to"), Call("f", [Code(exp), Integer("-1")])), Str("it's")]), 12)
         == "map" + ("(" + ("to:f(`12`, -1)" + (", " + "'it''s'")) + ")")
  {
    var p := Pair(Literal("to"), Call("f", [Code(exp), Integer("-1")]));
    PrintedPair(exp);
    Quoting();
    TwoArgs(p, Str("it's"), 12);
    Parenthesized("map", [p, Str("it's")], 12, "to:f(`12`, -1)" + (", " + "'it''s'"));
  }

  lemma {:induction false} PrintedPair(exp: Exp)
    ensures TermText(Pair(Literal("to"), Call("f", [Code(exp), Integer("-1")])), 12) == "to:f(`12`, -1)"
  {
    PrintedCall(exp);
    assert Codes(Literal("to")) == [];
    assert "to" + ":" + "f(`12`, -1)" == "to:f(`12`, -1)";
  }

  lemma {:induction false} Parenthesized(name: string, args: seq<Term>, n: nat, text: string)
    requires args != [] && ArgsText(args, n) == text
    ensures ClauseText(Clause(name, args), n) == name + ("(" + text + ")")
  {
  }

  /** One blank between clauses, no parentheses without arguments, truth values by name. */
  lemma {:induction false} PrintedClauses(n: nat)
    ensures PragmaText([Clause("omp", []), Clause("if", [Boolean(true)])], n) == "omp if(true)"
    ensures TermText(Boolean(false), n) == "false"
  {
    var cs := [Clause("omp", []), Clause("if", [Boolean(true)])];
    assert cs[1..] == [cs[1]] && CodesOf([]) == [];
    assert ArgsText([Boolean(true)], n) == "true" + "" == "true";
    assert ClauseText(cs[1], n) == "if" + ("(" + "true" + ")") == "if(true)";
    assert PragmaText(cs[1..], n) == "if(true)" + "" == "if(true)";
    assert ClauseText(cs[0], n) == "omp" + "" == "omp";
    assert PragmaText(cs, n) == "omp" + (" " + "if(true)") == "omp if(true)";
  }

  /** The first half of a pair is lost where the parenthesis closes right behind its colon. */
  lemma {:induction false} HalfLost(name: string, arg: string, q: seq<Exp>)
    requires PlainName(name) && PlainName(arg)
    ensures ParseTerm(name + ("(" + (arg + (":" + (")" + ")")))), q) == TermGot(Call(name, []), ")", q)
  {
    var half := More(AName(arg), "", ':', "", Close);
    ConcatNothing(":" + (")" + ")"));
    ConcatNothing(")" + ")");
    assert ArgsThen(half, ")") == arg + (":" + (")" + ")"));
    ConcatNothing("(" + (arg + (":" + (")" + ")"))));
    ConcatNothing(arg + (":" + (")" + ")")));
    NoSkip(")");
    assert LegalArgs(Close, true, true) && LegalArgs(half, true, false);
    assert Terms(Close, Some(Literal(arg)), []) == [] && Terms(half, None, []) == [];
    var call := ACall(name, "", "", half);
    assert Meaning(call) == Call(name, []);
    assert ArgsCodes(Close, q) == q && ArgsCodes(half, q) == q;
    assert call.ACall? && call.args == half && ShapeCodes(call, q) == ArgsCodes(call.args, q);
    assert ShapeThen(call, ")") == name + ("(" + (arg + (":" + (")" + ")"))));
    assert Follows(")");
    ShapeRead(call, ")", q);
  }

  // ----- elements

  lemma {:induction false} TermForms(a: Term, b: Term, s: string, exp: Exp)
    ensures TermElem(Integer(s)) == Elem("xev_integer", [Attr("value", s)], [])
    ensures TermElem(Str(s)) == Elem("xev_string", [Attr("value", s)], [])
    ensures TermElem(Boolean(true)) == Elem("xev_boolean", [Attr("value", "true")], [])
    ensures TermElem(Boolean(false)) == Elem("xev_boolean", [Attr("value", "false")], [])
    ensures TermElem(Literal(s)) == Elem("xev_literal", [Attr("name", s)], [])
    ensures TermElem(Pair(a, b)) == Elem("xev_pair", [], [TermElem(a), TermElem(b)])
    ensures TermElem(Code(exp)) == Elem("xevparse_code_exp", [], exp)
    ensures TermElem(Call(s, [a, b])) == Elem("xev_func_call", [Attr("name", s)], [TermElem(a), TermElem(b)])
  {
    assert [a, b][1..] == [b] && [b][1..] == [];
    assert TermElems([b]) == [TermElem(b)];
  }

  /** A directive of two clauses, the second with two arguments. */
  lemma {:induction false} PragmaForm(c: string, d: string, a: Term, b: Term)
    ensures PragmaElem([Clause(c, []), Clause(d, [a, b])]) ==
            Elem("xev_pragma", [],
                 [Elem("xev_clause_list", [],
                       [Elem("xev_clause", [Attr("name", c)], []),
                        Elem("xev_clause", [Attr("name", d)], [TermElem(a), TermElem(b)])])])
  {
    var cs := [Clause(c, []), Clause(d, [a, b])];
    assert [a, b][1..] == [b] && [b][1..] == [];
    assert TermElems([b]) == [TermElem(b)];
    assert cs[1..] == [cs[1]] && cs[1..][1..] == [];
    assert ClauseElems(cs[1..]) == [ClauseElem(cs[1])];
    assert TermElems([a, b]) == [TermElem(a)] + TermElems([b]) == [TermElem(a), TermElem(b)];
    assert ClauseElems(cs) == [ClauseElem(cs[0]), ClauseElem(cs[1])];
  }

  // ----- the walks

  /** A directive gives way to a declaration whose only child holds its text. */
  lemma {:induction false} UnparsedForm(t: Elem, rest: seq<Elem>, n: nat)
    requires t.name == "xev_pragma"
    ensures Unparse([t] + rest, n) ==
            [Elem("SgPragmaDeclaration", [], [Elem("SgPragma", [Attr("pragma", PragmaText(PragmaOf(t), n))], [])])] +
            Unparse(rest, n + |PragmaCodes(PragmaOf(t))|)
  {
    assert ([t] + rest)[1..] == rest;
  }

  lemma {:induction false} KeptForm(t: Elem, rest: seq<Elem>, n: nat)
    requires t.name != "xev_pragma"
    ensures Unparse([t] + rest, n) == [t.(kids := Unparse(t.kids, n))] + Unparse(rest, n + |CodesIn(t.kids)|)
  {
    assert ([t] + rest)[1..] == rest;
  }

  /** The statement that carries an expression along: a call whose reference is named, with the
      expression as its arguments. */
  lemma {:induction false} ExtractForm(exps: seq<Exp>, i: nat)
    requires i < |exps|
    ensures |Extracts(exps)| == |exps| && Extracts(exps)[i] ==
            Elem("SgExprStatement", [],
                 [Elem("SgFunctionCallExp", [],
                       [Elem("SgFunctionRefExp", [Attr("name", "xevparse_extract_exp"), Attr("kind", "2")], []),
                        Elem("SgExprListExp", [], exps[i])])])
  {
    if |exps| > 1 {
      ExtractForm(exps[1..], if i > 0 then i - 1 else 0);
    }
  }

  /** Behind a declaration come as many of these as its text asks for. */
  lemma {:induction false} PlacedForm(t: Elem, p: Elem, text: string, more: seq<Elem>, rest: seq<Elem>,
                                      exps: seq<Exp>, q: seq<Exp>)
    requires t.name == "SgPragmaDeclaration" && t.kids == [p] + more && AttrValue(p.attrs, "pragma") == Some(text)
    requires CountExp(text) == Some(|exps|)
    ensures Place([t] + rest, exps + q) ==
            match Place(t.kids, q)
            case WalkFail => WalkFail
            case Walked(kids, q1) =>
              match Place(rest, q1)
              case WalkFail => WalkFail
              case Walked(us, q2) => Walked([t.(kids := kids)] + Extracts(exps) + us, q2)
  {
    assert ([t] + rest)[1..] == rest && (exps + q)[|exps|..] == q && (exps + q)[..|exps|] == exps;
    assert t.kids[0] == p;
  }

  /** A statement that carries an expression is taken out whatever else it holds. */
  lemma {:induction false} CollectedForm(t: Elem, call: Elem, ref: Elem, list: Elem, a: seq<Elem>, b: seq<Elem>,
                                         rest: seq<Elem>)
    requires t.name == "SgExprStatement" && t.kids == [call] + a
    requires call.name == "SgFunctionCallExp" && call.kids == [ref, list] + b
    requires ref.name == "SgFunctionRefExp" && AttrValue(ref.attrs, "name") == Some("xevparse_extract_exp")
    ensures Collect([t] + rest) == Collected(Collect(rest).trees, [list.kids] + Collect(rest).queue)
  {
    assert ([t] + rest)[1..] == rest && t.kids[0] == call && call.kids[0] == ref && call.kids[1] == list;
  }

  /** Other statements stay, calls of other functions among them. */
  lemma {:induction false} StayingForm(t: Elem, rest: seq<Elem>)
    requires t.name == "SgExprStatement" && t.kids != [] && t.kids[0].kids != [] ==>
               AttrValue(t.kids[0].kids[0].attrs, "name") != Some("xevparse_extract_exp")
    ensures Collect([t] + rest) == Collected([t.(kids := Collect(t.kids).trees)] + Collect(rest).trees,
                                             Collect(t.kids).queue + Collect(rest).queue)
  {
    assert ([t] + rest)[1..] == rest;
  }

  /** A declaration gives way to the directive that its text stands for; the text starts with a letter,
      a digit, an underscore or a dot. */
  lemma {:induction false} ParsedForm(t: Elem, p: Elem, text: string, more: seq<Elem>, rest: seq<Elem>, q: seq<Exp>)
    requires t.name == "SgPragmaDeclaration" && t.kids == [p] + more && AttrValue(p.attrs, "pragma") == Some(text)
    requires text != "" && NameChars(text[..1])
    ensures Parse([t] + rest, q) ==
            match ParsePragma(text, q, [])
            case PragmaFail => WalkFail
            case PragmaGot(cs, q1) =>
              match Parse(rest, q1)
              case WalkFail => WalkFail
              case Walked(us, q2) => Walked([PragmaElem(cs)] + us, q2)
  {
    assert ([t] + rest)[1..] == rest && t.kids[0] == p;
    assert text[0] in text[..1];
  }

  /** A declaration that starts otherwise, or has no text, is refused. */
  lemma {:induction false} RefusedForm(t: Elem, p: Elem, text: string, more: seq<Elem>, rest: seq<Elem>, q: seq<Exp>)
    requires t.name == "SgPragmaDeclaration" && t.kids == [p] + more && AttrValue(p.attrs, "pragma") == Some(text)
    requires text == "" || !NameChars(text[..1])
    ensures Parse([t] + rest, q) == WalkFail
  {
    assert ([t] + rest)[1..] == rest && t.kids[0] == p;
    if text != "" {
      assert forall c | c in text[..1] :: c == text[0];
    }
  }
}
