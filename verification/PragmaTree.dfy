/** Directives in a program tree: as structured elements, as text with their code expressions in
    extra statements behind them, and the four walks that lead from one form to the other and back
    with a queue of expressions. */
module PragmaTree {
  import opened Wrappers
  import opened Xml
  import opened Directive
  import opened DirectiveProofs
  import opened DirectiveCount

  // ----- directives as elements

  function TermElem(t: Term): Elem
    decreases t, 0
  {
    match t
    case Integer(text) => Elem("xev_integer", [Attr("value", text)], [])
    case Str(value) => Elem("xev_string", [Attr("value", value)], [])
    case Boolean(holds) => Elem("xev_boolean", [Attr("value", if holds then "true" else "false")], [])
    case Literal(name) => Elem("xev_literal", [Attr("name", name)], [])
    case Pair(a, b) => Elem("xev_pair", [], [TermElem(a), TermElem(b)])
    case Code(exp) => Elem("xevparse_code_exp", [], exp)
    case Call(name, args) => Elem("xev_func_call", [Attr("name", name)], TermElems(args))
  }

  function TermElems(ts: seq<Term>): seq<Elem>
    decreases ts, 1
  {
    if ts == [] then [] else [TermElem(ts[0])] + TermElems(ts[1..])
  }

  function ClauseElem(c: Clause): Elem {
    Elem("xev_clause", [Attr("name", c.name)], TermElems(c.args))
  }

  function ClauseElems(cs: seq<Clause>): seq<Elem> {
    if cs == [] then [] else [ClauseElem(cs[0])] + ClauseElems(cs[1..])
  }

  function PragmaElem(cs: seq<Clause>): Elem {
    Elem("xev_pragma", [], [Elem("xev_clause_list", [], ClauseElems(cs))])
  }

  function Value(e: Elem, name: string): string {
    var v := AttrValue(e.attrs, name);
    if v.Some? then v.value else ""
  }

  function TermOf(e: Elem): Term
    decreases e, 0
  {
    if e.name == "xev_integer" then Integer(Value(e, "value"))
    else if e.name == "xev_string" then Str(Value(e, "value"))
    else if e.name == "xev_boolean" then Boolean(Value(e, "value") == "true")
    else if e.name == "xev_pair" && |e.kids| >= 2 then Pair(TermOf(e.kids[0]), TermOf(e.kids[1]))
    else if e.name == "xevparse_code_exp" then Code(e.kids)
    else if e.name == "xev_func_call" then Call(Value(e, "name"), TermsOf(e.kids))
    else Literal(Value(e, "name"))
  }

  function TermsOf(es: seq<Elem>): seq<Term>
    decreases es, 1
  {
    if es == [] then [] else [TermOf(es[0])] + TermsOf(es[1..])
  }

  function ClausesOf(es: seq<Elem>): seq<Clause> {
    if es == [] then [] else [Clause(Value(es[0], "name"), TermsOf(es[0].kids))] + ClausesOf(es[1..])
  }

  /** The clauses of a directive, from its clause list. */
  function PragmaOf(e: Elem): seq<Clause> {
    if e.kids == [] then [] else ClausesOf(e.kids[0].kids)
  }

  lemma {:induction false} KindsDiffer()
    ensures var names :=
            ["xev_integer", "xev_string", "xev_boolean", "xev_pair", "xevparse_code_exp", "xev_func_call",
             "xev_literal"];
            forall i, j :: 0 <= i < j < 7 ==> names[i] != names[j]
  {
    assert "xev_integer"[4] == 'i' && "xev_boolean"[4] == 'b' && "xev_literal"[4] == 'l';
  }

  lemma {:induction false} TermOfElem(t: Term)
    ensures TermOf(TermElem(t)) == t
    decreases t, 0
  {
    KindsDiffer();
    match t
    case Pair(a, b) =>
      TermOfElem(a);
      TermOfElem(b);
    case Call(_, args) => TermsOfElems(args);
    case Boolean(_) => assert |"true"| == 4 && |"false"| == 5;
    case _ =>
  }

  lemma {:induction false} TermsOfElems(ts: seq<Term>)
    ensures TermsOf(TermElems(ts)) == ts
    decreases ts, 1
  {
    if ts != [] {
      TermOfElem(ts[0]);
      TermsOfElems(ts[1..]);
      assert TermElems(ts)[1..] == TermElems(ts[1..]);
    }
  }

  lemma {:induction false} ClausesOfElems(cs: seq<Clause>)
    ensures ClausesOf(ClauseElems(cs)) == cs
  {
    if cs != [] {
      TermsOfElems(cs[0].args);
      ClausesOfElems(cs[1..]);
      assert ClauseElems(cs)[1..] == ClauseElems(cs[1..]);
    }
  }

  /** Elements represent directives without loss. */
  lemma {:induction false} PragmaOfElem(cs: seq<Clause>)
    ensures PragmaOf(PragmaElem(cs)) == cs
  {
    ClausesOfElems(cs);
  }

  // ----- directives as text

  function Declaration(text: string): Elem {
    Elem("SgPragmaDeclaration", [], [Elem("SgPragma", [Attr("pragma", text)], [])])
  }

  /** A statement that carries a code expression along. */
  function Extract(exp: Exp): Elem {
    Elem("SgExprStatement", [],
         [Elem("SgFunctionCallExp", [],
               [Elem("SgFunctionRefExp", [Attr("name", "xevparse_extract_exp"), Attr("kind", "2")], []),
                Elem("SgExprListExp", [], exp)])])
  }

  function Extracts(exps: seq<Exp>): seq<Elem> {
    if exps == [] then [] else [Extract(exps[0])] + Extracts(exps[1..])
  }

  predicate IsPragma(t: Elem) {
    t.name == "xev_pragma"
  }

  predicate IsDeclaration(t: Elem) {
    t.name == "SgPragmaDeclaration"
  }

  predicate IsExtract(t: Elem) {
    && t.name == "SgExprStatement"
    && t.kids != [] && t.kids[0].name == "SgFunctionCallExp"
    && t.kids[0].kids != [] && t.kids[0].kids[0].name == "SgFunctionRefExp"
    && AttrValue(t.kids[0].kids[0].attrs, "name") == Some("xevparse_extract_exp")
  }

  function Extracted(t: Elem): Exp
    requires IsExtract(t)
  {
    if |t.kids[0].kids| >= 2 then t.kids[0].kids[1].kids else []
  }

  function DeclarationText(t: Elem): Option<string> {
    if t.kids == [] then None else AttrValue(t.kids[0].attrs, "pragma")
  }

  // ----- the walks, on a list of siblings

  /** The code expressions of all directives, in the order of the tree. */
  function CodesIn(ts: seq<Elem>): seq<Exp> {
    if ts == [] then []
    else (if IsPragma(ts[0]) then PragmaCodes(PragmaOf(ts[0])) else CodesIn(ts[0].kids)) + CodesIn(ts[1..])
  }

  function CodesOne(t: Elem): seq<Exp> {
    if IsPragma(t) then PragmaCodes(PragmaOf(t)) else CodesIn(t.kids)
  }

  /** Every directive becomes text, its code expressions being numbered on from `n`. */
  function Unparse(ts: seq<Elem>, n: nat): seq<Elem> {
    if ts == [] then [] else
      var t := ts[0];
      [if IsPragma(t) then Declaration(PragmaText(PragmaOf(t), n)) else t.(kids := Unparse(t.kids, n))] +
      Unparse(ts[1..], n + |CodesOne(t)|)
  }

  datatype Walked = WalkFail | Walked(trees: seq<Elem>, queue: seq<Exp>)

  /** How many expressions the text of a directive asks for. */
  function Wanted(t: Elem): Option<nat> {
    if !IsDeclaration(t) then Some(0)
    else match DeclarationText(t) case None => None case Some(text) => CountExp(text)
  }

  /** Behind every directive come as many expressions of the queue as its text asks for. */
  function Place(ts: seq<Elem>, queue: seq<Exp>): Walked {
    if ts == [] then Walked([], queue) else
      var c := Wanted(ts[0]);
      if c.None? || c.value > |queue| then WalkFail else
        match Place(ts[0].kids, queue[c.value..])
        case WalkFail => WalkFail
        case Walked(kids, queue') =>
          match Place(ts[1..], queue')
          case WalkFail => WalkFail
          case Walked(rest, queue'') => Walked([ts[0].(kids := kids)] + Extracts(queue[..c.value]) + rest, queue'')
  }

  datatype Collected = Collected(trees: seq<Elem>, queue: seq<Exp>)

  /** The extra statements are taken out and their expressions queued. */
  function Collect(ts: seq<Elem>): Collected {
    if ts == [] then Collected([], [])
    else if IsExtract(ts[0]) then
      var r := Collect(ts[1..]);
      Collected(r.trees, [Extracted(ts[0])] + r.queue)
    else
      var k, r := Collect(ts[0].kids), Collect(ts[1..]);
      Collected([ts[0].(kids := k.trees)] + r.trees, k.queue + r.queue)
  }

  datatype Parsed = ParseFail | Parsed(tree: Elem, queue: seq<Exp>)

  /** The directive a text stands for. */
  function ParseDeclaration(t: Elem, queue: seq<Exp>): Parsed {
    match DeclarationText(t)
    case None => ParseFail
    case Some(text) =>
      if text == "" || !IsNameChar(text[0]) then ParseFail else
        match ParsePragma(text, queue, [])
        case PragmaFail => ParseFail
        case PragmaGot(cs, queue') => Parsed(PragmaElem(cs), queue')
  }

  function ParseOne(t: Elem, queue: seq<Exp>): Parsed
    decreases t, 0
  {
    if IsDeclaration(t) then ParseDeclaration(t, queue) else
      match Parse(t.kids, queue)
      case WalkFail => ParseFail
      case Walked(kids, queue') => Parsed(t.(kids := kids), queue')
  }

  function Parse(ts: seq<Elem>, queue: seq<Exp>): Walked
    decreases ts, 1
  {
    if ts == [] then Walked([], queue) else
      match ParseOne(ts[0], queue)
      case ParseFail => WalkFail
      case Parsed(t, queue') =>
        match Parse(ts[1..], queue')
        case WalkFail => WalkFail
        case Walked(rest, queue'') => Walked([t] + rest, queue'')
  }

  // ----- the round trip

  /** Nothing in the trees is a directive or carries an expression. */
  predicate Quiet(ts: seq<Elem>) {
    ts == [] ||
    (!IsPragma(ts[0]) && !IsDeclaration(ts[0]) && !IsExtract(ts[0]) && Quiet(ts[0].kids) && Quiet(ts[1..]))
  }

  predicate QuietExps(exps: seq<Exp>) {
    exps == [] || (Quiet(exps[0]) && QuietExps(exps[1..]))
  }

  predicate LegalPragma(t: Elem) {
    && t == PragmaElem(PragmaOf(t)) && PragmaOf(t) != [] && LegalClauses(PragmaOf(t))
    && QuietExps(PragmaCodes(PragmaOf(t)))
  }

  /** A program whose directives are all of the grammar and which holds none in another form. */
  predicate Clean(ts: seq<Elem>) {
    ts == [] ||
    ((if IsPragma(ts[0]) then LegalPragma(ts[0])
      else !IsDeclaration(ts[0]) && !IsExtract(ts[0]) && Clean(ts[0].kids)) && Clean(ts[1..]))
  }
}
