/** The text of directives: clauses over nested terms, how they are printed with numbered code
    expressions, how they are parsed back against a queue of such expressions, and that the two
    undo each other. */
module Directive {
  import opened Wrappers
  import opened Xml
  import opened LangStr

  /** A code term holds the expression it stands for as a chain of elements. */
  type Exp = seq<Elem>

  datatype Term =
    | Integer(text: string)
    | Str(value: string)
    | Boolean(holds: bool)
    | Literal(name: string)
    | Pair(fst: Term, snd: Term)
    | Code(exp: Exp)
    | Call(name: string, args: seq<Term>)

  datatype Clause = Clause(name: string, args: seq<Term>)

  predicate IsDigit(c: char) {
    '0' <= c <= '9'
  }

  predicate IsNameChar(c: char) {
    IsDigit(c) || 'a' <= c <= 'z' || 'A' <= c <= 'Z' || c == '_' || c == '.'
  }

  // ----- printing

  /** The code expressions of a term, in the order in which they are printed. */
  function Codes(t: Term): seq<Exp>
    decreases t, 0
  {
    match t
    case Code(exp) => [exp]
    case Pair(a, b) => Codes(a) + Codes(b)
    case Call(_, args) => CodesOf(args)
    case _ => []
  }

  function CodesOf(ts: seq<Term>): seq<Exp>
    decreases ts, 1
  {
    if ts == [] then [] else Codes(ts[0]) + CodesOf(ts[1..])
  }

  function PragmaCodes(cs: seq<Clause>): seq<Exp> {
    if cs == [] then [] else CodesOf(cs[0].args) + PragmaCodes(cs[1..])
  }

  function Decimal(n: nat): string {
    if n < 10 then [('0' as int + n) as char] else Decimal(n / 10) + [('0' as int + n % 10) as char]
  }

  /** A term whose code expressions are numbered from `n` on. */
  function TermText(t: Term, n: nat): string
    decreases t, 0
  {
    match t
    case Integer(text) => text
    case Str(value) => G2F(value, '\'')
    case Boolean(holds) => if holds then "true" else "false"
    case Literal(name) => name
    case Pair(a, b) => TermText(a, n) + ":" + TermText(b, n + |Codes(a)|)
    case Code(_) => "`" + Decimal(n) + "`"
    case Call(name, args) => name + "(" + ArgsText(args, n) + ")"
  }

  function ArgsText(ts: seq<Term>, n: nat): string
    decreases ts, 1
  {
    if ts == [] then ""
    else TermText(ts[0], n) + (if |ts| == 1 then "" else ", " + ArgsText(ts[1..], n + |Codes(ts[0])|))
  }

  function ClauseText(c: Clause, n: nat): string {
    c.name + (if c.args == [] then "" else "(" + ArgsText(c.args, n) + ")")
  }

  function PragmaText(cs: seq<Clause>, n: nat): string {
    if cs == [] then ""
    else ClauseText(cs[0], n) + (if |cs| == 1 then "" else " " + PragmaText(cs[1..], n + |CodesOf(cs[0].args)|))
  }

  // ----- parsing

  function SkipBlanks(t: string): (r: string)
    ensures |r| <= |t|
  {
    if t != "" && IsBlank(t[0]) then SkipBlanks(t[1..]) else t
  }

  lemma {:induction false} SkippedStart(t: string)
    ensures SkipBlanks(t) == "" || !IsBlank(SkipBlanks(t)[0])
  {
    if t != "" && IsBlank(t[0]) {
      SkippedStart(t[1..]);
    }
  }

  function NameLen(t: string): (n: nat)
    ensures n <= |t|
  {
    if t != "" && IsNameChar(t[0]) then 1 + NameLen(t[1..]) else 0
  }

  function DigitsLen(t: string): (n: nat)
    ensures n <= |t|
  {
    if t != "" && IsDigit(t[0]) then 1 + DigitsLen(t[1..]) else 0
  }

  datatype TermGot = TermFail | TermGot(term: Term, rest: string, queue: seq<Exp>)

  datatype ArgsGot = ArgsFail | ArgsGot(args: seq<Term>, rest: string, queue: seq<Exp>)

  function ParseInteger(t: string, queue: seq<Exp>): (r: TermGot)
    requires t != ""
    ensures r.TermGot? && |r.rest| < |t|
  {
    var n := 1 + DigitsLen(t[1..]);
    TermGot(Integer(t[..n]), t[n..], queue)
  }

  function ParseString(t: string, queue: seq<Exp>): (r: TermGot)
    requires t != ""
    ensures r.TermGot? ==> |r.rest| < |t|
  {
    ClosingBound(t[1..], t[0]);
    match Closing(t[1..], t[0])
    case None => TermFail
    case Some(n) => TermGot(Str(Undouble(t[1..], t[0]).value), t[n + 2..], queue)
  }

  /** A code term takes the next expression of the queue, whatever its number. */
  function ParseCode(t: string, queue: seq<Exp>): (r: TermGot)
    requires t != ""
    ensures r.TermGot? ==> |r.rest| < |t|
  {
    match FirstBare(t[1..], '`', 0)
    case None => TermFail
    case Some(n) => if queue == [] then TermFail else TermGot(Code(queue[0]), t[n + 2..], queue[1..])
  }

  function ParseTerm(t: string, queue: seq<Exp>): (r: TermGot)
    ensures r.TermGot? ==> |r.rest| < |t|
    decreases |t|, 1
  {
    if t == "" then TermFail
    else if IsDigit(t[0]) || t[0] == '-' then ParseInteger(t, queue)
    else if IsQuote(t[0]) then ParseString(t, queue)
    else if t[0] == '`' then ParseCode(t, queue)
    else if !IsNameChar(t[0]) then TermFail
    else ParseNamed(t[..NameLen(t)], t[NameLen(t)..], queue)
  }

  /** A truth value, a call or a literal, from behind its name. */
  function ParseNamed(name: string, t: string, queue: seq<Exp>): (r: TermGot)
    ensures r.TermGot? ==> |r.rest| <= |t|
    decreases |t|, 4
  {
    var rest := SkipBlanks(t);
    if name == "true" || name == "false" then TermGot(Boolean(name == "true"), t, queue)
    else if rest == "" then TermFail
    else if rest[0] == '(' then
      match ParseArgs(rest[1..], queue, None, [], true)
      case ArgsFail => TermFail
      case ArgsGot(args, rest', queue') => TermGot(Call(name, args), rest', queue')
    else if rest[0] == ')' || rest[0] == ',' || rest[0] == ':' then TermGot(Literal(name), rest, queue)
    else TermFail
  }

  /** The arguments up to a closing parenthesis, `fst` being the first half of a pair. Those of a
      call may have blanks around them or be missing; those of a clause may not. */
  function ParseArgs(t: string, queue: seq<Exp>, fst: Option<Term>, acc: seq<Term>, call: bool): (r: ArgsGot)
    ensures r.ArgsGot? ==> |r.rest| < |t|
    decreases |t|, 2
  {
    var t0 := if call then SkipBlanks(t) else t;
    if call && t0 != "" && t0[0] == ')' then ArgsGot(acc, t0[1..], queue) else
      match ParseTerm(t0, queue)
      case TermFail => ArgsFail
      case TermGot(x, t1, queue') => ParseAfter(if call then SkipBlanks(t1) else t1, queue', fst, x, acc, call)
  }

  /** From behind the argument `x`. */
  function ParseAfter(t: string, queue: seq<Exp>, fst: Option<Term>, x: Term, acc: seq<Term>, call: bool): (r: ArgsGot)
    ensures r.ArgsGot? ==> |r.rest| < |t|
    decreases |t|, 3
  {
    if t == "" then ArgsFail
    else if t[0] == ':' then
      if fst.Some? then ArgsFail else ParseArgs(SkipBlanks(t[1..]), queue, Some(x), acc, call)
    else
      var acc' := acc + [if fst.Some? then Pair(fst.value, x) else x];
      if t[0] == ')' then ArgsGot(acc', t[1..], queue)
      else if t[0] == ',' then ParseArgs(SkipBlanks(t[1..]), queue, None, acc', call)
      else ArgsFail
  }

  datatype PragmaGot = PragmaFail | PragmaGot(clauses: seq<Clause>, queue: seq<Exp>)

  datatype ClauseGot = ClauseFail | ClauseGot(clause: Clause, rest: string, queue: seq<Exp>)

  /** One clause; braces stand for begin and end. */
  function ParseClause(t: string, queue: seq<Exp>): (r: ClauseGot)
    ensures r.ClauseGot? ==> |r.rest| <= |t| && (t != "" && !IsBlank(t[0]) ==> |r.rest| < |t|)
  {
    var brace := t != "" && (t[0] == '{' || t[0] == '}');
    var n := if brace then 1 else NameLen(t);
    var name := if brace then (if t[0] == '{' then "begin" else "end") else t[..n];
    if t[n..] != "" && !IsBlank(t[n]) && t[n] != '(' then ClauseFail
    else ParseClauseArgs(name, SkipBlanks(t[n..]), queue)
  }

  function ParseClauseArgs(name: string, t: string, queue: seq<Exp>): (r: ClauseGot)
    ensures r.ClauseGot? ==> |r.rest| <= |t| && (t != "" && t[0] == '(' ==> |r.rest| < |t|)
  {
    if t != "" && t[0] == '(' then
      match ParseArgs(t[1..], queue, None, [], false)
      case ArgsFail => ClauseFail
      case ArgsGot(args, rest, queue') => ClauseGot(Clause(name, args), rest, queue')
    else ClauseGot(Clause(name, []), t, queue)
  }

  /** The clauses up to the end of the text or a comment; an ampersand may stand ahead of each. */
  function ParsePragma(t: string, queue: seq<Exp>, acc: seq<Clause>): PragmaGot
    decreases |t|
  {
    var t0 := SkipBlanks(t);
    SkippedStart(t);
    if t0 == "" || t0[0] == '!' then PragmaGot(acc, queue) else
      match ParseClause(if t0[0] == '&' then t0[1..] else t0, queue)
      case ClauseFail => PragmaFail
      case ClauseGot(c, rest, queue') => ParsePragma(rest, queue', acc + [c])
  }
}
