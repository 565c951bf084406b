/** Parsing undoes printing for every directive of the grammar, and the code expressions counted
    in the text are those of the terms. */
module DirectiveProofs {
  import opened Wrappers
  import opened Xml
  import opened LangStr
  import opened Directive

  predicate IsName(s: string) {
    s != "" && NameLen(s) == |s|
  }

  /** A name that is not taken for a number or a truth value. */
  predicate IsWord(s: string) {
    IsName(s) && !IsDigit(s[0]) && s != "true" && s != "false"
  }

  predicate LegalTerm(t: Term)
    decreases t, 0
  {
    match t
    case Integer(text) => text != "" && (IsDigit(text[0]) || text[0] == '-') && DigitsLen(text[1..]) == |text| - 1
    case Str(_) => true
    case Boolean(_) => true
    case Literal(name) => IsWord(name)
    case Pair(a, b) => !a.Pair? && !b.Pair? && LegalTerm(a) && LegalTerm(b)
    case Code(_) => true
    case Call(name, args) => IsWord(name) && LegalTerms(args)
  }

  predicate LegalTerms(ts: seq<Term>)
    decreases ts, 1
  {
    ts == [] || (LegalTerm(ts[0]) && LegalTerms(ts[1..]))
  }

  predicate LegalClauses(cs: seq<Clause>) {
    cs == [] || (IsName(cs[0].name) && LegalTerms(cs[0].args) && LegalClauses(cs[1..]))
  }

  lemma {:induction false} NameRun(name: string, rest: string)
    requires NameLen(name) == |name| && (rest == "" || !IsNameChar(rest[0]))
    ensures NameLen(name + rest) == |name| && (name + rest)[..|name|] == name && (name + rest)[|name|..] == rest
  {
    if name == "" {
      assert name + rest == rest;
    } else {
      NameRun(name[1..], rest);
      assert (name + rest)[1..] == name[1..] + rest;
    }
  }

  lemma {:induction false} DigitsRun(d: string, rest: string)
    requires DigitsLen(d) == |d| && (rest == "" || !IsDigit(rest[0]))
    ensures DigitsLen(d + rest) == |d|
  {
    if d == "" {
      assert d + rest == rest;
    } else {
      DigitsRun(d[1..], rest);
      assert (d + rest)[1..] == d[1..] + rest;
    }
  }

  predicate AllDigits(s: string) {
    forall k :: 0 <= k < |s| ==> IsDigit(s[k])
  }

  lemma {:induction false} DecimalDigits(n: nat)
    ensures Decimal(n) != "" && AllDigits(Decimal(n))
  {
    if n >= 10 {
      DecimalDigits(n / 10);
    }
  }

  lemma {:induction false} DigitsQuiet(d: string)
    requires AllDigits(d)
    ensures Quote(None, d) == None
    decreases |d|
  {
    if d != "" {
      assert IsDigit(d[0]);
      DigitsQuiet(d[1..]);
    }
  }

  lemma {:induction false} NumberEnds(d: string, rest: string)
    requires AllDigits(d)
    ensures FirstBare(d + "`" + rest, '`', 0) == Some(|d|)
  {
    var s := d + "`" + rest;
    DigitsQuiet(d);
    assert s[..|d|] == d && s[|d|] == '`';
    forall k | 0 <= k < |d|
      ensures !Bare(s, '`', k)
    {
      assert s[k] == d[k] && IsDigit(d[k]);
    }
    FirstBareIs(s, '`', 0, Some(|d|));
  }

  predicate Stops(rest: string) {
    rest != "" && (rest[0] == ')' || rest[0] == ',' || rest[0] == ':')
  }

  /** Printed terms start with neither a blank nor a closing parenthesis. */
  lemma {:induction false} TermStart(t: Term, n: nat)
    requires LegalTerm(t)
    ensures TermText(t, n) != "" && !IsBlank(TermText(t, n)[0]) && TermText(t, n)[0] != ')'
  {
    match t
    case Integer(_) =>
    case Literal(name) => NameStart(name);
    case Call(name, _) => NameStart(name);
    case Pair(a, b) => TermStart(a, n);
    case Code(_) =>
    case Str(_) =>
    case Boolean(_) =>
  }

  lemma {:induction false} NameStart(name: string)
    requires IsName(name)
    ensures IsNameChar(name[0])
  {
  }

  lemma {:induction false} NoSkip(t: string)
    requires t != "" && !IsBlank(t[0])
    ensures SkipBlanks(t) == t
  {
  }

  lemma {:induction false} IntegerParsed(text: string, rest: string, q: seq<Exp>)
    requires LegalTerm(Integer(text)) && Stops(rest)
    ensures ParseTerm(text + rest, q) == TermGot(Integer(text), rest, q)
  {
    var t := text + rest;
    assert t[1..] == text[1..] + rest;
    DigitsRun(text[1..], rest);
    assert t[..|text|] == text && t[|text|..] == rest;
  }

  lemma {:induction false} StrParsed(value: string, rest: string, q: seq<Exp>)
    requires Stops(rest)
    ensures ParseTerm(G2F(value, '\'') + rest, q) == TermGot(Str(value), rest, q)
  {
    var g := G2F(value, '\'');
    var t := g + rest;
    EndOfG2F(value, '\'', rest);
    F2GofG2F(value, '\'', rest);
    assert t[|g|..] == rest;
  }

  lemma {:induction false} BooleanParsed(holds: bool, rest: string, q: seq<Exp>)
    requires Stops(rest)
    ensures ParseTerm((if holds then "true" else "false") + rest, q) == TermGot(Boolean(holds), rest, q)
  {
    var name := if holds then "true" else "false";
    Truths();
    NameRun(name, rest);
  }

  lemma {:induction false} Truths()
    ensures NameLen("true") == 4 && NameLen("false") == 5
  {
    assert "true"[1..] == "rue" && "rue"[1..] == "ue" && "ue"[1..] == "e" && "e"[1..] == "";
    assert "false"[1..] == "alse" && "alse"[1..] == "lse" && "lse"[1..] == "se" && "se"[1..] == "e";
  }

  lemma {:induction false} LiteralParsed(name: string, rest: string, q: seq<Exp>)
    requires IsWord(name) && Stops(rest)
    ensures ParseTerm(name + rest, q) == TermGot(Literal(name), rest, q)
  {
    NameRun(name, rest);
    NameStart(name);
  }

  lemma {:induction false} CodeParsed(exp: Exp, n: nat, rest: string, q: seq<Exp>)
    ensures ParseTerm("`" + Decimal(n) + "`" + rest, [exp] + q) == TermGot(Code(exp), rest, q)
  {
    var t := "`" + Decimal(n) + "`" + rest;
    DecimalDigits(n);
    NumberEnds(Decimal(n), rest);
    assert t[1..] == Decimal(n) + "`" + rest;
    assert t[|Decimal(n)| + 2..] == rest && ([exp] + q)[1..] == q;
  }

  lemma {:induction false} CallNamed(name: string, args: seq<Term>, body: string, rest: string, all: seq<Exp>,
                                     q: seq<Exp>)
    requires name != "true" && name != "false" && ParseArgs(body, all, None, [], true) == ArgsGot(args, rest, q)
    ensures ParseNamed(name, "(" + body, all) == TermGot(Call(name, args), rest, q)
  {
    var t := "(" + body;
    assert t[0] == '(' && t[1..] == body && !IsBlank('(');
    assert SkipBlanks(t) == t;
  }

  lemma {:induction false} CallParsed(name: string, args: seq<Term>, text: string, rest: string, all: seq<Exp>,
                                      q: seq<Exp>)
    requires IsWord(name) && ParseArgs(text + rest, all, None, [], true) == ArgsGot(args, rest, q)
    ensures ParseTerm(name + "(" + text + rest, all) == TermGot(Call(name, args), rest, q)
  {
    var tail := "(" + (text + rest);
    ConcatAssoc(name + "(", text, rest);
    ConcatAssoc(name, "(", text + rest);
    CallNamed(name, args, text + rest, rest, all, q);
    NameRun(name, tail);
    NameStart(name);
  }

  lemma {:induction false} TermParsed(t: Term, n: nat, rest: string, q: seq<Exp>)
    requires LegalTerm(t) && !t.Pair? && Stops(rest)
    ensures ParseTerm(TermText(t, n) + rest, Codes(t) + q) == TermGot(t, rest, q)
    decreases t, 0
  {
    ConcatNothing(q);
    match t
    case Integer(text) => IntegerParsed(text, rest, q);
    case Str(value) => StrParsed(value, rest, q);
    case Boolean(holds) => BooleanParsed(holds, rest, q);
    case Literal(name) => LiteralParsed(name, rest, q);
    case Code(exp) => CodeParsed(exp, n, rest, q);
    case Call(name, args) =>
      if args == [] {
        assert (")" + rest)[1..] == rest;
      } else {
        ArgsParsed(args, n, rest, q, [], true);
        ConcatNothing(args);
      }
      ConcatAssoc(ArgsText(args, n), ")", rest);
      var text := ArgsText(args, n) + ")";
      CallParsed(name, args, text, rest, CodesOf(args) + q, q);
      ConcatAssoc(name + "(", ArgsText(args, n), ")");
  }

  /** What the parser goes on with behind an argument. */
  function GoOn(rest: string, q: seq<Exp>, acc: seq<Term>, call: bool): ArgsGot
    requires rest != "" && (rest[0] == ')' || rest[0] == ',')
  {
    if rest[0] == ')' then ArgsGot(acc, rest[1..], q) else ParseArgs(SkipBlanks(rest[1..]), q, None, acc, call)
  }

  /** A term read as an argument, or as half of one. */
  lemma {:induction false} HalfParsed(t: Term, n: nat, rest: string, q: seq<Exp>, fst: Option<Term>, acc: seq<Term>,
                                      call: bool)
    requires LegalTerm(t) && !t.Pair? && Stops(rest)
    ensures ParseArgs(TermText(t, n) + rest, Codes(t) + q, fst, acc, call) == ParseAfter(rest, q, fst, t, acc, call)
    decreases t, 1
  {
    TermStart(t, n);
    TermParsed(t, n, rest, q);
    NoSkip(TermText(t, n) + rest);
    NoSkip(rest);
  }

  lemma {:induction false} ArgParsed(t: Term, n: nat, rest: string, q: seq<Exp>, acc: seq<Term>, call: bool)
    requires LegalTerm(t) && rest != "" && (rest[0] == ')' || rest[0] == ',')
    ensures ParseArgs(TermText(t, n) + rest, Codes(t) + q, None, acc, call) == GoOn(rest, q, acc + [t], call)
    decreases t, 2
  {
    if t.Pair? {
      PairParsed(t.fst, t.snd, n, rest, q, acc, call);
    } else {
      HalfParsed(t, n, rest, q, None, acc, call);
    }
  }

  lemma {:induction false} PairParsed(a: Term, b: Term, n: nat, rest: string, q: seq<Exp>, acc: seq<Term>, call: bool)
    requires LegalTerm(Pair(a, b)) && rest != "" && (rest[0] == ')' || rest[0] == ',')
    ensures ParseArgs(TermText(Pair(a, b), n) + rest, Codes(Pair(a, b)) + q, None, acc, call) ==
            GoOn(rest, q, acc + [Pair(a, b)], call)
    decreases Pair(a, b), 1
  {
    var n' := n + |Codes(a)|;
    var tail := TermText(b, n') + rest;
    ConcatAssoc(Codes(a), Codes(b), q);
    ConcatAssoc(TermText(a, n) + ":", TermText(b, n'), rest);
    ConcatAssoc(TermText(a, n), ":", tail);
    HalfParsed(a, n, ":" + tail, Codes(b) + q, None, acc, call);
    assert (":" + tail)[1..] == tail;
    TermStart(b, n');
    NoSkip(tail);
    HalfParsed(b, n', rest, q, Some(a), acc, call);
  }

  /** What the parser makes of printed arguments and the rest. */
  function ArgsRead(ts: seq<Term>, n: nat, rest: string, q: seq<Exp>, acc: seq<Term>, call: bool): ArgsGot {
    ParseArgs(ArgsText(ts, n) + (")" + rest), CodesOf(ts) + q, None, acc, call)
  }

  lemma {:induction false} ArgsParsed(ts: seq<Term>, n: nat, rest: string, q: seq<Exp>, acc: seq<Term>, call: bool)
    requires ts != [] && LegalTerms(ts)
    ensures ArgsRead(ts, n, rest, q, acc, call) == ArgsGot(acc + ts, rest, q)
    decreases ts, 4
  {
    if |ts| == 1 {
      OnlyArg(ts, n, rest, q, acc, call);
    } else {
      LegalTail(ts);
      ArgsParsed(ts[1..], n + |Codes(ts[0])|, rest, q, acc + [ts[0]], call);
      FirstArg(ts, n, rest, q, acc, call);
      ConcatHead(acc, ts);
    }
  }

  lemma {:induction false} LegalTail(ts: seq<Term>)
    requires ts != [] && LegalTerms(ts)
    ensures LegalTerm(ts[0]) && LegalTerms(ts[1..])
  {
  }

  lemma {:induction false} OnlyArg(ts: seq<Term>, n: nat, rest: string, q: seq<Exp>, acc: seq<Term>, call: bool)
    requires |ts| == 1 && LegalTerms(ts)
    ensures ArgsRead(ts, n, rest, q, acc, call) == ArgsGot(acc + ts, rest, q)
    decreases ts, 3
  {
    LastArg(ts[0], n, rest, q, acc, call);
    LastUnfold(ts, n, rest, q);
    assert ts == [ts[0]];
  }

  /** An argument and the text `more` of those behind it. */
  lemma {:induction false} ArgAhead(t: Term, n: nat, more: string, codes: seq<Exp>, rest: string, q: seq<Exp>,
                                    acc: seq<Term>, call: bool)
    requires LegalTerm(t) && more != "" && !IsBlank(more[0])
    ensures ParseArgs(TermText(t, n) + (", " + more) + (")" + rest), Codes(t) + codes + q, None, acc, call) ==
            ParseArgs(more + (")" + rest), codes + q, None, acc + [t], call)
    decreases t, 4
  {
    MoreArgs(TermText(t, n), more, ")" + rest);
    ConcatAssoc(Codes(t), codes, q);
    assert (more + (")" + rest))[0] == more[0];
    ArgThenMore(t, n, more + (")" + rest), codes + q, acc, call);
  }

  lemma {:induction false} ArgsUnfold(ts: seq<Term>, n: nat)
    requires |ts| > 1
    ensures ArgsText(ts, n) == TermText(ts[0], n) + (", " + ArgsText(ts[1..], n + |Codes(ts[0])|))
    ensures CodesOf(ts) == Codes(ts[0]) + CodesOf(ts[1..])
  {
  }

  /** Of several arguments the first is read and the parser goes on with the others. */
  lemma {:induction false} FirstArg(ts: seq<Term>, n: nat, rest: string, q: seq<Exp>, acc: seq<Term>, call: bool)
    requires |ts| > 1 && LegalTerms(ts)
    ensures ArgsRead(ts, n, rest, q, acc, call) == ArgsRead(ts[1..], n + |Codes(ts[0])|, rest, q, acc + [ts[0]], call)
    decreases ts, 3
  {
    var more, codes := ArgsText(ts[1..], n + |Codes(ts[0])|), CodesOf(ts[1..]);
    LegalTail(ts);
    ArgsStart(ts[1..], n + |Codes(ts[0])|);
    ArgsUnfold(ts, n);
    ArgAhead(ts[0], n, more, codes, rest, q, acc, call);
  }

  lemma {:induction false} LastArg(t: Term, n: nat, rest: string, q: seq<Exp>, acc: seq<Term>, call: bool)
    requires LegalTerm(t)
    ensures ParseArgs(TermText(t, n) + (")" + rest), Codes(t) + q, None, acc, call) == ArgsGot(acc + [t], rest, q)
    decreases t, 3
  {
    ArgParsed(t, n, ")" + rest, q, acc, call);
    CloseOn(rest);
  }

  lemma {:induction false} ArgThenMore(t: Term, n: nat, more: string, q: seq<Exp>, acc: seq<Term>, call: bool)
    requires LegalTerm(t) && more != "" && !IsBlank(more[0])
    ensures ParseArgs(TermText(t, n) + (", " + more), Codes(t) + q, None, acc, call) ==
            ParseArgs(more, q, None, acc + [t], call)
    decreases t, 3
  {
    ArgParsed(t, n, ", " + more, q, acc, call);
    CommaOn(more, q, acc + [t], call);
  }

  lemma {:induction false} CloseOn(rest: string)
    ensures (")" + rest)[1..] == rest
  {
  }

  lemma {:induction false} LastUnfold(ts: seq<Term>, n: nat, rest: string, q: seq<Exp>)
    requires |ts| == 1
    ensures ArgsText(ts, n) + (")" + rest) == TermText(ts[0], n) + (")" + rest)
    ensures CodesOf(ts) + q == Codes(ts[0]) + q
  {
    ConcatNothing(Codes(ts[0]));
    ConcatNothing(TermText(ts[0], n));
  }

  lemma {:induction false} MoreArgs(a: string, b: string, c: string)
    ensures a + (", " + b) + c == a + (", " + (b + c))
  {
    ConcatAssoc(a, ", " + b, c);
    ConcatAssoc(", ", b, c);
  }

  lemma {:induction false} CommaOn(more: string, q: seq<Exp>, acc: seq<Term>, call: bool)
    requires more != "" && !IsBlank(more[0])
    ensures GoOn(", " + more, q, acc, call) == ParseArgs(more, q, None, acc, call)
  {
    SpaceSkipped(more);
    assert (", " + more)[1..] == " " + more;
  }

  lemma {:induction false} SpaceSkipped(more: string)
    requires more != "" && !IsBlank(more[0])
    ensures SkipBlanks(" " + more) == more
  {
    assert (" " + more)[1..] == more;
    NoSkip(more);
  }

  lemma {:induction false} ArgsStart(ts: seq<Term>, n: nat)
    requires ts != [] && LegalTerms(ts)
    ensures ArgsText(ts, n) != "" && !IsBlank(ArgsText(ts, n)[0])
  {
    TermStart(ts[0], n);
  }

  /** A clause starts with its name, behind which come a blank, arguments or the end. */
  lemma {:induction false} HeadParsed(name: string, rest: string, q: seq<Exp>)
    requires IsName(name) && (rest == "" || IsBlank(rest[0]) || rest[0] == '(')
    ensures ParseClause(name + rest, q) == ParseClauseArgs(name, SkipBlanks(rest), q)
    ensures SkipBlanks(name + rest) == name + rest && (name + rest)[0] != '!' && (name + rest)[0] != '&'
  {
    NameStart(name);
    NoSkip(name + rest);
    NameRun(name, rest);
    assert rest != "" ==> (name + rest)[|name|] == rest[0];
  }

  predicate ClauseEnd(rest: string) {
    rest == "" || (rest[0] == ' ' && |rest| >= 2 && rest[1] != '(' && !IsBlank(rest[1]))
  }

  lemma {:induction false} BlankSkipped(rest: string, q: seq<Exp>, acc: seq<Clause>)
    requires ClauseEnd(rest)
    ensures ParsePragma(rest, q, acc) == ParsePragma(SkipBlanks(rest), q, acc)
    ensures SkipBlanks(rest) == "" || SkipBlanks(rest)[0] != '('
  {
    if rest != "" {
      NoSkip(rest[1..]);
    }
  }

  lemma {:induction false} ClauseParsed(c: Clause, n: nat, rest: string, q: seq<Exp>, acc: seq<Clause>)
    requires IsName(c.name) && LegalTerms(c.args) && ClauseEnd(rest)
    ensures ParsePragma(ClauseText(c, n) + rest, CodesOf(c.args) + q, acc) == ParsePragma(rest, q, acc + [c])
  {
    if c.args == [] {
      ConcatNothing(c.name);
      ConcatNothing(q);
      HeadParsed(c.name, rest, q);
      BlankSkipped(rest, q, acc + [c]);
    } else {
      var args := ArgsText(c.args, n) + (")" + rest);
      ClauseParts(c.name, ArgsText(c.args, n), rest);
      NoSkip("(" + args);
      HeadParsed(c.name, "(" + args, CodesOf(c.args) + q);
      assert ("(" + args)[1..] == args;
      ArgsParsed(c.args, n, rest, q, [], false);
      ConcatNothing(c.args);
    }
  }

  lemma {:induction false} ClauseParts(name: string, args: string, rest: string)
    ensures name + ("(" + args + ")") + rest == name + ("(" + (args + (")" + rest)))
  {
    ConcatAssoc(name, "(" + args + ")", rest);
    ConcatAssoc("(" + args, ")", rest);
    ConcatAssoc("(", args, ")" + rest);
  }

  lemma {:induction false} ClauseStart(cs: seq<Clause>, n: nat)
    requires cs != [] && LegalClauses(cs)
    ensures PragmaText(cs, n) != "" && IsNameChar(PragmaText(cs, n)[0])
  {
    NameStart(cs[0].name);
  }

  lemma {:induction false} ClausesParsed(cs: seq<Clause>, n: nat, q: seq<Exp>, acc: seq<Clause>)
    requires LegalClauses(cs)
    ensures ParsePragma(PragmaText(cs, n), PragmaCodes(cs) + q, acc) == PragmaGot(acc + cs, q)
  {
    if cs == [] {
      ConcatNothing(acc);
      ConcatNothing(q);
    } else {
      var c, n' := cs[0], n + |CodesOf(cs[0].args)|;
      var q' := PragmaCodes(cs[1..]) + q;
      ConcatAssoc(CodesOf(c.args), PragmaCodes(cs[1..]), q);
      if |cs| == 1 {
        ConcatHead(acc, cs);
        ConcatNothing(q);
        ClauseParsed(c, n, "", q, acc);
        ConcatNothing(ClauseText(c, n));
      } else {
        var rest := PragmaText(cs[1..], n');
        ClauseStart(cs[1..], n');
        ConcatAssoc(ClauseText(c, n), " ", rest);
        ClauseParsed(c, n, " " + rest, q', acc);
        SpaceSkipped(rest);
        BlankSkipped(" " + rest, q', acc + [c]);
        ConcatHead(acc, cs);
        ClausesParsed(cs[1..], n', q, acc + [c]);
      }
    }
  }

  /** Parsing a printed directive gives its clauses back and takes exactly their expressions from
      the queue, whatever number the printing started from. */
  lemma {:induction false} ParseUnparse(cs: seq<Clause>, n: nat, q: seq<Exp>)
    requires LegalClauses(cs)
    ensures ParsePragma(PragmaText(cs, n), PragmaCodes(cs) + q, []) == PragmaGot(cs, q)
  {
    ClausesParsed(cs, n, q, []);
    ConcatNothing(cs);
  }
}
