/** Counting the code expressions in the text of a directive. */
module DirectiveCount {
  import opened Wrappers
  import opened LangStr
  import opened Directive
  import opened DirectiveProofs

  function IndexOf(s: string, c: char): (r: Option<nat>)
    ensures r.Some? ==> r.value < |s|
  {
    if s == "" then None
    else if s[0] == c then Some(0)
    else match IndexOf(s[1..], c) case None => None case Some(k) => Some(k + 1)
  }

  function AddTo(k: nat, c: Option<nat>): Option<nat> {
    if c.None? then None else Some(k + c.value)
  }

  /** The number of code expressions between back quotes outside strings; none if the text ends
      within one or within a string. */
  function CountExp(s: string): Option<nat>
    decreases |s|
  {
    if s == "" then Some(0)
    else if IsQuote(s[0]) then
      ClosingBound(s[1..], s[0]);
      match Closing(s[1..], s[0])
      case None => None
      case Some(n) => CountExp(s[n + 2..])
    else if s[0] == '`' then
      match IndexOf(s[1..], '`')
      case None => None
      case Some(k) => AddTo(1, CountExp(s[k + 2..]))
    else CountExp(s[1..])
  }

  predicate NoQuoteChars(u: string) {
    forall k :: 0 <= k < |u| ==> !IsQuote(u[k]) && u[k] != '`'
  }

  lemma {:induction false} CountQuiet(u: string, rest: string)
    requires NoQuoteChars(u)
    ensures CountExp(u + rest) == CountExp(rest)
    decreases |u|
  {
    if u == "" {
      assert u + rest == rest;
    } else {
      assert (u + rest)[1..] == u[1..] + rest && (u + rest)[0] == u[0];
      CountQuiet(u[1..], rest);
    }
  }

  lemma {:induction false} NameQuiet(name: string)
    requires NameLen(name) == |name|
    ensures NoQuoteChars(name)
  {
    if name != "" {
      NameQuiet(name[1..]);
      assert name == [name[0]] + name[1..];
    }
  }

  lemma {:induction false} DigitsAreQuiet(d: string)
    requires DigitsLen(d) == |d|
    ensures NoQuoteChars(d)
  {
    if d != "" {
      DigitsAreQuiet(d[1..]);
      assert d == [d[0]] + d[1..];
    }
  }

  lemma {:induction false} CountStr(value: string, rest: string)
    requires rest == "" || rest[0] != '\''
    ensures CountExp(G2F(value, '\'') + rest) == CountExp(rest)
  {
    var g := G2F(value, '\'');
    EndOfG2F(value, '\'', rest);
    assert (g + rest)[|g|..] == rest;
  }

  lemma {:induction false} DigitsIndex(d: string, rest: string)
    requires AllDigits(d)
    ensures IndexOf(d + "`" + rest, '`') == Some(|d|)
    decreases |d|
  {
    var s := d + "`" + rest;
    if d == "" {
      assert s == "`" + rest;
    } else {
      assert IsDigit(d[0]) && s[0] == d[0] && s[1..] == d[1..] + "`" + rest;
      DigitsIndex(d[1..], rest);
    }
  }

  lemma {:induction false} CountCode(n: nat, rest: string)
    ensures CountExp("`" + Decimal(n) + "`" + rest) == AddTo(1, CountExp(rest))
  {
    var s := "`" + Decimal(n) + "`" + rest;
    DecimalDigits(n);
    DigitsIndex(Decimal(n), rest);
    assert s[1..] == Decimal(n) + "`" + rest && s[|Decimal(n)| + 2..] == rest;
  }

  lemma {:induction false} CountPlain(t: Term, n: nat, rest: string)
    requires LegalTerm(t) && (t.Integer? || t.Boolean? || t.Literal?)
    ensures CountExp(TermText(t, n) + rest) == CountExp(rest)
  {
    match t {
      case Integer(text) =>
        DigitsAreQuiet(text[1..]);
        assert text == [text[0]] + text[1..];
      case Boolean(_) =>
      case Literal(name) =>
        NameQuiet(name);
    }
    CountQuiet(TermText(t, n), rest);
  }

  lemma {:induction false} CountPair(a: string, b: string, rest: string, k: nat, l: nat)
    requires CountExp(a + (":" + (b + rest))) == AddTo(k, CountExp(":" + (b + rest)))
    requires CountExp(b + rest) == AddTo(l, CountExp(rest))
    ensures CountExp(a + ":" + b + rest) == AddTo(k + l, CountExp(rest))
  {
    ConcatAssoc(a + ":", b, rest);
    ConcatAssoc(a, ":", b + rest);
    CountQuiet(":", b + rest);
  }

  lemma {:induction false} CountCall(name: string, text: string, rest: string, k: nat)
    requires NameLen(name) == |name| && CountExp(text + (")" + rest)) == AddTo(k, CountExp(")" + rest))
    ensures CountExp(name + "(" + text + ")" + rest) == AddTo(k, CountExp(rest))
  {
    var tail := text + (")" + rest);
    ConcatAssoc(name + "(" + text, ")", rest);
    ConcatAssoc(name + "(", text, ")" + rest);
    ConcatAssoc(name, "(", tail);
    NameQuiet(name);
    CountQuiet(name, "(" + tail);
    CountQuiet("(", tail);
    CountQuiet(")", rest);
  }

  lemma {:induction false} CountTerm(t: Term, n: nat, rest: string)
    requires LegalTerm(t) && (rest == "" || rest[0] != '\'')
    ensures CountExp(TermText(t, n) + rest) == AddTo(|Codes(t)|, CountExp(rest))
    decreases t, 0
  {
    match t
    case Str(value) => CountStr(value, rest);
    case Code(_) => CountCode(n, rest);
    case Pair(a, b) =>
      var n' := n + |Codes(a)|;
      CountTerm(a, n, ":" + (TermText(b, n') + rest));
      CountTerm(b, n', rest);
      CountPair(TermText(a, n), TermText(b, n'), rest, |Codes(a)|, |Codes(b)|);
    case Call(name, args) =>
      CountArgs(args, n, ")" + rest);
      CountCall(name, ArgsText(args, n), rest, |CodesOf(args)|);
    case _ => CountPlain(t, n, rest);
  }

  lemma {:induction false} CountArgs(ts: seq<Term>, n: nat, rest: string)
    requires LegalTerms(ts) && (rest == "" || rest[0] != '\'')
    ensures CountExp(ArgsText(ts, n) + rest) == AddTo(|CodesOf(ts)|, CountExp(rest))
    decreases ts, 1
  {
    if ts == [] {
      ConcatNothing(rest);
    } else if |ts| == 1 {
      ConcatNothing(TermText(ts[0], n));
      CountTerm(ts[0], n, rest);
    } else {
      var n' := n + |Codes(ts[0])|;
      var tail := ArgsText(ts[1..], n') + rest;
      MoreArgs(TermText(ts[0], n), ArgsText(ts[1..], n'), rest);
      CountTerm(ts[0], n, ", " + tail);
      CountQuiet(", ", tail);
      CountArgs(ts[1..], n', rest);
    }
  }

  lemma {:induction false} CountClause(c: Clause, n: nat, rest: string)
    requires IsName(c.name) && LegalTerms(c.args) && (rest == "" || rest[0] != '\'')
    ensures CountExp(ClauseText(c, n) + rest) == AddTo(|CodesOf(c.args)|, CountExp(rest))
  {
    NameQuiet(c.name);
    if c.args == [] {
      ConcatNothing(c.name);
      CountQuiet(c.name, rest);
    } else {
      var text := ArgsText(c.args, n);
      ClauseParts(c.name, text, rest);
      ConcatAssoc(c.name, "(", text + (")" + rest));
      ConcatAssoc(c.name + "(", text, ")" + rest);
      ConcatAssoc(c.name + "(" + text, ")", rest);
      CountArgs(c.args, n, ")" + rest);
      CountCall(c.name, text, rest, |CodesOf(c.args)|);
    }
  }

  /** As many expressions are counted in the text of a directive as its terms hold. */
  lemma {:induction false} CountPragma(cs: seq<Clause>, n: nat)
    requires LegalClauses(cs)
    ensures CountExp(PragmaText(cs, n)) == Some(|PragmaCodes(cs)|)
  {
    if cs != [] {
      var n' := n + |CodesOf(cs[0].args)|;
      CountPragma(cs[1..], n');
      if |cs| == 1 {
        ConcatNothing(ClauseText(cs[0], n));
        CountClause(cs[0], n, "");
      } else {
        var rest := PragmaText(cs[1..], n');
        CountClause(cs[0], n, " " + rest);
        CountQuiet(" ", rest);
      }
    }
  }
}
