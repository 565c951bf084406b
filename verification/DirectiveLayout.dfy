/** Which texts are directives, and what they say. Besides what the printer writes, a directive may be
    laid out in many ways: with blanks where they do not matter, either kind of quotes, braces for
    begin and end, ampersands ahead of clauses and a comment behind them. A layout is a syntax tree
    that holds all of this; the parser accepts exactly the texts of legal layouts. */
module DirectiveLayout {
  import opened Wrappers
  import opened LangStr
  import opened Directive
  import opened DirectiveProofs

  /** A term as it is written; a code term holds what stands between its back quotes and the
      expression it takes from the queue. */
  datatype Shape =
    | AnInteger(text: string)
    | AString(value: string, quote: char)
    | ABoolean(holds: bool)
    | AName(name: string)
    | ACode(mark: string, exp: Exp)
    | ACall(name: string, gap: string, inner: string, args: Args)

  /** Arguments up to the closing parenthesis, each with the blanks and the separator behind it. */
  datatype Args =
    | Close
    | Last(arg: Shape, post: string)
    | More(arg: Shape, post: string, sep: char, gap: string, rest: Args)

  datatype Head = Word(name: string) | OpenBrace | CloseBrace

  /** A directive: its clauses, each with the blanks ahead of it, and at the end blanks and perhaps a
      comment. */
  datatype Layout =
    | End(pre: string, comment: string)
    | AClause(pre: string, amp: bool, head: Head, gap: string, args: Option<Args>, rest: Layout)

  // ----- the text

  /** The text of a term and what follows it. */
  function ShapeThen(x: Shape, rest: string): string
    decreases x
  {
    match x
    case AnInteger(text) => text + rest
    case AString(value, quote) => G2F(value, quote) + rest
    case ABoolean(holds) => (if holds then "true" else "false") + rest
    case AName(name) => name + rest
    case ACode(mark, _) => "`" + (mark + ("`" + rest))
    case ACall(name, gap, inner, args) => name + (gap + ("(" + (inner + ArgsThen(args, rest))))
  }

  function ArgsThen(a: Args, rest: string): string
    decreases a
  {
    match a
    case Close => ")" + rest
    case Last(arg, post) => ShapeThen(arg, post + (")" + rest))
    case More(arg, post, sep, gap, more) => ShapeThen(arg, post + ([sep] + (gap + ArgsThen(more, rest))))
  }

  function HeadText(h: Head): string {
    match h
    case Word(name) => name
    case OpenBrace => "{"
    case CloseBrace => "}"
  }

  function LayoutText(l: Layout): string {
    match l
    case End(pre, comment) => pre + comment
    case AClause(pre, amp, head, gap, args, rest) =>
      pre + ((if amp then "&" else "") + (HeadText(head) + (gap +
      (if args.Some? then "(" + ArgsThen(args.value, LayoutText(rest)) else LayoutText(rest)))))
  }

  /** The expressions that the code terms take from a queue, ahead of those left in it. */
  function ShapeCodes(x: Shape, q: seq<Exp>): seq<Exp>
    decreases x
  {
    match x
    case ACode(_, exp) => [exp] + q
    case ACall(_, _, _, args) => ArgsCodes(args, q)
    case _ => q
  }

  function ArgsCodes(a: Args, q: seq<Exp>): seq<Exp>
    decreases a
  {
    match a
    case Close => q
    case Last(arg, _) => ShapeCodes(arg, q)
    case More(arg, _, _, _, more) => ShapeCodes(arg, ArgsCodes(more, q))
  }

  function LayoutCodes(l: Layout, q: seq<Exp>): seq<Exp> {
    match l
    case End(_, _) => q
    case AClause(_, _, _, _, args, rest) =>
      if args.Some? then ArgsCodes(args.value, LayoutCodes(rest, q)) else LayoutCodes(rest, q)
  }

  // ----- the meaning

  function Meaning(x: Shape): Term
    decreases x
  {
    match x
    case AnInteger(text) => Integer(text)
    case AString(value, _) => Str(value)
    case ABoolean(holds) => Boolean(holds)
    case AName(name) => Literal(name)
    case ACode(_, exp) => Code(exp)
    case ACall(name, _, _, args) => Call(name, Terms(args, None, []))
  }

  /** The terms of the arguments behind `acc`. Those ahead of a colon are first halves; one is lost
      when the parenthesis closes right behind its colon. */
  function Terms(a: Args, fst: Option<Term>, acc: seq<Term>): seq<Term>
    decreases a
  {
    match a
    case Close => acc
    case Last(arg, _) => acc + [if fst.Some? then Pair(fst.value, Meaning(arg)) else Meaning(arg)]
    case More(arg, _, sep, _, more) =>
      if sep == ':' then Terms(more, Some(Meaning(arg)), acc)
      else Terms(more, None, acc + [if fst.Some? then Pair(fst.value, Meaning(arg)) else Meaning(arg)])
  }

  function ClauseName(h: Head): string {
    match h
    case Word(name) => name
    case OpenBrace => "begin"
    case CloseBrace => "end"
  }

  function Clauses(l: Layout, acc: seq<Clause>): seq<Clause>
    decreases l
  {
    match l
    case End(_, _) => acc
    case AClause(_, _, head, _, args, rest) =>
      Clauses(rest, acc + [Clause(ClauseName(head), if args.Some? then Terms(args.value, None, []) else [])])
  }

  // ----- what is legal

  predicate Blank(s: string) {
    forall c | c in s :: c <= ' ' || '\U{80}' <= c
  }

  predicate Digits(s: string) {
    forall c | c in s :: '0' <= c <= '9'
  }

  predicate NameChars(s: string) {
    forall c | c in s :: '0' <= c <= '9' || 'a' <= c <= 'z' || 'A' <= c <= 'Z' || c == '_' || c == '.'
  }

  predicate PlainName(s: string) {
    s != "" && NameChars(s) && !('0' <= s[0] <= '9') && s != "true" && s != "false"
  }

  predicate LegalShape(x: Shape)
    decreases x
  {
    match x
    case AnInteger(text) => text != "" && (text[0] == '-' || '0' <= text[0] <= '9') && Digits(text[1..])
    case AString(_, quote) => quote == '\'' || quote == '"'
    case ABoolean(_) => true
    case AName(name) => PlainName(name)
    case ACode(mark, _) =>
      Quote(None, mark) == None && forall k | 0 <= k < |mark| && mark[k] == '`' :: Quote(None, mark[..k]) != None
    case ACall(name, gap, inner, args) => PlainName(name) && Blank(gap) && Blank(inner) && LegalArgs(args, true, false)
  }

  /** A call may have no argument ahead of its closing parenthesis, and blanks behind any; a clause only
      behind a name. A half may not be followed by another. */
  predicate LegalArgs(a: Args, call: bool, half: bool)
    decreases a
  {
    match a
    case Close => call
    case Last(arg, post) => LegalShape(arg) && Blank(post) && (call || arg.AName? || post == "")
    case More(arg, post, sep, gap, more) =>
      && LegalShape(arg) && Blank(post) && (call || arg.AName? || post == "")
      && (sep == ',' || (sep == ':' && !half)) && Blank(gap) && LegalArgs(more, call, sep == ':')
  }

  /** A clause without a name, which needs an ampersand ahead of it or else has arguments only. */
  predicate Nameless(l: Layout) {
    l.AClause? && !l.amp && l.head == Word("")
  }

  predicate LegalLayout(l: Layout) {
    match l
    case End(pre, comment) => Blank(pre) && (comment == "" || comment[0] == '!')
    case AClause(pre, amp, head, gap, args, rest) =>
      && Blank(pre) && Blank(gap) && LegalLayout(rest)
      && (head.Word? ==> NameChars(head.name))
      && (Nameless(l) ==> gap == "" && args.Some?)
      && match args
         case Some(a) => LegalArgs(a, false, false)
         case None => !Nameless(rest) && (gap != "" || rest.pre != "" || rest == End("", ""))
  }

  // ----- small facts

  lemma {:induction false} BlankSkip(b: string, rest: string)
    requires Blank(b)
    ensures SkipBlanks(b + rest) == SkipBlanks(rest)
  {
    if b == "" {
      assert b + rest == rest;
    } else {
      assert b[0] in b && (b + rest)[0] == b[0] && (b + rest)[1..] == b[1..] + rest;
      assert forall c | c in b[1..] :: c in b;
      BlankSkip(b[1..], rest);
    }
  }

  lemma {:induction false} SkipSplit(t: string) returns (b: string)
    ensures Blank(b) && t == b + SkipBlanks(t)
  {
    if t != "" && IsBlank(t[0]) {
      var b' := SkipSplit(t[1..]);
      b := [t[0]] + b';
      assert t == [t[0]] + t[1..];
      ConcatAssoc([t[0]], b', SkipBlanks(t));
    } else {
      b := "";
      ConcatNothing(t);
    }
  }

  lemma {:induction false} NamesLen(s: string)
    ensures NameChars(s) <==> NameLen(s) == |s|
    ensures NameChars(s[..NameLen(s)])
  {
    if s != "" {
      NamesLen(s[1..]);
      assert s == [s[0]] + s[1..];
      assert forall c | c in s[1..] :: c in s;
      if IsNameChar(s[0]) {
        assert s[..NameLen(s)] == [s[0]] + s[1..][..NameLen(s[1..])];
      } else {
        assert s[0] in s;
      }
    }
  }

  lemma {:induction false} DigitsAll(s: string)
    ensures Digits(s) <==> DigitsLen(s) == |s|
    ensures Digits(s[..DigitsLen(s)])
  {
    if s != "" {
      DigitsAll(s[1..]);
      assert s == [s[0]] + s[1..];
      assert forall c | c in s[1..] :: c in s;
      if IsDigit(s[0]) {
        assert s[..DigitsLen(s)] == [s[0]] + s[1..][..DigitsLen(s[1..])];
      } else {
        assert s[0] in s;
      }
    }
  }

  // ----- every legal layout is read

  /** What may follow a term: blanks, and then a parenthesis, a comma or a colon. */
  predicate Follows(u: string) {
    u != "" && (IsBlank(u[0]) || Stops(u)) && Stops(SkipBlanks(u))
  }

  lemma {:induction false} FollowsBlank(post: string, u: string)
    requires Blank(post) && Stops(u)
    ensures Follows(post + u) && SkipBlanks(post + u) == u
  {
    BlankSkip(post, u);
    NoSkip(u);
    if post != "" {
      assert post[0] in post;
    } else {
      ConcatNothing(u);
    }
  }

  lemma {:induction false} IntegerRead(text: string, u: string, q: seq<Exp>)
    requires LegalShape(AnInteger(text)) && Follows(u)
    ensures ParseTerm(text + u, q) == TermGot(Integer(text), u, q)
  {
    var t := text + u;
    assert t[1..] == text[1..] + u;
    DigitsAll(text[1..]);
    DigitsRun(text[1..], u);
    assert t[..|text|] == text && t[|text|..] == u;
  }

  lemma {:induction false} StringRead(value: string, c: char, u: string, q: seq<Exp>)
    requires (c == '\'' || c == '"') && (u == "" || u[0] != c)
    ensures ParseTerm(G2F(value, c) + u, q) == TermGot(Str(value), u, q)
  {
    var g := G2F(value, c);
    EndOfG2F(value, c, u);
    F2GofG2F(value, c, u);
    assert (g + u)[|g|..] == u && (g + u)[0] == c;
  }

  lemma {:induction false} BooleanRead(holds: bool, u: string, q: seq<Exp>)
    requires Follows(u)
    ensures ParseTerm((if holds then "true" else "false") + u, q) == TermGot(Boolean(holds), u, q)
  {
    Truths();
    NameRun(if holds then "true" else "false", u);
  }

  lemma {:induction false} NameRead(name: string, u: string, q: seq<Exp>)
    requires PlainName(name) && Follows(u)
    ensures ParseTerm(name + u, q) == TermGot(Literal(name), SkipBlanks(u), q)
  {
    NamesLen(name);
    NameRun(name, u);
  }

  lemma {:induction false} QuoteLast(s: string, rest: string, k: nat)
    requires k <= |s|
    ensures (s + rest)[..k] == s[..k]
  {
  }

  lemma {:induction false} CodeRead(mark: string, exp: Exp, u: string, q: seq<Exp>)
    requires LegalShape(ACode(mark, exp))
    ensures ParseTerm("`" + (mark + ("`" + u)), [exp] + q) == TermGot(Code(exp), u, q)
  {
    var s := mark + ("`" + u);
    var t := "`" + s;
    assert t[1..] == s && s[|mark|] == '`' && s[..|mark|] == mark;
    forall k | 0 <= k < |mark|
      ensures !Bare(s, '`', k)
    {
      QuoteLast(mark, "`" + u, k);
    }
    FirstBareIs(s, '`', 0, Some(|mark|));
    assert t[|mark| + 2..] == u && ([exp] + q)[1..] == q;
  }

  lemma {:induction false} CallRead(name: string, gap: string, inner: string, u: string, q: seq<Exp>)
    requires PlainName(name) && Blank(gap) && Blank(inner)
    requires u != "" && !IsBlank(u[0])
    ensures ParseTerm(name + (gap + ("(" + (inner + u))), q) ==
            match ParseArgs(u, q, None, [], true)
            case ArgsFail => TermFail
            case ArgsGot(args, rest, q') => TermGot(Call(name, args), rest, q')
  {
    var tail := "(" + (inner + u);
    NamesLen(name);
    assert !IsNameChar('(') && !IsBlank('(');
    if gap != "" {
      assert gap[0] in gap;
    }
    NameRun(name, gap + tail);
    BlankSkip(gap, tail);
    NoSkip(tail);
    assert tail[1..] == inner + u;
    SkippedArgs(inner, u, q);
  }

  lemma {:induction false} SkippedArgs(inner: string, u: string, q: seq<Exp>)
    requires Blank(inner) && u != "" && !IsBlank(u[0])
    ensures ParseArgs(inner + u, q, None, [], true) == ParseArgs(u, q, None, [], true)
  {
    BlankSkip(inner, u);
    NoSkip(u);
  }

  lemma {:induction false} ShapeStart(x: Shape, u: string)
    requires LegalShape(x)
    ensures var t := ShapeThen(x, u); t != "" && !IsBlank(t[0]) && t[0] != ')'
  {
    match x
    case AName(name) => assert name[0] in name;
    case ACall(name, _, _, _) => assert name[0] in name;
    case _ =>
  }

  lemma {:induction false} ArgsFront(a: Args, call: bool, half: bool, u: string)
    requires LegalArgs(a, call, half)
    ensures var t := ArgsThen(a, u); t != "" && !IsBlank(t[0])
  {
    match a
    case Close =>
    case Last(arg, post) => ShapeStart(arg, post + (")" + u));
    case More(arg, post, sep, gap, more) => ShapeStart(arg, post + ([sep] + (gap + ArgsThen(more, u))));
  }

  lemma {:induction false} ShapeRead(x: Shape, u: string, q: seq<Exp>)
    requires LegalShape(x) && Follows(u)
    ensures ParseTerm(ShapeThen(x, u), ShapeCodes(x, q)) ==
            TermGot(Meaning(x), if x.AName? then SkipBlanks(u) else u, q)
    decreases x, 0
  {
    match x
    case AnInteger(text) => IntegerRead(text, u, q);
    case AString(value, c) => StringRead(value, c, u, q);
    case ABoolean(holds) => BooleanRead(holds, u, q);
    case AName(name) => NameRead(name, u, q);
    case ACode(mark, exp) => CodeRead(mark, exp, u, q);
    case ACall(name, gap, inner, args) =>
      ArgsFront(args, true, false, u);
      CallRead(name, gap, inner, ArgsThen(args, u), ArgsCodes(args, q));
      ArgsReadOn(args, u, q, None, [], true);
  }

  /** An argument with its blanks is read up to what stops it. */
  lemma {:induction false} ArgRead(x: Shape, post: string, u: string, q: seq<Exp>, fst: Option<Term>, acc: seq<Term>,
                                   call: bool)
    requires LegalShape(x) && Blank(post) && (call || x.AName? || post == "") && Stops(u)
    ensures ParseArgs(ShapeThen(x, post + u), ShapeCodes(x, q), fst, acc, call) ==
            ParseAfter(u, q, fst, Meaning(x), acc, call)
    decreases x, 1
  {
    ShapeStart(x, post + u);
    NoSkip(ShapeThen(x, post + u));
    FollowsBlank(post, u);
    ShapeRead(x, post + u, q);
    NoSkip(u);
    ConcatNothing(u);
  }

  lemma {:induction false} ArgsReadOn(a: Args, u: string, q: seq<Exp>, fst: Option<Term>, acc: seq<Term>, call: bool)
    requires LegalArgs(a, call, fst.Some?)
    ensures ParseArgs(ArgsThen(a, u), ArgsCodes(a, q), fst, acc, call) == ArgsGot(Terms(a, fst, acc), u, q)
    decreases a, 0
  {
    match a
    case Close =>
      NoSkip(")" + u);
      assert (")" + u)[1..] == u;
    case Last(arg, post) =>
      ArgRead(arg, post, ")" + u, q, fst, acc, call);
      assert (")" + u)[1..] == u;
    case More(arg, post, sep, gap, more) =>
      var tail := ArgsThen(more, u);
      ArgRead(arg, post, [sep] + (gap + tail), ArgsCodes(more, q), fst, acc, call);
      assert ([sep] + (gap + tail))[1..] == gap + tail;
      ArgsFront(more, call, sep == ':', u);
      BlankSkip(gap, tail);
      NoSkip(tail);
      if sep == ':' {
        ArgsReadOn(more, u, q, Some(Meaning(arg)), acc, call);
      } else {
        var x := if fst.Some? then Pair(fst.value, Meaning(arg)) else Meaning(arg);
        ArgsReadOn(more, u, q, None, acc + [x], call);
      }
  }

  lemma {:induction false} HeadRead(head: Head, u: string, q: seq<Exp>)
    requires head.Word? ==> NameChars(head.name)
    requires u == "" || IsBlank(u[0]) || u[0] == '('
    ensures ParseClause(HeadText(head) + u, q) == ParseClauseArgs(ClauseName(head), SkipBlanks(u), q)
  {
    var h := HeadText(head);
    assert u != "" ==> (h + u)[|h|] == u[0];
    assert (h + u)[|h|..] == u && (h + u)[..|h|] == h;
    if head.Word? {
      NamesLen(h);
      NameRun(h, u);
      assert h != "" ==> h[0] in h;
      assert h + u != "" ==> (h + u)[0] != '{' && (h + u)[0] != '}';
    }
  }

  /** What follows a clause without arguments: nothing, or a blank, and no parenthesis behind blanks. */
  lemma {:induction false} BehindHead(gap: string, rest: Layout)
    requires Blank(gap) && LegalLayout(rest) && !Nameless(rest)
    requires gap != "" || rest.pre != "" || rest == End("", "")
    ensures var u := gap + LayoutText(rest);
            (u == "" || IsBlank(u[0])) && (SkipBlanks(u) == "" || SkipBlanks(u)[0] != '(')
  {
    var t := LayoutText(rest);
    BlankSkip(gap, t);
    LayoutFront(rest);
    if gap != "" {
      assert gap[0] in gap;
    } else {
      ConcatNothing(t);
      if rest.pre != "" {
        assert rest.pre[0] in rest.pre && t[0] == rest.pre[0];
      }
    }
  }

  /** The text of a layout behind its first blanks. */
  function Inside(l: Layout): string {
    match l
    case End(_, comment) => comment
    case AClause(_, amp, head, gap, args, rest) =>
      (if amp then "&" else "") + (HeadText(head) + (gap +
      (if args.Some? then "(" + ArgsThen(args.value, LayoutText(rest)) else LayoutText(rest))))
  }

  lemma {:induction false} LayoutFront(l: Layout)
    requires LegalLayout(l)
    ensures SkipBlanks(LayoutText(l)) == Inside(l)
    ensures var u := Inside(l); u == "" || (!IsBlank(u[0]) && (u[0] == '(' <==> Nameless(l)))
    ensures l.AClause? ==> var u := Inside(l); u != "" && u[0] != '!' && (u[0] == '&' <==> l.amp)
  {
    var u := Inside(l);
    BlankSkip(l.pre, u);
    if l.AClause? && !l.amp {
      ConcatNothing(u);
      var h := HeadText(l.head);
      if h != "" {
        assert h[0] in h && u[0] == h[0];
      } else {
        assert Nameless(l) && u[0] == '(';
      }
    }
    if u != "" {
      NoSkip(u);
    }
  }

  lemma {:induction false} ClauseRead(head: Head, gap: string, args: Option<Args>, rest: Layout, q: seq<Exp>)
    requires Blank(gap) && LegalLayout(rest) && (head.Word? ==> NameChars(head.name))
    requires args.Some? ==> LegalArgs(args.value, false, false)
    requires args.None? ==> !Nameless(rest) && (gap != "" || rest.pre != "" || rest == End("", ""))
    ensures var t := LayoutText(rest);
            var u := gap + (if args.Some? then "(" + ArgsThen(args.value, t) else t);
            ParseClause(HeadText(head) + u, if args.Some? then ArgsCodes(args.value, q) else q) ==
            ClauseGot(Clause(ClauseName(head), if args.Some? then Terms(args.value, None, []) else []),
                      if args.Some? then t else SkipBlanks(t), q)
  {
    var t := LayoutText(rest);
    match args
    case None =>
      BehindHead(gap, rest);
      HeadRead(head, gap + t, q);
      BlankSkip(gap, t);
    case Some(a) =>
      var tail := "(" + ArgsThen(a, t);
      assert gap != "" ==> gap[0] in gap && (gap + tail)[0] == gap[0];
      assert gap == "" ==> gap + tail == tail;
      HeadRead(head, gap + tail, ArgsCodes(a, q));
      BlankSkip(gap, tail);
      NoSkip(tail);
      assert tail[1..] == ArgsThen(a, t);
      ArgsReadOn(a, t, q, None, [], false);
  }

  lemma {:induction false} ParseSkipped(t: string, q: seq<Exp>, acc: seq<Clause>)
    ensures ParsePragma(SkipBlanks(t), q, acc) == ParsePragma(t, q, acc)
  {
    SkippedStart(t);
    if SkipBlanks(t) != "" {
      NoSkip(SkipBlanks(t));
    }
  }

  lemma {:induction false} LayoutRead(l: Layout, q: seq<Exp>, acc: seq<Clause>)
    requires LegalLayout(l)
    ensures ParsePragma(LayoutText(l), LayoutCodes(l, q), acc) == PragmaGot(Clauses(l, acc), q)
    decreases l
  {
    LayoutFront(l);
    match l
    case End(_, _) =>
    case AClause(_, amp, head, gap, args, rest) =>
      var t, u := LayoutText(rest), Inside(l);
      var u' := HeadText(head) + (gap + (if args.Some? then "(" + ArgsThen(args.value, t) else t));
      assert (if u[0] == '&' then u[1..] else u) == u' by {
        ConcatNothing(u');
        assert ("&" + u')[1..] == u';
      }
      ClauseRead(head, gap, args, rest, LayoutCodes(rest, q));
      var c := Clause(ClauseName(head), if args.Some? then Terms(args.value, None, []) else []);
      ParseSkipped(t, LayoutCodes(rest, q), acc + [c]);
      LayoutRead(rest, q, acc + [c]);
  }

  // ----- nothing else is read

  lemma {:induction false} IntegerFound(t: string)
    requires t != "" && (IsDigit(t[0]) || t[0] == '-')
    ensures var n := 1 + DigitsLen(t[1..]); LegalShape(AnInteger(t[..n])) && t == t[..n] + t[n..]
  {
    var n := 1 + DigitsLen(t[1..]);
    DigitsAll(t[1..]);
    assert t[..n][1..] == t[1..][..n - 1];
  }

  lemma {:induction false} StringFound(t: string, q: seq<Exp>) returns (u: string)
    requires t != "" && IsQuote(t[0]) && ParseString(t, q).TermGot?
    ensures var g := ParseString(t, q);
            g.term.Str? && t == G2F(g.term.value, t[0]) + u && g.rest == u && g.queue == q
  {
    ClosingBound(t[1..], t[0]);
    G2FofF2G(t);
    var n := Closing(t[1..], t[0]).value;
    u := t[n + 2..];
    assert t == t[..n + 2] + u;
  }

  lemma {:induction false} CodeFound(t: string, q: seq<Exp>) returns (mark: string, u: string)
    requires t != "" && t[0] == '`' && ParseCode(t, q).TermGot?
    ensures q != [] && LegalShape(ACode(mark, q[0])) && t == "`" + (mark + ("`" + u))
    ensures ParseCode(t, q) == TermGot(Code(q[0]), u, q[1..])
  {
    var s := t[1..];
    var n := FirstBare(s, '`', 0).value;
    mark, u := s[..n], s[n + 1..];
    assert t[n + 2..] == u && s == mark + ("`" + u) && t == "`" + s;
    forall k | 0 <= k < |mark| && mark[k] == '`'
      ensures Quote(None, mark[..k]) != None
    {
      assert !Bare(s, '`', k) && mark[..k] == s[..k];
    }
  }

  /** A term that is read has a shape, and stands ahead of what is left. */
  predicate Shaped(t: string, q: seq<Exp>, x: Shape, u: string)
    requires ParseTerm(t, q).TermGot?
  {
    var g := ParseTerm(t, q);
    LegalShape(x) && t == ShapeThen(x, u) && q == ShapeCodes(x, g.queue) && g.term == Meaning(x) &&
    g.rest == if x.AName? then SkipBlanks(u) else u
  }

  lemma {:induction false} ShapeFound(t: string, q: seq<Exp>) returns (x: Shape, u: string)
    requires ParseTerm(t, q).TermGot?
    ensures Shaped(t, q, x, u)
    decreases |t|, 1
  {
    if IsDigit(t[0]) || t[0] == '-' {
      var n := 1 + DigitsLen(t[1..]);
      IntegerFound(t);
      x, u := AnInteger(t[..n]), t[n..];
    } else if IsQuote(t[0]) {
      u := StringFound(t, q);
      x := AString(ParseString(t, q).term.value, t[0]);
    } else if t[0] == '`' {
      var mark;
      mark, u := CodeFound(t, q);
      x := ACode(mark, q[0]);
      assert q == [q[0]] + q[1..];
    } else {
      x, u := NamedFound(t, q);
    }
  }

  lemma {:induction false} NamedFound(t: string, q: seq<Exp>) returns (x: Shape, u: string)
    requires ParseTerm(t, q).TermGot? && t != "" && !IsDigit(t[0]) && IsNameChar(t[0])
    ensures Shaped(t, q, x, u)
    decreases |t|, 0
  {
    var name, after := t[..NameLen(t)], t[NameLen(t)..];
    NamesLen(t);
    assert t == name + after && name[0] == t[0];
    if name == "true" || name == "false" {
      x, u := ABoolean(name == "true"), after;
    } else if SkipBlanks(after)[0] == '(' {
      x, u := CallFound(name, after, q);
    } else {
      x, u := AName(name), after;
    }
  }

  lemma {:induction false} CallFound(name: string, after: string, q: seq<Exp>) returns (x: Shape, u: string)
    requires PlainName(name) && SkipBlanks(after) != "" && SkipBlanks(after)[0] == '('
    requires ParseNamed(name, after, q).TermGot?
    ensures var g := ParseNamed(name, after, q);
            x.ACall? && LegalShape(x) && name + after == ShapeThen(x, u) && q == ShapeCodes(x, g.queue) &&
            g.term == Meaning(x) && g.rest == u
    decreases |after|, 3
  {
    var rest := SkipBlanks(after);
    var gap := SkipSplit(after);
    var inner, args := ArgsFound(rest[1..], q, None, [], true);
    var g := ParseArgs(rest[1..], q, None, [], true);
    u := g.rest;
    x := ACall(name, gap, inner, args);
    assert rest == "(" + rest[1..];
    assert after == gap + ("(" + (inner + ArgsThen(args, u)));
  }

  /** Arguments that are read, from their first blanks on. */
  predicate ArgsShaped(t: string, q: seq<Exp>, fst: Option<Term>, acc: seq<Term>, call: bool, pre: string, a: Args)
    requires ParseArgs(t, q, fst, acc, call).ArgsGot?
  {
    var g := ParseArgs(t, q, fst, acc, call);
    Blank(pre) && (call || pre == "") && LegalArgs(a, call, fst.Some?) && t == pre + ArgsThen(a, g.rest) &&
    ArgsThen(a, g.rest) == (if call then SkipBlanks(t) else t) &&
    q == ArgsCodes(a, g.queue) && g.args == Terms(a, fst, acc)
  }

  lemma {:induction false} ArgsFound(t: string, q: seq<Exp>, fst: Option<Term>, acc: seq<Term>, call: bool)
    returns (pre: string, a: Args)
    requires ParseArgs(t, q, fst, acc, call).ArgsGot?
    ensures ArgsShaped(t, q, fst, acc, call, pre, a)
    decreases |t|, 2
  {
    pre := "";
    var t0 := if call then SkipBlanks(t) else t;
    if call {
      pre := SkipSplit(t);
    } else {
      ConcatNothing(t);
    }
    if call && t0 != "" && t0[0] == ')' {
      a := Close;
      assert t0 == ")" + t0[1..];
    } else {
      var x, u := ShapeFound(t0, q);
      var g := ParseTerm(t0, q);
      var post, t1 := PostFound(x, u, g.rest, call);
      a := AfterFound(t1, g.queue, fst, x, post, acc, call);
    }
  }

  lemma {:induction false} PostFound(x: Shape, u: string, rest: string, call: bool) returns (post: string, t1: string)
    requires rest == if x.AName? then SkipBlanks(u) else u
    ensures Blank(post) && (call || x.AName? || post == "") && u == post + t1
    ensures t1 == if call then SkipBlanks(rest) else rest
  {
    t1 := if call then SkipBlanks(rest) else rest;
    if call || x.AName? {
      post := SkipSplit(u);
      SkippedStart(u);
      if SkipBlanks(u) != "" {
        NoSkip(SkipBlanks(u));
      }
    } else {
      post := "";
      ConcatNothing(u);
    }
  }

  /** The arguments from `x` on, which has been read up to `t`. */
  lemma {:induction false} AfterFound(t: string, q: seq<Exp>, fst: Option<Term>, x: Shape, post: string,
                                      acc: seq<Term>, call: bool) returns (a: Args)
    requires ParseAfter(t, q, fst, Meaning(x), acc, call).ArgsGot?
    requires LegalShape(x) && Blank(post) && (call || x.AName? || post == "")
    ensures var g := ParseAfter(t, q, fst, Meaning(x), acc, call);
            LegalArgs(a, call, fst.Some?) && ShapeThen(x, post + t) == ArgsThen(a, g.rest) &&
            ShapeCodes(x, q) == ArgsCodes(a, g.queue) && g.args == Terms(a, fst, acc)
    decreases |t|, 3
  {
    var m := Meaning(x);
    if t[0] == ')' {
      a := Last(x, post);
      assert t == ")" + t[1..];
    } else {
      var acc' := if t[0] == ':' then acc else acc + [if fst.Some? then Pair(fst.value, m) else m];
      var gap, more := RestFound(t[1..], q, if t[0] == ':' then Some(m) else None, acc', call);
      a := More(x, post, t[0], gap, more);
      assert t == [t[0]] + t[1..];
    }
  }

  lemma {:induction false} RestFound(t: string, q: seq<Exp>, fst: Option<Term>, acc: seq<Term>, call: bool)
    returns (gap: string, a: Args)
    requires ParseArgs(SkipBlanks(t), q, fst, acc, call).ArgsGot?
    ensures var g := ParseArgs(SkipBlanks(t), q, fst, acc, call);
            Blank(gap) && LegalArgs(a, call, fst.Some?) && t == gap + ArgsThen(a, g.rest) &&
            q == ArgsCodes(a, g.queue) && g.args == Terms(a, fst, acc)
    decreases |t|, 3
  {
    var pre;
    gap := SkipSplit(t);
    pre, a := ArgsFound(SkipBlanks(t), q, fst, acc, call);
    SkippedStart(t);
    if SkipBlanks(t) != "" {
      NoSkip(SkipBlanks(t));
    }
  }

  lemma {:induction false} HeadFound(t: string) returns (head: Head)
    ensures head.Word? ==> NameChars(head.name)
    ensures var n := if t != "" && (t[0] == '{' || t[0] == '}') then 1 else NameLen(t);
            HeadText(head) == t[..n] && t == HeadText(head) + t[n..] &&
            ClauseName(head) ==
            if n == 1 && t[0] == '{' then "begin" else if n == 1 && t[0] == '}' then "end" else t[..n]
  {
    if t != "" && t[0] == '{' {
      head := OpenBrace;
    } else if t != "" && t[0] == '}' {
      head := CloseBrace;
    } else {
      NamesLen(t);
      head := Word(t[..NameLen(t)]);
    }
  }

  lemma {:induction false} ClauseFound(t: string, q: seq<Exp>) returns (head: Head, gap: string, args: Option<Args>)
    requires ParseClause(t, q).ClauseGot?
    ensures var g := ParseClause(t, q);
            Blank(gap) && (head.Word? ==> NameChars(head.name)) &&
            g.clause == Clause(ClauseName(head), if args.Some? then Terms(args.value, None, []) else []) &&
            t == HeadText(head) + (gap + (if args.Some? then "(" + ArgsThen(args.value, g.rest) else g.rest)) &&
            q == if args.Some? then ArgsCodes(args.value, g.queue) else g.queue
    ensures args.Some? ==> LegalArgs(args.value, false, false)
    ensures args.None? ==>
              var r := ParseClause(t, q).rest; SkipBlanks(r) == r && (r == "" || (gap != "" && r[0] != '('))
    ensures t != "" && !IsBlank(t[0]) && head == Word("") ==> gap == "" && args.Some?
  {
    head := HeadFound(t);
    var n := |HeadText(head)|;
    gap := SkipSplit(t[n..]);
    var u := SkipBlanks(t[n..]);
    SkippedStart(t[n..]);
    if u != "" && u[0] == '(' {
      var pre, a := ArgsFound(u[1..], q, None, [], false);
      args := Some(a);
      assert u == "(" + u[1..];
    } else {
      args := None;
      if u != "" {
        NoSkip(u);
        assert t[n..] == gap + u;
        ConcatNothing(u);
      }
    }
    if t != "" && !IsBlank(t[0]) && head == Word("") {
      assert t[n..] == t;
      NoSkip(t);
    }
  }

  /** What stands behind a clause without arguments. */
  lemma {:induction false} RestFits(rest: Layout, gap: string)
    requires LegalLayout(rest) && rest.pre == ""
    requires var r := LayoutText(rest); r == "" || (gap != "" && r[0] != '(')
    ensures !Nameless(rest) && (gap != "" || rest.pre != "" || rest == End("", ""))
  {
    LayoutFront(rest);
    ConcatNothing(Inside(rest));
    assert LayoutText(rest) == Inside(rest);
  }

  lemma {:induction false} LayoutFound(t: string, q: seq<Exp>, acc: seq<Clause>) returns (l: Layout)
    requires ParsePragma(t, q, acc).PragmaGot?
    ensures var g := ParsePragma(t, q, acc);
            LegalLayout(l) && LayoutText(l) == t && LayoutCodes(l, g.queue) == q && Clauses(l, acc) == g.clauses
    ensures SkipBlanks(t) == t ==> l.pre == ""
    decreases |t|
  {
    var pre := SkipSplit(t);
    var t0 := SkipBlanks(t);
    SkippedStart(t);
    if t0 == "" || t0[0] == '!' {
      l := End(pre, t0);
    } else {
      var amp := t0[0] == '&';
      var t1 := if amp then t0[1..] else t0;
      var g := ParseClause(t1, q);
      var rest := LayoutFound(g.rest, g.queue, acc + [g.clause]);
      l := ClauseAhead(pre, amp, t1, q, rest, ParsePragma(t, q, acc).queue, acc);
      assert t0 == (if amp then "&" else "") + t1;
    }
  }

  lemma {:induction false} ClauseAhead(pre: string, amp: bool, t: string, q: seq<Exp>, rest: Layout, left: seq<Exp>,
                                       acc: seq<Clause>) returns (l: Layout)
    requires ParseClause(t, q).ClauseGot? && Blank(pre) && (!amp ==> t != "" && !IsBlank(t[0]))
    requires var g := ParseClause(t, q);
             LegalLayout(rest) && LayoutText(rest) == g.rest && LayoutCodes(rest, left) == g.queue &&
             (SkipBlanks(g.rest) == g.rest ==> rest.pre == "")
    ensures var g := ParseClause(t, q);
            LegalLayout(l) && LayoutText(l) == pre + ((if amp then "&" else "") + t) && LayoutCodes(l, left) == q &&
            Clauses(l, acc) == Clauses(rest, acc + [g.clause]) && l.pre == pre
  {
    var head, gap, args := ClauseFound(t, q);
    l := AClause(pre, amp, head, gap, args, rest);
    if args.None? {
      RestFits(rest, gap);
    }
  }

  /** A text is read as clauses if and only if it is the text of a legal layout of them; the queue is
      then the expressions of its code terms and those left. */
  lemma {:induction false} ParseExact(t: string, q: seq<Exp>, cs: seq<Clause>, q': seq<Exp>)
    ensures ParsePragma(t, q, []) == PragmaGot(cs, q') <==>
            exists l :: LegalLayout(l) && LayoutText(l) == t && LayoutCodes(l, q') == q && Clauses(l, []) == cs
  {
    if ParsePragma(t, q, []) == PragmaGot(cs, q') {
      var l := LayoutFound(t, q, []);
    }
    if l :| LegalLayout(l) && LayoutText(l) == t && LayoutCodes(l, q') == q && Clauses(l, []) == cs {
      LayoutRead(l, q', []);
    }
  }
}
