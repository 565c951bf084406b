/** How many code expressions are counted in a directive that is laid out in any way. */
module LayoutCount {
  import opened Wrappers
  import opened LangStr
  import opened Directive
  import opened DirectiveProofs
  import opened DirectiveCount
  import opened DirectiveLayout

  /** No quotes and no back quotes. */
  predicate Unquoted(s: string) {
    '\'' !in s && '"' !in s && '`' !in s
  }

  predicate PlainMarks(x: Shape)
    decreases x
  {
    match x
    case ACode(mark, _) => Unquoted(mark)
    case ACall(_, _, _, args) => PlainArgs(args)
    case _ => true
  }

  predicate PlainArgs(a: Args)
    decreases a
  {
    match a
    case Close => true
    case Last(arg, _) => PlainMarks(arg)
    case More(arg, _, _, _, more) => PlainMarks(arg) && PlainArgs(more)
  }

  predicate PlainLayout(l: Layout) {
    match l
    case End(_, comment) => Unquoted(comment)
    case AClause(_, _, _, _, args, rest) => (args.Some? ==> PlainArgs(args.value)) && PlainLayout(rest)
  }

  lemma {:induction false} QuietText(u: string, rest: string)
    requires Unquoted(u)
    ensures CountExp(u + rest) == CountExp(rest)
  {
    assert NoQuoteChars(u);
    CountQuiet(u, rest);
  }

  lemma {:induction false} StringCounted(value: string, c: char, rest: string)
    requires (c == '\'' || c == '"') && (rest == "" || rest[0] != c)
    ensures CountExp(G2F(value, c) + rest) == CountExp(rest)
  {
    var g := G2F(value, c);
    EndOfG2F(value, c, rest);
    assert (g + rest)[|g|..] == rest && (g + rest)[0] == c;
  }

  lemma {:induction false} MarkCounted(mark: string, rest: string)
    requires '`' !in mark
    ensures IndexOf(mark + ("`" + rest), '`') == Some(|mark|)
  {
    var s := mark + ("`" + rest);
    if mark == "" {
      assert s == "`" + rest;
    } else {
      assert mark[0] in mark && s[1..] == mark[1..] + ("`" + rest);
      assert forall c | c in mark[1..] :: c in mark;
      MarkCounted(mark[1..], rest);
    }
  }

  lemma {:induction false} CodeCounted(mark: string, rest: string)
    requires Unquoted(mark)
    ensures CountExp("`" + (mark + ("`" + rest))) == AddTo(1, CountExp(rest))
  {
    var s := mark + ("`" + rest);
    MarkCounted(mark, rest);
    assert ("`" + s)[1..] == s && ("`" + s)[|mark| + 2..] == rest;
  }

  lemma {:induction false} CallCounted(name: string, gap: string, inner: string, t: string)
    requires PlainName(name) && Blank(gap) && Blank(inner)
    ensures CountExp(name + (gap + ("(" + (inner + t)))) == CountExp(t)
  {
    QuietText(name, gap + ("(" + (inner + t)));
    QuietText(gap, "(" + (inner + t));
    QuietText("(", inner + t);
    QuietText(inner, t);
  }

  lemma {:induction false} BlankFirst(b: string, u: string)
    requires Blank(b) && u != "" && !IsQuote(u[0])
    ensures b + u != "" && !IsQuote((b + u)[0])
  {
    if b != "" {
      assert b[0] in b;
    }
  }

  /** What stands between two arguments. */
  lemma {:induction false} BetweenCounted(post: string, sep: string, gap: string, t: string)
    requires Blank(post) && Blank(gap) && (sep == "," || sep == ":" || sep == ")")
    ensures CountExp(post + (sep + (gap + t))) == CountExp(t)
    ensures var u := post + (sep + (gap + t)); u != "" && !IsQuote(u[0])
  {
    BlankFirst(post, sep + (gap + t));
    QuietText(post, sep + (gap + t));
    QuietText(sep, gap + t);
    QuietText(gap, t);
  }

  /** As many code expressions as the shape takes from any queue. */
  lemma {:induction false} ShapeCounted(x: Shape, rest: string, q: seq<Exp>)
    requires LegalShape(x) && PlainMarks(x) && (rest == "" || !IsQuote(rest[0]))
    ensures |ShapeCodes(x, q)| >= |q|
    ensures CountExp(ShapeThen(x, rest)) == AddTo(|ShapeCodes(x, q)| - |q|, CountExp(rest))
    decreases x
  {
    match x
    case AnInteger(text) =>
      assert text == [text[0]] + text[1..];
      assert Unquoted(text);
      QuietText(text, rest);
    case AString(value, c) => StringCounted(value, c, rest);
    case ABoolean(holds) => QuietText(if holds then "true" else "false", rest);
    case AName(name) => QuietText(name, rest);
    case ACode(mark, _) => CodeCounted(mark, rest);
    case ACall(name, gap, inner, args) =>
      CallCounted(name, gap, inner, ArgsThen(args, rest));
      ArgsCounted(args, true, false, rest, q);
  }

  lemma {:induction false} ArgsCounted(a: Args, call: bool, half: bool, rest: string, q: seq<Exp>)
    requires LegalArgs(a, call, half) && PlainArgs(a)
    ensures |ArgsCodes(a, q)| >= |q|
    ensures CountExp(ArgsThen(a, rest)) == AddTo(|ArgsCodes(a, q)| - |q|, CountExp(rest))
    decreases a
  {
    match a
    case Close => QuietText(")", rest);
    case Last(arg, post) =>
      ConcatNothing(rest);
      BetweenCounted(post, ")", "", rest);
      ShapeCounted(arg, post + (")" + rest), q);
    case More(arg, post, sep, gap, more) =>
      var t := ArgsThen(more, rest);
      BetweenCounted(post, [sep], gap, t);
      ShapeCounted(arg, post + ([sep] + (gap + t)), ArgsCodes(more, q));
      ArgsCounted(more, call, sep == ':', rest, q);
  }

  /** In a directive laid out in any legal way, as many expressions are counted as its code terms take
      from the queue, provided that no quotes or back quotes stand in marks or in the comment. */
  lemma {:induction false} LayoutCounted(l: Layout, q: seq<Exp>)
    requires LegalLayout(l) && PlainLayout(l)
    ensures |LayoutCodes(l, q)| >= |q| && CountExp(LayoutText(l)) == Some(|LayoutCodes(l, q)| - |q|)
  {
    match l
    case End(pre, comment) =>
      QuietText(pre, comment);
      QuietText(comment, "");
      ConcatNothing(comment);
    case AClause(pre, amp, head, gap, args, rest) =>
      var t := LayoutText(rest);
      var u := if args.Some? then "(" + ArgsThen(args.value, t) else t;
      AheadCounted(pre, amp, head, gap, u);
      LayoutCounted(rest, q);
      if args.Some? {
        QuietText("(", ArgsThen(args.value, t));
        ArgsCounted(args.value, false, false, t, LayoutCodes(rest, q));
      }
  }

  lemma {:induction false} AheadCounted(pre: string, amp: bool, head: Head, gap: string, u: string)
    requires Blank(pre) && Blank(gap) && (head.Word? ==> NameChars(head.name))
    ensures CountExp(pre + ((if amp then "&" else "") + (HeadText(head) + (gap + u)))) == CountExp(u)
  {
    var a, h := if amp then "&" else "", HeadText(head);
    QuietText(pre, a + (h + (gap + u)));
    QuietText(a, h + (gap + u));
    QuietText(h, gap + u);
    QuietText(gap, u);
  }

  /** Counting fails within an expression and within a string. */
  lemma {:induction false} Unfinished(u: string, v: string, c: char)
    requires Unquoted(u) && c in {'`', '\'', '"'} && c !in v
    ensures CountExp(u + ([c] + v)) == None
  {
    var t := [c] + v;
    QuietText(u, t);
    assert t[0] == c && t[1..] == v;
    if c == '`' {
      NotFound(v);
    } else {
      NotClosed(v, c);
    }
  }

  lemma {:induction false} NotFound(v: string)
    requires '`' !in v
    ensures IndexOf(v, '`') == None
  {
    if v != "" {
      assert v[0] in v;
      assert forall c | c in v[1..] :: c in v;
      NotFound(v[1..]);
    }
  }

  lemma {:induction false} NotClosed(v: string, q: char)
    requires q !in v
    ensures Closing(v, q) == None
  {
    if v != "" {
      assert v[0] in v;
      assert forall c | c in v[1..] :: c in v;
      NotClosed(v[1..], q);
    }
  }
}
