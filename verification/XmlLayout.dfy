/** XML as others may write it: raw quotes and single quotes, any number of spaces between attributes,
    closing tags for childless elements. A layout is a syntax tree of such a text; the reader takes
    every legal one for the elements that it spells out. */
module XmlLayout {
  import opened Wrappers
  import opened Xml
  import opened LangStr
  import opened XmlText

  // ----- text with references

  /** The text with its five references replaced; nothing else changes. */
  function Decode(s: string): string {
    if s == "" then ""
    else if "&lt;" <= s then "<" + Decode(s[4..])
    else if "&gt;" <= s then ">" + Decode(s[4..])
    else if "&amp;" <= s then "&" + Decode(s[5..])
    else if "&quot;" <= s then "\"" + Decode(s[6..])
    else if "&apos;" <= s then "'" + Decode(s[6..])
    else [s[0]] + Decode(s[1..])
  }

  predicate RefAt(s: string, i: nat)
    requires i <= |s|
  {
    "&lt;" <= s[i..] || "&gt;" <= s[i..] || "&amp;" <= s[i..] || "&quot;" <= s[i..] || "&apos;" <= s[i..]
  }

  /** Every ampersand starts one of the five references. */
  predicate AllRefs(s: string) {
    forall i | 0 <= i < |s| && s[i] == '&' :: RefAt(s, i)
  }

  lemma {:induction false} AllRefsTail(s: string, k: nat)
    requires k <= |s| && AllRefs(s)
    ensures AllRefs(s[k..])
  {
    forall i | 0 <= i < |s[k..]| && s[k..][i] == '&'
      ensures RefAt(s[k..], i)
    {
      assert s[k..][i] == s[k + i] && s[k..][i..] == s[k + i..];
      assert RefAt(s, k + i);
    }
  }

  /** What the reader hands to the decoder. */
  function Quoted(s: string): string {
    Expand(EscapeQuote(), s)
  }

  /** A prefix without double quotes stays in front. */
  lemma {:induction false} QuotedAhead(p: string, s: string)
    requires Free(p, "\"") && p <= s
    ensures Quoted(s) == p + Quoted(s[|p|..])
  {
    assert s == p + s[|p|..];
    ExpandConcat(EscapeQuote(), p, s[|p|..]);
    NoQuotes(p);
  }

  lemma {:induction false} SameStart(s: string, p: string, k: nat)
    requires 0 < k <= |p| && k <= |s| && p <= Quoted(s) && s[..k] == p[..k] && Free(p, "\"")
    requires forall i | 0 < i < |p| :: p[i] != '&'
    ensures p <= s
    decreases |p| - k
  {
    var rest := s[k..];
    assert Free(p[..k], "\"") by {
      assert forall c | c in p[..k] :: c in p;
    }
    QuotedAhead(p[..k], s);
    if k < |p| {
      assert p[k] in p && Quoted(s)[k] == p[k] && Quoted(s)[k] == Quoted(rest)[0];
      assert Quoted(rest) == EscapeQuote()(rest[0]) + Quoted(rest[1..]);
      assert s[k] == rest[0] == p[k];
      assert s[..k + 1] == s[..k] + [s[k]] && p[..k + 1] == p[..k] + [p[k]];
      SameStart(s, p, k + 1);
    }
  }

  /** One of the five references. */
  predicate IsRef(p: string) {
    p == "&lt;" || p == "&gt;" || p == "&amp;" || p == "&quot;" || p == "&apos;"
  }

  /** Raw quotes make no reference and break none. */
  lemma {:induction false} RefKept(s: string, p: string)
    requires IsRef(p) && s != "" && s[0] == '&'
    ensures p <= Quoted(s) + ['"'] <==> p <= s
    ensures p <= s ==> Quoted(s) + ['"'] == p + (Quoted(s[|p|..]) + ['"'])
  {
    var t := Quoted(s) + ['"'];
    if p <= s {
      QuotedAhead(p, s);
      ConcatAssoc(p, Quoted(s[|p|..]), ['"']);
    }
    if p <= t {
      assert p[|p| - 1] == ';' && t[|t| - 1] == '"';
      assert p == t[..|p|] == Quoted(s)[..|p|];
      assert s[..1] == p[..1];
      SameStart(s, p, 1);
    }
  }

  lemma {:induction false} AllRefsCons(s: string, k: nat)
    requires s != "" && 0 < k <= |s| && (s[0] == '&' ==> RefAt(s, 0)) && forall i | 0 < i < k :: s[i] != '&'
    ensures AllRefs(s) <==> AllRefs(s[k..])
  {
    if AllRefs(s) {
      AllRefsTail(s, k);
    }
    if AllRefs(s[k..]) {
      forall i | 0 <= i < |s| && s[i] == '&'
        ensures RefAt(s, i)
      {
        if i >= k {
          assert s[k..][i - k] == s[i] && s[k..][i - k..] == s[i..];
          assert RefAt(s[k..], i - k);
        }
      }
    }
  }

  /** The decoder on a text with its raw quotes replaced. */
  lemma {:induction false} DecodeStep(s: string, p: string)
    requires IsRef(p) && p <= s
    requires var u := s[|p|..];
             Unescape(Quoted(u) + ['"'], '"') == Some(Decode(u)) && (Loose(Quoted(u) + ['"'], '"') == 0 <==> AllRefs(u))
    ensures Unescape(Quoted(s) + ['"'], '"') == Some(Decode(s))
    ensures Loose(Quoted(s) + ['"'], '"') == 0 <==> AllRefs(s)
  {
    var u := s[|p|..];
    RefTaken(p, s);
    RefKept(s, p);
    DecodeRef(s, p);
    RefAhead(p, Quoted(u) + ['"']);
    RefTaken(p, p + (Quoted(u) + ['"']));
    RefFirst(s, p);
    AllRefsCons(s, |p|);
  }

  lemma {:induction false} RefFirst(s: string, p: string)
    requires IsRef(p) && p <= s
    ensures RefAt(s, 0) && forall i | 0 < i < |p| :: s[i] != '&'
  {
    assert s[0..] == s;
    assert forall i | 0 <= i < |p| :: s[i] == p[i];
  }

  /** A reference at the front of what is decoded. */
  lemma {:induction false} RefAhead(p: string, v: string)
    requires IsRef(p)
    ensures var t := p + v;
            Unescape(t, '"') == Prepend([Entity(t).0], Unescape(v, '"')) && Loose(t, '"') == Loose(v, '"')
  {
    var t := p + v;
    RefTaken(p, t);
    assert t[|p|..] == v;
  }

  lemma {:induction false} DecodeRef(s: string, p: string)
    requires IsRef(p) && p <= s
    ensures Decode(s) == [Entity(s).0] + Decode(s[|p|..])
  {
    RefTaken(p, s);
    assert s[1] == p[1] && s[2] == p[2];
  }

  lemma {:induction false} RefTaken(p: string, t: string)
    requires IsRef(p) && p <= t
    ensures Entity(t).1 == |p| && t[0] == '&'
    ensures Entity(t).0 == if p == "&lt;" then '<' else if p == "&gt;" then '>' else if p == "&amp;" then '&'
                           else if p == "&quot;" then '"' else '\''
  {
    assert t[1] == p[1] && t[2] == p[2] && t[0] == p[0];
  }

  lemma {:induction false} QuotedCons(s: string)
    requires s != ""
    ensures Quoted(s) + ['"'] == (if s[0] == '"' then "&quot;" else [s[0]]) + (Quoted(s[1..]) + ['"'])
  {
    ConcatAssoc(if s[0] == '"' then "&quot;" else [s[0]], Quoted(s[1..]), ['"']);
  }

  lemma {:induction false} CharStep(s: string)
    requires s != "" && s[0] != '&'
    requires var u := s[1..];
             Unescape(Quoted(u) + ['"'], '"') == Some(Decode(u)) && (Loose(Quoted(u) + ['"'], '"') == 0 <==> AllRefs(u))
    ensures Unescape(Quoted(s) + ['"'], '"') == Some(Decode(s))
    ensures Loose(Quoted(s) + ['"'], '"') == 0 <==> AllRefs(s)
  {
    var t, v := Quoted(s) + ['"'], Quoted(s[1..]) + ['"'];
    QuotedCons(s);
    AllRefsCons(s, 1);
    assert Decode(s) == [s[0]] + Decode(s[1..]);
    if s[0] == '"' {
      assert "&quot;" <= t && t[6..] == v;
      RefTaken("&quot;", t);
    } else {
      assert t[1..] == v;
    }
  }

  lemma {:induction false} BareStep(s: string)
    requires s != "" && s[0] == '&' && !RefAt(s, 0)
    requires var u := s[1..]; Unescape(Quoted(u) + ['"'], '"') == Some(Decode(u))
    ensures Unescape(Quoted(s) + ['"'], '"') == Some(Decode(s))
    ensures Loose(Quoted(s) + ['"'], '"') > 0 && !AllRefs(s)
  {
    var t, v := Quoted(s) + ['"'], Quoted(s[1..]) + ['"'];
    QuotedCons(s);
    assert s[0..] == s && t[1..] == v;
    RefKept(s, "&lt;");
    RefKept(s, "&gt;");
    RefKept(s, "&amp;");
    RefKept(s, "&quot;");
    RefKept(s, "&apos;");
    assert Entity(t) == ('&', 1);
  }

  lemma {:induction false} Decoded(s: string)
    ensures Unescape(Quoted(s) + ['"'], '"') == Some(Decode(s))
    ensures Loose(Quoted(s) + ['"'], '"') == 0 <==> AllRefs(s)
    decreases |s|
  {
    if s == "" {
      assert Quoted(s) + ['"'] == ['"'];
    } else if s[0] == '&' && RefAt(s, 0) {
      assert s[0..] == s;
      var p := if "&lt;" <= s then "&lt;" else if "&gt;" <= s then "&gt;" else if "&amp;" <= s then "&amp;"
          else if "&quot;" <= s then "&quot;" else "&apos;";
      Decoded(s[|p|..]);
      DecodeStep(s, p);
    } else {
      Decoded(s[1..]);
      if s[0] == '&' {
        BareStep(s);
      } else {
        CharStep(s);
      }
    }
  }

  /** The buffer is decoded reference by reference and all else is kept, raw quotes too; with a bare
      ampersand in it, there is no result. */
  lemma {:induction false} DecodeExact(s: string)
    ensures CopyBufXml(s) == if AllRefs(s) then Some(Decode(s)) else None
  {
    Decoded(s);
    if s != "" {
      var t := "\"" + Quoted(s) + "\"";
      assert t[1..] == Quoted(s) + ['"'];
    }
  }

  /** Without ampersands, text is what it is. */
  lemma {:induction false} PlainKept(s: string)
    requires '&' !in s
    ensures CopyBufXml(s) == Some(s)
  {
    DecodeExact(s);
    PlainDecoded(s);
  }

  lemma {:induction false} PlainDecoded(s: string)
    requires '&' !in s
    ensures Decode(s) == s
  {
    if s != "" {
      assert s[0] in s;
      assert forall c | c in s[1..] :: c in s;
      PlainDecoded(s[1..]);
      assert s == [s[0]] + s[1..];
    }
  }

  // ----- elements

  /** An attribute with the spaces ahead of it, those ahead of its value, and the quote it is in. Spaces
      may also interrupt its name, or stand behind it. */
  datatype RawAttr =
    RawAttr(gap: string, name: string, pause: string, more: string, space: string, quote: char, value: string)

  datatype Body =
    | Closed
    | Full(kids: Raw, post: string, close: string)

  datatype Raw =
    | RawNil
    | RawElem(pre: string, name: string, attrs: seq<RawAttr>, gap: string, body: Body, next: Raw)

  /** The text of attributes and what follows it. */
  function AttrsThen(attrs: seq<RawAttr>, rest: string): string {
    if attrs == [] then rest
    else
      var a := attrs[0];
      a.gap + (a.name + (a.pause + (a.more + (['='] + (a.space + ([a.quote] +
      (a.value + ([a.quote] + AttrsThen(attrs[1..], rest)))))))))
  }

  function BodyThen(b: Body, rest: string): string
    decreases b
  {
    match b
    case Closed => ['/'] + (['>'] + rest)
    case Full(kids, post, close) => ['>'] + RawThen(kids, post + (['<'] + (['/'] + (close + (['>'] + rest)))))
  }

  function RawThen(x: Raw, rest: string): string
    decreases x
  {
    match x
    case RawNil => rest
    case RawElem(pre, name, attrs, gap, body, next) =>
      pre + (['<'] + (name + AttrsThen(attrs, gap + BodyThen(body, RawThen(next, rest)))))
  }

  function Values(attrs: seq<RawAttr>, acc: seq<Attr>): seq<Attr>
    decreases attrs
  {
    if attrs == [] then acc else Values(attrs[1..], acc + [Attr(attrs[0].name + attrs[0].more, Decode(attrs[0].value))])
  }

  /** The elements: text has its references replaced, and there is text before a closing tag exactly
      if there is one. */
  function Spelling(x: Raw): (r: XText)
    ensures r.Element? <==> x.RawElem?
  {
    match x
    case RawNil => Nil
    case RawElem(pre, name, attrs, gap, Closed, next) =>
      Element(Some(Decode(pre)), name, Values(attrs, []), None, Nil, Spelling(next))
    case RawElem(pre, name, attrs, gap, Full(kids, post, _), next) =>
      Element(Some(Decode(pre)), name, Values(attrs, []), Some(Decode(post)), Spelling(kids), Spelling(next))
  }

  predicate Spaces(s: string) {
    forall c | c in s :: c == ' '
  }

  predicate Without(s: string, stops: string) {
    forall c | c in s :: c !in stops
  }

  predicate LegalAttr(a: RawAttr) {
    && Spaces(a.gap) && a.gap != "" && Without(a.name, " =/>") && Spaces(a.pause) && Without(a.more, " =/>")
    && Spaces(a.space)
    && (a.quote == '"' || a.quote == '\'') && a.quote !in a.value && AllRefs(a.value)
  }

  predicate LegalRaw(x: Raw)
    decreases x
  {
    x.RawElem? ==>
      && Without(x.pre, "<") && AllRefs(x.pre)
      && x.name != "" && Without(x.name, " />") && x.name != "!--" && x.name[0] != '?'
      && (forall a | a in x.attrs :: LegalAttr(a)) && Spaces(x.gap) && LegalBody(x.body) && LegalRaw(x.next)
  }

  predicate LegalBody(b: Body)
    decreases b
  {
    b.Full? ==> LegalRaw(b.kids) && Without(b.post, "<") && AllRefs(b.post) && Without(b.close, ">")
  }

  lemma {:induction false} SpacesSkipped(b: string, u: string)
    requires Spaces(b) && u != "" && u[0] != ' '
    ensures SkipSpaces(b + u) == u
  {
    if b == "" {
      ConcatNothing(u);
    } else {
      assert b[0] in b && (b + u)[1..] == b[1..] + u;
      assert forall c | c in b[1..] :: c in b;
      SpacesSkipped(b[1..], u);
    }
  }

  /** A value between two quotes of one kind, with spaces ahead of it. */
  lemma {:induction false} ValueLoaded(space: string, q: char, v: string, rest: string)
    requires Spaces(space) && (q == '"' || q == '\'') && q !in v && AllRefs(v)
    ensures LoadXmlString(space + ([q] + (v + ([q] + rest)))) == Some(Loaded(Decode(v), rest))
  {
    var t := [q] + (v + ([q] + rest));
    SpacesSkipped(space, t);
    assert t[1..] == v + ([q] + rest);
    LoadRun(v, q, rest, "", [q]);
    ConcatNothing(v);
    DecodeExact(v);
  }

  /** Without an opening quote there is no value, nor without a closing one of the same kind. */
  lemma {:induction false} ValueMissing(space: string, r: string)
    requires Spaces(space) && (r == "" || r[0] != ' ')
    requires r == "" || (r[0] != '"' && r[0] != '\'') || r[0] !in r[1..]
    ensures LoadXmlString(space + r) == None
  {
    if r == "" {
      ConcatNothing(space);
      OnlySpaces(space);
    } else {
      SpacesSkipped(space, r);
      if r[0] !in r[1..] {
        NoStop(r[1..], "", r[0]);
      }
    }
  }

  lemma {:induction false} OnlySpaces(b: string)
    requires Spaces(b)
    ensures SkipSpaces(b) == ""
  {
    if b != "" {
      assert b[0] in b;
      assert forall c | c in b[1..] :: c in b;
      OnlySpaces(b[1..]);
    }
  }

  lemma {:induction false} NoStop(s: string, buf: string, c: char)
    requires c !in s
    ensures LoadUntil(s, buf, [c]).stop == None
  {
    if s != "" {
      assert s[0] in s;
      assert forall d | d in s[1..] :: d in s;
      NoStop(s[1..], buf + [s[0]], c);
    }
  }

  lemma {:induction false} SpacesPassed(b: string, u: string, buf: string, acc: seq<Attr>)
    requires Spaces(b)
    ensures GetAttrs(b + u, buf, acc) == GetAttrs(u, buf, acc)
  {
    if b == "" {
      ConcatNothing(u);
    } else {
      assert b[0] in b && (b + u)[0] == ' ' && (b + u)[1..] == b[1..] + u;
      assert forall c | c in b[1..] :: c in b;
      SpacesPassed(b[1..], u, buf, acc);
    }
  }

  lemma {:induction false} LoadOn(u: string, t: string, buf: string, stops: string)
    requires Without(u, stops)
    ensures LoadUntil(u + t, buf, stops) == LoadUntil(t, buf + u, stops)
  {
    if u == "" {
      ConcatNothing(t);
      ConcatNothing(buf);
    } else {
      assert u[0] in u && (u + t)[0] == u[0] && (u + t)[1..] == u[1..] + t;
      assert forall c | c in u[1..] :: c in u;
      LoadOn(u[1..], t, buf + [u[0]], stops);
      assert buf + [u[0]] + u[1..] == buf + u;
    }
  }

  /** A name is read on behind spaces. */
  lemma {:induction false} NameLoaded(a: RawAttr, t: string, acc: seq<Attr>)
    requires LegalAttr(a)
    ensures GetAttrs(a.gap + (a.name + (a.pause + (a.more + t))), "", acc) == GetAttrs(t, a.name + a.more, acc)
  {
    var t1 := a.more + t;
    SpacesPassed(a.gap, a.name + (a.pause + t1), "", acc);
    NamePart(a.name, a.pause + t1, "", acc);
    ConcatNothing(a.name);
    SpacesPassed(a.pause, t1, a.name, acc);
    NamePart(a.more, t, a.name, acc);
  }

  lemma {:induction false} NamePart(u: string, t: string, buf: string, acc: seq<Attr>)
    requires Without(u, " =/>")
    ensures GetAttrs(u + t, buf, acc) == GetAttrs(t, buf + u, acc)
  {
    LoadOn(u, t, buf, " =/>");
  }

  lemma {:induction false} AttrLoaded(a: RawAttr, tail: string, acc: seq<Attr>)
    requires LegalAttr(a)
    ensures GetAttrs(AttrsThen([a], tail), "", acc) ==
            GetAttrs(tail, "", acc + [Attr(a.name + a.more, Decode(a.value))])
  {
    var v := a.space + ([a.quote] + (a.value + ([a.quote] + tail)));
    assert [a][1..] == [];
    NameLoaded(a, ['='] + v, acc);
    ValueLoaded(a.space, a.quote, a.value, tail);
    assert (['='] + v)[0] == '=' && (['='] + v)[1..] == v;
  }

  lemma {:induction false} AttrsLoaded(attrs: seq<RawAttr>, gap: string, c: char, rest: string, acc: seq<Attr>)
    requires (forall a | a in attrs :: LegalAttr(a)) && Spaces(gap) && (c == '/' || c == '>')
    ensures GetAttrs(AttrsThen(attrs, gap + ([c] + rest)), "", acc) ==
            Some(AttrsGot(Values(attrs, acc), Scan(Some(c), rest, "")))
    decreases attrs
  {
    if attrs == [] {
      SpacesPassed(gap, [c] + rest, "", acc);
      LoadRun("", c, rest, "", " =/>");
      ConcatNothing([c] + rest);
      ConcatNothing("");
    } else {
      var a := attrs[0];
      assert a in attrs;
      var tail := AttrsThen(attrs[1..], gap + ([c] + rest));
      assert [a][1..] == [] && AttrsThen([], tail) == tail;
      assert AttrsThen(attrs, gap + ([c] + rest)) == AttrsThen([a], tail);
      AttrLoaded(a, tail, acc);
      AttrsLoaded(attrs[1..], gap, c, rest, acc + [Attr(a.name + a.more, Decode(a.value))]);
    }
  }

  /** A tag up to its slash or its end, with or without spaces behind its name. */
  lemma {:induction false} TagLoaded(pre: string, name: string, attrs: seq<RawAttr>, gap: string, c: char, rest: string)
    requires name != "" && Without(name, " />") && name != "!--" && name[0] != '?'
    requires (forall a | a in attrs :: LegalAttr(a)) && Spaces(gap) && (c == '/' || c == '>')
    ensures GetTag(name + AttrsThen(attrs, gap + ([c] + rest)), pre) ==
            GetBody(Scan(Some(c), rest, ""), Element(Some(pre), name, Values(attrs, []), None, Nil, Nil))
  {
    ConcatNothing(name);
    if attrs == [] && gap == "" {
      ConcatNothing([c] + rest);
      LoadRun(name, c, rest, "", " />");
    } else {
      AttrsLoaded(attrs, gap, c, rest, []);
      FirstSpace(attrs, gap, [c] + rest);
      SpacedTag(pre, name, AttrsThen(attrs, gap + ([c] + rest)), Values(attrs, []), Scan(Some(c), rest, ""));
    }
  }

  /** A tag whose name has a space behind it. */
  lemma {:induction false} SpacedTag(pre: string, name: string, t: string, attrs: seq<Attr>, end: Scan)
    requires name != "" && Without(name, " />") && name != "!--" && name[0] != '?'
    requires t != "" && t[0] == ' ' && GetAttrs(t, "", []) == Some(AttrsGot(attrs, end))
    requires end.stop == Some('/') || end.stop == Some('>')
    ensures GetTag(name + t, pre) == GetBody(end, Element(Some(pre), name, attrs, None, Nil, Nil))
  {
    var u := t[1..];
    assert t == [' '] + u;
    LoadRun(name, ' ', u, "", " />");
    ConcatNothing(name);
    BlankPassed(u, []);
  }

  lemma {:induction false} FirstSpace(attrs: seq<RawAttr>, gap: string, rest: string)
    requires (forall a | a in attrs :: LegalAttr(a)) && Spaces(gap) && (attrs != [] || gap != "")
    ensures var t := AttrsThen(attrs, gap + rest); t != "" && t[0] == ' '
  {
    var b := if attrs == [] then gap else attrs[0].gap;
    if attrs != [] {
      assert attrs[0] in attrs;
    }
    assert b[0] in b && AttrsThen(attrs, gap + rest)[0] == b[0];
  }

  lemma {:induction false} TextLoaded(pre: string, rest: string)
    requires Without(pre, "<") && AllRefs(pre)
    ensures GetXml(pre + (['<'] + rest), "") == GetTag(rest, Decode(pre))
  {
    LoadRun(pre, '<', rest, "", "<");
    ConcatNothing(pre);
    DecodeExact(pre);
  }

  lemma {:induction false} BodyLoaded(b: Body, rest: string, x: XText)
    requires LegalBody(b) && x.Element? && x.next == Nil && x.child == Nil && x.post == None
    ensures var c := if b.Closed? then '/' else '>';
            var t := BodyThen(b, rest);
            t != "" && t[0] == c && GetBody(Scan(Some(c), t[1..], ""), x) ==
            Node(if b.Closed? then x else x.(child := Spelling(b.kids), post := Some(Decode(b.post))), rest, "")
    decreases b, 1
  {
    match b
    case Closed =>
      assert BodyThen(b, rest)[1..] == ['>'] + rest;
      LoadRun("", '>', rest, "", ">");
      ConcatNothing(['>'] + rest);
      ConcatNothing("");
    case Full(kids, post, close) =>
      var tail := post + (['<'] + (['/'] + (close + (['>'] + rest))));
      assert BodyThen(b, rest)[1..] == RawThen(kids, tail);
      KidsLoaded(kids, post, close, rest);
  }

  lemma {:induction false} CloseLoaded(pre: string, close: string, rest: string)
    requires Without(close, ">")
    ensures GetTag(['/'] + (close + (['>'] + rest)), pre) == Close(pre, rest, "")
  {
    var v := close + (['>'] + rest);
    ConcatNothing(['/'] + v);
    LoadRun("", '/', v, "", " />");
    ConcatNothing("");
    LoadRun(close, '>', rest, "", ">");
  }

  lemma {:induction false} ElemLoaded(x: Raw, rest: string)
    requires x.RawElem? && LegalRaw(x)
    ensures Spelling(x).Element?
    ensures GetXml(RawThen(x, rest), "") == Node(Spelling(x).(next := Nil), RawThen(x.next, rest), "")
    decreases x, 0
  {
    var tail := RawThen(x.next, rest);
    var t := BodyThen(x.body, tail);
    var c := if x.body.Closed? then '/' else '>';
    var one := Element(Some(Decode(x.pre)), x.name, Values(x.attrs, []), None, Nil, Nil);
    BodyLoaded(x.body, tail, one);
    assert t == [c] + t[1..];
    TagLoaded(Decode(x.pre), x.name, x.attrs, x.gap, c, t[1..]);
    TextLoaded(x.pre, x.name + AttrsThen(x.attrs, x.gap + t));
  }

  lemma {:induction false} KidsLoaded(x: Raw, post: string, close: string, rest: string)
    requires LegalRaw(x) && Without(post, "<") && AllRefs(post) && Without(close, ">")
    ensures GetKids(RawThen(x, post + (['<'] + (['/'] + (close + (['>'] + rest))))), "") ==
            Kids(Spelling(x), Some(Decode(post)), rest, "")
    decreases x, 1
  {
    var tail := post + (['<'] + (['/'] + (close + (['>'] + rest))));
    match x
    case RawNil =>
      TextLoaded(post, ['/'] + (close + (['>'] + rest)));
      CloseLoaded(Decode(post), close, rest);
    case RawElem(_, _, _, _, _, next) =>
      ElemLoaded(x, tail);
      KidsLoaded(next, post, close, rest);
  }

  /** Every legal layout is read as what it spells out, whatever text without a tag is behind it. */
  lemma {:induction false} ReadLayout(x: Raw, rest: string)
    requires LegalRaw(x) && Without(rest, "<")
    ensures ReadAll(RawThen(x, rest), "") == Some(Spelling(x))
    decreases x
  {
    match x
    case RawNil => NoTag(rest, "");
    case RawElem(_, _, _, _, _, next) =>
      ElemLoaded(x, rest);
      ReadLayout(next, rest);
  }

  /** Elements whose closing tags are missing end with the input. */
  lemma {:induction false} UnclosedKids(x: Raw, rest: string)
    requires LegalRaw(x) && Without(rest, "<")
    ensures GetKids(RawThen(x, rest), "") == Kids(Spelling(x), None, "", rest)
    decreases x
  {
    match x
    case RawNil =>
      NoTag(rest, "");
      ConcatNothing(rest);
    case RawElem(_, _, _, _, _, next) =>
      ElemLoaded(x, rest);
      UnclosedKids(next, rest);
  }

  lemma {:induction false} UnclosedRead(name: string, x: Raw, rest: string)
    requires name != "" && Without(name, " />") && name != "!--" && name[0] != '?'
    requires LegalRaw(x) && Without(rest, "<")
    ensures ReadAll(['<'] + (name + (['>'] + RawThen(x, rest))), "") ==
            Some(Element(Some(""), name, [], None, Spelling(x), Nil))
  {
    var t := RawThen(x, rest);
    ConcatNothing(['<'] + (name + (['>'] + t)));
    ConcatNothing(['>'] + t);
    TextLoaded("", name + (['>'] + t));
    TagLoaded("", name, [], "", '>', t);
    UnclosedKids(x, rest);
    assert ReadAll("", rest) == Some(Nil);
  }

  /** A closing tag at the top is refused. */
  lemma {:induction false} StrayClose(x: Raw, pre: string, close: string, rest: string)
    requires LegalRaw(x) && Without(pre, "<") && AllRefs(pre) && Without(close, ">")
    ensures ReadAll(RawThen(x, pre + (['<'] + (['/'] + (close + (['>'] + rest))))), "") == None
    decreases x
  {
    match x
    case RawNil =>
      TextLoaded(pre, ['/'] + (close + (['>'] + rest)));
      CloseLoaded(Decode(pre), close, rest);
    case RawElem(_, _, _, _, _, next) =>
      ElemLoaded(x, pre + (['<'] + (['/'] + (close + (['>'] + rest)))));
      StrayClose(next, pre, close, rest);
  }

  /** So are comments and declarations. */
  lemma {:induction false} SpecialRefused(name: string, c: char, rest: string)
    requires name != "" && Without(name, " />") && (name == "!--" || name[0] == '?') && c in " />"
    ensures ReadAll(['<'] + (name + ([c] + rest)), "") == None
  {
    ConcatNothing(['<'] + (name + ([c] + rest)));
    TextLoaded("", name + ([c] + rest));
    LoadRun(name, c, rest, "", " />");
    ConcatNothing(name);
  }

  lemma {:induction false} NoTag(rest: string, buf: string)
    requires Without(rest, "<")
    ensures LoadUntil(rest, buf, "<") == Scan(None, "", buf + rest)
  {
    if rest != "" {
      assert rest[0] in rest;
      assert forall c | c in rest[1..] :: c in rest;
      NoTag(rest[1..], buf + [rest[0]]);
      assert buf + [rest[0]] + rest[1..] == buf + rest;
    } else {
      ConcatNothing(buf);
    }
  }

  // ----- what the printer writes

  /** An element without children and with nothing but blanks before its closing tag needs none. */
  lemma {:induction false} PrintedEmpty(pre: string, name: string, a: string, v: string, post: string)
    requires forall c | c in post :: c <= ' ' || '\U{80}' <= c
    ensures PrintXml(Element(Some(pre), name, [Attr(a, v)], Some(post), Nil, Nil)) ==
            Escape(pre) + "<" + name + (" " + a + "=" + (['"'] + Escape(v) + ['"'])) + "/>"
    ensures PrintXml(Element(None, name, [], None, Nil, Nil)) == "<" + name + "/>"
  {
    var x := Element(Some(pre), name, [Attr(a, v)], Some(post), Nil, Nil);
    var y := Element(None, name, [], None, Nil, Nil);
    assert AllSpaces(x.post) && !HasContent(x) && !HasContent(y);
    OneAttr(a, v);
    ConcatNothing(PrintOne(x));
    ConcatNothing(PrintOne(y));
    ConcatNothing("<");
    ConcatNothing("<" + name);
  }

  lemma {:induction false} OneAttr(a: string, v: string)
    ensures AttrsText([Attr(a, v)]) == " " + a + "=" + (['"'] + Escape(v) + ['"'])
  {
    assert [Attr(a, v)][1..] == [];
    ConcatNothing(" " + a + "=" + (['"'] + Escape(v) + ['"']));
  }

  /** Content stands between two tags, the text before the closing tag last. */
  lemma {:induction false} PrintedFull(name: string, post: string, kids: XText)
    requires kids.Element? || exists c :: c in post && ' ' < c < '\U{80}'
    ensures PrintXml(Element(None, name, [], Some(post), kids, Nil)) ==
            "<" + name + (">" + PrintXml(kids) + Escape(post) + "</" + name + ">")
  {
    var x := Element(None, name, [], Some(post), kids, Nil);
    assert HasContent(x);
    ConcatNothing(PrintOne(x));
    ConcatNothing("<");
    ConcatNothing("<" + name);
  }
}
