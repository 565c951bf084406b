/** Element trees as text: the printer, the reader, and that reading undoes printing. */
module XmlText {
  import opened Wrappers
  import opened Xml
  import opened LangStr

  /** Elements with the text before each and the text before its closing tag (`None`: absent),
      linked by first child and next sibling. */
  datatype XText = Nil | Element(pre: Option<string>, name: string, attrs: seq<Attr>, post: Option<string>,
                                 child: XText, next: XText)

  // ----- printing

  predicate AllSpaces(s: Option<string>) {
    s.None? || forall c | c in s.value :: IsBlank(c)
  }

  function Text(s: Option<string>): string {
    if s.None? then "" else Escape(s.value)
  }

  function AttrsText(attrs: seq<Attr>): string {
    if attrs == [] then ""
    else " " + attrs[0].name + "=" + G2X(attrs[0].value, '"') + AttrsText(attrs[1..])
  }

  predicate HasContent(x: XText)
    requires x.Element?
  {
    x.child.Element? || !AllSpaces(x.post)
  }

  function PrintOne(x: XText): string
    requires x.Element?
    decreases x, 0
  {
    Text(x.pre) + "<" + x.name + AttrsText(x.attrs) +
    (if HasContent(x) then ">" + PrintXml(x.child) + Text(x.post) + "</" + x.name + ">" else "/>")
  }

  function PrintXml(x: XText): string
    decreases x, 1
  {
    if x.Nil? then "" else PrintOne(x) + PrintXml(x.next)
  }

  // ----- reading

  /** Characters read up to one of the stops, added to those already in the buffer. */
  datatype Scan = Scan(stop: Option<char>, rest: string, buf: string)

  function LoadUntil(inp: string, buf: string, stops: string): (r: Scan)
    ensures r.stop.None? ==> r.rest == ""
    ensures r.stop.Some? ==> |r.rest| < |inp| && r.stop.value in stops
  {
    if inp == "" then Scan(None, "", buf)
    else if inp[0] in stops then Scan(Some(inp[0]), inp[1..], buf)
    else LoadUntil(inp[1..], buf + [inp[0]], stops)
  }

  function EscapeQuote(): char -> string {
    c => if c == '"' then "&quot;" else [c]
  }

  /** The text in the buffer, decoded. */
  function CopyBufXml(buf: string): Option<string> {
    if buf == "" then Some("") else
      var t := "\"" + Expand(EscapeQuote(), buf) + "\"";
      if Loose(t[1..], '"') == 0 then X2G(t) else None
  }

  function SkipSpaces(inp: string): (r: string)
    ensures |r| <= |inp|
  {
    if inp != "" && inp[0] == ' ' then SkipSpaces(inp[1..]) else inp
  }

  datatype Loaded = Loaded(value: string, rest: string)

  /** An attribute value with its quotes. */
  function LoadXmlString(inp: string): (r: Option<Loaded>)
    ensures r.Some? ==> |r.value.rest| < |inp|
  {
    var s := SkipSpaces(inp);
    if s == "" || !IsQuote(s[0]) then None else
      var t := LoadUntil(s[1..], "", [s[0]]);
      var v := CopyBufXml(t.buf);
      if t.stop.Some? && v.Some? then Some(Loaded(v.value, t.rest)) else None
  }

  datatype AttrsGot = AttrsGot(attrs: seq<Attr>, scan: Scan)

  /** The attributes up to a slash or the end of the tag. Text that turned out not to be an
      attribute name stays in the buffer. */
  function GetAttrs(inp: string, buf: string, acc: seq<Attr>): (r: Option<AttrsGot>)
    ensures r.Some? ==> |r.value.scan.rest| < |inp| &&
                        (r.value.scan.stop == Some('/') || r.value.scan.stop == Some('>'))
    decreases |inp|
  {
    var s := LoadUntil(inp, buf, " =/>");
    if s.stop.None? then None
    else if s.stop.value == '=' then
      var v := LoadXmlString(s.rest);
      if v.None? then None else GetAttrs(v.value.rest, "", acc + [Attr(s.buf, v.value.value)])
    else if s.stop.value == ' ' then GetAttrs(s.rest, s.buf, acc)
    else Some(AttrsGot(acc, s))
  }

  datatype Got =
    | Failed
    | End(buf: string)
    | Close(pre: string, rest: string, buf: string)
    | Node(x: XText, rest: string, buf: string)

  datatype KidsGot = NoKids | Kids(kids: XText, post: Option<string>, rest: string, buf: string)

  predicate IsSpecial(name: string) {
    name == "!--" || (name != "" && name[0] == '?')
  }

  /** The next element, with everything in it. Names in closing tags are not compared. */
  function GetXml(inp: string, buf: string): (r: Got)
    ensures r.Close? || r.Node? ==> |r.rest| < |inp|
    ensures r.Node? ==> r.x.Element? && r.x.next == Nil
    decreases |inp|, 0
  {
    var s0 := LoadUntil(inp, buf, "<");
    if s0.stop.None? then End(s0.buf) else
      var pre := CopyBufXml(s0.buf);
      if pre.None? then Failed else GetTag(s0.rest, pre.value)
  }

  /** From behind the `<`. */
  function GetTag(inp: string, pre: string): (r: Got)
    ensures r.Close? || r.Node? ==> |r.rest| < |inp|
    ensures r.Node? ==> r.x.Element? && r.x.next == Nil
    decreases |inp|, 3
  {
    var s1 := LoadUntil(inp, "", " />");
    if s1.stop == Some('/') && s1.buf == "" then
      var s2 := LoadUntil(s1.rest, "", ">");
      if s2.stop.None? then Failed else Close(pre, s2.rest, "")
    else if s1.stop.None? || IsSpecial(s1.buf) then Failed
    else if s1.stop.value != ' ' then GetBody(s1.(buf := ""), Element(Some(pre), s1.buf, [], None, Nil, Nil))
    else
      var a := GetAttrs(s1.rest, "", []);
      if a.None? then Failed
      else GetBody(a.value.scan, Element(Some(pre), s1.buf, a.value.attrs, None, Nil, Nil))
  }

  /** From behind the slash or the `>` of the opening tag of `x`. */
  function GetBody(s: Scan, x: XText): (r: Got)
    requires x.Element? && x.next == Nil
    ensures r.Close? || r.Node? ==> |r.rest| <= |s.rest|
    ensures r.Node? ==> r.x.Element? && r.x.next == Nil
    decreases |s.rest|, 2
  {
    if s.stop == Some('/') then
      var e := LoadUntil(s.rest, s.buf, ">");
      if e.stop.None? then Failed else Node(x, e.rest, e.buf)
    else
      match GetKids(s.rest, s.buf)
      case NoKids => Failed
      case Kids(kids, post, rest, buf) => Node(x.(child := kids, post := post), rest, buf)
  }

  /** The children up to a closing tag, whose leading text is the parent's. */
  function GetKids(inp: string, buf: string): (r: KidsGot)
    ensures r.Kids? ==> |r.rest| <= |inp|
    decreases |inp|, 1
  {
    match GetXml(inp, buf)
    case Failed => NoKids
    case End(buf') => Kids(Nil, None, "", buf')
    case Close(pre, rest, buf') => Kids(Nil, Some(pre), rest, buf')
    case Node(x, rest, buf') =>
      match GetKids(rest, buf')
      case NoKids => NoKids
      case Kids(kids, post, rest', buf'') => Kids(x.(next := kids), post, rest', buf'')
  }

  /** All elements of a file; a closing tag at the top is refused. */
  function ReadAll(inp: string, buf: string): Option<XText>
    decreases |inp|
  {
    match GetXml(inp, buf)
    case Failed => None
    case Close(_, _, _) => None
    case End(_) => Some(Nil)
    case Node(x, rest, buf') =>
      match ReadAll(rest, buf')
      case None => None
      case Some(y) => Some(x.(next := y))
  }

  // ----- reading undoes printing

  predicate Free(s: string, stops: string) {
    forall c | c in s :: c !in stops
  }

  predicate LegalName(name: string) {
    name != "" && Free(name, " />") && !IsSpecial(name)
  }

  predicate LegalAttrs(attrs: seq<Attr>) {
    forall a | a in attrs :: Free(a.name, " =/>")
  }

  predicate Legal(x: XText) {
    x.Element? ==> LegalName(x.name) && LegalAttrs(x.attrs) && Legal(x.child) && Legal(x.next)
  }

  function Present(s: Option<string>): Option<string> {
    if s.None? then Some("") else s
  }

  /** What is left after a round trip: absent text becomes empty, except that an element without
      content has no text before a closing tag. */
  function Canon(x: XText): XText
    decreases x, 1
  {
    if x.Nil? then Nil else
      var one := CanonOne(x);
      one.(next := Canon(x.next))
  }

  function CanonOne(x: XText): (r: XText)
    requires x.Element?
    ensures r.Element?
    decreases x, 0
  {
    Element(Present(x.pre), x.name, x.attrs, if HasContent(x) then Present(x.post) else None, Canon(x.child), Nil)
  }

  /** Text before every element, and before the closing tag exactly where there is content. */
  predicate NormalForm(x: XText) {
    x.Element? ==>
      && x.pre.Some? && (x.post.None? <==> x.child.Nil? && AllSpaces(x.post))
      && NormalForm(x.child) && NormalForm(x.next)
  }

  lemma {:induction false} CanonExact(x: XText)
    ensures Canon(x) == x <==> NormalForm(x)
  {
    if x.Element? {
      CanonExact(x.child);
      CanonExact(x.next);
    }
  }

  lemma {:induction false} LoadRun(u: string, c: char, rest: string, buf: string, stops: string)
    requires Free(u, stops) && c in stops
    ensures LoadUntil(u + ([c] + rest), buf, stops) == Scan(Some(c), rest, buf + u)
  {
    var inp := u + ([c] + rest);
    if u == "" {
      assert inp == [c] + rest && inp[1..] == rest && buf + "" == buf;
    } else {
      assert u[0] in u && inp[1..] == u[1..] + ([c] + rest);
      forall d | d in u[1..]
        ensures d !in stops
      {
        assert d in u;
      }
      LoadRun(u[1..], c, rest, buf + [u[0]], stops);
      assert buf + [u[0]] + u[1..] == buf + u;
    }
  }

  lemma {:induction false} EscapeClean(s: string)
    ensures Free(Escape(s), "<>\"'")
  {
    if s != "" {
      EscapeClean(s[1..]);
      var e := EscapeChar()(s[0]);
      assert Free(e, "<>\"'");
      assert Escape(s) == e + Escape(s[1..]);
    }
  }

  lemma {:induction false} NoQuotes(s: string)
    requires Free(s, "\"")
    ensures Expand(EscapeQuote(), s) == s
  {
    if s != "" {
      assert s[0] in s && s[0] != '"';
      forall d | d in s[1..]
        ensures d !in "\""
      {
        assert d in s;
      }
      NoQuotes(s[1..]);
      assert [s[0]] + s[1..] == s;
    }
  }

  /** Printed text is decoded to the text it was printed from. */
  lemma {:induction false} CopyEscaped(s: string)
    ensures CopyBufXml(Escape(s)) == Some(s)
  {
    EscapeClean(s);
    NoQuotes(Escape(s));
    UnescapeEscaped(s, '"', "");
    LooseEscaped(s, '"', "");
    var t := "\"" + Escape(s) + "\"";
    assert t[1..] == Escape(s) + ['"'] + "";
  }

  lemma {:induction false} CopyText(s: Option<string>)
    ensures CopyBufXml(Text(s)) == Present(s) && Free(Text(s), "<")
  {
    if s.Some? {
      CopyEscaped(s.value);
      EscapeClean(s.value);
    }
  }

  lemma {:induction false} LoadPrinted(value: string, rest: string)
    ensures LoadXmlString(G2X(value, '"') + rest) == Some(Loaded(value, rest))
  {
    var inp := G2X(value, '"') + rest;
    EscapeClean(value);
    assert inp[1..] == Escape(value) + (['"'] + rest);
    LoadRun(Escape(value), '"', rest, "", "\"");
    assert "" + Escape(value) == Escape(value);
    CopyEscaped(value);
  }

  lemma {:induction false} BlankPassed(u: string, acc: seq<Attr>)
    ensures GetAttrs([' '] + u, "", acc) == GetAttrs(u, "", acc)
  {
    LoadRun("", ' ', u, "", " =/>");
    ConcatNothing([' '] + u);
    ConcatNothing("");
  }

  lemma {:induction false} NameValue(name: string, value: string, v: string, tail: string, acc: seq<Attr>)
    requires Free(name, " =/>") && LoadXmlString(v) == Some(Loaded(value, tail))
    ensures GetAttrs(name + (['='] + v), "", acc) == GetAttrs(tail, "", acc + [Attr(name, value)])
  {
    LoadRun(name, '=', v, "", " =/>");
    ConcatNothing(name);
  }

  lemma {:induction false} AttrText(a: Attr, tail: string, acc: seq<Attr>)
    requires Free(a.name, " =/>")
    ensures GetAttrs(" " + a.name + "=" + G2X(a.value, '"') + tail, "", acc) == GetAttrs(tail, "", acc + [a])
  {
    var v := G2X(a.value, '"') + tail;
    FourParts(" ", a.name, "=", G2X(a.value, '"'), tail);
    BlankPassed(a.name + (['='] + v), acc);
    LoadPrinted(a.value, tail);
    NameValue(a.name, a.value, v, tail, acc);
  }

  lemma {:induction false} AttrsPrinted(attrs: seq<Attr>, c: char, rest: string, acc: seq<Attr>)
    requires LegalAttrs(attrs) && (c == '/' || c == '>')
    ensures GetAttrs(AttrsText(attrs) + ([c] + rest), "", acc) == Some(AttrsGot(acc + attrs, Scan(Some(c), rest, "")))
  {
    if attrs == [] {
      LoadRun("", c, rest, "", " =/>");
      assert acc + [] == acc && "" + ([c] + rest) == [c] + rest && "" + "" == "";
    } else {
      var a := attrs[0];
      assert a in attrs;
      var tail := AttrsText(attrs[1..]) + ([c] + rest);
      ConcatAssoc(" " + a.name + "=" + G2X(a.value, '"'), AttrsText(attrs[1..]), [c] + rest);
      AttrText(a, tail, acc);
      AttrsPrinted(attrs[1..], c, rest, acc + [a]);
      ConcatHead(acc, attrs);
    }
  }

  lemma {:induction false} OpenTag(pre: string, name: string, attrs: seq<Attr>, c: char, rest: string)
    requires LegalName(name) && LegalAttrs(attrs) && (c == '/' || c == '>')
    ensures GetTag(name + (AttrsText(attrs) + ([c] + rest)), pre) ==
            GetBody(Scan(Some(c), rest, ""), Element(Some(pre), name, attrs, None, Nil, Nil))
  {
    assert "" + name == name;
    if attrs == [] {
      assert AttrsText(attrs) + ([c] + rest) == [c] + rest;
      LoadRun(name, c, rest, "", " />");
    } else {
      AttrsPrinted(attrs, c, rest, []);
      assert [] + attrs == attrs && "" + "" == "";
      var all := AttrsText(attrs) + ([c] + rest);
      var u := all[1..];
      assert all == [' '] + u && all == "" + ([' '] + u);
      LoadRun(name, ' ', u, "", " />");
      LoadRun("", ' ', u, "", " =/>");
    }
  }

  lemma {:induction false} CloseName(pre: string, name: string, rest: string)
    requires LegalName(name)
    ensures GetTag(['/'] + (name + (['>'] + rest)), pre) == Close(pre, rest, "")
  {
    var v := name + (['>'] + rest);
    ConcatNothing(['/'] + v);
    LoadRun("", '/', v, "", " />");
    ConcatNothing("");
    LoadRun(name, '>', rest, "", ">");
  }

  lemma {:induction false} CloseParts(name: string, rest: string)
    ensures "</" + name + ">" + rest == ['<'] + (['/'] + (name + (['>'] + rest)))
  {
    ConcatAssoc("</" + name, ">", rest);
    ConcatAssoc("</", name, ">" + rest);
    ConcatAssoc(['<'], ['/'], name + (['>'] + rest));
    assert "</" == ['<'] + ['/'];
  }

  lemma {:induction false} CloseTag(post: Option<string>, name: string, rest: string)
    requires LegalName(name)
    ensures GetXml(Text(post) + ("</" + name + ">" + rest), "") == Close(Present(post).value, rest, "")
  {
    CloseParts(name, rest);
    CopyText(post);
    LoadRun(Text(post), '<', ['/'] + (name + (['>'] + rest)), "", "<");
    ConcatNothing(Text(post));
    CloseName(Present(post).value, name, rest);
  }

  /** The text of one element, cut where the reader pauses. */
  lemma {:induction false} PrintedParts(x: XText, rest: string)
    requires x.Element?
    ensures var inside := if HasContent(x)
                          then ['>'] + (PrintXml(x.child) + (Text(x.post) + ("</" + x.name + ">" + rest)))
                          else ['/'] + (['>'] + rest);
            PrintOne(x) + rest == Text(x.pre) + (['<'] + (x.name + (AttrsText(x.attrs) + inside)))
  {
    if HasContent(x) {
      var tail := ">" + PrintXml(x.child) + Text(x.post) + "</" + x.name + ">";
      var close := "</" + x.name + ">";
      FourParts(">", PrintXml(x.child), Text(x.post), close, rest);
      FourParts(">", PrintXml(x.child), Text(x.post), "</", x.name);
      ConcatAssoc(">" + PrintXml(x.child) + Text(x.post), "</" + x.name, ">");
      FiveParts(Text(x.pre), "<", x.name, AttrsText(x.attrs), tail, rest);
      assert tail == ">" + PrintXml(x.child) + Text(x.post) + close;
    } else {
      assert "/>" + rest == ['/'] + (['>'] + rest);
      FiveParts(Text(x.pre), "<", x.name, AttrsText(x.attrs), "/>", rest);
    }
  }

  lemma {:induction false} FourParts(a: string, b: string, c: string, d: string, rest: string)
    ensures a + b + c + d + rest == a + (b + (c + (d + rest)))
    ensures a + b + c + d + rest == a + b + c + (d + rest)
  {
    ConcatAssoc(a + b + c, d, rest);
    ConcatAssoc(a + b, c, d + rest);
    ConcatAssoc(a, b, c + (d + rest));
  }

  lemma {:induction false} FiveParts(a: string, b: string, c: string, d: string, e: string, rest: string)
    ensures a + b + c + d + e + rest == a + (b + (c + (d + (e + rest))))
  {
    ConcatAssoc(a + b + c + d, e, rest);
    FourParts(a, b, c, d, e + rest);
  }

  lemma {:induction false} OnePrinted(x: XText, rest: string)
    requires x.Element? && Legal(x)
    ensures GetXml(PrintOne(x) + rest, "") == Node(CanonOne(x), rest, "")
    decreases x, 0
  {
    PrintedParts(x, rest);
    CopyText(x.pre);
    assert "" + Text(x.pre) == Text(x.pre);
    if HasContent(x) {
      var inner := PrintXml(x.child) + (Text(x.post) + ("</" + x.name + ">" + rest));
      LoadRun(Text(x.pre), '<', x.name + (AttrsText(x.attrs) + (['>'] + inner)), "", "<");
      OpenTag(Present(x.pre).value, x.name, x.attrs, '>', inner);
      KidsPrinted(x.child, x.post, x.name, rest);
    } else {
      LoadRun(Text(x.pre), '<', x.name + (AttrsText(x.attrs) + (['/'] + (['>'] + rest))), "", "<");
      OpenTag(Present(x.pre).value, x.name, x.attrs, '/', ['>'] + rest);
      LoadRun("", '>', rest, "", ">");
      assert "" + (['>'] + rest) == ['>'] + rest && "" + "" == "";
    }
  }

  lemma {:induction false} KidsPrinted(f: XText, post: Option<string>, name: string, rest: string)
    requires Legal(f) && LegalName(name)
    ensures GetKids(PrintXml(f) + (Text(post) + ("</" + name + ">" + rest)), "") ==
            Kids(Canon(f), Present(post), rest, "")
    decreases f, 1
  {
    var tail := Text(post) + ("</" + name + ">" + rest);
    if f.Nil? {
      ConcatNothing(tail);
      CloseTag(post, name, rest);
    } else {
      ConcatAssoc(PrintOne(f), PrintXml(f.next), tail);
      OnePrinted(f, PrintXml(f.next) + tail);
      KidsPrinted(f.next, post, name, rest);
    }
  }

  /** Reading what was printed gives the canonical form of it, and so the very tree exactly when
      it is in normal form. */
  lemma {:induction false} ReadPrinted(x: XText)
    requires Legal(x)
    ensures ReadAll(PrintXml(x), "") == Some(Canon(x))
    ensures ReadAll(PrintXml(x), "") == Some(x) <==> NormalForm(x)
  {
    CanonExact(x);
    if x.Element? {
      OnePrinted(x, PrintXml(x.next));
      ReadPrinted(x.next);
    }
  }

  /** Text of a byte from 128 on before the closing tag of a childless element is lost. */
  lemma {:induction false} HighByteLost()
    ensures var x := Element(Some(""), "a", [], Some([128 as char]), Nil, Nil);
            Legal(x) && !NormalForm(x) && ReadAll(PrintXml(x), "") == Some(x.(post := None))
  {
    var x := Element(Some(""), "a", [], Some([128 as char]), Nil, Nil);
    assert AllSpaces(x.post) && !HasContent(x);
    assert LegalName("a");
    ReadPrinted(x);
  }
}
