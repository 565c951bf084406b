/** The reader and the printer of element trees as they work: a position in the input with one
    character buffer, and an output that grows. */
module XmlFile {
  import opened Wrappers
  import opened Xml
  import opened LangStr
  import T = XmlText

  function JoinText(f: T.XText, g: T.XText): T.XText {
    if f.Nil? then g else f.(next := JoinText(f.next, g))
  }

  lemma {:induction false} JoinOne(f: T.XText, x: T.XText, g: T.XText)
    requires x.Element? && x.next == T.Nil
    ensures JoinText(JoinText(f, x), g) == JoinText(f, x.(next := g))
  {
    if f.Element? {
      JoinOne(f.next, x, g);
    }
  }

  lemma {:induction false} JoinNothing(f: T.XText)
    ensures JoinText(f, T.Nil) == f
  {
    if f.Element? {
      JoinNothing(f.next);
    }
  }

  /** Between quotes no entity reference reaches over the closing one. */
  lemma {:induction false} UnescapeQuoted(u: string)
    requires T.Free(u, "\"")
    ensures Unescape(u + "\"", '"').Some?
    decreases |u|
  {
    var s := u + "\"";
    if u == "" {
      assert s == "\"";
    } else if s[0] == '&' {
      var n := Entity(s).1;
      EntityEnd(s);
      assert s[|u|] == '"';
      FreeRest(u, n, "\"");
      UnescapeQuoted(u[n..]);
      assert s[n..] == u[n..] + "\"";
    } else {
      assert s[0] == u[0] && u[0] in u;
      FreeRest(u, 1, "\"");
      UnescapeQuoted(u[1..]);
      assert s[1..] == u[1..] + "\"";
    }
  }

  lemma {:induction false} EntityEnd(s: string)
    requires s != ""
    ensures Entity(s).1 > 1 ==> s[Entity(s).1 - 1] == ';'
  {
    assert "&lt;"[3] == "&gt;"[3] == "&amp;"[4] == "&quot;"[5] == "&apos;"[5] == ';';
  }

  lemma {:induction false} FreeRest(u: string, n: nat, stops: string)
    requires T.Free(u, stops) && n <= |u|
    ensures T.Free(u[n..], stops)
  {
    forall c | c in u[n..]
      ensures c !in stops
    {
      assert c in u;
    }
  }

  lemma {:induction false} QuoteEscaped(buf: string)
    ensures T.Free(Expand(T.EscapeQuote(), buf), "\"")
    ensures NulFree(buf) ==> NulFree(Expand(T.EscapeQuote(), buf))
  {
    if buf != "" {
      QuoteEscaped(buf[1..]);
      var e := T.EscapeQuote()(buf[0]);
      assert T.Free(e, "\"") && (buf[0] != '\0' ==> NulFree(e));
      assert Expand(T.EscapeQuote(), buf) == e + Expand(T.EscapeQuote(), buf[1..]);
      if NulFree(buf) {
        assert NulFree(buf[1..]) by {
          forall c | c in buf[1..]
            ensures c in buf
          {
          }
        }
      }
    }
  }

  lemma {:induction false} QuotedStep(s: string, i: nat, t: string)
    requires i < |s| && t == "\"" + Expand(T.EscapeQuote(), s[..i])
    ensures |Expand(T.EscapeQuote(), s[..i + 1])| == |Expand(T.EscapeQuote(), s[..i])| + |T.EscapeQuote()(s[i])|
    ensures |Expand(T.EscapeQuote(), s[..i + 1])| <= |Expand(T.EscapeQuote(), s)|
    ensures t + T.EscapeQuote()(s[i]) == "\"" + Expand(T.EscapeQuote(), s[..i + 1])
  {
    ExpandStep(T.EscapeQuote(), s, i);
    ExpandFits(T.EscapeQuote(), s, i + 1);
    ConcatAssoc("\"", Expand(T.EscapeQuote(), s[..i]), T.EscapeQuote()(s[i]));
  }

  /** What `get_xml` hands back. */
  datatype Item = Failed | End | Close(pre: string) | Node(x: T.XText)

  class Reader {
    const input: string
    var pos: nat
    var strbuf: string

    constructor (input: string)
      requires NulFree(input)
      ensures Valid() && Rest() == input && strbuf == ""
    {
      this.input, pos, strbuf := input, 0, "";
    }

    ghost predicate Valid()
      reads this
    {
      pos <= |input| && NulFree(input) && NulFree(strbuf)
    }

    ghost function Rest(): string
      requires Valid()
      reads this
    {
      input[pos..]
    }

    method LoadUntil(stops: string) returns (stop: Option<char>)
      requires Valid()
      modifies this
      ensures Valid() && T.Scan(stop, Rest(), strbuf) == T.LoadUntil(old(Rest()), old(strbuf), stops)
    {
      while pos < |input|
        invariant Valid() && T.LoadUntil(Rest(), strbuf, stops) == T.LoadUntil(old(Rest()), old(strbuf), stops)
        decreases |input| - pos
      {
        var c := input[pos];
        assert input[pos..][1..] == input[pos + 1..];
        pos := pos + 1;
        if c in stops {
          return Some(c);
        }
        strbuf := strbuf + [c];
      }
      stop := None;
    }

    method CopyBuf() returns (s: string)
      requires Valid()
      modifies this
      ensures Valid() && pos == old(pos) && strbuf == "" && s == old(strbuf) && NulFree(s)
    {
      s := strbuf;
      strbuf := "";
    }

    method CountQuotes() returns (nDq: nat)
      ensures |strbuf| + 5 * nDq == |Expand(T.EscapeQuote(), strbuf)|
    {
      nDq := 0;
      assert strbuf[..0] == "";
      for i := 0 to |strbuf|
        invariant i + 5 * nDq == |Expand(T.EscapeQuote(), strbuf[..i])|
      {
        ExpandStep(T.EscapeQuote(), strbuf, i);
        if strbuf[i] == '"' {
          nDq := nDq + 1;
        }
      }
      assert strbuf[..|strbuf|] == strbuf;
    }

    method FillQuoted(t: array<char>) returns (j: nat)
      requires t.Length == |Expand(T.EscapeQuote(), strbuf)| + 3
      modifies t
      ensures j == t.Length - 2 && t[..j] == "\"" + Expand(T.EscapeQuote(), strbuf)
    {
      j := Put(t, 0, "\"");
      assert strbuf[..0] == "";
      for i := 0 to |strbuf|
        invariant j == 1 + |Expand(T.EscapeQuote(), strbuf[..i])| <= t.Length - 2
        invariant t[..j] == "\"" + Expand(T.EscapeQuote(), strbuf[..i])
      {
        QuotedStep(strbuf, i, t[..j]);
        j := PutQuoted(t, j, strbuf[i]);
      }
      assert strbuf[..|strbuf|] == strbuf;
    }

    static method PutQuoted(t: array<char>, j: nat, c: char) returns (j': nat)
      requires j + |T.EscapeQuote()(c)| <= t.Length
      modifies t
      ensures j' == j + |T.EscapeQuote()(c)| && t[..j'] == old(t[..j]) + T.EscapeQuote()(c)
    {
      if c == '"' {
        j' := Put(t, j, "&quot;");
      } else {
        j' := Put(t, j, [c]);
      }
    }

    /** The buffer between double quotes, its own double quotes escaped. */
    method Quoted() returns (s: string)
      ensures s == "\"" + Expand(T.EscapeQuote(), strbuf) + "\""
    {
      var nDq := CountQuotes();
      var t := new char[|strbuf| + 3 + 5 * nDq];
      var j := FillQuoted(t);
      j := Put(t, j, "\"\0");
      s := t[..j - 1];
    }

    method CopyBufXml() returns (r: Option<string>)
      requires Valid()
      modifies this
      ensures Valid() && pos == old(pos) && strbuf == "" && r == T.CopyBufXml(old(strbuf))
    {
      if strbuf == "" {
        return Some("");
      }
      var s := Quoted();
      QuoteEscaped(strbuf);
      UnescapeQuoted(Expand(T.EscapeQuote(), strbuf));
      assert s[1..] == Expand(T.EscapeQuote(), strbuf) + "\"";
      strbuf := "";
      r := StrX2G(s);
    }

    method LoadXmlString() returns (r: Option<string>)
      requires Valid()
      modifies this
      ensures Valid()
      ensures r.None? <==> T.LoadXmlString(old(Rest())).None?
      ensures r.Some? ==> T.LoadXmlString(old(Rest())) == Some(T.Loaded(r.value, Rest())) && strbuf == ""
    {
      while pos < |input| && input[pos] == ' '
        invariant Valid() && T.SkipSpaces(Rest()) == T.SkipSpaces(old(Rest()))
        decreases |input| - pos
      {
        assert input[pos..][1..] == input[pos + 1..];
        pos := pos + 1;
      }
      if pos == |input| || (input[pos] != '"' && input[pos] != '\'') {
        return None;
      }
      var inichar := input[pos];
      assert input[pos..][1..] == input[pos + 1..];
      pos, strbuf := pos + 1, "";
      var stop := LoadUntil([inichar]);
      if stop.None? {
        return None;
      }
      r := CopyBufXml();
    }

    method GetAttrs() returns (ok: bool, attrs: seq<Attr>, stop: Option<char>)
      requires Valid() && strbuf == ""
      modifies this
      ensures Valid()
      ensures ok <==> T.GetAttrs(old(Rest()), "", []).Some?
      ensures ok ==> T.GetAttrs(old(Rest()), "", []) == Some(T.AttrsGot(attrs, T.Scan(stop, Rest(), strbuf)))
    {
      attrs := [];
      while true
        invariant Valid() && T.GetAttrs(Rest(), strbuf, attrs) == T.GetAttrs(old(Rest()), "", [])
        decreases |input| - pos
      {
        stop := LoadUntil(" =/>");
        if stop == Some('=') {
          var name := CopyBuf();
          var value := LoadXmlString();
          if value.None? {
            return false, [], None;
          }
          attrs := attrs + [Attr(name, value.value)];
        } else if stop == Some('/') || stop == Some('>') {
          return true, attrs, stop;
        } else if stop.None? {
          return false, [], None;
        }
      }
    }

    /** What the specification says `GetXml` hands back and leaves behind. */
    ghost predicate Gets(inp: string, buf: string, got: Item)
      requires Valid()
      reads this
    {
      match T.GetXml(inp, buf)
      case Failed => got == Failed
      case End(buf') => got == End && Rest() == "" && strbuf == buf'
      case Close(pre, rest, buf') => got == Close(pre) && Rest() == rest && strbuf == buf'
      case Node(x, rest, buf') => got == Node(x) && Rest() == rest && strbuf == buf'
    }

    ghost predicate GetsTag(r: T.Got, got: Item)
      requires Valid()
      reads this
    {
      match r
      case Failed => got == Failed
      case End(_) => false
      case Close(pre, rest, buf') => got == Close(pre) && Rest() == rest && strbuf == buf'
      case Node(x, rest, buf') => got == Node(x) && Rest() == rest && strbuf == buf'
    }

    method GetXml() returns (got: Item)
      requires Valid()
      modifies this
      ensures Valid() && Gets(old(Rest()), old(strbuf), got)
      decreases |input| - pos, 0
    {
      var stop := LoadUntil("<");
      if stop.None? {
        return End;
      }
      var pre := CopyBufXml();
      if pre.None? {
        return Failed;
      }
      got := GetTag(pre.value);
    }

    method GetTag(pre: string) returns (got: Item)
      requires Valid() && strbuf == ""
      modifies this
      ensures Valid() && GetsTag(T.GetTag(old(Rest()), pre), got)
      decreases |input| - pos, 3
    {
      var c := LoadUntil(" />");
      if c == Some('/') && strbuf == "" {
        var close := LoadUntil(">");
        var _ := CopyBuf();
        return if close.None? then Failed else Close(pre);
      }
      if c.None? || (strbuf != "" && strbuf[0] == '?') || strbuf == "!--" {
        return Failed;
      }
      var name := CopyBuf();
      var attrs := [];
      if c == Some(' ') {
        var ok;
        ok, attrs, c := GetAttrs();
        if !ok {
          return Failed;
        }
      }
      got := GetBody(c, T.Element(Some(pre), name, attrs, None, T.Nil, T.Nil));
    }

    method GetBody(c: Option<char>, x: T.XText) returns (got: Item)
      requires Valid() && x.Element? && x.next == T.Nil
      modifies this
      ensures Valid() && GetsTag(T.GetBody(T.Scan(c, old(Rest()), old(strbuf)), x), got)
      decreases |input| - pos, 2
    {
      if c == Some('/') {
        var end := LoadUntil(">");
        return if end.None? then Failed else Node(x);
      }
      var ok, kids, post := GetKids();
      got := if ok then Node(x.(child := kids, post := post)) else Failed;
    }

    /** The children up to a closing tag or the end of the file. */
    method GetKids() returns (ok: bool, kids: T.XText, post: Option<string>)
      requires Valid()
      modifies this
      ensures Valid() && ok == T.GetKids(old(Rest()), old(strbuf)).Kids?
      ensures ok ==> T.GetKids(old(Rest()), old(strbuf)) == T.Kids(kids, post, Rest(), strbuf)
      decreases |input| - pos, 1
    {
      ok, kids := true, T.Nil;
      assert ReadOn(kids, T.GetKids(Rest(), strbuf)) == T.GetKids(Rest(), strbuf);
      while true
        invariant Valid() && T.GetKids(old(Rest()), old(strbuf)) == ReadOn(kids, T.GetKids(Rest(), strbuf))
        decreases |input| - pos
      {
        var y := GetXml();
        match y {
          case Failed =>
            return false, T.Nil, None;
          case End =>
            JoinNothing(kids);
            return true, kids, None;
          case Close(pre) =>
            JoinNothing(kids);
            return true, kids, Some(pre);
          case Node(x) =>
            ReadOnOne(kids, x, T.GetKids(Rest(), strbuf));
            kids := JoinText(kids, x);
        }
      }
    }

    /** Reads the whole input. */
    method ReadXml() returns (r: Option<T.XText>)
      requires Valid() && strbuf == ""
      modifies this
      ensures r == T.ReadAll(old(Rest()), "")
    {
      var x := T.Nil;
      while true
        invariant Valid() && T.ReadAll(old(Rest()), "") == TopOn(x, T.ReadAll(Rest(), strbuf))
        decreases |input| - pos
      {
        var y := GetXml();
        match y {
          case Failed =>
            return None;
          case End =>
            JoinNothing(x);
            return Some(x);
          case Close(_) =>
            return None;
          case Node(z) =>
            TopOnOne(x, z, T.ReadAll(Rest(), strbuf));
            x := JoinText(x, z);
        }
      }
    }
  }

  function ReadOn(kids: T.XText, r: T.KidsGot): T.KidsGot {
    if r.NoKids? then r else r.(kids := JoinText(kids, r.kids))
  }

  function Ahead(x: T.XText, r: T.KidsGot): T.KidsGot
    requires x.Element?
  {
    if r.NoKids? then r else r.(kids := x.(next := r.kids))
  }

  lemma {:induction false} ReadOnOne(kids: T.XText, x: T.XText, r: T.KidsGot)
    requires x.Element? && x.next == T.Nil
    ensures ReadOn(JoinText(kids, x), r) == ReadOn(kids, Ahead(x, r))
  {
    if r.Kids? {
      JoinOne(kids, x, r.kids);
    }
  }

  function TopOn(x: T.XText, r: Option<T.XText>): Option<T.XText> {
    if r.None? then r else Some(JoinText(x, r.value))
  }

  lemma {:induction false} TopOnOne(x: T.XText, z: T.XText, r: Option<T.XText>)
    requires z.Element? && z.next == T.Nil
    ensures TopOn(JoinText(x, z), r) == TopOn(x, if r.None? then r else Some(z.(next := r.value)))
  {
    if r.Some? {
      JoinOne(x, z, r.value);
    }
  }

  // ----- printing

  predicate NulFreeText(s: Option<string>) {
    s.Some? ==> NulFree(s.value)
  }

  predicate NulFreeAttrs(attrs: seq<Attr>) {
    forall a | a in attrs :: NulFree(a.value)
  }

  predicate NulFreeTree(x: T.XText) {
    x.Element? ==>
      NulFreeText(x.pre) && NulFreeText(x.post) && NulFreeAttrs(x.attrs) && NulFreeTree(x.child) && NulFreeTree(x.next)
  }

  lemma {:induction false} AttrsStep(attrs: seq<Attr>, k: nat)
    requires k < |attrs|
    ensures T.AttrsText(attrs[..k + 1]) == T.AttrsText(attrs[..k]) + " " + attrs[k].name + "=" +
            G2X(attrs[k].value, '"')
  {
    if k == 0 {
      assert attrs[..1] == [attrs[0]] && [attrs[0]][1..] == [];
      ConcatNothing(" " + attrs[0].name + "=" + G2X(attrs[0].value, '"'));
    } else {
      AttrsStep(attrs[1..], k - 1);
      assert attrs[..k + 1][1..] == attrs[1..][..k] && attrs[..k][1..] == attrs[1..][..k - 1];
      var a, b := attrs[0], attrs[k];
      var first := " " + a.name + "=" + G2X(a.value, '"');
      T.FourParts(first, T.AttrsText(attrs[1..][..k - 1]), " ", b.name, "=");
      T.FourParts(first, T.AttrsText(attrs[1..][..k - 1]), " ", b.name, "=" + G2X(b.value, '"'));
      assert attrs[..k][0] == a && attrs[..k + 1][0] == a;
      AttrsRegroup(first, T.AttrsText(attrs[1..][..k - 1]), b.name, G2X(b.value, '"'));
    }
  }

  lemma {:induction false} AttrsRegroup(a: string, b: string, name: string, value: string)
    ensures a + (b + " " + name + "=" + value) == a + b + " " + name + "=" + value
  {
    ConcatAssoc(a, b + " " + name + "=", value);
    ConcatAssoc(a, b + " " + name, "=");
    ConcatAssoc(a, b + " ", name);
    ConcatAssoc(a, b, " ");
  }

  class Printer {
    var out: string

    constructor ()
      ensures out == ""
    {
      out := "";
    }

    /** Escaped text without the quotes around it. */
    method PutText(s: Option<string>)
      requires NulFreeText(s)
      modifies this
      ensures out == old(out) + T.Text(s)
    {
      if s.Some? {
        var t := StrG2X(s.value, '"');
        assert t[1..|t| - 1] == Escape(s.value);
        out := out + t[1..|t| - 1];
      }
    }

    method PutAttrs(attrs: seq<Attr>)
      requires NulFreeAttrs(attrs)
      modifies this
      ensures out == old(out) + T.AttrsText(attrs)
    {
      var k: nat := 0;
      ConcatNothing(out);
      while k < |attrs|
        invariant k <= |attrs| && out == old(out) + T.AttrsText(attrs[..k])
      {
        var a := attrs[k];
        assert a in attrs;
        var t := StrG2X(a.value, '"');
        AttrsStep(attrs, k);
        AttrsRegroup(old(out), T.AttrsText(attrs[..k]), a.name, t);
        out := out + " " + a.name + "=" + t;
        k := k + 1;
      }
      assert attrs[..k] == attrs;
    }

    static method AllSpaces(s: Option<string>) returns (b: bool)
      ensures b <==> T.AllSpaces(s)
    {
      if s.None? {
        return true;
      }
      var i := 0;
      while i < |s.value| && (s.value[i] <= ' ' || '\U{80}' <= s.value[i])
        invariant i <= |s.value| && forall k :: 0 <= k < i ==> IsBlank(s.value[k])
      {
        i := i + 1;
      }
      assert i < |s.value| ==> s.value[i] in s.value && !IsBlank(s.value[i]);
      return i == |s.value|;
    }

    /** The part of an element between the attributes and its end. */
    method PutBody(x: T.XText)
      requires x.Element? && NulFreeTree(x)
      modifies this
      ensures out == old(out) + Body(x)
      decreases x, 0
    {
      var blank := AllSpaces(x.post);
      if x.child.Element? || !blank {
        out := out + ">";
        FprintXml(x.child);
        PutText(x.post);
        Onto(old(out), ">", T.PrintXml(x.child), T.Text(x.post), "</" + x.name + ">");
        out := out + ("</" + x.name + ">");
      } else {
        out := out + "/>";
      }
    }

    method FprintXml(x: T.XText)
      requires NulFreeTree(x)
      modifies this
      ensures out == old(out) + T.PrintXml(x)
      decreases x, 1
    {
      if x.Nil? {
        ConcatNothing(out);
        return;
      }
      PutText(x.pre);
      out := out + ("<" + x.name);
      PutAttrs(x.attrs);
      PutBody(x);
      Onto(old(out), T.Text(x.pre), "<" + x.name, T.AttrsText(x.attrs), Body(x));
      PrintedOne(x);
      FprintXml(x.next);
      ConcatAssoc(old(out), T.PrintOne(x), T.PrintXml(x.next));
    }
  }

  function Body(x: T.XText): string
    requires x.Element?
  {
    if T.HasContent(x) then ">" + T.PrintXml(x.child) + T.Text(x.post) + ("</" + x.name + ">") else "/>"
  }

  lemma {:induction false} Onto(o: string, a: string, b: string, c: string, d: string)
    ensures o + a + b + c + d == o + (a + b + c + d)
  {
    ConcatAssoc(o, a + b + c, d);
    ConcatAssoc(o, a + b, c);
    ConcatAssoc(o, a, b);
  }

  lemma {:induction false} PrintedOne(x: T.XText)
    requires x.Element?
    ensures T.Text(x.pre) + ("<" + x.name) + T.AttrsText(x.attrs) + Body(x) == T.PrintOne(x)
  {
    ConcatAssoc(T.Text(x.pre), "<", x.name);
    if T.HasContent(x) {
      var u := ">" + T.PrintXml(x.child) + T.Text(x.post);
      ConcatAssoc(u, "</" + x.name, ">");
      ConcatAssoc(u, "</", x.name);
    }
  }
}
