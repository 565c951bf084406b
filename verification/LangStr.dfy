/** Quoted strings: Fortran's doubled quotes and XML's entity references, encoded and decoded in
    two passes over the text (one to size the buffer, one to fill it), and the scans that skip
    Fortran strings. A C string is a `string` without NUL; reading at its end gives NUL. */
module LangStr {
  import opened Wrappers

  predicate NulFree(s: string) {
    '\0' !in s
  }

  function At(s: string, i: nat): char {
    if i < |s| then s[i] else '\0'
  }

  /** Characters are bytes; those from 128 on compare as negative, so they pass for blanks too. */
  predicate IsBlank(c: char) {
    c <= ' ' || '\U{80}' <= c
  }

  predicate IsQuote(c: char) {
    c == '"' || c == '\''
  }

  function Expand(f: char -> string, s: string): string {
    if s == "" then "" else f(s[0]) + Expand(f, s[1..])
  }

  function Prepend(a: string, o: Option<string>): Option<string> {
    if o.Some? then Some(a + o.value) else None
  }

  lemma {:induction false} ExpandConcat(f: char -> string, a: string, b: string)
    ensures Expand(f, a + b) == Expand(f, a) + Expand(f, b)
  {
    if a == "" {
      assert a + b == b;
    } else {
      ExpandConcat(f, a[1..], b);
      assert (a + b)[1..] == a[1..] + b && (a + b)[0] == a[0];
      ConcatAssoc(f(a[0]), Expand(f, a[1..]), Expand(f, b));
    }
  }

  lemma {:induction false} ExpandStep(f: char -> string, s: string, l: nat)
    requires l < |s|
    ensures Expand(f, s[..l + 1]) == Expand(f, s[..l]) + f(s[l])
  {
    assert s[..l + 1] == s[..l] + [s[l]] && [s[l]][1..] == "";
    ExpandConcat(f, s[..l], [s[l]]);
  }

  lemma {:induction false} ExpandFits(f: char -> string, s: string, l: nat)
    requires l <= |s|
    ensures |Expand(f, s[..l])| <= |Expand(f, s)|
  {
    ExpandConcat(f, s[..l], s[l..]);
    assert s == s[..l] + s[l..];
  }

  lemma {:induction false} PrependStep(a: string, b: string, o: Option<string>)
    ensures Prepend(a, Prepend(b, o)) == Prepend(a + b, o)
  {
    if o.Some? {
      ConcatAssoc(a, b, o.value);
    }
  }

  /** Writes `u` into the buffer at `c`. */
  method Put(t: array<char>, c: nat, u: string) returns (c': nat)
    requires c + |u| <= t.Length
    modifies t
    ensures c' == c + |u| && t[..c'] == old(t[..c]) + u
  {
    c' := c;
    ghost var before := t[..c];
    while c' < c + |u|
      invariant c <= c' <= c + |u| && t[..c'] == before + u[..c' - c]
    {
      t[c'] := u[c' - c];
      c' := c' + 1;
    }
  }

  // ----- Fortran

  function DoubleChar(q: char): char -> string {
    c => if c == q then [c, c] else [c]
  }

  function G2F(s: string, q: char): string {
    [q] + Expand(DoubleChar(q), s) + [q]
  }

  /** The text of a string up to its closing `q`; two in a row stand for one. */
  function Undouble(s: string, q: char): Option<string> {
    if s == "" then None
    else if s[0] == q && At(s, 1) == q && |s| >= 2 then Prepend([q], Undouble(s[2..], q))
    else if s[0] == q then Some("")
    else Prepend([s[0]], Undouble(s[1..], q))
  }

  function F2G(s: string): Option<string> {
    if s != "" && IsQuote(s[0]) then Undouble(s[1..], s[0]) else None
  }

  lemma {:induction false} UndoubleDoubled(s: string, q: char, rest: string)
    requires rest == "" || rest[0] != q
    ensures Undouble(Expand(DoubleChar(q), s) + [q] + rest, q) == Some(s)
  {
    var x := Expand(DoubleChar(q), s) + [q] + rest;
    if s == "" {
      assert x == [q] + rest;
    } else {
      var tail := Expand(DoubleChar(q), s[1..]) + [q] + rest;
      UndoubleDoubled(s[1..], q, rest);
      if s[0] == q {
        assert x == [q, q] + tail && x[2..] == tail;
      } else {
        assert x == [s[0]] + tail && x[1..] == tail;
      }
      assert [s[0]] + s[1..] == s;
    }
  }

  /** Decoding undoes encoding, whatever follows the closing quote. */
  lemma {:induction false} F2GofG2F(s: string, q: char, rest: string)
    requires IsQuote(q) && (rest == "" || rest[0] != q)
    ensures F2G(G2F(s, q) + rest) == Some(s)
  {
    UndoubleDoubled(s, q, rest);
    assert (G2F(s, q) + rest)[1..] == Expand(DoubleChar(q), s) + [q] + rest;
  }

  /** Where the string that starts `s` ends: the index of its closing quote. */
  function Closing(s: string, q: char): Option<nat> {
    if s == "" then None
    else if s[0] == q && |s| >= 2 && s[1] == q then
      (match Closing(s[2..], q) case None => None case Some(n) => Some(n + 2))
    else if s[0] == q then Some(0)
    else match Closing(s[1..], q) case None => None case Some(n) => Some(n + 1)
  }

  lemma {:induction false} ClosingBound(s: string, q: char)
    ensures Closing(s, q).Some? ==> Closing(s, q).value < |s| && s[Closing(s, q).value] == q
    ensures Closing(s, q).Some? <==> Undouble(s, q).Some?
  {
    if s != "" {
      if s[0] == q && |s| >= 2 && s[1] == q {
        ClosingBound(s[2..], q);
      } else {
        ClosingBound(s[1..], q);
      }
    }
  }

  /** Encoding undoes decoding: a string literal is the encoding of what it stands for. */
  lemma {:induction false} DoubleUndoubled(s: string, q: char)
    requires Undouble(s, q).Some?
    ensures Closing(s, q).Some? && Closing(s, q).value < |s|
    ensures s[..Closing(s, q).value] == Expand(DoubleChar(q), Undouble(s, q).value)
  {
    ClosingBound(s, q);
    if s[0] == q && |s| >= 2 && s[1] == q {
      DoubleUndoubled(s[2..], q);
      var v := Undouble(s[2..], q).value;
      assert ([q] + v)[1..] == v;
      assert s[..Closing(s, q).value] == [q, q] + s[2..][..Closing(s[2..], q).value];
    } else if s[0] != q {
      DoubleUndoubled(s[1..], q);
      var v := Undouble(s[1..], q).value;
      assert ([s[0]] + v)[1..] == v;
      assert s[..Closing(s, q).value] == [s[0]] + s[1..][..Closing(s[1..], q).value];
    }
  }

  /** A string literal cut off behind its closing quote still stands for the same text. */
  lemma {:induction false} UndoubleCut(s: string, q: char)
    requires Closing(s, q).Some?
    ensures Closing(s, q).value < |s| && Undouble(s[..Closing(s, q).value + 1], q) == Undouble(s, q)
  {
    ClosingBound(s, q);
    var n := Closing(s, q).value;
    if s[0] == q && |s| >= 2 && s[1] == q {
      UndoubleCut(s[2..], q);
      assert s[..n + 1][2..] == s[2..][..n - 1];
    } else if s[0] != q {
      UndoubleCut(s[1..], q);
      assert s[..n + 1][1..] == s[1..][..n];
    }
  }

  lemma {:induction false} G2FofF2G(s: string)
    requires F2G(s).Some?
    ensures Closing(s[1..], s[0]).Some?
    ensures var n := Closing(s[1..], s[0]).value; n + 2 <= |s| && G2F(F2G(s).value, s[0]) == s[..n + 2]
  {
    DoubleUndoubled(s[1..], s[0]);
    ClosingBound(s[1..], s[0]);
    var n := Closing(s[1..], s[0]).value;
    assert s[..n + 2] == [s[0]] + s[1..][..n] + [s[n + 1]];
  }

  lemma {:induction false} ExpandAhead(f: char -> string, s: string, q: char, rest: string)
    requires s != ""
    ensures Expand(f, s) + [q] + rest == f(s[0]) + (Expand(f, s[1..]) + [q] + rest)
  {
  }

  lemma {:induction false} ClosingDoubled(s: string, q: char, rest: string)
    requires rest == "" || rest[0] != q
    ensures Closing(Expand(DoubleChar(q), s) + [q] + rest, q) == Some(|Expand(DoubleChar(q), s)|)
  {
    if s == "" {
      ClosingHere(q, rest);
    } else {
      ClosingDoubled(s[1..], q, rest);
      ExpandAhead(DoubleChar(q), s, q, rest);
      ClosingBehind(s[0], q, Expand(DoubleChar(q), s[1..]) + [q] + rest);
    }
  }

  lemma {:induction false} ClosingHere(q: char, rest: string)
    requires rest == "" || rest[0] != q
    ensures Closing("" + [q] + rest, q) == Some(0)
  {
    assert "" + [q] + rest == [q] + rest;
  }

  lemma {:induction false} ClosingBehind(c: char, q: char, tail: string)
    requires Closing(tail, q).Some?
    ensures var d := DoubleChar(q)(c); Closing(d + tail, q) == Some(|d| + Closing(tail, q).value)
  {
    var x := DoubleChar(q)(c) + tail;
    if c == q {
      assert x == [q, q] + tail && x[2..] == tail;
    } else {
      assert x == [c] + tail && x[1..] == tail;
    }
  }

  /** One step through a quoted string that has its closing quote. */
  lemma {:induction false} UndoubleAt(s: string, l: nat, q: char)
    requires l <= |s| && q != '\0' && Undouble(s[l..], q).Some?
    ensures l < |s|
    ensures Undouble(s[l..], q)
         == if s[l] == q && At(s, l + 1) == q then Prepend([q], Undouble(s[l + 2..], q))
            else if s[l] == q then Some("") else Prepend([s[l]], Undouble(s[l + 1..], q))
  {
    var u := s[l..];
    assert u[0] == s[l] && At(u, 1) == At(s, l + 1) && u[1..] == s[l + 1..];
    if |u| >= 2 {
      assert u[2..] == s[l + 2..];
    }
  }

  /** The first pass: the length of the text and its end mark. */
  method CountQuoted(s: string) returns (len: nat)
    requires NulFree(s) && F2G(s).Some?
    ensures len == |F2G(s).value| + 1
  {
    var q := s[0];
    var l: nat, c: nat := 1, 0;
    while true
      invariant 1 <= l <= |s| && c < l
      invariant Undouble(s[l..], q).Some? && |F2G(s).value| == l - 1 - c + |Undouble(s[l..], q).value|
      decreases |s| - l
    {
      UndoubleAt(s, l, q);
      if At(s, l) == q && At(s, l + 1) == q {
        l, c := l + 2, c + 1;
      } else if At(s, l) == q {
        break;
      } else {
        l := l + 1;
      }
    }
    len := l - c;
  }

  method StrF2G(s: string) returns (r: Option<string>)
    requires NulFree(s) && (s != "" && IsQuote(s[0]) ==> Undouble(s[1..], s[0]).Some?)
    ensures r == F2G(s)
  {
    if At(s, 0) != '"' && At(s, 0) != '\'' {
      return None;
    }
    var q := s[0];
    var len := CountQuoted(s);
    var t := new char[len];
    var l: nat, c: nat := 1, 0;
    ConcatNothing(F2G(s).value);
    assert t[..0] == "";
    while true
      invariant 1 <= l <= |s| && c < len && len == |F2G(s).value| + 1
      invariant Undouble(s[l..], q).Some? && F2G(s) == Prepend(t[..c], Undouble(s[l..], q))
      decreases |s| - l
    {
      UndoubleAt(s, l, q);
      if At(s, l) == q && At(s, l + 1) == q {
        PrependStep(t[..c], [q], Undouble(s[l + 2..], q));
        c := Put(t, c, [q]);
        l := l + 2;
      } else if At(s, l) == q {
        t[c] := '\0';
        break;
      } else {
        PrependStep(t[..c], [s[l]], Undouble(s[l + 1..], q));
        c := Put(t, c, [s[l]]);
        l := l + 1;
      }
    }
    ConcatNothing(t[..c]);
    r := Some(t[..len - 1]);
  }

  /** The first pass: how much longer the text gets. */
  method CountF(s: string, initc: char) returns (len: nat)
    requires NulFree(s)
    ensures len == |Expand(DoubleChar(initc), s)| + 3
  {
    var f := DoubleChar(initc);
    var l: nat, c: nat := 0, 0;
    assert s[..0] == "";
    while At(s, l) != '\0'
      invariant l <= |s| && l + c == |Expand(f, s[..l])|
      decreases |s| - l
    {
      ExpandStep(f, s, l);
      if s[l] == initc {
        c := c + 1;
      }
      l := l + 1;
    }
    assert s[..l] == s;
    len := l + 3 + c;
  }

  /** The second pass: fills the buffer up to the closing quote. */
  method FillF(t: array<char>, s: string, initc: char) returns (c: nat)
    requires NulFree(s) && t.Length == |Expand(DoubleChar(initc), s)| + 3
    modifies t
    ensures c == t.Length - 2 && t[..c] == [initc] + Expand(DoubleChar(initc), s)
  {
    var f := DoubleChar(initc);
    var l: nat := 0;
    c := Put(t, 0, [initc]);
    assert s[..0] == "";
    while At(s, l) != '\0'
      invariant l <= |s| && c == 1 + |Expand(f, s[..l])| <= t.Length - 2 && t[..c] == [initc] + Expand(f, s[..l])
      decreases |s| - l
    {
      ExpandStep(f, s, l);
      ExpandFits(f, s, l + 1);
      if s[l] == initc {
        c := Put(t, c, [initc, initc]);
      } else {
        c := Put(t, c, [s[l]]);
      }
      l := l + 1;
    }
    assert s[..l] == s;
  }

  method StrG2F(s: string, initc: char) returns (r: string)
    requires NulFree(s) && IsQuote(initc)
    ensures r == G2F(s, initc)
  {
    var len := CountF(s, initc);
    var t := new char[len];
    var c := FillF(t, s, initc);
    c := Put(t, c, [initc, '\0']);
    r := t[..len - 1];
  }

  method EndstrF(s: string) returns (r: Option<nat>)
    requires NulFree(s) && s != ""
    ensures r == match Closing(s[1..], s[0]) case None => None case Some(n) => Some(n + 1)
  {
    var c := s[0];
    var t: nat := 1;
    while At(s, t) != '\0'
      invariant 1 <= t <= |s|
      invariant Closing(s[1..], c) == match Closing(s[t..], c) case None => None case Some(n) => Some(n + t - 1)
      decreases |s| - t
    {
      if At(s, t) == c && At(s, t + 1) == c {
        assert s[t..][2..] == s[t + 2..];
        t := t + 1;
      } else if At(s, t) == c {
        return Some(t);
      } else {
        assert s[t..][1..] == s[t + 1..];
      }
      t := t + 1;
    }
    r := None;
  }

  /** The closing quote is found behind the encoding of any text. */
  lemma {:induction false} EndOfG2F(s: string, q: char, rest: string)
    requires rest == "" || rest[0] != q
    ensures Closing((G2F(s, q) + rest)[1..], q) == Some(|G2F(s, q)| - 2)
  {
    ClosingDoubled(s, q, rest);
    assert (G2F(s, q) + rest)[1..] == Expand(DoubleChar(q), s) + [q] + rest;
  }

  // ----- text outside strings

  /** Reading one more character: the quote the text is now inside of, if any. */
  function QuoteStep(st: Option<char>, c: char): Option<char> {
    if st.None? then (if IsQuote(c) then Some(c) else None)
    else if c == st.value then None else st
  }

  function Quote(st: Option<char>, s: string): Option<char>
    decreases |s|
  {
    if s == "" then st else Quote(QuoteStep(st, s[0]), s[1..])
  }

  lemma {:induction false} QuoteConcat(st: Option<char>, a: string, b: string)
    ensures Quote(st, a + b) == Quote(Quote(st, a), b)
    decreases |a|
  {
    if a == "" {
      assert a + b == b;
    } else {
      assert (a + b)[1..] == a[1..] + b;
      QuoteConcat(QuoteStep(st, a[0]), a[1..], b);
    }
  }

  /** A doubled quote leaves and re-enters the string, so no other character is seen outside. */
  lemma {:induction false} InsideString(s: string, q: char, k: nat)
    requires IsQuote(q) && k < |s| && !IsQuote(s[k])
    requires Closing(s, q).Some? ==> k <= Closing(s, q).value
    ensures Quote(Some(q), s[..k]) == Some(q)
  {
    if k > 0 {
      if s[0] == q && |s| >= 2 && s[1] == q {
        InsideString(s[2..], q, k - 2);
        assert s[..k] == [q] + ([q] + s[2..][..k - 2]);
        assert s[..k][1..] == [q] + s[2..][..k - 2] && s[..k][1..][1..] == s[2..][..k - 2];
      } else {
        InsideString(s[1..], q, k - 1);
        assert s[..k][1..] == s[1..][..k - 1];
      }
    }
  }

  lemma {:induction false} ClosedString(s: string, q: char)
    requires IsQuote(q) && Closing(s, q).Some?
    ensures Closing(s, q).value < |s| && Quote(Some(q), s[..Closing(s, q).value + 1]) == None
  {
    ClosingBound(s, q);
    var n := Closing(s, q).value;
    if s[0] == q && |s| >= 2 && s[1] == q {
      ClosedString(s[2..], q);
      assert s[..n + 1] == [q] + ([q] + s[2..][..n - 1]);
      assert s[..n + 1][1..] == [q] + s[2..][..n - 1] && s[..n + 1][1..][1..] == s[2..][..n - 1];
    } else if s[0] == q {
      assert s[..1][1..] == "";
    } else {
      ClosedString(s[1..], q);
      assert s[..n + 1][1..] == s[1..][..n];
    }
  }

  /** Character `k` of `s` is a `c` outside every string. */
  predicate Bare(s: string, c: char, k: nat)
    requires k < |s|
  {
    s[k] == c && Quote(None, s[..k]) == None
  }

  lemma {:induction false} NotInString(s: string, i: nat, c: char, k: nat)
    requires i < k < |s| && Quote(None, s[..i]) == None && IsQuote(s[i]) && !IsQuote(c)
    requires var e := Closing(s[i + 1..], s[i]); e.Some? ==> k <= i + 1 + e.value
    ensures !Bare(s, c, k)
  {
    if s[k] == c {
      InsideString(s[i + 1..], s[i], k - i - 1);
      AroundQuote(s, i, k);
      QuoteConcat(None, s[..i], [s[i]] + s[i + 1..][..k - i - 1]);
      assert ([s[i]] + s[i + 1..][..k - i - 1])[1..] == s[i + 1..][..k - i - 1];
    }
  }

  lemma {:induction false} AroundQuote(s: string, i: nat, k: nat)
    requires i < k <= |s|
    ensures s[..k] == s[..i] + ([s[i]] + s[i + 1..][..k - i - 1])
  {
    assert s[i + 1..][..k - i - 1] == s[i + 1..k];
  }

  lemma {:induction false} BehindString(s: string, i: nat)
    requires i < |s| && Quote(None, s[..i]) == None && IsQuote(s[i]) && Closing(s[i + 1..], s[i]).Some?
    ensures var j := i + 2 + Closing(s[i + 1..], s[i]).value; j <= |s| && Quote(None, s[..j]) == None
  {
    ClosedString(s[i + 1..], s[i]);
    var n := Closing(s[i + 1..], s[i]).value;
    AroundQuote(s, i, i + 2 + n);
    QuoteConcat(None, s[..i], [s[i]] + s[i + 1..][..n + 1]);
    assert ([s[i]] + s[i + 1..][..n + 1])[1..] == s[i + 1..][..n + 1];
  }

  function FirstBare(s: string, c: char, i: nat): (r: Option<nat>)
    requires i <= |s|
    ensures r.Some? ==> i <= r.value < |s| && Bare(s, c, r.value)
    ensures forall k :: i <= k < (if r.Some? then r.value else |s|) ==> !Bare(s, c, k)
    decreases |s| - i
  {
    if i == |s| then None else if Bare(s, c, i) then Some(i) else FirstBare(s, c, i + 1)
  }

  lemma {:induction false} FirstBareIs(s: string, c: char, i: nat, r: Option<nat>)
    requires i <= |s| && (r.Some? ==> i <= r.value < |s| && Bare(s, c, r.value))
    requires forall k :: i <= k < (if r.Some? then r.value else |s|) ==> !Bare(s, c, k)
    ensures FirstBare(s, c, i) == r
    decreases |s| - i
  {
    if i < |s| && !Bare(s, c, i) {
      FirstBareIs(s, c, i + 1, r);
    }
  }

  /** Finds the first `c` that no Fortran string encloses. */
  method StrchrF(s: string, c: char) returns (r: Option<nat>)
    requires NulFree(s) && !IsQuote(c)
    ensures r == FirstBare(s, c, 0)
  {
    var i: nat := 0;
    assert s[..0] == "";
    while At(s, i) != '\0' && At(s, i) != c
      invariant i <= |s| && Quote(None, s[..i]) == None
      invariant forall k :: 0 <= k < i ==> !Bare(s, c, k)
      decreases |s| - i
    {
      if s[i] == '\'' || s[i] == '"' {
        var e := EndstrF(s[i..]);
        assert s[i..][1..] == s[i + 1..];
        forall k | i < k < |s| && (e.Some? ==> k <= i + e.value)
          ensures !Bare(s, c, k)
        {
          NotInString(s, i, c, k);
        }
        if e == None {
          FirstBareIs(s, c, 0, None);
          return None;
        }
        BehindString(s, i);
        i := i + e.value;
      } else {
        QuoteConcat(None, s[..i], [s[i]]);
        assert s[..i + 1] == s[..i] + [s[i]] && [s[i]][1..] == "";
      }
      i := i + 1;
    }
    r := if At(s, i) == '\0' then None else Some(i);
    FirstBareIs(s, c, 0, r);
  }

  // ----- XML

  function EscapeChar(): char -> string {
    c => if c == '<' then "&lt;"
         else if c == '>' then "&gt;"
         else if c == '&' then "&amp;"
         else if c == '"' then "&quot;"
         else if c == '\'' then "&apos;"
         else [c]
  }

  function Escape(s: string): string {
    Expand(EscapeChar(), s)
  }

  /** Five characters are spelled as references, one after the other. */
  lemma {:induction false} Escaped(a: string, c: char)
    ensures Escape(a + [c]) == Escape(a) + match c
                                           case '<' => "&lt;"
                                           case '>' => "&gt;"
                                           case '&' => "&amp;"
                                           case '"' => "&quot;"
                                           case '\'' => "&apos;"
                                           case _ => [c]
  {
    ExpandConcat(EscapeChar(), a, [c]);
    assert [c][1..] == "";
    ConcatNothing(EscapeChar()(c));
  }

  function G2X(s: string, q: char): string {
    [q] + Escape(s) + [q]
  }

  /** The character an ampersand at the start of `s` stands for, and the length of its spelling. */
  function Entity(s: string): (char, nat)
    ensures Entity(s).1 >= 1 && (s != "" ==> Entity(s).1 <= |s|)
  {
    if "&lt;" <= s then ('<', 4)
    else if "&gt;" <= s then ('>', 4)
    else if "&amp;" <= s then ('&', 5)
    else if "&quot;" <= s then ('"', 6)
    else if "&apos;" <= s then ('\'', 6)
    else ('&', 1)
  }

  /** The text of an XML string up to its closing `q`. */
  function Unescape(s: string, q: char): Option<string> {
    if s == "" then None
    else if s[0] == '&' then Prepend([Entity(s).0], Unescape(s[Entity(s).1..], q))
    else if s[0] == q then Some("")
    else Prepend([s[0]], Unescape(s[1..], q))
  }

  function X2G(s: string): Option<string> {
    if s != "" && IsQuote(s[0]) then Unescape(s[1..], s[0]) else None
  }

  lemma {:induction false} EntityEscape(c: char, rest: string)
    requires c == '<' || c == '>' || c == '&' || IsQuote(c)
    ensures Entity(EscapeChar()(c) + rest) == (c, |EscapeChar()(c)|)
    ensures EscapeChar()(c) + rest != "" && (EscapeChar()(c) + rest)[0] == '&'
  {
    var e := EscapeChar()(c);
    var x := e + rest;
    assert e <= x && x[1] == e[1] && x[2] == e[2];
  }

  lemma {:induction false} UnescapeStep(c: char, tail: string, q: char)
    requires IsQuote(q)
    ensures Unescape(EscapeChar()(c) + tail, q) == Prepend([c], Unescape(tail, q))
  {
    var e := EscapeChar()(c);
    var x := e + tail;
    assert x[|e|..] == tail && x[0] == e[0];
    if c == '<' || c == '>' || c == '&' || IsQuote(c) {
      EntityEscape(c, tail);
    }
  }

  lemma {:induction false} UnescapeEscaped(s: string, q: char, rest: string)
    requires IsQuote(q)
    ensures Unescape(Escape(s) + [q] + rest, q) == Some(s)
  {
    if s == "" {
      assert Escape(s) + [q] + rest == [q] + rest;
    } else {
      UnescapeEscaped(s[1..], q, rest);
      ExpandAhead(EscapeChar(), s, q, rest);
      UnescapeStep(s[0], Escape(s[1..]) + [q] + rest, q);
      assert [s[0]] + s[1..] == s;
    }
  }

  lemma {:induction false} X2GofG2X(s: string, q: char, rest: string)
    requires IsQuote(q)
    ensures X2G(G2X(s, q) + rest) == Some(s)
  {
    UnescapeEscaped(s, q, rest);
    assert (G2X(s, q) + rest)[1..] == Escape(s) + [q] + rest;
  }

  /** Without a quote at its start, a text is no string of either kind. */
  lemma {:induction false} NoQuote(s: string)
    requires s == "" || (s[0] != '"' && s[0] != '\'')
    ensures F2G(s) == None && X2G(s) == None
  {
  }

  /** How many ampersands before the closing `q` start no entity reference. */
  function Loose(s: string, q: char): nat {
    if s == "" then 0
    else if s[0] == '&' then (if Entity(s).1 == 1 then 1 else 0) + Loose(s[Entity(s).1..], q)
    else if s[0] == q then 0
    else Loose(s[1..], q)
  }

  lemma {:induction false} LooseStep(c: char, tail: string, q: char)
    requires IsQuote(q)
    ensures Loose(EscapeChar()(c) + tail, q) == Loose(tail, q)
  {
    var e := EscapeChar()(c);
    var x := e + tail;
    assert x[|e|..] == tail && x[0] == e[0];
    if c == '<' || c == '>' || c == '&' || IsQuote(c) {
      EntityEscape(c, tail);
    }
  }

  lemma {:induction false} LooseEscaped(s: string, q: char, rest: string)
    requires IsQuote(q)
    ensures Loose(Escape(s) + [q] + rest, q) == 0
  {
    if s == "" {
      assert Escape(s) + [q] + rest == [q] + rest;
    } else {
      LooseEscaped(s[1..], q, rest);
      ExpandAhead(EscapeChar(), s, q, rest);
      LooseStep(s[0], Escape(s[1..]) + [q] + rest, q);
    }
  }

  /** A bare ampersand: the text is there, and decoding it overruns the buffer. */
  lemma {:induction false} BareAmpersand()
    ensures X2G(['"', '&', '"']) == Some("&") && Loose(['&', '"'], '"') == 1
  {
    var x, s, t := ['"', '&', '"'], ['&', '"'], ['"'];
    assert x[1..] == s && s[1..] == t && Entity(s) == ('&', 1);
    assert Unescape(t, '"') == Some("") && Unescape(s, '"') == Prepend(['&'], Some(""));
    assert ['&'] + "" == "&";
    assert Loose(t, '"') == 0;
  }

  /** The first pass: how much longer the text gets. */
  method CountEscapes(s: string) returns (len: nat)
    requires NulFree(s)
    ensures len == |Escape(s)| + 3
  {
    var f := EscapeChar();
    var l: nat, c: nat := 0, 0;
    assert s[..0] == "";
    while At(s, l) != '\0'
      invariant l <= |s| && l + c == |Expand(f, s[..l])|
      decreases |s| - l
    {
      ExpandStep(f, s, l);
      if s[l] == '<' || s[l] == '>' {
        c := c + 3;
      } else if s[l] == '&' {
        c := c + 4;
      } else if s[l] == '"' || s[l] == '\'' {
        c := c + 5;
      }
      l := l + 1;
    }
    assert s[..l] == s;
    len := l + 3 + c;
  }

  method PutEscaped(t: array<char>, c: nat, ch: char) returns (c': nat)
    requires c + |EscapeChar()(ch)| <= t.Length
    modifies t
    ensures c' == c + |EscapeChar()(ch)| && t[..c'] == old(t[..c]) + EscapeChar()(ch)
  {
    if ch == '<' {
      c' := Put(t, c, "&lt;");
    } else if ch == '>' {
      c' := Put(t, c, "&gt;");
    } else if ch == '&' {
      c' := Put(t, c, "&amp;");
    } else if ch == '"' {
      c' := Put(t, c, "&quot;");
    } else if ch == '\'' {
      c' := Put(t, c, "&apos;");
    } else {
      c' := Put(t, c, [ch]);
    }
  }

  /** The second pass: fills the buffer up to the closing quote. */
  method FillX(t: array<char>, s: string, initc: char) returns (c: nat)
    requires NulFree(s) && t.Length == |Escape(s)| + 3
    modifies t
    ensures c == t.Length - 2 && t[..c] == [initc] + Escape(s)
  {
    var l: nat := 0;
    c := Put(t, 0, [initc]);
    assert s[..0] == "";
    while At(s, l) != '\0'
      invariant l <= |s| && c == 1 + |Escape(s[..l])| <= t.Length - 2
      invariant t[..c] == [initc] + Escape(s[..l])
      decreases |s| - l
    {
      FillStep(s, l, t[..c], initc);
      c := PutEscaped(t, c, s[l]);
      l := l + 1;
    }
    assert s[..l] == s;
  }

  lemma {:induction false} FillStep(s: string, l: nat, t: string, initc: char)
    requires l < |s| && t == [initc] + Escape(s[..l])
    ensures |Escape(s[..l + 1])| == |Escape(s[..l])| + |EscapeChar()(s[l])| <= |Escape(s)|
    ensures t + EscapeChar()(s[l]) == [initc] + Escape(s[..l + 1])
  {
    ExpandStep(EscapeChar(), s, l);
    ExpandFits(EscapeChar(), s, l + 1);
    ConcatAssoc([initc], Escape(s[..l]), EscapeChar()(s[l]));
  }

  method StrG2X(s: string, initc: char) returns (r: string)
    requires NulFree(s)
    ensures r == G2X(s, initc)
  {
    var len := CountEscapes(s);
    var t := new char[len];
    var c := FillX(t, s, initc);
    c := Put(t, c, [initc, '\0']);
    r := t[..len - 1];
  }

  /** What the first pass over an XML string leaves room for: one place short for every loose ampersand. */
  method CountX(s: string) returns (len: nat)
    requires NulFree(s) && X2G(s).Some?
    ensures len + Loose(s[1..], s[0]) == |X2G(s).value| + 1
  {
    var q := s[0];
    var l: nat, c: nat := 1, 0;
    while true
      invariant 1 <= l <= |s| && c < l
      invariant Unescape(s[l..], q).Some?
      invariant |X2G(s).value| - Loose(s[1..], q) == l - 1 - c + |Unescape(s[l..], q).value| - Loose(s[l..], q)
      decreases |s| - l
    {
      assert s[l..][1..] == s[l + 1..];
      if At(s, l) == '&' {
        var e := Entity(s[l..]).1;
        assert s[l..][e..] == s[l + e..];
        if e > 1 {
          l, c := l + e, c + e - 1;
        } else {
          l, c := l + 1, c + 1;
        }
      } else if At(s, l) == q {
        break;
      } else {
        l := l + 1;
      }
    }
    len := l - c;
  }

  /** One step through an XML string that has its closing quote. */
  lemma {:induction false} UnescapeAt(s: string, l: nat, q: char)
    requires l <= |s| && Unescape(s[l..], q).Some?
    ensures l < |s| && Entity(s[l..]).1 <= |s| - l
    ensures Unescape(s[l..], q)
         == if s[l] == '&' then Prepend([Entity(s[l..]).0], Unescape(s[l + Entity(s[l..]).1..], q))
            else if s[l] == q then Some("") else Prepend([s[l]], Unescape(s[l + 1..], q))
  {
    var u := s[l..];
    assert u[0] == s[l] && u[1..] == s[l + 1..] && u[Entity(u).1..] == s[l + Entity(u).1..];
  }

  /** Decodes an XML string that has its closing quote; a loose ampersand overruns the buffer. */
  method StrX2G(s: string) returns (r: Option<string>)
    requires NulFree(s) && (s != "" && IsQuote(s[0]) ==> Unescape(s[1..], s[0]).Some?)
    ensures r == if X2G(s).Some? && Loose(s[1..], s[0]) == 0 then X2G(s) else None
  {
    if At(s, 0) != '"' && At(s, 0) != '\'' {
      return None;
    }
    var q := s[0];
    var len := CountX(s);
    var t := new char[len];
    var l: nat, c: nat := 1, 0;
    assert t[..0] == "";
    ConcatNothing(X2G(s).value);
    while true
      invariant 1 <= l <= |s| && c <= len
      invariant Unescape(s[l..], q).Some? && X2G(s) == Prepend(t[..c], Unescape(s[l..], q))
      decreases |s| - l
    {
      UnescapeAt(s, l, q);
      if c == len {
        return None;
      }
      if At(s, l) == '&' {
        var (ch, e) := Entity(s[l..]);
        PrependStep(t[..c], [ch], Unescape(s[l + e..], q));
        c := Put(t, c, [ch]);
        l := l + e;
      } else if At(s, l) == q {
        t[c] := '\0';
        break;
      } else {
        PrependStep(t[..c], [s[l]], Unescape(s[l + 1..], q));
        c := Put(t, c, [s[l]]);
        l := l + 1;
      }
    }
    ConcatNothing(t[..c]);
    r := if c + 1 == len then Some(t[..c]) else None;
  }
}
