/** Continued directive lines as others may write them: indented, with or without an ampersand ahead of
    the text that goes on, with comments behind the marker. They are joined to the text of their
    pieces, where one blank stands for those ahead of a piece without an ampersand. */
module ContinuationLayout {
  import opened Wrappers
  import opened LangStr
  import opened Continuation
  import opened ContinuationProofs
  import opened ContinuationFile

  /** What stands ahead of the text of a continuation line. */
  datatype Front = Front(indent: string, word: string, gap: string, amp: bool)

  function FrontText(f: Front): string {
    f.indent + f.word + f.gap + (if f.amp then "&" else "")
  }

  predicate Blanks(s: string) {
    forall c | c in s :: c <= ' ' || '\U{80}' <= c
  }

  /** Without an ampersand there are blanks, and the text `u` starts right behind them. */
  predicate LegalFront(f: Front, u: string) {
    && Blanks(f.indent) && PlainWord(f.word) && Blanks(f.gap) && u != ""
    && (f.amp || (f.gap != "" && !IsBlank(u[0]) && u[0] != '&'))
  }

  // ----- where the text starts

  lemma {:induction false} SkipBlankTo(s: string, i: nat, j: nat)
    requires i <= j < |s| && (forall k :: i <= k < j ==> IsBlank(s[k])) && !IsBlank(s[j])
    ensures SkipBlank(s, i) == j
    decreases j - i
  {
    if i < j {
      SkipBlankTo(s, i + 1, j);
    }
  }

  lemma {:induction false} BlankAll(b: string, k: nat)
    requires Blanks(b) && k < |b|
    ensures IsBlank(b[k])
  {
    assert b[k] in b;
  }

  /** Where the parts of a line `s` stand: blanks, the word up to `e`, and blanks up to `q`. */
  predicate Stands(s: string, f: Front, e: nat, q: nat) {
    && |f.indent| + 2 <= e <= q < |s| && e == |f.indent| + |f.word| && s[|f.indent|..e] == f.word
    && (forall k :: 0 <= k < |f.indent| ==> IsBlank(s[k])) && (forall k :: e <= k < q ==> IsBlank(s[k]))
    && !IsBlank(s[q]) && (s[q] == '&' <==> f.amp) && (IsBlank(s[e]) || s[e] == '&')
  }

  lemma {:induction false} FrontStands(f: Front, u: string)
    requires LegalFront(f, u)
    ensures var e := |f.indent| + |f.word|; Stands(FrontText(f) + u, f, e, e + |f.gap|)
  {
    var a, t := f.indent + f.word + f.gap, (if f.amp then "&" else "") + u;
    var s, p := FrontText(f) + u, |f.indent|;
    var e := p + |f.word|;
    ConcatAssoc(a, if f.amp then "&" else "", u);
    assert s == a + t && s[e + |f.gap|] == t[0];
    forall k | 0 <= k < p
      ensures IsBlank(s[k])
    {
      assert s[k] == f.indent[k];
      BlankAll(f.indent, k);
    }
    forall k | e <= k < e + |f.gap|
      ensures IsBlank(s[k])
    {
      assert s[k] == f.gap[k - e];
      BlankAll(f.gap, k - e);
    }
  }

  lemma {:induction false} StandsShape(s: string, f: Front, e: nat, q: nat)
    requires Stands(s, f, e, q) && PlainWord(f.word)
    ensures var p := |f.indent|;
            && SkipBlank(s, 0) == p && IsDirective(s) && SkipWord(s, p, true) == e && SkipBlank(s, e) == q
            && SkipWord(s, q, true) >= q && (f.amp ==> SkipWord(s, q, true) == q && SkipBlank(s, q) == q)
  {
    var p := |f.indent|;
    assert s[p] == f.word[0] && s[p + 1] == f.word[1];
    SkipBlankTo(s, 0, p);
    SkipBlankTo(s, e, q);
    forall k | p <= k < e
      ensures !IsBlank(s[k]) && s[k] != '&'
    {
      assert s[k] == f.word[k - p];
    }
    SkipWordTo(s, p, e);
    if f.amp {
      SkipWordTo(s, q, q);
      SkipBlankTo(s, q, q);
    }
  }

  lemma {:induction false} FrontShape(f: Front, u: string)
    requires LegalFront(f, u)
    ensures var s := FrontText(f) + u; IsDirective(s) && SkipBlank(s, 0) == |f.indent| && |f.indent| + 2 <= |s|
  {
    var e := |f.indent| + |f.word|;
    FrontStands(f, u);
    StandsShape(FrontText(f) + u, f, e, e + |f.gap|);
  }

  /** The text that is added starts behind the ampersand, or else with the last blank. */
  lemma {:induction false} FrontStart(st: State, f: Front, u: string)
    requires LegalFront(f, u) && st.precon && (st.schar.Some? ==> f.amp)
    ensures var s, p := FrontText(f) + u, |f.indent|;
            p + 2 <= |s| && Start(st, s, p) == |FrontText(f)| - (if f.amp then 0 else 1) &&
            (st.schar.Some? ==> StringMark(s, p) == |FrontText(f)| - 1)
  {
    var e := |f.indent| + |f.word|;
    FrontStands(f, u);
    StandsShape(FrontText(f) + u, f, e, e + |f.gap|);
  }

  /** Inside a string, a line without an ampersand is read on from behind its exclamation mark, so that
      quotes in its word count; its text is added all the same with one blank. */
  lemma {:induction false} UnmarkedInString(st: State, f: Front, u: string)
    requires LegalFront(f, u) && st.precon && st.schar.Some? && !f.amp
    ensures var s, p := FrontText(f) + u, |f.indent|;
            p + 2 <= |s| && Start(st, s, p) == |FrontText(f)| - 1 &&
            Examine(st, s, p) == FindEnd(s, Shift(p + 1, ScanFrom(st.schar, s[p + 1..])))
  {
    var e, p := |f.indent| + |f.word|, |f.indent|;
    FrontStands(f, u);
    StandsShape(FrontText(f) + u, f, e, e + |f.gap|);
    ScanAtFrom(st.schar, FrontText(f) + u, p + 1);
  }

  lemma {:induction false} BlankQuiet(b: string)
    requires Blanks(b)
    ensures ScanFrom(None, b) == End
  {
    if b != "" {
      assert b[0] in b;
      assert forall c | c in b[1..] :: c in b;
      BlankQuiet(b[1..]);
    }
  }

  lemma {:induction false} ScanPast(a: string, b: string)
    requires ScanFrom(None, a) == End
    ensures ScanFrom(None, a + b) == Shift(|a|, ScanFrom(None, b))
  {
    EndClosed(None, a);
    ScanConcat(None, a, b);
  }

  lemma {:induction false} AmpQuiet(u: string)
    ensures ScanFrom(None, "&" + u) == Shift(1, ScanFrom(None, u))
  {
    assert ("&" + u)[1..] == u;
  }

  /** Outside strings, what stands ahead of the text holds none and no comment. */
  lemma {:induction false} FrontQuiet(f: Front, u: string)
    requires LegalFront(f, u)
    ensures var s, p := FrontText(f) + u, |f.indent|;
            p + 2 <= |s| && ScanFrom(None, s[p + 2..]) == Shift(|FrontText(f)| - p - 2, ScanFrom(None, u))
  {
    var v, m := f.word[2..], if f.amp then "&" else "";
    BlankQuiet(f.gap);
    assert ScanFrom(None, m) == End by {
      if f.amp {
        AmpQuiet("");
        ConcatNothing("&");
      }
    }
    ScanPast(v, f.gap);
    ScanPast(v + f.gap, m);
    ScanPast(v + f.gap + m, u);
    FrontRest(f, u);
  }

  lemma {:induction false} FrontRest(f: Front, u: string)
    requires LegalFront(f, u)
    ensures var s, p := FrontText(f) + u, |f.indent|;
            p + 2 <= |s| && s[p + 2..] == f.word[2..] + f.gap + (if f.amp then "&" else "") + u
  {
  }

  /** What stands ahead of the text is passed over, in the string that was left open or in none. */
  lemma {:induction false} FrontScan(st: State, f: Front, u: string)
    requires LegalFront(f, u) && Going(st) && (st.schar.Some? ==> f.amp)
    ensures var s, p := FrontText(f) + u, |f.indent|;
            p + 2 <= |s| && Examine(st, s, p) == FindEnd(s, Shift(|FrontText(f)|, ScanFrom(st.schar, u)))
  {
    var n := |FrontText(f)|;
    FrontStart(st, f, u);
    assert (FrontText(f) + u)[n..] == u && |f.indent| + 2 <= n;
    if st.schar.Some? {
      OpenFront(st, FrontText(f) + u, |f.indent|, n, u);
    } else {
      FrontQuiet(f, u);
      ClosedFront(st, FrontText(f) + u, |f.indent|, n, u);
    }
  }

  // ----- a line that is continued

  /** The text `v`, the marker, blanks, and perhaps a comment; no comment where a string is left open. */
  function Marked(v: string, b: string, c: string): string {
    v + ("&" + (b + c))
  }

  predicate LegalMark(st: Option<char>, v: string, b: string, c: string) {
    Blanks(b) && !ScanFrom(st, v).Bang? && (c == "" || (c[0] == '!' && Quote(st, v) == None))
  }

  lemma {:induction false} OpenBlanks(q: char, b: string)
    requires Blanks(b) && IsQuote(q)
    ensures ScanFrom(Some(q), b) == Open(q)
  {
    if b != "" {
      assert b[0] in b;
      assert forall c | c in b[1..] :: c in b;
      OpenBlanks(q, b[1..]);
    }
  }

  lemma {:induction false} BehindMark(tau: Option<char>, b: string, c: string)
    requires Blanks(b) && (tau.Some? ==> IsQuote(tau.value)) && (c == "" || (c[0] == '!' && tau.None?))
    ensures ScanFrom(tau, "&" + (b + c)) ==
            if tau.Some? then Open(tau.value) else if c == "" then End else Bang(1 + |b|)
  {
    var t := "&" + (b + c);
    assert t[1..] == b + c;
    if tau.Some? {
      ConcatNothing(b);
      OpenBlanks(tau.value, b);
    } else {
      BlankQuiet(b);
      ScanPast(b, c);
    }
  }

  /** What is read behind the text `v`. */
  function Behind(tau: Option<char>, n: nat, c: string): Scan {
    if tau.Some? then Open(tau.value) else if c == "" then End else Bang(n)
  }

  lemma {:induction false} MarkScan(sigma: Option<char>, v: string, b: string, c: string)
    requires LegalMark(sigma, v, b, c) && (sigma.Some? ==> IsQuote(sigma.value))
    ensures var tau := Quote(sigma, v);
            (tau.Some? ==> IsQuote(tau.value)) &&
            ScanFrom(sigma, Marked(v, b, c)) == Behind(tau, |v| + 1 + |b|, c)
  {
    ScanConcat(sigma, v, "&" + (b + c));
    QuoteIsQuote(sigma, v);
    BehindMark(Quote(sigma, v), b, c);
  }

  lemma {:induction false} BackTo(s: string, k: nat, q: nat)
    requires k <= q && !IsBlank(At(s, k)) && At(s, k) != '!'
    requires forall j :: k < j <= q ==> IsBlank(At(s, j)) || At(s, j) == '!'
    ensures BackOver(s, q) == k
    decreases q
  {
    if k < q {
      BackTo(s, k, q - 1);
    }
  }

  lemma {:induction false} LastTo(s: string, k: nat, q: nat)
    requires k <= q && !IsBlank(At(s, k)) && forall j :: k < j <= q ==> IsBlank(At(s, j))
    ensures LastNonBlank(s, q) == k
    decreases q
  {
    if k < q {
      LastTo(s, k, q - 1);
    }
  }

  lemma {:induction false} FoundBehind(s: string, k: nat, n: nat, tau: Option<char>, c: string)
    requires k < n <= |s| && s[k] == '&' && s[n..] == c && (forall j :: k < j < n ==> IsBlank(s[j]))
    requires c == "" || (c[0] == '!' && tau.None?)
    ensures FindEnd(s, Behind(tau, n, c)) == Found(true, k, c, tau)
  {
    if tau.Some? {
      LastTo(s, k, |s| - 1);
    } else if c == "" {
      BackTo(s, k, |s|);
    } else {
      assert s[n] == s[n..][0] == '!';
      BackTo(s, k, n);
    }
  }

  /** The marker is found from the end of the line, or from the comment. */
  lemma {:induction false} MarkFound(a: string, v: string, b: string, c: string, tau: Option<char>)
    requires Blanks(b) && (c == "" || (c[0] == '!' && tau.None?))
    ensures FindEnd(a + Marked(v, b, c), Shift(|a|, Behind(tau, |v| + 1 + |b|, c))) == Found(true, |a| + |v|, c, tau)
  {
    var k := |a| + |v|;
    MarkedAt(a, v, b, c);
    ShiftBehind(tau, |a|, |v| + 1 + |b|, c);
    FoundAt(a + Marked(v, b, c), k, k + 1 + |b|, tau, c, Shift(|a|, Behind(tau, |v| + 1 + |b|, c)));
  }

  lemma {:induction false} ShiftBehind(tau: Option<char>, k: nat, n: nat, c: string)
    ensures Shift(k, Behind(tau, n, c)) == Behind(tau, k + n, c)
  {
  }

  lemma {:induction false} FoundAt(s: string, k: nat, n: nat, tau: Option<char>, c: string, g: Scan)
    requires k < n <= |s| && s[k] == '&' && s[n..] == c && (forall j :: k < j < n ==> IsBlank(s[j]))
    requires (c == "" || (c[0] == '!' && tau.None?)) && g == Behind(tau, n, c)
    ensures FindEnd(s, g) == Found(true, k, c, tau)
  {
    FoundBehind(s, k, n, tau, c);
  }

  lemma {:induction false} MarkedAt(a: string, v: string, b: string, c: string)
    requires Blanks(b)
    ensures var s, k := a + Marked(v, b, c), |a| + |v|;
            && |s| == k + 1 + |b| + |c| && s[k] == '&' && s[k + 1 + |b|..] == c
            && forall j :: k < j <= k + |b| ==> IsBlank(s[j])
  {
    var s, k := a + Marked(v, b, c), |a| + |v|;
    ConcatAssoc(a, v, "&" + (b + c));
    forall j | k < j <= k + |b|
      ensures IsBlank(s[j])
    {
      assert s[j] == b[j - k - 1];
      BlankAll(b, j - k - 1);
    }
  }

  /** Between lines that are continued: the comment goes behind the joined line. */
  function Continued(st: State, tau: Option<char>, text: string, c: string): State {
    st.(schar := tau, line1 := st.line1 + text, cls := if c == "" then st.cls else st.cls + [c])
  }

  function Added(f: Front, u: string): string
    requires f.amp || f.gap != ""
  {
    (if f.amp then "" else [f.gap[|f.gap| - 1]]) + u
  }

  lemma {:induction false} AddedText(f: Front, u: string)
    requires LegalFront(f, u)
    ensures (FrontText(f) + u)[|FrontText(f)| - (if f.amp then 0 else 1)..] == Added(f, u)
  {
    ConcatNothing(u);
    ConcatNothing(f.indent + f.word + f.gap);
  }

  lemma {:induction false} GoingExamined(st: State, f: Front, v: string, b: string, c: string)
    requires LegalFront(f, Marked(v, b, c))
    requires Going(st) && (st.schar.Some? ==> f.amp) && LegalMark(st.schar, v, b, c)
    ensures var s, tau := FrontText(f) + Marked(v, b, c), Quote(st.schar, v);
            |f.indent| + 2 <= |s| && (tau.Some? ==> IsQuote(tau.value)) &&
            Examine(st, s, |f.indent|) == Found(true, |FrontText(f)| + |v|, c, tau)
  {
    FrontScan(st, f, Marked(v, b, c));
    MarkScan(st.schar, v, b, c);
    MarkFound(FrontText(f), v, b, c, Quote(st.schar, v));
  }

  /** A continued line, once its marker has been found at `cut`. */
  lemma {:induction false} LineRead(st: State, s: string, p: nat, cut: nat, c: string, tau: Option<char>, i: nat)
    requires IsDirective(s) && SkipBlank(s, 0) == p && p + 2 <= |s| && Examine(st, s, p) == Found(true, cut, c, tau)
    requires Start(st, s, p) == i <= cut <= |s|
    ensures st.precon ==> ConcatLine(st, s) == Some(Continued(st, tau, s[i..cut], c))
    ensures !st.precon ==>
              ConcatLine(st, s) == Some(Flush(st).(precon := true, schar := tau, line1 := "" + s[i..cut], prep := c))
  {
  }

  /** A line that goes on adds its text; a comment behind its marker comes behind the joined line. */
  lemma {:induction false} GoingLine(st: State, f: Front, v: string, b: string, c: string)
    requires LegalFront(f, Marked(v, b, c)) && (f.amp || v != "")
    requires Going(st) && (st.schar.Some? ==> f.amp) && LegalMark(st.schar, v, b, c)
    ensures var st' := Continued(st, Quote(st.schar, v), Added(f, v), c);
            ConcatLine(st, FrontText(f) + Marked(v, b, c)) == Some(st') && Going(st')
  {
    var u, a := Marked(v, b, c), FrontText(f);
    FrontShape(f, u);
    FrontStart(st, f, u);
    GoingExamined(st, f, v, b, c);
    AddedCut(f, v, "&" + (b + c));
    var i, cut := |a| - (if f.amp then 0 else 1), |a| + |v|;
    assert Start(st, a + u, |f.indent|) == i && (a + u)[i..cut] == Added(f, v);
    LineRead(st, a + u, |f.indent|, cut, c, Quote(st.schar, v), i);
  }

  lemma {:induction false} AddedCut(f: Front, v: string, rest: string)
    requires f.amp || f.gap != ""
    ensures var a := FrontText(f); (a + (v + rest))[|a| - (if f.amp then 0 else 1)..|a| + |v|] == Added(f, v)
  {
    var a := FrontText(f);
    var s := a + (v + rest);
    assert s[|a|..|a| + |v|] == v;
    if f.amp {
      ConcatNothing(v);
    } else {
      ConcatNothing(f.indent + f.word + f.gap);
      assert s[|a| - 1] == a[|a| - 1] == f.gap[|f.gap| - 1];
      assert s[|a| - 1..|a| + |v|] == [s[|a| - 1]] + s[|a|..|a| + |v|];
    }
  }

  /** The first line: the comment goes ahead of the joined line, which starts anew. */
  lemma {:induction false} FirstOf(st: State, v: string, b: string, c: string)
    requires !st.precon && IsDirective(v) && CodeFrom(v) <= |v|
    requires LegalMark(None, v[CodeFrom(v)..], b, c)
    ensures var tau := Quote(None, v[CodeFrom(v)..]);
            var st' := Flush(st).(precon := true, schar := tau, line1 := v, prep := c);
            ConcatLine(st, Marked(v, b, c)) == Some(st') && Going(st')
  {
    var s, p, w := Marked(v, b, c), CodeFrom(v) - 2, v[CodeFrom(v)..];
    FirstParts(v, b, c);
    FirstScan(st, v, b, c);
    LineRead(st, s, p, |v|, c, Quote(None, w), 0);
    assert s[..|v|] == v;
    ConcatNothing(v);
  }

  lemma {:induction false} FirstScan(st: State, v: string, b: string, c: string)
    requires !st.precon && IsDirective(v) && CodeFrom(v) <= |v|
    requires LegalMark(None, v[CodeFrom(v)..], b, c)
    ensures var s, tau := Marked(v, b, c), Quote(None, v[CodeFrom(v)..]);
            CodeFrom(v) <= |s| && Examine(st, s, CodeFrom(v) - 2) == Found(true, |v|, c, tau) &&
            (tau.Some? ==> IsQuote(tau.value))
  {
    var n, w := CodeFrom(v), v[CodeFrom(v)..];
    FirstParts(v, b, c);
    MarkScan(None, w, b, c);
    MarkFound(v[..n], w, b, c, Quote(None, w));
    ClosedStart(st, Marked(v, b, c), n - 2, Marked(w, b, c));
  }

  lemma {:induction false} ClosedStart(st: State, s: string, p: nat, u: string)
    requires !st.precon && p + 2 <= |s| && s[p + 2..] == u
    ensures Examine(st, s, p) == FindEnd(s, Shift(p + 2, ScanFrom(None, u)))
  {
    ScanAtFrom(None, s, p + 2);
  }

  lemma {:induction false} FirstParts(v: string, b: string, c: string)
    requires IsDirective(v) && CodeFrom(v) <= |v|
    ensures var s, n := Marked(v, b, c), CodeFrom(v);
            && IsDirective(s) && SkipBlank(s, 0) == n - 2 && n <= |s| && s[n..] == Marked(v[n..], b, c)
            && s == v[..n] + Marked(v[n..], b, c)
  {
    SkipBlankMore(v, "&" + (b + c), 0);
    var n := CodeFrom(v);
    assert v == v[..n] + v[n..];
    ConcatAssoc(v[..n], v[n..], "&" + (b + c));
  }

  // ----- the last line

  /** The code of the line, which may have a comment behind it, is there and does not end in an
      ampersand. */
  predicate LegalLast(sigma: Option<char>, v: string, b: string, c: string) {
    && v != "" && !IsBlank(v[|v| - 1]) && v[|v| - 1] != '&' && v[|v| - 1] != '!'
    && Blanks(b) && ScanFrom(sigma, v) == End && (c == "" || c[0] == '!')
  }

  lemma {:induction false} EndScan(sigma: Option<char>, v: string, b: string, c: string)
    requires LegalLast(sigma, v, b, c)
    ensures ScanFrom(sigma, v + (b + c)) == Behind(None, |v| + |b|, c)
  {
    EndClosed(sigma, v);
    ScanConcat(sigma, v, b + c);
    BlankQuiet(b);
    ScanPast(b, c);
  }

  /** Stepping back over what is behind the code leads to its last character. */
  lemma {:induction false} CodeFound(s: string, k: nat, n: nat, c: string, g: Scan)
    requires k < n <= |s| && s[n..] == c && !IsBlank(s[k]) && s[k] != '&' && s[k] != '!'
    requires (forall j :: k < j < n ==> IsBlank(s[j])) && (c == "" || c[0] == '!') && g == Behind(None, n, c)
    ensures var r := FindEnd(s, g); r.Found? && !r.nextcon && r.schar == None
  {
    if c == "" {
      BackTo(s, k, |s|);
    } else {
      assert s[n] == s[n..][0] == '!';
      BackTo(s, k, n);
    }
  }

  lemma {:induction false} LastParts(a: string, v: string, b: string, c: string)
    requires v != "" && Blanks(b)
    ensures var s, k := a + (v + (b + c)), |a| + |v|;
            && |s| == k + |b| + |c| && s[k - 1] == v[|v| - 1] && s[k + |b|..] == c
            && forall j :: k <= j < k + |b| ==> IsBlank(s[j])
  {
    var s, k := a + (v + (b + c)), |a| + |v|;
    forall j | k <= j < k + |b|
      ensures IsBlank(s[j])
    {
      assert s[j] == b[j - k];
      BlankAll(b, j - k);
    }
  }

  lemma {:induction false} LastFound(a: string, v: string, b: string, c: string, sigma: Option<char>)
    requires LegalLast(sigma, v, b, c)
    ensures var r := FindEnd(a + (v + (b + c)), Shift(|a|, Behind(None, |v| + |b|, c)));
            r.Found? && !r.nextcon && r.schar == None
  {
    var k := |a| + |v|;
    LastParts(a, v, b, c);
    ShiftBehind(None, |a|, |v| + |b|, c);
    CodeFound(a + (v + (b + c)), k - 1, k + |b|, c, Shift(|a|, Behind(None, |v| + |b|, c)));
  }

  lemma {:induction false} LastOf(st: State, f: Front, v: string, b: string, c: string)
    requires LegalFront(f, v + (b + c)) && Going(st) && (st.schar.Some? ==> f.amp) && LegalLast(st.schar, v, b, c)
    ensures ConcatLine(st, FrontText(f) + (v + (b + c))) == Some(Ended(st, Added(f, v + (b + c))))
  {
    var u, a := v + (b + c), FrontText(f);
    FrontShape(f, u);
    FrontStart(st, f, u);
    EndExamined(st, f, v, b, c);
    LastLineTaken(st, a + u, |f.indent|, Examine(st, a + u, |f.indent|), |a| - (if f.amp then 0 else 1));
    AddedText(f, u);
  }

  lemma {:induction false} EndExamined(st: State, f: Front, v: string, b: string, c: string)
    requires LegalFront(f, v + (b + c)) && Going(st) && (st.schar.Some? ==> f.amp) && LegalLast(st.schar, v, b, c)
    ensures var s := FrontText(f) + (v + (b + c));
            |f.indent| + 2 <= |s| &&
            var r := Examine(st, s, |f.indent|); r.Found? && !r.nextcon && r.schar == None
  {
    FrontScan(st, f, v + (b + c));
    EndScan(st.schar, v, b, c);
    LastFound(FrontText(f), v, b, c, st.schar);
  }

  lemma {:induction false} LastLineTaken(st: State, s: string, p: nat, r: Found, i: nat)
    requires IsDirective(s) && SkipBlank(s, 0) == p && p + 2 <= |s| && Examine(st, s, p) == r && st.precon
    requires r.Found? && !r.nextcon && r.schar == None && Start(st, s, p) == i <= |s|
    ensures ConcatLine(st, s) == Some(Ended(st, s[i..]))
  {
  }

  // ----- all lines of a directive

  /** A continuation line: what stands ahead of its text, blanks behind it, and perhaps a comment. */
  datatype Piece = Piece(front: Front, text: string, post: string, comment: string)

  function GoingText(p: Piece): string {
    FrontText(p.front) + Marked(p.text, p.post, p.comment)
  }

  function LastText(p: Piece): string {
    p.text + (p.post + p.comment)
  }

  function Lines(ps: seq<Piece>, last: Piece): seq<string> {
    if ps == [] then [FrontText(last.front) + LastText(last)] else [GoingText(ps[0])] + Lines(ps[1..], last)
  }

  /** Legal lines behind a text that leaves the string `sigma` open, or none: inside a string, a line
      needs its ampersand. */
  predicate LegalLines(sigma: Option<char>, ps: seq<Piece>, last: Piece)
    decreases ps
  {
    if ps == [] then
      && LegalFront(last.front, LastText(last)) && (sigma.Some? ==> last.front.amp)
      && LegalLast(sigma, last.text, last.post, last.comment)
    else
      var p := ps[0];
      && LegalFront(p.front, Marked(p.text, p.post, p.comment)) && (p.front.amp || p.text != "")
      && (sigma.Some? ==> p.front.amp) && LegalMark(sigma, p.text, p.post, p.comment)
      && LegalLines(Quote(sigma, p.text), ps[1..], last)
  }

  function JoinedText(sigma: Option<char>, ps: seq<Piece>, last: Piece): string
    requires LegalLines(sigma, ps, last)
    decreases ps
  {
    if ps == [] then Added(last.front, LastText(last))
    else Added(ps[0].front, ps[0].text) + JoinedText(Quote(sigma, ps[0].text), ps[1..], last)
  }

  function Comments(ps: seq<Piece>): seq<string> {
    if ps == [] then [] else (if ps[0].comment == "" then [] else [ps[0].comment]) + Comments(ps[1..])
  }

  lemma {:induction false} LinesJoined(st: State, ps: seq<Piece>, last: Piece)
    requires Going(st) && LegalLines(st.schar, ps, last)
    ensures ConcatLines(st, Lines(ps, last)) ==
            Some(st.(precon := false, schar := None, line1 := st.line1 + JoinedText(st.schar, ps, last),
                     cls := st.cls + Comments(ps)))
    decreases ps
  {
    if ps == [] {
      LastOf(st, last.front, last.text, last.post, last.comment);
      ConcatLinesCons(st, FrontText(last.front) + LastText(last), []);
      ConcatNothing([FrontText(last.front) + LastText(last)]);
      ConcatNothing(st.cls);
    } else {
      var p := ps[0];
      var st' := Continued(st, Quote(st.schar, p.text), Added(p.front, p.text), p.comment);
      GoingLine(st, p.front, p.text, p.post, p.comment);
      ConcatLinesCons(st, GoingText(p), Lines(ps[1..], last));
      LinesJoined(st', ps[1..], last);
      ConcatAssoc(st.line1, Added(p.front, p.text), JoinedText(st'.schar, ps[1..], last));
      ConcatAssoc(st.cls, if p.comment == "" then [] else [p.comment], Comments(ps[1..]));
      ConcatNothing(st.cls);
    }
  }

  /** A directive continued in any legal way comes out behind what came before as its first comment, one
      line with the text of all its pieces, and the other comments. */
  lemma {:induction false} DirectiveJoined(st: State, v: string, b: string, c: string, ps: seq<Piece>, last: Piece)
    requires !st.precon && IsDirective(v) && CodeFrom(v) <= |v| && LegalMark(None, v[CodeFrom(v)..], b, c)
    requires LegalLines(Quote(None, v[CodeFrom(v)..]), ps, last)
    ensures var r := ConcatLines(st, [Marked(v, b, c)] + Lines(ps, last));
            r.Some? && !r.value.precon && Output(r.value) ==
            Output(st) + c + (v + JoinedText(Quote(None, v[CodeFrom(v)..]), ps, last)) + Flatten(Comments(ps))
  {
    var tau := Quote(None, v[CodeFrom(v)..]);
    var st' := Flush(st).(precon := true, schar := tau, line1 := v, prep := c);
    FirstOf(st, v, b, c);
    ConcatLinesCons(st, Marked(v, b, c), Lines(ps, last));
    LinesJoined(st', ps, last);
    ConcatNothing(Comments(ps));
  }

  // ----- other lines

  lemma {:induction false} SkipFrom(b: string, r: string)
    requires Blanks(b) && (r == "" || !IsBlank(r[0]))
    ensures SkipBlank(b + r, 0) == |b|
  {
    var s := b + r;
    forall k | 0 <= k < |b|
      ensures IsBlank(s[k])
    {
      assert s[k] == b[k] && b[k] in b;
    }
    if r != "" {
      assert s[|b|] == r[0];
      SkipBlankTo(s, 0, |b|);
    } else {
      SkipAll(s, 0);
    }
  }

  lemma {:induction false} SkipAll(s: string, i: nat)
    requires i <= |s| && forall k :: i <= k < |s| ==> IsBlank(s[k])
    ensures SkipBlank(s, i) == |s|
    decreases |s| - i
  {
    if i < |s| {
      SkipAll(s, i + 1);
    }
  }

  /** A line that does not start with an exclamation mark and a dollar sign, up to blanks, is no directive:
      it is kept for later and changes nothing else. */
  lemma {:induction false} OtherLine(st: State, b: string, r: string)
    requires Blanks(b) && (r == "" || !IsBlank(r[0])) && !("!$" <= r)
    ensures ConcatLine(st, b + r) == Some(st.(cls := st.cls + [b + r]))
  {
    var s := b + r;
    SkipFrom(b, r);
    assert |s| == |b| + |r|;
    if |r| >= 2 {
      assert s[|b|] == r[0] && s[|b| + 1] == r[1] && r[..2] == [r[0], r[1]];
    } else if |r| == 1 {
      assert s[|b|] == r[0];
    }
  }
}
