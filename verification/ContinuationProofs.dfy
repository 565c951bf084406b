/** Joining undoes splitting, even where a split falls into a string or between doubled quotes. */
module ContinuationProofs {
  import opened Wrappers
  import opened LangStr
  import opened Continuation

  /** A directive word short enough to be repeated, free of ampersands, with no comment and all strings
      closed. */
  predicate PlainWord(w: string) {
    && 2 <= |w| < 100 && w[0] == '!' && w[1] == '$'
    && (forall k :: 0 <= k < |w| ==> !IsBlank(w[k]) && w[k] != '&')
    && ScanFrom(None, w[2..]) == End
  }

  /** At the end of a text without comment and open string no string is open. */
  lemma {:induction false} EndClosed(st: Option<char>, t: string)
    requires ScanFrom(st, t) == End
    ensures Quote(st, t) == None
    decreases |t|
  {
    if t != "" {
      EndClosed(QuoteStep(st, t[0]), t[1..]);
    }
  }

  lemma {:induction false} SkipWordTo(s: string, i: nat, j: nat)
    requires i <= j < |s| && (forall k :: i <= k < j ==> !IsBlank(s[k]) && s[k] != '&') &&
             (IsBlank(s[j]) || s[j] == '&')
    ensures SkipWord(s, i, true) == j
    decreases j - i
  {
    if i < j {
      SkipWordTo(s, i + 1, j);
    }
  }

  // ----- one continuation line

  function Line(w: string, u: string): string {
    w + " &" + u
  }

  /** Behind the repeated word and the marker comes the text. */
  lemma {:induction false} LineShape(w: string, u: string)
    requires PlainWord(w)
    ensures var s := Line(w, u);
            && |s| == |w| + 2 + |u| && s[..|w|] == w && s[|w|] == ' ' && s[|w| + 1] == '&' && s[|w| + 2..] == u
            && SkipBlank(s, 0) == 0 && IsDirective(s)
            && SkipWord(s, 0, true) == |w| && SkipBlank(s, |w|) == |w| + 1
  {
    var s := Line(w, u);
    assert forall k :: 0 <= k < |w| ==> s[k] == w[k];
    forall k | 0 <= k < |w|
      ensures !IsBlank(s[k]) && s[k] != '&'
    {
      assert s[k] == w[k] && !IsBlank(w[k]);
    }
    SkipWordTo(s, 0, |w|);
  }

  lemma {:induction false} ContinuedStart(st: State, w: string, u: string)
    requires PlainWord(w) && st.precon
    ensures var s := Line(w, u);
            |s| >= |w| + 2 && StringMark(s, 0) == |w| + 1 && Start(st, s, 0) == |w| + 2
  {
    LineShape(w, u);
    var s := Line(w, u);
    SkipWordTo(s, |w| + 1, |w| + 1);
    assert !IsBlank(s[|w| + 1]);
    assert SkipBlank(s, |w| + 1) == |w| + 1;
  }

  /** The text is read on in the state that the line before was left in. */
  lemma {:induction false} ContinuedScan(st: State, w: string, u: string)
    requires PlainWord(w) && st.precon
    ensures |Line(w, u)| >= 2 &&
            Examine(st, Line(w, u), 0) == FindEnd(Line(w, u), Shift(|w| + 2, ScanFrom(st.schar, u)))
  {
    LineShape(w, u);
    ContinuedStart(st, w, u);
    if st.schar.Some? {
      OpenFront(st, Line(w, u), 0, |w| + 2, u);
    } else {
      WordScan(w, u);
      ClosedFront(st, Line(w, u), 0, |w| + 2, u);
    }
  }

  /** Behind the first `n` characters of the line `s` stands the text `u`: in an open string reading goes
      on there, and otherwise it comes there if nothing ahead is a comment or a string. */
  lemma {:induction false} OpenFront(st: State, s: string, p: nat, n: nat, u: string)
    requires st.precon && st.schar.Some? && p + 2 <= n <= |s| && StringMark(s, p) == n - 1 && s[n..] == u
    ensures Examine(st, s, p) == FindEnd(s, Shift(n, ScanFrom(st.schar, u)))
  {
    ScanAtFrom(st.schar, s, n);
  }

  lemma {:induction false} ClosedFront(st: State, s: string, p: nat, n: nat, u: string)
    requires st.schar.None? && p + 2 <= n <= |s| && ScanFrom(None, s[p + 2..]) == Shift(n - p - 2, ScanFrom(None, u))
    ensures Examine(st, s, p) == FindEnd(s, Shift(n, ScanFrom(st.schar, u)))
  {
    var g := ScanFrom(None, u);
    ScanAtFrom(None, s, p + 2);
    ShiftTwice(p + 2, n - p - 2, g);
    assert ScanAt(None, s, p + 2) == Shift(p + 2, Shift(n - p - 2, g)) == Shift(n, g);
  }

  lemma {:induction false} ShiftTwice(a: nat, b: nat, g: Scan)
    ensures Shift(a, Shift(b, g)) == Shift(a + b, g)
  {
  }

  lemma {:induction false} WordScan(w: string, u: string)
    requires PlainWord(w)
    ensures ScanFrom(None, Line(w, u)[2..]) == Shift(|w|, ScanFrom(None, u))
  {
    var v, tail := w[2..], " &" + u;
    EndClosed(None, v);
    ConcatAssoc(w, " &", u);
    assert Line(w, u)[2..] == v + tail;
    ScanConcat(None, v, tail);
    assert tail[0] == ' ' && tail[1..] == "&" + u && ("&" + u)[1..] == u;
    ShiftTwice(1, 1, ScanFrom(None, u));
    ShiftTwice(|v|, 2, ScanFrom(None, u));
  }

  /** A line that ends in the marker goes on, in the string its text leaves open. */
  lemma {:induction false} MarkedEnd(s: string, g: Scan, tau: Option<char>)
    requires |s| >= 2 && s[|s| - 2] == '&' && s[|s| - 1] == '\n'
    requires g == if tau.Some? then Open(tau.value) else End
    ensures FindEnd(s, g) == Found(true, |s| - 2, "", tau)
  {
    assert BackOver(s, |s|) == BackOver(s, |s| - 1) == BackOver(s, |s| - 2) == |s| - 2;
    assert LastNonBlank(s, |s| - 1) == LastNonBlank(s, |s| - 2) == |s| - 2;
  }

  lemma {:induction false} MarkerScan(sigma: Option<char>, u: string)
    requires !ScanFrom(sigma, u).Bang? && (sigma.Some? ==> IsQuote(sigma.value))
    ensures var tau := Quote(sigma, u); ScanFrom(sigma, u + "&\n") == if tau.Some? then Open(tau.value) else End
    ensures Quote(sigma, u).Some? ==> IsQuote(Quote(sigma, u).value)
  {
    ScanConcat(sigma, u, "&\n");
    QuoteIsQuote(sigma, u);
    var tau := Quote(sigma, u);
    assert "&\n"[1..] == "\n" && "\n"[1..] == "";
    assert ScanFrom(tau, "&\n") == Shift(1, ScanFrom(tau, "\n")) && ScanFrom(tau, "\n") == Shift(1, ScanFrom(tau, ""));
  }

  lemma {:induction false} QuoteIsQuote(sigma: Option<char>, u: string)
    requires sigma.Some? ==> IsQuote(sigma.value)
    ensures Quote(sigma, u).Some? ==> IsQuote(Quote(sigma, u).value)
    decreases |u|
  {
    if u != "" {
      QuoteIsQuote(QuoteStep(sigma, u[0]), u[1..]);
    }
  }

  predicate Going(st: State) {
    st.precon && (st.schar.Some? ==> IsQuote(st.schar.value))
  }

  lemma {:induction false} MiddleLine(st: State, w: string, u: string)
    requires PlainWord(w) && Going(st) && !ScanFrom(st.schar, u).Bang?
    ensures var st' := st.(schar := Quote(st.schar, u), line1 := st.line1 + u);
            ConcatLine(st, Line(w, u) + "&\n") == Some(st') && Going(st')
  {
    var s := Line(w, u + "&\n");
    assert Line(w, u) + "&\n" == s;
    LineShape(w, u + "&\n");
    ContinuedStart(st, w, u + "&\n");
    MiddleExamined(st, w, u);
    assert s[|w| + 2..|s| - 2] == u;
    MarkedRead(st, s, |s| - 2, Quote(st.schar, u));
  }

  lemma {:induction false} MiddleExamined(st: State, w: string, u: string)
    requires PlainWord(w) && Going(st) && !ScanFrom(st.schar, u).Bang?
    ensures var s := Line(w, u + "&\n"); |s| >= 2 && Examine(st, s, 0) == Found(true, |s| - 2, "", Quote(st.schar, u))
    ensures Quote(st.schar, u).Some? ==> IsQuote(Quote(st.schar, u).value)
  {
    var s := Line(w, u + "&\n");
    ContinuedScan(st, w, u + "&\n");
    MarkerScan(st.schar, u);
    MarkedEnd(s, ScanFrom(st.schar, u + "&\n"), Quote(st.schar, u));
  }

  /** A line found to be continued adds its text up to the marker. */
  lemma {:induction false} MarkedRead(st: State, s: string, cut: nat, tau: Option<char>)
    requires IsDirective(s) && SkipBlank(s, 0) + 2 <= |s| &&
             Examine(st, s, SkipBlank(s, 0)) == Found(true, cut, "", tau)
    ensures var st1 := if st.precon then st else Flush(st);
            ConcatLine(st, s) ==
            Some(st1.(precon := true, schar := tau, line1 := st1.line1 + Cut(s, Start(st, s, SkipBlank(s, 0)), cut)))
  {
  }

  lemma {:induction false} ClosedEnd(s: string, g: Scan)
    requires !g.Open?
    ensures var f := FindEnd(s, g);
            f.Found? && f.schar == None && (f.nextcon <==> At(s, BackOver(s, CodeEnd(s, g))) == '&')
  {
  }

  /** Stepping back from where the code of the text `r` ends leads to an ampersand. */
  predicate Marked(sigma: Option<char>, w: string, r: string) {
    At(Line(w, r), BackOver(Line(w, r), |w| + 2 + CodeEnd(r, ScanFrom(sigma, r)))) == '&'
  }

  /** The line is closed, and continued exactly if it is marked so. */
  predicate IsClosed(f: Found, marked: bool) {
    f.Found? && f.schar == None && (f.nextcon <==> marked)
  }

  lemma {:induction false} LastExamined(st: State, w: string, r: string)
    requires PlainWord(w) && Going(st) && !ScanFrom(st.schar, r).Open?
    ensures |Line(w, r)| >= 2 && IsClosed(Examine(st, Line(w, r), 0), Marked(st.schar, w, r))
  {
    ContinuedScan(st, w, r);
    MarkedFound(Examine(st, Line(w, r), 0), st.schar, w, r);
  }

  lemma {:induction false} MarkedFound(f: Found, sigma: Option<char>, w: string, r: string)
    requires f == FindEnd(Line(w, r), Shift(|w| + 2, ScanFrom(sigma, r))) && !ScanFrom(sigma, r).Open?
    ensures IsClosed(f, Marked(sigma, w, r))
  {
    LineLength(w, r);
    EndFound(f, Line(w, r), r, |w| + 2, ScanFrom(sigma, r), Marked(sigma, w, r));
  }

  lemma {:induction false} LineLength(w: string, u: string)
    ensures |Line(w, u)| == |w| + 2 + |u|
  {
  }

  /** What the end of a line is found to be whose text `r` stands behind its first `k` characters. */
  lemma {:induction false} EndFound(f: Found, s: string, r: string, k: nat, g: Scan, marked: bool)
    requires f == FindEnd(s, Shift(k, g)) && |s| == k + |r| && !g.Open?
    requires marked <==> At(s, BackOver(s, k + CodeEnd(r, g))) == '&'
    ensures IsClosed(f, marked)
  {
    assert CodeEnd(s, Shift(k, g)) == k + CodeEnd(r, g);
    ClosedEnd(s, Shift(k, g));
  }

  /** The state behind the last line. */
  function Ended(st: State, r: string): State {
    st.(precon := false, schar := None, line1 := st.line1 + r)
  }

  predicate Ends(r: Option<State>, st: State, marked: bool) {
    r.Some? && r.value.precon == marked && (!marked ==> r.value == st)
  }

  lemma {:induction false} LastLine(st: State, w: string, r: string)
    requires PlainWord(w) && Going(st) && !ScanFrom(st.schar, r).Open?
    ensures Ends(ConcatLine(st, Line(w, r)), Ended(st, r), Marked(st.schar, w, r))
  {
    LineShape(w, r);
    ContinuedStart(st, w, r);
    LastExamined(st, w, r);
    LastLineRead(st, Line(w, r), Examine(st, Line(w, r), 0), r);
  }

  lemma {:induction false} LastLineRead(st: State, s: string, f: Found, r: string)
    requires IsDirective(s) && SkipBlank(s, 0) == 0 && |s| >= 2 && f == Examine(st, s, 0) && f.Found? && f.schar == None
    requires st.precon && s[Start(st, s, 0)..] == r
    ensures Ends(ConcatLine(st, s), Ended(st, r), f.nextcon)
  {
  }

  // ----- a whole line

  lemma {:induction false} SkipBlankPrefix(s: string, i: nat, n: nat)
    requires i <= n <= |s| && SkipBlank(s, i) < n
    ensures SkipBlank(s[..n], i) == SkipBlank(s, i)
    decreases |s| - i
  {
    if IsBlank(s[i]) {
      SkipBlankPrefix(s, i + 1, n);
    }
  }

  lemma {:induction false} SkipBlankMore(s: string, t: string, i: nat)
    requires i <= |s| && SkipBlank(s, i) < |s|
    ensures SkipBlank(s + t, i) == SkipBlank(s, i)
    decreases |s| - i
  {
    if IsBlank(s[i]) {
      SkipBlankMore(s, t, i + 1);
    }
  }

  /** The first piece of a directive line is one itself. */
  lemma {:induction false} FirstShape(s: string)
    requires IsDirective(s) && SkipBlank(s, 0) + 2 <= 131 <= |s|
    ensures var p, h := SkipBlank(s, 0), s[..131] + "&\n";
            && SkipBlank(h, 0) == p && IsDirective(h) && |h| == 133 && h[131] == '&' && h[132] == '\n'
            && h[p + 2..] == s[p + 2..131] + "&\n" && h[..131] == s[..131]
  {
    var p := SkipBlank(s, 0);
    SkipBlankPrefix(s, 0, 131);
    SkipBlankMore(s[..131], "&\n", 0);
  }

  lemma {:induction false} FirstLine(st: State, s: string)
    requires IsDirective(s) && SkipBlank(s, 0) + 2 <= 131 <= |s| && !st.precon
    requires !ScanFrom(None, s[SkipBlank(s, 0) + 2..131]).Bang?
    ensures var st' := Flush(st).(precon := true, schar := Quote(None, s[SkipBlank(s, 0) + 2..131]), line1 := s[..131]);
            ConcatLine(st, s[..131] + "&\n") == Some(st') && Going(st')
  {
    var p, h := SkipBlank(s, 0), s[..131] + "&\n";
    FirstShape(s);
    var u := s[p + 2..131];
    MarkerScan(None, u);
    ScanAtFrom(None, h, p + 2);
    FirstExamined(st, h, p, u);
    MarkedRead(st, h, 131, Quote(None, u));
    assert Cut(h, 0, 131) == s[..131];
    ConcatNothing(s[..131]);
  }

  lemma {:induction false} FirstExamined(st: State, h: string, p: nat, u: string)
    requires !st.precon && p + 2 <= |h| == 133 && h[131] == '&' && h[132] == '\n' && !ScanFrom(None, u).Bang?
    requires ScanAt(None, h, p + 2) == Shift(p + 2, ScanFrom(None, u + "&\n"))
    ensures Examine(st, h, p) == Found(true, 131, "", Quote(None, u))
  {
    MarkerScan(None, u);
    MarkedEnd(h, ScanFrom(None, u + "&\n"), Quote(None, u));
  }

  lemma {:induction false} ConcatLinesCons(st: State, l: string, ls: seq<string>)
    ensures ConcatLines(st, [l] + ls) ==
            match ConcatLine(st, l) case None => None case Some(st') => ConcatLines(st', ls)
  {
    assert ([l] + ls)[0] == l && ([l] + ls)[1..] == ls;
  }

  /** The last character of code at or before `q`, down to `b`. */
  function LastCode(s: string, q: nat, b: nat): Option<char>
    decreases q
  {
    if q < b then None
    else if At(s, q) == '!' || IsBlank(At(s, q)) then (if q == 0 then None else LastCode(s, q - 1, b))
    else Some(At(s, q))
  }

  /** Where the last of the continuation lines starts in the line. */
  function TailStart(s: string, word: string, a: nat, eol: nat): (r: nat)
    requires a <= |s| && |word| < 100 && eol <= |s| + 1
    ensures a <= r <= |s|
    decreases |s| + 1 - a
  {
    if eol > a + 130 - |word| then TailStart(s, word, a + 129 - |word|, eol) else a
  }

  lemma {:induction false} BackTail(w: string, s: string, b: nat, q: nat)
    requires PlainWord(w) && b <= |s| && b <= q + 1 && q <= |s|
    ensures var l := Line(w, s[b..]);
            At(l, BackOver(l, |w| + 2 + q - b)) == match LastCode(s, q, b) case None => '&' case Some(c) => c
  {
    var l := Line(w, s[b..]);
    LineShape(w, s[b..]);
    if b <= q {
      assert At(l, |w| + 2 + q - b) == At(s, q) by {
        if q < |s| {
          assert l[|w| + 2..][q - b] == s[b..][q - b];
        }
      }
      if At(s, q) == '!' || IsBlank(At(s, q)) {
        if q == 0 {
          assert BackOver(l, |w| + 2) == BackOver(l, |w| + 1) == |w| + 1;
        } else {
          BackTail(w, s, b, q - 1);
        }
      }
    }
  }

  /** The code of `s` from `c` on stops at `e`, outside strings. */
  predicate Coded(s: string, c: nat, e: nat) {
    c <= e <= |s| && !ScanFrom(None, s[c..]).Open? && e == c + CodeEnd(s[c..], ScanFrom(None, s[c..]))
  }

  /** Up to any position in the code the strings are balanced as the reader finds them. */
  lemma {:induction false} SplitScan(s: string, c: nat, e: nat, a: nat, b: nat)
    requires Coded(s, c, e) && c <= a <= b <= e
    ensures var tau := Quote(None, s[c..a]);
            && !ScanFrom(None, s[c..a]).Bang? && !ScanFrom(tau, s[a..b]).Bang?
            && !ScanFrom(tau, s[a..]).Open? && CodeEnd(s[a..], ScanFrom(tau, s[a..])) == e - a
            && Quote(tau, s[a..b]) == Quote(None, s[c..b])
  {
    var tau := Quote(None, s[c..a]);
    assert s[c..] == s[c..a] + s[a..] && s[a..] == s[a..b] + s[b..] && s[c..b] == s[c..a] + s[a..b];
    ScanConcat(None, s[c..a], s[a..]);
    ScanConcat(tau, s[a..b], s[b..]);
    QuoteConcat(None, s[c..a], s[a..b]);
  }

  /** What decides whether the reader takes the line from `b` on to be continued. */
  predicate CodeThere(s: string, e: nat, b: nat) {
    match LastCode(s, e, b) case None => false case Some(c) => c != '&'
  }

  /** Joining ends with the whole line, unless the last line looks continued. */
  predicate JoinedTo(r: Option<State>, st: State, tail: string, closed: bool) {
    Ends(r, Ended(st, tail), !closed)
  }

  lemma {:induction false} TailMarked(tau: Option<char>, w: string, s: string, e: nat, a: nat)
    requires PlainWord(w) && a <= e <= |s| && CodeEnd(s[a..], ScanFrom(tau, s[a..])) == e - a
    ensures Marked(tau, w, s[a..]) <==> !CodeThere(s, e, a)
  {
    BackTail(w, s, a, e);
  }

  lemma {:induction false} TailJoined(st: State, w: string, s: string, c: nat, e: nat, a: nat)
    requires PlainWord(w) && Coded(s, c, e) && c <= a <= e && Going(st) && st.schar == Quote(None, s[c..a])
    ensures JoinedTo(ConcatLine(st, Line(w, s[a..])), st, s[a..], CodeThere(s, e, a))
  {
    SplitScan(s, c, e, a, a);
    TailMarked(st.schar, w, s, e, a);
    LastLine(st, w, s[a..]);
  }

  /** One more line with the text from `a` to `b` has been read. */
  function Went(st: State, s: string, a: nat, b: nat): State
    requires a <= b <= |s|
  {
    st.(schar := Quote(st.schar, s[a..b]), line1 := st.line1 + s[a..b])
  }

  lemma {:induction false} StepOn(st: State, st': State, l: string, ls: seq<string>, all: seq<string>)
    requires all == [l] + ls && ConcatLine(st, l) == Some(st')
    ensures ConcatLines(st, all) == ConcatLines(st', ls)
  {
    ConcatLinesCons(st, l, ls);
  }

  lemma {:induction false} MiddleRead(st: State, w: string, s: string, c: nat, e: nat, a: nat, b: nat)
    requires PlainWord(w) && Coded(s, c, e) && c <= a <= b <= e && Going(st) && st.schar == Quote(None, s[c..a])
    ensures var st' := Went(st, s, a, b);
            ConcatLine(st, Line(w, s[a..b]) + "&\n") == Some(st') && Going(st') && st'.schar == Quote(None, s[c..b])
  {
    SplitScan(s, c, e, a, b);
    MiddleLine(st, w, s[a..b]);
  }

  lemma {:induction false} MoreUnfold(s: string, w: string, a: nat, eol: nat)
    requires a <= |s| && |w| < 100 && eol <= |s| + 1 && eol > a + 130 - |w|
    ensures var b := a + 129 - |w|; More(s, w, a, eol) == [Line(w, s[a..b]) + "&\n"] + More(s, w, b, eol)
  {
  }

  lemma {:induction false} MiddleStep(st: State, w: string, s: string, c: nat, e: nat, a: nat, b: nat,
                                      rest: seq<string>, all: seq<string>)
    requires PlainWord(w) && Coded(s, c, e) && c <= a <= b <= e && Going(st) && st.schar == Quote(None, s[c..a])
    requires all == [Line(w, s[a..b]) + "&\n"] + rest
    ensures var st' := Went(st, s, a, b);
            ConcatLines(st, all) == ConcatLines(st', rest) && Going(st') && st'.schar == Quote(None, s[c..b])
  {
    MiddleRead(st, w, s, c, e, a, b);
    StepOn(st, Went(st, s, a, b), Line(w, s[a..b]) + "&\n", rest, all);
  }

  lemma {:induction false} TailStep(st: State, w: string, s: string, c: nat, e: nat, a: nat)
    requires PlainWord(w) && Coded(s, c, e) && c <= a <= e && Going(st) && st.schar == Quote(None, s[c..a])
    ensures JoinedTo(ConcatLines(st, [Line(w, s[a..])]), st, s[a..], CodeThere(s, e, a))
  {
    TailJoined(st, w, s, c, e, a);
    ConcatLinesCons(st, Line(w, s[a..]), []);
    ConcatNothing([Line(w, s[a..])]);
  }

  lemma {:induction false} JoinedFurther(r: Option<State>, st: State, s: string, a: nat, b: nat, closed: bool)
    requires a <= b <= |s| && JoinedTo(r, Went(st, s, a, b), s[b..], closed)
    ensures JoinedTo(r, st, s[a..], closed)
  {
    TailRegroup(st.line1, s, a, b);
  }

  lemma {:induction false} MoreJoined(st: State, w: string, s: string, c: nat, e: nat, eol: nat, a: nat)
    requires PlainWord(w) && Coded(s, c, e) && c <= a <= e && Going(st) && st.schar == Quote(None, s[c..a]) &&
             eol <= e + 1
    ensures JoinedTo(ConcatLines(st, More(s, w, a, eol)), st, s[a..], CodeThere(s, e, TailStart(s, w, a, eol)))
    decreases |s| - a
  {
    if eol > a + 130 - |w| {
      var b := a + 129 - |w|;
      MoreUnfold(s, w, a, eol);
      MiddleStep(st, w, s, c, e, a, b, More(s, w, b, eol), More(s, w, a, eol));
      MoreJoined(Went(st, s, a, b), w, s, c, e, eol, b);
      JoinedFurther(ConcatLines(st, More(s, w, a, eol)), st, s, a, b, CodeThere(s, e, TailStart(s, w, a, eol)));
    } else {
      TailStep(st, w, s, c, e, a);
    }
  }

  lemma {:induction false} TailRegroup(t: string, s: string, a: nat, b: nat)
    requires a <= b <= |s|
    ensures t + s[a..b] + s[b..] == t + s[a..]
  {
    assert s[a..] == s[a..b] + s[b..];
  }

  /** Where the code of a directive starts, and where it stops. */
  function CodeFrom(s: string): nat {
    SkipBlank(s, 0) + 2
  }

  function CodeStop(s: string): (e: nat)
    requires IsDirective(s)
    ensures CodeFrom(s) <= e <= |s|
  {
    CodeEnd(s, ScanAt(None, s, CodeFrom(s)))
  }

  /** A directive that starts within the first 129 columns, with a plain word and closed strings. */
  predicate Tame(s: string) {
    IsDirective(s) && PlainWord(Word(s)) && CodeFrom(s) <= 131 && !ScanAt(None, s, CodeFrom(s)).Open?
  }

  lemma {:induction false} TameCoded(s: string)
    requires Tame(s)
    ensures Coded(s, CodeFrom(s), CodeStop(s))
  {
    ScanAtFrom(None, s, CodeFrom(s));
  }

  /** Where the last of the lines that `s` is written as starts in `s`. */
  function LastStart(s: string): nat
    requires Tame(s)
  {
    var eol := LineEnd(s, CodeStop(s));
    if eol > WIDTH then TailStart(s, Word(s), 131, eol) else 0
  }

  /** The last line holds code, and the code does not end in an ampersand. */
  predicate EndsWell(s: string)
    requires Tame(s)
  {
    CodeThere(s, CodeStop(s), LastStart(s))
  }

  lemma {:induction false} BackWhole(s: string, q: nat)
    requires IsDirective(s) && CodeFrom(s) <= q + 1
    ensures LastCode(s, q, 0) == Some(At(s, BackOver(s, q)))
  {
    if At(s, q) == '!' || IsBlank(At(s, q)) {
      assert q > SkipBlank(s, 0) + 1;
      BackWhole(s, q - 1);
    }
  }

  lemma {:induction false} WholeJoined(st: State, s: string)
    requires Tame(s) && !st.precon
    ensures JoinedTo(ConcatLine(st, s), Flush(st), s, CodeThere(s, CodeStop(s), 0))
  {
    BackWhole(s, CodeStop(s));
    ClosedEnd(s, ScanAt(None, s, CodeFrom(s)));
    assert s[0..] == s;
  }

  /** The pieces of a line that is split, one after the other. */
  lemma {:induction false} LongPieces(st: State, st': State, s: string, eol: nat)
    requires |s| >= 131 && |Word(s)| < 100 && eol <= |s| + 1 && ConcatLine(st, s[..131] + "&\n") == Some(st')
    ensures ConcatLines(st, [s[..131] + "&\n"] + More(s, Word(s), 131, eol)) ==
            ConcatLines(st', More(s, Word(s), 131, eol))
  {
    ConcatLinesCons(st, s[..131] + "&\n", More(s, Word(s), 131, eol));
  }

  /** The state behind the first piece. */
  function Begun(st: State, s: string): State
    requires IsDirective(s) && CodeFrom(s) <= 131 <= |s|
  {
    Flush(st).(precon := true, schar := Quote(None, s[CodeFrom(s)..131]), line1 := s[..131])
  }

  lemma {:induction false} FirstJoined(st: State, s: string, c: nat, e: nat)
    requires Tame(s) && !st.precon && c == CodeFrom(s) && 131 <= e && Coded(s, c, e)
    ensures 131 <= |s| && ConcatLine(st, s[..131] + "&\n") == Some(Begun(st, s)) && Going(Begun(st, s))
  {
    SplitScan(s, c, e, 131, 131);
    FirstLine(st, s);
  }

  lemma {:induction false} LongJoined(st: State, s: string, c: nat, e: nat, eol: nat)
    requires Tame(s) && !st.precon && c == CodeFrom(s) && Coded(s, c, e) && WIDTH < eol <= e + 1
    ensures 131 <= |s| && JoinedTo(ConcatLines(st, [s[..131] + "&\n"] + More(s, Word(s), 131, eol)), Flush(st), s,
                                   CodeThere(s, e, TailStart(s, Word(s), 131, eol)))
  {
    var st' := Begun(st, s);
    FirstJoined(st, s, c, e);
    LongPieces(st, st', s, eol);
    MoreJoined(st', Word(s), s, c, e, eol, 131);
    WholeLine(s);
    assert Ended(st', s[131..]) == Ended(Flush(st), s);
  }

  lemma {:induction false} WholeLine(s: string)
    requires |s| >= 131
    ensures s[..131] + s[131..] == s && "" + s == s
  {
  }

  lemma {:induction false} ShortJoined(st: State, s: string)
    requires Tame(s) && !st.precon
    ensures JoinedTo(ConcatLines(st, [s]), Flush(st), s, CodeThere(s, CodeStop(s), 0))
  {
    WholeJoined(st, s);
    ConcatLinesCons(st, s, []);
    ConcatNothing([s]);
  }

  /** A directive line is joined again from the lines it was written as, exactly if it ends well:
      otherwise its last line is taken to be continued. */
  lemma {:induction false} LineJoined(st: State, s: string)
    requires Tame(s) && !st.precon
    ensures Pieces(s).Some? && JoinedTo(ConcatLines(st, Pieces(s).value), Flush(st), s, EndsWell(s))
  {
    var eol := LineEnd(s, CodeStop(s));
    TameCoded(s);
    if eol > WIDTH {
      LongJoined(st, s, CodeFrom(s), CodeStop(s), eol);
    } else {
      ShortJoined(st, s);
    }
  }

  lemma {:induction false} BlankCode(s: string, q: nat, b: nat)
    requires b > 0 && forall k :: b <= k < |s| ==> IsBlank(s[k])
    ensures LastCode(s, q, b) == None
    decreases q
  {
    if b <= q {
      BlankCode(s, q - 1, b);
    }
  }

  /** A directive of at least 133 columns with nothing but blanks behind its word is written as several
      lines, and joining takes the last one to be continued. */
  lemma {:induction false} BlankTail(n: nat)
    requires n >= 130
    ensures var s := "!$a" + seq(n, _ => ' ');
            Tame(s) && !EndsWell(s) && var r := ConcatLines(START, Pieces(s).value); r.Some? && r.value.precon
  {
    var s := "!$a" + seq(n, _ => ' ');
    assert !IsBlank('!') && !IsBlank('$') && !IsBlank('a');
    assert s[0] == '!' && s[1] == '$' && s[2] == 'a' && forall k :: 3 <= k < |s| ==> s[k] == ' ';
    assert SkipBlank(s, 0) == 0;
    assert SkipWord(s, 0, false) == SkipWord(s, 1, false) == SkipWord(s, 2, false) == SkipWord(s, 3, false) == 3;
    assert Word(s) == "!$a" && "!$a"[2..] == "a" && "a"[1..] == "";
    assert ScanFrom(None, "a") == Shift(1, ScanFrom(None, ""));
    BlankScan(s, 3);
    assert ScanAt(None, s, 2) == ScanAt(None, s, 3) == End;
    assert LineEnd(s, |s|) == LineEnd(s, |s| - 1) == |s|;
    BlankCode(s, CodeStop(s), LastStart(s));
    LineJoined(START, s);
  }

  lemma {:induction false} BlankScan(s: string, i: nat)
    requires i <= |s| && forall k :: i <= k < |s| ==> s[k] == ' '
    ensures ScanAt(None, s, i) == End
    decreases |s| - i
  {
    if i < |s| {
      BlankScan(s, i + 1);
    }
  }
}
