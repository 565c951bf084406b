/** Whole files: every line is split, the lines of the result are joined, and the file is as before;
    what every written line looks like; and the same splitting for fixed form. */
module ContinuationFile {
  import opened Wrappers
  import opened LangStr
  import opened Continuation
  import opened ContinuationProofs

  function Split(s: string): Option<seq<string>> {
    if !IsDirective(s) then Some([s]) else if |Word(s)| >= 100 then None else Pieces(s)
  }

  function Distribute(ls: seq<string>): Option<seq<string>> {
    if ls == [] then Some([]) else
      var a, b := Split(ls[0]), Distribute(ls[1..]);
      if a.None? || b.None? then None else Some(a.value + b.value)
  }

  /** Everything written once the input has ended. */
  function Output(st: State): string {
    st.out + st.prep + st.line1 + Flatten(st.cls)
  }

  predicate GoodLine(s: string) {
    IsDirective(s) ==> Tame(s) && EndsWell(s)
  }

  lemma {:induction false} FlattenSnoc(ls: seq<string>, l: string)
    ensures Flatten(ls + [l]) == Flatten(ls) + l
  {
    if ls == [] {
      ConcatNothing([l]);
      assert [l][1..] == [];
      ConcatNothing(l);
    } else {
      assert (ls + [l])[1..] == ls[1..] + [l] && (ls + [l])[0] == ls[0];
      FlattenSnoc(ls[1..], l);
      ConcatAssoc(ls[0], Flatten(ls[1..]), l);
    }
  }

  lemma {:induction false} ConcatLinesConcat(st: State, a: seq<string>, b: seq<string>)
    ensures ConcatLines(st, a + b) == match ConcatLines(st, a) case None => None case Some(st') => ConcatLines(st', b)
    decreases |a|
  {
    if a == [] {
      ConcatNothing(b);
    } else {
      assert (a + b)[1..] == a[1..] + b && (a + b)[0] == a[0];
      match ConcatLine(st, a[0])
      case None =>
      case Some(st') => ConcatLinesConcat(st', a[1..], b);
    }
  }

  /** One line of the file comes out again behind everything before it. */
  lemma {:induction false} LineComesOut(st: State, s: string)
    requires GoodLine(s) && !st.precon
    ensures Split(s).Some?
    ensures var r := ConcatLines(st, Split(s).value); r.Some? && !r.value.precon && Output(r.value) == Output(st) + s
  {
    if IsDirective(s) {
      LineJoined(st, s);
      FlushedOutput(st, s);
    } else {
      ConcatLinesCons(st, s, []);
      ConcatNothing([s]);
      FlattenSnoc(st.cls, s);
      ConcatAssoc(st.out + st.prep + st.line1, Flatten(st.cls), s);
    }
  }

  lemma {:induction false} FlushedOutput(st: State, s: string)
    ensures Output(Ended(Flush(st), s)) == Output(st) + s
  {
    ConcatNothing(Output(st));
    ConcatNothing(Output(st) + s);
    ConcatNothing(s);
  }

  lemma {:induction false} FileComesOut(st: State, ls: seq<string>)
    requires (forall l | l in ls :: GoodLine(l)) && !st.precon
    ensures Distribute(ls).Some?
    ensures var r := ConcatLines(st, Distribute(ls).value);
            r.Some? && !r.value.precon && Output(r.value) == Output(st) + Flatten(ls)
    decreases |ls|
  {
    if ls == [] {
      ConcatNothing(Output(st));
    } else {
      assert ls[0] in ls;
      LineComesOut(st, ls[0]);
      var st' := ConcatLines(st, Split(ls[0]).value).value;
      FileComesOut(st', ls[1..]);
      ConcatLinesConcat(st, Split(ls[0]).value, Distribute(ls[1..]).value);
      ConcatAssoc(Output(st), ls[0], Flatten(ls[1..]));
    }
  }

  /** Splitting the lines of a file and joining them again gives the file. */
  lemma {:induction false} FileRejoined(ls: seq<string>)
    requires forall l | l in ls :: GoodLine(l)
    ensures Distribute(ls).Some?
    ensures var r := ConcatLines(START, Distribute(ls).value); r.Some? && Output(r.value) == Flatten(ls)
  {
    FileComesOut(START, ls);
    ConcatNothing(Flatten(ls));
  }

  // ----- what is written

  /** Lines of `width` columns that repeat `head` and end in `tail`, as long as the text does not fit on
      one, the last one with at most `over` columns more; their texts together are `t`. */
  predicate Spread(ls: seq<string>, head: string, tail: string, width: nat, over: nat, t: string)
    decreases |ls|
  {
    && ls != []
    && if |ls| == 1 then ls[0] == head + t && |ls[0]| <= width + over
       else |head| + |t| > width + over &&
            |ls[0]| == width + 1 && |head| + |tail| <= |ls[0]| && |ls[0]| - |head| - |tail| <= |t| &&
            (var k := |ls[0]| - |head| - |tail|;
             ls[0] == head + t[..k] + tail && Spread(ls[1..], head, tail, width, over, t[k..]))
  }

  lemma {:induction false} MoreSpread(s: string, w: string, a: nat, eol: nat)
    requires a <= |s| && |w| < 100 && eol <= |s|
    ensures Spread(More(s, w, a, eol), w + " &", "&\n", 132, |s| - eol, s[a..])
    decreases |s| - a
  {
    var ls := More(s, w, a, eol);
    if eol > a + 130 - |w| {
      var b := a + 129 - |w|;
      MoreSpread(s, w, b, eol);
      assert ls[1..] == More(s, w, b, eol);
      assert s[a..][..b - a] == s[a..b] && s[a..][b - a..] == s[b..];
    }
  }

  lemma {:induction false} EolInLine(s: string)
    requires Tame(s)
    ensures LineEnd(s, CodeStop(s)) <= |s|
  {
    if CodeStop(s) == |s| {
      assert LineEnd(s, |s|) == LineEnd(s, |s| - 1);
    }
  }

  /** What ends a line does not count, nor does a comment but for its first character. */
  lemma {:induction false} LineEndExact(s: string, q: nat)
    ensures var r := LineEnd(s, q);
            && (forall j :: r <= j <= q ==> At(s, j) in {'\0', '\n', '\r'})
            && (r == 1 || (2 <= r <= q + 1 && At(s, r - 1) !in {'\0', '\n', '\r'}))
  {
    if q > 0 && (At(s, q) == '\0' || At(s, q) == '\n' || At(s, q) == '\r') {
      LineEndExact(s, q - 1);
    }
  }

  /** In free form every line but the last has 132 columns, the last at most as many up to a trailing
      comment, and nothing is lost. */
  lemma {:induction false} FreeWidths(s: string)
    requires Tame(s)
    ensures var over := |s| - LineEnd(s, CodeStop(s)); var ls := Pieces(s).value;
            && LineEnd(s, CodeStop(s)) <= |s| && Pieces(s).Some? && ls != []
            && (if |s| <= 132 + over then ls == [s]
                else |ls| > 1 && ls[0] == s[..131] + "&\n" && |ls[0]| == 133 &&
                     Spread(ls[1..], Word(s) + " &", "&\n", 132, over, s[131..]))
  {
    EolInLine(s);
    var eol := LineEnd(s, CodeStop(s));
    if eol > WIDTH {
      MoreSpread(s, Word(s), 131, eol);
      assert Pieces(s).value[1..] == More(s, Word(s), 131, eol);
    }
  }

  // ----- fixed form

  const COLUMNS := 72

  predicate IsFixedDirective(s: string) {
    At(s, 1) == '$' && (At(s, 0) == 'c' || At(s, 0) == 'C' || At(s, 0) == '*' || At(s, 0) == '!')
  }

  function FixedMore(s: string, name: string, a: nat, eol: nat): seq<string>
    requires a <= |s| && eol <= |s| + 1
    decreases |s| + 1 - a
  {
    if eol > a + 66 then [name + "&" + s[a..a + 66] + "\n"] + FixedMore(s, name, a + 66, eol)
    else [name + "&" + s[a..]]
  }

  /** A directive has its text from the seventh column on. */
  function FixedPieces(s: string): Option<seq<string>>
    requires IsFixedDirective(s) && |s| >= 6
  {
    var g := ScanAt(None, s, 6);
    if g.Open? then None else
      var eol := LineEnd(s, CodeEnd(s, g));
      if eol > COLUMNS then Some([s[..72] + "\n"] + FixedMore(s, s[..5], 72, eol)) else Some([s])
  }

  lemma {:induction false} FixedSpread(s: string, name: string, a: nat, eol: nat)
    requires a <= |s| && |name| == 5 && eol <= |s|
    ensures Spread(FixedMore(s, name, a, eol), name + "&", "\n", 72, |s| - eol, s[a..])
    decreases |s| - a
  {
    var ls := FixedMore(s, name, a, eol);
    if eol > a + 66 {
      FixedSpread(s, name, a + 66, eol);
      assert ls[1..] == FixedMore(s, name, a + 66, eol);
      assert s[a..][..66] == s[a..a + 66] && s[a..][66..] == s[a + 66..];
    }
  }

  lemma {:induction false} FixedEol(s: string, g: Scan)
    requires |s| >= 6 && g == ScanAt(None, s, 6)
    ensures LineEnd(s, CodeEnd(s, g)) <= |s|
  {
    if !g.Bang? {
      assert LineEnd(s, |s|) == LineEnd(s, |s| - 1);
    }
  }

  /** In fixed form every line but the last has 72 columns, the last at most as many up to a trailing
      comment, and nothing is lost. */
  lemma {:induction false} FixedWidths(s: string)
    requires |s| >= 6 && s[1] == '$' && (s[0] == 'c' || s[0] == 'C' || s[0] == '*' || s[0] == '!')
    requires FixedPieces(s).Some?
    ensures var eol := LineEnd(s, CodeEnd(s, ScanAt(None, s, 6))); var ls := FixedPieces(s).value;
            && eol <= |s| && ls != []
            && (if eol <= 72 then ls == [s]
                else |ls| > 1 && ls[0] == s[..72] + "\n" &&
                     Spread(ls[1..], s[..5] + "&", "\n", 72, |s| - eol, s[72..]))
  {
    FixedEol(s, ScanAt(None, s, 6));
    var eol := LineEnd(s, CodeEnd(s, ScanAt(None, s, 6)));
    if eol > COLUMNS {
      FixedSpread(s, s[..5], 72, eol);
      assert FixedPieces(s).value[1..] == FixedMore(s, s[..5], 72, eol);
    }
  }
}
