/** Continued directive lines in free form: how a long line is split over several, how continued
    lines are joined, and that joining undoes splitting. Lines keep their newline; the tools
    are only run on directive lines, all others pass through. */
module Continuation {
  import opened Wrappers
  import opened LangStr

  // ----- looking through a line

  /** Where the code of a text ends: at a comment, at its end, or within a string. */
  datatype Scan = Bang(at: nat) | End | Open(quote: char)

  function Shift(k: nat, s: Scan): Scan {
    if s.Bang? then Bang(k + s.at) else s
  }

  /** Reads `t`, being inside a string with quote `st` if there is one. */
  function ScanFrom(st: Option<char>, t: string): (r: Scan)
    ensures r.Bang? ==> r.at < |t|
    decreases |t|
  {
    if t == "" then (if st.Some? then Open(st.value) else End)
    else if st.None? && t[0] == '!' then Bang(0)
    else Shift(1, ScanFrom(QuoteStep(st, t[0]), t[1..]))
  }

  /** The same within a line, from position `i` on. */
  function ScanAt(st: Option<char>, s: string, i: nat): (r: Scan)
    requires i <= |s|
    ensures r.Bang? ==> i <= r.at < |s|
    decreases |s| - i
  {
    if i == |s| then (if st.Some? then Open(st.value) else End)
    else if st.None? && s[i] == '!' then Bang(i)
    else ScanAt(QuoteStep(st, s[i]), s, i + 1)
  }

  lemma {:induction false} ScanAtFrom(st: Option<char>, s: string, i: nat)
    requires i <= |s|
    ensures ScanAt(st, s, i) == Shift(i, ScanFrom(st, s[i..]))
    decreases |s| - i
  {
    if i < |s| && !(st.None? && s[i] == '!') {
      ScanAtFrom(QuoteStep(st, s[i]), s, i + 1);
      assert s[i..][1..] == s[i + 1..] && s[i..][0] == s[i];
    }
  }

  lemma {:induction false} ScanConcat(st: Option<char>, a: string, b: string)
    ensures ScanFrom(st, a).Bang? ==> ScanFrom(st, a + b) == ScanFrom(st, a) && ScanFrom(st, a).at < |a|
    ensures !ScanFrom(st, a).Bang? ==> ScanFrom(st, a + b) == Shift(|a|, ScanFrom(Quote(st, a), b))
    decreases |a|
  {
    if a == "" {
      ConcatNothing(b);
    } else {
      assert (a + b)[1..] == a[1..] + b && (a + b)[0] == a[0];
      if !(st.None? && a[0] == '!') {
        ScanConcat(QuoteStep(st, a[0]), a[1..], b);
      }
    }
  }

  /** Reading on within a string comes to its closing quote and leaves it there, or finds none. */
  predicate StringScanned(s: string, q: char) {
    match Closing(s, q)
    case None => ScanFrom(Some(q), s) == Open(q)
    case Some(n) => n < |s| && ScanFrom(Some(q), s) == Shift(n + 1, ScanFrom(None, s[n + 1..]))
  }

  lemma {:induction false} StringShifted(s: string, q: char, k: nat)
    requires k <= |s| && StringScanned(s[k..], q)
    requires Closing(s, q) == match Closing(s[k..], q) case None => None case Some(n) => Some(n + k)
    requires ScanFrom(Some(q), s) == Shift(k, ScanFrom(Some(q), s[k..]))
    ensures StringScanned(s, q)
  {
    if Closing(s[k..], q).Some? {
      var n := Closing(s[k..], q).value;
      assert s[k..][n + 1..] == s[n + k + 1..];
    }
  }

  /** Two quotes in a row leave the string and enter it again. */
  lemma {:induction false} ScanDoubled(s: string, q: char)
    requires IsQuote(q) && |s| >= 2 && s[0] == s[1] == q
    ensures ScanFrom(Some(q), s) == Shift(2, ScanFrom(Some(q), s[2..]))
  {
    var u := s[1..];
    assert u[0] == q && u[1..] == s[2..];
    assert QuoteStep(Some(q), q) == None && QuoteStep(None, q) == Some(q) && q != '!';
    assert ScanFrom(None, u) == Shift(1, ScanFrom(Some(q), u[1..]));
    assert ScanFrom(Some(q), s) == Shift(1, ScanFrom(None, u));
  }

  /** Doubled quotes do not matter: a string read to its closing quote is left for good. */
  lemma {:induction false} ScanString(s: string, q: char)
    requires IsQuote(q)
    ensures StringScanned(s, q)
    decreases |s|
  {
    if s == "" {
    } else if s[0] != q {
      ScanString(s[1..], q);
      StringShifted(s, q, 1);
    } else if |s| >= 2 && s[1] == q {
      ScanString(s[2..], q);
      ScanDoubled(s, q);
      StringShifted(s, q, 2);
    } else {
      assert Closing(s, q) == Some(0) && ScanFrom(Some(q), s) == Shift(1, ScanFrom(None, s[1..]));
    }
  }

  /** The first position from `i` on that is not blank. */
  function SkipBlank(s: string, i: nat): (r: nat)
    requires i <= |s|
    ensures i <= r <= |s|
    decreases |s| - i
  {
    if i < |s| && IsBlank(s[i]) then SkipBlank(s, i + 1) else i
  }

  /** The end of the word at `i`; an ampersand ends it too if `amp`. */
  function SkipWord(s: string, i: nat, amp: bool): (r: nat)
    requires i <= |s|
    ensures i <= r <= |s|
    decreases |s| - i
  {
    if i < |s| && !IsBlank(s[i]) && !(amp && s[i] == '&') then SkipWord(s, i + 1, amp) else i
  }

  predicate IsDirective(s: string) {
    var p := SkipBlank(s, 0);
    At(s, p) == '!' && At(s, p + 1) == '$'
  }

  /** Steps back from `q` over blanks and exclamation marks, as far as the first character. */
  function BackOver(s: string, q: nat): (r: nat)
    ensures r <= q
  {
    if q > 0 && (At(s, q) == '!' || IsBlank(At(s, q))) then BackOver(s, q - 1) else q
  }

  function LastNonBlank(s: string, q: nat): (r: nat)
    ensures r <= q
  {
    if q > 0 && IsBlank(At(s, q)) then LastNonBlank(s, q - 1) else q
  }

  // ----- splitting

  /** The length of a line without what ends it; a comment counts with its first character only. */
  function LineEnd(s: string, q: nat): (r: nat)
    ensures r <= q + 1
  {
    if q > 0 && (At(s, q) == '\0' || At(s, q) == '\n' || At(s, q) == '\r') then LineEnd(s, q - 1) else q + 1
  }

  const WIDTH := 132

  function Word(s: string): string {
    var p := SkipBlank(s, 0);
    s[p..SkipWord(s, p, false)]
  }

  /** The continuation lines for the text from `a` on, of which everything up to `eol` has to fit. */
  function More(s: string, word: string, a: nat, eol: nat): seq<string>
    requires a <= |s| && |word| < 100 && eol <= |s| + 1
    decreases |s| + 1 - a
  {
    if eol > a + 130 - |word| then
      var b := a + 129 - |word|;
      [word + " &" + s[a..b] + "&\n"] + More(s, word, b, eol)
    else [word + " &" + s[a..]]
  }

  function CodeEnd(s: string, g: Scan): nat {
    if g.Bang? then g.at else |s|
  }

  /** The lines a directive line is written as; none if a string is not closed. */
  function Pieces(s: string): Option<seq<string>>
    requires IsDirective(s) && |Word(s)| < 100
  {
    var p := SkipBlank(s, 0);
    var g := ScanAt(None, s, p + 2);
    if g.Open? then None else
      var eol := LineEnd(s, CodeEnd(s, g));
      if eol > WIDTH then Some([s[..131] + "&\n"] + More(s, Word(s), 131, eol)) else Some([s])
  }

  // ----- joining

  /** Whether the line before was continued, the string it was continued in, the line put together so
      far, a comment to be written ahead of it, lines to be written behind it, and the output. */
  datatype State = State(precon: bool, schar: Option<char>, line1: string, prep: string, cls: seq<string>, out: string)

  const START := State(false, None, "", "", [], "")

  function Flatten(ls: seq<string>): string {
    if ls == [] then "" else ls[0] + Flatten(ls[1..])
  }

  function Flush(st: State): State {
    st.(out := st.out + st.prep + st.line1 + Flatten(st.cls), line1 := "", prep := "", cls := [])
  }

  /** What a directive line is found to be: whether it is continued, where it is cut then, the
      comment behind the cut, and the string it is continued in. */
  datatype Found = Broken | Found(nextcon: bool, cut: nat, comment: string, schar: Option<char>)

  function FindEnd(s: string, g: Scan): Found {
    if g.Open? then
      var q := LastNonBlank(s, if |s| == 0 then 0 else |s| - 1);
      if At(s, q) != '&' then Broken else Found(true, q, "", Some(g.quote))
    else
      var q := BackOver(s, CodeEnd(s, g));
      Found(At(s, q) == '&', q, if g.Bang? && g.at <= |s| then s[g.at..] else "", None)
  }

  /** Where the marker of a continued string stands, or else the start of the directive. */
  function StringMark(s: string, p: nat): (r: nat)
    requires p <= |s|
    ensures r <= |s|
  {
    var q := SkipBlank(s, SkipWord(s, p, true));
    if At(s, q) == '&' then q else p
  }

  /** A string left open in the line before goes on behind the marker. */
  function Examine(st: State, s: string, p: nat): Found
    requires p + 2 <= |s|
  {
    if st.precon && st.schar.Some? then
      var m := StringMark(s, p);
      FindEnd(s, ScanAt(st.schar, s, if m < |s| then m + 1 else m))
    else FindEnd(s, ScanAt(None, s, p + 2))
  }

  /** Where the text that a continuation line adds begins. */
  function Start(st: State, s: string, p: nat): (r: nat)
    requires p + 2 <= |s|
    ensures r <= |s|
  {
    if !st.precon then 0 else
      var m := if st.schar.Some? then StringMark(s, p) else p;
      var p2 := SkipBlank(s, SkipWord(s, m, true));
      if At(s, p2) == '&' then p2 + 1 else if p2 > 0 then p2 - 1 else 0
  }

  function Cut(s: string, a: nat, b: nat): string
    requires a <= |s|
  {
    if a <= b <= |s| then s[a..b] else s[a..]
  }

  /** Reads one line. */
  function ConcatLine(st: State, s: string): Option<State> {
    if !IsDirective(s) then Some(st.(cls := st.cls + [s])) else
      var p := SkipBlank(s, 0);
      match Examine(st, s, p)
      case Broken => None
      case Found(nextcon, cut, comment, schar) =>
        var a := Start(st, s, p);
        var text := if nextcon then Cut(s, a, cut) else s[a..];
        var st1 := if st.precon then st else Flush(st);
        var st2 := if !nextcon || comment == "" then st1
                   else if st.precon then st1.(cls := st1.cls + [comment])
                   else st1.(prep := comment);
        Some(st2.(precon := nextcon, schar := schar, line1 := st2.line1 + text))
  }

  function ConcatLines(st: State, ls: seq<string>): Option<State>
    decreases |ls|
  {
    if ls == [] then Some(st) else
      match ConcatLine(st, ls[0])
      case None => None
      case Some(st') => ConcatLines(st', ls[1..])
  }
}
