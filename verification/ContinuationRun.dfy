/** The two passes over a file as they run: pointers moving through a line, and the state carried
    from line to line when joining. */
module ContinuationRun {
  import opened Wrappers
  import opened LangStr
  import C = Continuation
  import opened ContinuationFile

  // ----- moving through a line

  method SkipBlank(s: string, i: nat) returns (p: nat)
    requires i <= |s|
    ensures p == C.SkipBlank(s, i)
  {
    p := i;
    while p < |s| && IsBlank(s[p])
      invariant p <= |s| && C.SkipBlank(s, p) == C.SkipBlank(s, i)
      decreases |s| - p
    {
      p := p + 1;
    }
  }

  method SkipWord(s: string, i: nat, amp: bool) returns (p: nat)
    requires i <= |s|
    ensures p == C.SkipWord(s, i, amp)
  {
    p := i;
    while p < |s| && !IsBlank(s[p]) && !(amp && s[p] == '&')
      invariant p <= |s| && C.SkipWord(s, p, amp) == C.SkipWord(s, i, amp)
      decreases |s| - p
    {
      p := p + 1;
    }
  }

  method BackOver(s: string, i: nat) returns (q: nat)
    ensures q == C.BackOver(s, i)
  {
    q := i;
    while q > 0 && (At(s, q) == '!' || IsBlank(At(s, q)))
      invariant C.BackOver(s, q) == C.BackOver(s, i)
    {
      q := q - 1;
    }
  }

  method LastNonBlank(s: string, i: nat) returns (q: nat)
    ensures q == C.LastNonBlank(s, i)
  {
    q := i;
    while q > 0 && IsBlank(At(s, q))
      invariant C.LastNonBlank(s, q) == C.LastNonBlank(s, i)
    {
      q := q - 1;
    }
  }

  method LineEnd(s: string, i: nat) returns (eol: nat)
    ensures eol == C.LineEnd(s, i)
  {
    eol := i;
    while eol > 0 && (At(s, eol) == '\0' || At(s, eol) == '\n' || At(s, eol) == '\r')
      invariant C.LineEnd(s, eol) == C.LineEnd(s, i)
    {
      eol := eol - 1;
    }
    eol := eol + 1;
  }

  /** What the string that goes on at `i` does to the search for a comment. */
  lemma {:induction false} StringAt(s: string, i: nat, q: char)
    requires i <= |s| && IsQuote(q)
    ensures match Closing(s[i..], q)
            case None => C.ScanAt(Some(q), s, i) == C.Open(q)
            case Some(n) => i + n + 1 <= |s| && C.ScanAt(Some(q), s, i) == C.ScanAt(None, s, i + n + 1)
  {
    C.ScanAtFrom(Some(q), s, i);
    C.ScanString(s[i..], q);
    match Closing(s[i..], q)
    case None =>
    case Some(n) =>
      C.ScanAtFrom(None, s, i + n + 1);
      assert s[i..][n + 1..] == s[i + n + 1..];
  }

  /** Passes over the string that starts at `i`, to behind its closing quote. */
  method PassString(s: string, i: nat) returns (e: Option<nat>)
    requires NulFree(s) && i < |s| && IsQuote(s[i])
    ensures e.None? ==> C.ScanAt(None, s, i) == C.Open(s[i])
    ensures e.Some? ==> i < e.value <= |s| && C.ScanAt(None, s, i) == C.ScanAt(None, s, e.value)
  {
    StringAt(s, i + 1, s[i]);
    assert s[i..][1..] == s[i + 1..];
    var k := EndstrF(s[i..]);
    e := if k.None? then None else Some(i + k.value + 1);
  }

  /** Passes over the rest of a string left open, its quote put ahead of the text so that it is read as
      any other. */
  method PassRest(s: string, i: nat, q: char) returns (e: Option<nat>)
    requires NulFree(s) && i <= |s| && IsQuote(q)
    ensures e.None? ==> C.ScanAt(Some(q), s, i) == C.Open(q)
    ensures e.Some? ==> e.value <= |s| && C.ScanAt(Some(q), s, i) == C.ScanAt(None, s, e.value)
  {
    StringAt(s, i, q);
    var t := [q] + s[i..];
    assert t[1..] == s[i..];
    var k := EndstrF(t);
    e := if k.None? then None else Some(i + k.value);
  }

  /** Finds the comment of a line from `i` on, whole strings being skipped. */
  method ScanCode(s: string, i: nat, schar: Option<char>) returns (g: C.Scan)
    requires NulFree(s) && i <= |s| && (schar.Some? ==> IsQuote(schar.value))
    ensures g == C.ScanAt(schar, s, i)
  {
    var q: nat := i;
    if schar.Some? {
      var e := PassRest(s, i, schar.value);
      if e.None? {
        return C.Open(schar.value);
      }
      q := e.value;
    }
    while q < |s| && s[q] != '!'
      invariant q <= |s| && C.ScanAt(None, s, q) == C.ScanAt(schar, s, i)
      decreases |s| - q
    {
      q := NextQuote(s, q);
      if q < |s| && IsQuote(s[q]) {
        var e := PassString(s, q);
        if e.None? {
          return C.Open(s[q]);
        }
        q := e.value;
      }
    }
    g := if q == |s| then C.End else C.Bang(q);
  }

  method NextQuote(s: string, i: nat) returns (q: nat)
    requires i < |s| && s[i] != '!'
    ensures i <= q <= |s| && C.ScanAt(None, s, q) == C.ScanAt(None, s, i)
    ensures q < |s| ==> IsQuote(s[q]) || s[q] == '!'
    ensures q > i || IsQuote(s[q])
  {
    q := i;
    while q < |s| && s[q] != '!' && s[q] != '\'' && s[q] != '"'
      invariant i <= q <= |s| && C.ScanAt(None, s, q) == C.ScanAt(None, s, i)
      decreases |s| - q
    {
      q := q + 1;
    }
  }

  // ----- splitting

  /** The lines a line is written as. */
  method DistributeLine(s: string) returns (r: Option<seq<string>>)
    requires NulFree(s)
    ensures r == Split(s)
  {
    var p := SkipBlank(s, 0);
    if !(At(s, p) == '!' && At(s, p + 1) == '$') {
      return Some([s]);
    }
    var end := SkipWord(s, p, false);
    var word := s[p..end];
    if |word| >= 100 {
      return None;
    }
    var g := ScanCode(s, p + 2, None);
    if g.Open? {
      return None;
    }
    var eol := LineEnd(s, if g.Bang? then g.at else |s|);
    if eol <= 132 {
      return Some([s]);
    }
    var out := [s[..131] + "&\n"];
    var a: nat := 131;
    while eol - a > 130 - |word|
      invariant 131 <= a <= |s| && eol <= |s| + 1 &&
                out + C.More(s, word, a, eol) == [s[..131] + "&\n"] + C.More(s, word, 131, eol)
      decreases |s| - a
    {
      var b := a + (129 - |word|);
      ConcatAssoc(out, [word + " &" + s[a..b] + "&\n"], C.More(s, word, b, eol));
      out := out + [word + " &" + s[a..b] + "&\n"];
      a := b;
    }
    r := Some(out + [word + " &" + s[a..]]);
  }

  /** The same in fixed form. */
  method DistributeFixed(s: string) returns (r: Option<seq<string>>)
    requires NulFree(s) && |s| >= 6 && IsFixedDirective(s)
    ensures r == FixedPieces(s)
  {
    var name := s[..5];
    var g := ScanCode(s, 6, None);
    if g.Open? {
      return None;
    }
    var eol := LineEnd(s, if g.Bang? then g.at else |s|);
    if eol <= 72 {
      return Some([s]);
    }
    var out := [s[..72] + "\n"];
    var a: nat := 72;
    while eol - a > 66
      invariant 72 <= a <= |s| && eol <= |s| + 1 &&
                out + FixedMore(s, name, a, eol) == [s[..72] + "\n"] + FixedMore(s, name, 72, eol)
      decreases |s| - a
    {
      ConcatAssoc(out, [name + "&" + s[a..a + 66] + "\n"], FixedMore(s, name, a + 66, eol));
      out := out + [name + "&" + s[a..a + 66] + "\n"];
      a := a + 66;
    }
    r := Some(out + [name + "&" + s[a..]]);
  }

  // ----- joining

  lemma {:induction false} OpenQuote(st: Option<char>, s: string, i: nat)
    requires i <= |s| && (st.Some? ==> IsQuote(st.value))
    ensures C.ScanAt(st, s, i).Open? ==> IsQuote(C.ScanAt(st, s, i).quote)
    decreases |s| - i
  {
    if i < |s| && !(st.None? && s[i] == '!') {
      OpenQuote(QuoteStep(st, s[i]), s, i + 1);
    }
  }

  class Joiner {
    var precon: bool
    var schar: Option<char>
    var line1: string
    var prep: string
    var cls: seq<string>
    var out: string

    constructor ()
      ensures Abstract() == C.START
    {
      precon, schar, line1, prep, cls, out := false, None, "", "", [], "";
    }

    ghost function Abstract(): C.State
      reads this
    {
      C.State(precon, schar, line1, prep, cls, out)
    }

    ghost predicate Valid()
      reads this
    {
      schar.Some? ==> IsQuote(schar.value)
    }

    method WriteLines()
      modifies this
      ensures Abstract() == C.Flush(old(Abstract()))
    {
      out := out + prep;
      prep := "";
      out := out + line1;
      line1 := "";
      ghost var before := out;
      ConcatNothing(out);
      assert cls[0..] == cls;
      var i: nat := 0;
      while i < |cls|
        invariant i <= |cls| && out + C.Flatten(cls[i..]) == before + C.Flatten(cls)
        invariant cls == old(cls) && prep == "" && line1 == "" && precon == old(precon) && schar == old(schar)
      {
        assert cls[i..][1..] == cls[i + 1..] && cls[i..][0] == cls[i];
        ConcatAssoc(out, cls[i], C.Flatten(cls[i + 1..]));
        out := out + cls[i];
        i := i + 1;
      }
      ConcatNothing(out);
      cls := [];
    }

    /** Where the marker of a continued string stands, or else `p`. */
    method StringMark(s: string, p: nat) returns (m: nat)
      requires p <= |s|
      ensures m == C.StringMark(s, p)
    {
      var q := SkipWord(s, p, true);
      q := SkipBlank(s, q);
      m := if At(s, q) == '&' then q else p;
    }

    /** Looks for the end of a directive line; `p` is where its text is to be found. */
    method Examine(s: string, p0: nat) returns (f: C.Found, p: nat)
      requires Valid() && NulFree(s) && p0 + 2 <= |s|
      ensures f == C.Examine(Abstract(), s, p0)
      ensures p == if precon && schar.Some? then C.StringMark(s, p0) else p0
      ensures f.Found? && f.schar.Some? ==> IsQuote(f.schar.value)
    {
      var st, i := None, p0 + 2;
      p := p0;
      if precon && schar.Some? {
        p := StringMark(s, p0);
        st, i := schar, if p < |s| then p + 1 else p;
      }
      OpenQuote(st, s, i);
      var g := ScanCode(s, i, st);
      f := FindEnd(s, g);
    }

    /** Whether the line is continued, and where it is cut then. */
    static method FindEnd(s: string, g: C.Scan) returns (f: C.Found)
      requires g.Open? ==> IsQuote(g.quote)
      ensures f == C.FindEnd(s, g) && (f.Found? && f.schar.Some? ==> IsQuote(f.schar.value))
    {
      if g.Open? {
        var q := LastNonBlank(s, if |s| == 0 then 0 else |s| - 1);
        f := if At(s, q) != '&' then C.Broken else C.Found(true, q, "", Some(g.quote));
      } else {
        var q := BackOver(s, if g.Bang? then g.at else |s|);
        f := C.Found(At(s, q) == '&', q, if g.Bang? && g.at <= |s| then s[g.at..] else "", None);
      }
    }

    /** Reads one line; fails where the source gives up on a string that is neither closed nor continued. */
    method ConcatLine(s: string) returns (ok: bool)
      requires Valid() && NulFree(s)
      modifies this
      ensures Valid()
      ensures ok == C.ConcatLine(old(Abstract()), s).Some?
      ensures ok ==> C.ConcatLine(old(Abstract()), s) == Some(Abstract())
    {
      var p0 := SkipBlank(s, 0);
      if !(At(s, p0) == '!' && At(s, p0 + 1) == '$') {
        cls := cls + [s];
        return true;
      }
      var f, p := Examine(s, p0);
      if f.Broken? {
        return false;
      }
      p := TextStart(s, p, p0);
      Add(f, s, p);
      ok := true;
    }

    /** Where the text to be added starts. */
    method TextStart(s: string, m: nat, ghost p0: nat) returns (p: nat)
      requires p0 + 2 <= |s| && m == if precon && schar.Some? then C.StringMark(s, p0) else p0
      ensures p == C.Start(Abstract(), s, p0)
    {
      p := SkipWord(s, m, true);
      p := SkipBlank(s, p);
      if precon {
        p := if At(s, p) == '&' then p + 1 else if p > 0 then p - 1 else 0;
      } else {
        p := 0;
      }
    }

    /** Adds the text from `p` on, up to the cut if the line is continued. */
    method Add(f: C.Found, s: string, p: nat)
      requires Valid() && f.Found? && p <= |s| && (f.schar.Some? ==> IsQuote(f.schar.value))
      modifies this
      ensures Valid()
      ensures var st := old(Abstract());
              var st1 := if st.precon then st else C.Flush(st);
              var st2 := if !f.nextcon || f.comment == "" then st1
                         else if st.precon then st1.(cls := st1.cls + [f.comment])
                         else st1.(prep := f.comment);
              Abstract() == st2.(precon := f.nextcon, schar := f.schar,
                                 line1 := st2.line1 + if f.nextcon then C.Cut(s, p, f.cut) else s[p..])
    {
      var cont := precon;
      if !cont {
        WriteLines();
      }
      if f.nextcon && f.comment != "" {
        if !cont {
          prep := f.comment;
        } else {
          cls := cls + [f.comment];
        }
      }
      line1 := line1 + if f.nextcon then C.Cut(s, p, f.cut) else s[p..];
      precon, schar := f.nextcon, f.schar;
    }

    method Finish()
      modifies this
      ensures out == Output(old(Abstract()))
    {
      WriteLines();
    }
  }

  /** Joins the continued lines of a file. */
  method Concat(ls: seq<string>) returns (r: Option<string>)
    requires forall l | l in ls :: NulFree(l)
    ensures r == match C.ConcatLines(C.START, ls) case None => None case Some(st) => Some(Output(st))
  {
    var j := new Joiner();
    var i: nat := 0;
    assert ls[0..] == ls;
    while i < |ls|
      invariant i <= |ls| && j.Valid() && fresh(j) && C.ConcatLines(j.Abstract(), ls[i..]) == C.ConcatLines(C.START, ls)
    {
      assert ls[i..][1..] == ls[i + 1..] && ls[i..][0] == ls[i];
      var ok := j.ConcatLine(ls[i]);
      if !ok {
        return None;
      }
      i := i + 1;
    }
    j.Finish();
    r := Some(j.out);
  }
}
