/** When pairing succeeds, and what it never loses or reorders. */
module BlockContent {
  import opened Wrappers
  import opened Xml
  import opened Blocks
  import opened BlockProofs

  function Deeper(depth: nat, t: Elem): nat {
    if Ends(t) && depth > 0 then (if Begins(t) then depth else depth - 1)
    else if Begins(t) then depth + 1
    else depth
  }

  /** Read with `depth` blocks open, every begin directive finds its end among the later siblings,
      here and in all children. */
  predicate Closes(depth: nat, ts: seq<Elem>)
    decreases ts
  {
    if ts == [] then depth == 0 else Closes(0, ts[0].kids) && Closes(Deeper(depth, ts[0]), ts[1..])
  }

  function Depth(frames: Frames): nat {
    match frames
    case Bottom => 0
    case Open(_, _, under) => 1 + Depth(under)
  }

  lemma {:induction false} ParseCloses(st: State, ts: seq<Elem>)
    requires AllWellFormed(ts)
    ensures Parse(st, ts).Some? <==> Closes(Depth(st.frames), ts)
    decreases ts
  {
    if ts != [] {
      var t := ts[0];
      ParseCloses(State(Bottom, []), t.kids);
      assert Norm(t.kids) == Parse(State(Bottom, []), t.kids);
      if Norm(t.kids).Some? {
        NormedMarks(t);
        assert Depth(Step(st, t).value.frames) == Deeper(Depth(st.frames), t);
        ParseCloses(Step(st, t).value, ts[1..]);
        assert Parse(st, ts) == Parse(Step(st, t).value, ts[1..]);
      } else {
        assert Step(st, t) == None;
        assert Run(st, ts) == None;
      }
    }
  }

  /** Pairing fails exactly when some begin directive is left without an end. */
  lemma {:induction false} NormCloses(ts: seq<Elem>)
    requires AllWellFormed(ts)
    ensures Norm(ts).Some? <==> Closes(0, ts)
  {
    ParseCloses(State(Bottom, []), ts);
  }

  // ----- document order

  type Text = seq<(string, seq<Attr>)>

  predicate Mark(c: Elem) {
    AttrValue(c.attrs, "name") == Some("begin") || AttrValue(c.attrs, "name") == Some("end")
  }

  /** Clauses in order, other than begin and end. */
  function ClauseText(cs: seq<Elem>): Text
    decreases cs, 0
  {
    if cs == [] then []
    else (if Mark(cs[0]) then [] else [(cs[0].name, cs[0].attrs)] + Content(cs[0].kids)) + ClauseText(cs[1..])
  }

  /** The clause lists and target statements of a directive. */
  function PartText(ks: seq<Elem>): Text
    decreases ks, 0
  {
    if ks == [] then []
    else (if ks[0].name == "xev_target" then Content(ks[0].kids)
          else [(ks[0].name, ks[0].attrs)] + ClauseText(ks[0].kids)) + PartText(ks[1..])
  }

  /** All statements and clauses in document order, whether or not they are nested in blocks. */
  function Content(ts: seq<Elem>): Text
    decreases ts, 1
  {
    if ts == [] then []
    else (if IsDirective(ts[0]) then PartText(ts[0].kids)
          else [(ts[0].name, ts[0].attrs)] + Content(ts[0].kids)) + Content(ts[1..])
  }

  function One(t: Elem): Text {
    if IsDirective(t) then PartText(t.kids) else [(t.name, t.attrs)] + Content(t.kids)
  }

  lemma {:induction false} ContentConcat(a: seq<Elem>, b: seq<Elem>)
    ensures Content(a + b) == Content(a) + Content(b)
    decreases |a|
  {
    if a == [] {
      assert a + b == b;
    } else {
      assert (a + b)[0] == a[0] && (a + b)[1..] == a[1..] + b;
      ContentConcat(a[1..], b);
      ConcatAssoc(One(a[0]), Content(a[1..]), Content(b));
    }
  }

  lemma {:induction false} PartConcat(a: seq<Elem>, b: seq<Elem>)
    ensures PartText(a + b) == PartText(a) + PartText(b)
    decreases |a|
  {
    if a == [] {
      assert a + b == b;
    } else {
      assert (a + b)[0] == a[0] && (a + b)[1..] == a[1..] + b;
      PartConcat(a[1..], b);
      var p := if a[0].name == "xev_target" then Content(a[0].kids)
          else [(a[0].name, a[0].attrs)] + ClauseText(a[0].kids);
      ConcatAssoc(p, PartText(a[1..]), PartText(b));
    }
  }

  lemma {:induction false} ContentSnoc(a: seq<Elem>, t: Elem)
    ensures Content(a + [t]) == Content(a) + One(t)
  {
    ContentConcat(a, [t]);
    assert [t][1..] == [];
    ConcatNothing(One(t));
  }

  lemma {:induction false} DropMark(cs: seq<Elem>, name: string)
    requires name == "begin" || name == "end"
    ensures ClauseText(DropFirst(cs, name)) == ClauseText(cs)
    decreases |cs|
  {
    if cs != [] {
      DropMark(cs[1..], name);
      if AttrValue(cs[0].attrs, "name") == Some(name) {
        ConcatNothing(ClauseText(cs[1..]));
      } else {
        assert ([cs[0]] + DropFirst(cs[1..], name))[1..] == DropFirst(cs[1..], name);
      }
    }
  }

  lemma {:induction false} WithoutMark(t: Elem, name: string)
    requires name == "begin" || name == "end"
    requires t.kids != [] ==> t.kids[0].name != "xev_target"
    ensures PartText(WithoutClause(t, name).kids) == PartText(t.kids)
    ensures WithoutClause(t, name).kids != [] ==> WithoutClause(t, name).kids[0].name != "xev_target"
  {
    if t.kids != [] {
      DropMark(t.kids[0].kids, name);
      assert WithoutClause(t, name).kids[1..] == t.kids[1..];
    }
  }

  function FramesText(frames: Frames): Text {
    match frames
    case Bottom => []
    case Open(before, h, under) => FramesText(under) + Content(before) + PartText(h.kids)
  }

  function StateText(st: State): Text {
    FramesText(st.frames) + Content(st.cur)
  }

  predicate HeadsAreDirectives(frames: Frames) {
    frames.Open? ==> IsDirective(frames.head) && HeadsAreDirectives(frames.under)
  }

  /** A directive starts with a clause list, and its clause lists hold no directives. */
  predicate ListFirst(t: Elem) {
    IsDirective(t) && t.kids != [] ==>
      t.kids[0].name != "xev_target" && forall k | k in t.kids :: k.name == "xev_target" || NoDirective(k)
  }

  predicate ListsFirst(ts: seq<Elem>)
    decreases ts
  {
    ts == [] || (ListFirst(ts[0]) && ListsFirst(ts[0].kids) && ListsFirst(ts[1..]))
  }

  lemma {:induction false} GrownText(h: Elem, body: seq<Elem>, rest: seq<Elem>)
    ensures PartText(AddGroup(h, body, rest).kids) == PartText(h.kids) + Content(body) + PartText(rest)
  {
    PartConcat(h.kids + [Target(body)], rest);
    PartConcat(h.kids, [Target(body)]);
    assert [Target(body)][1..] == [];
    ConcatNothing(Content(body));
  }

  lemma {:induction false} ShiftText(st: State, t: Elem)
    requires HeadsAreDirectives(st.frames) && ListFirst(t)
    ensures HeadsAreDirectives(Shift(st, t).frames)
    ensures StateText(Shift(st, t)) == StateText(st) + One(t)
  {
    if Ends(t) && st.frames.Open? {
      WithoutMark(t, "end");
      WithoutMark(WithoutClause(t, "end"), "begin");
      var rest := Unmarked(t).kids;
      GrownText(st.frames.head, st.cur, rest);
      var h := AddGroup(st.frames.head, st.cur, rest);
      var low, before := FramesText(st.frames.under), Content(st.frames.before);
      var ph, pc, pt := PartText(st.frames.head.kids), Content(st.cur), PartText(rest);
      if Begins(t) {
        ConcatRegroup(low + before, ph, pc, pt);
        ConcatNothing(low + before + (ph + pc + pt));
      } else {
        ContentSnoc(st.frames.before, h);
        ConcatAssoc(low, before, ph + pc + pt);
        ConcatRegroup(low + before, ph, pc, pt);
      }
    } else if Begins(t) {
      WithoutMark(t, "begin");
      ConcatNothing(FramesText(st.frames) + Content(st.cur) + PartText(t.kids));
    } else {
      ContentSnoc(st.cur, t);
      ConcatAssoc(FramesText(st.frames), Content(st.cur), One(t));
    }
  }

  /** Parsing the children of a directive keeps its clauses and the content of its targets. */
  lemma {:induction false} EachText(ks: seq<Elem>)
    requires forall k | k in ks :: k.name == "xev_target" || NoDirective(k)
    requires AllWellFormed(ks) && ListsFirst(ks) && Each(ks).Some?
    ensures PartText(Each(ks).value) == PartText(ks)
    decreases ks, 0
  {
    if ks != [] {
      var k, k' := ks[0], Each(ks).value[0];
      assert k in ks;
      EachText(ks[1..]);
      assert Each(ks).value[1..] == Each(ks[1..]).value;
      if k.name == "xev_target" {
        NormText(k.kids);
      } else {
        NormNoDirective(k.kids);
        assert k'.kids == k.kids;
      }
    }
  }

  lemma {:induction false} NormText(ts: seq<Elem>)
    requires AllWellFormed(ts) && ListsFirst(ts) && Norm(ts).Some?
    ensures Content(Norm(ts).value) == Content(ts)
    decreases ts, 2
  {
    RunText(State(Bottom, []), ts);
    var st := Run(State(Bottom, []), ts).value;
    assert [] + Content(st.cur) == Content(st.cur) && [] + [] + Content(ts) == Content(ts);
  }

  lemma {:induction false} NormedText(t: Elem)
    requires WellFormed(t) && ListFirst(t) && ListsFirst(t.kids) && Norm(t.kids).Some?
    ensures One(t.(kids := Norm(t.kids).value)) == One(t) && ListFirst(t.(kids := Norm(t.kids).value))
    decreases t, 0
  {
    if IsDirective(t) {
      DirectiveKids(t);
      EachText(t.kids);
      EachShape(t.kids);
      EachPlain(t.kids);
    } else {
      NormText(t.kids);
    }
  }

  lemma {:induction false} EachPlain(ks: seq<Elem>)
    requires Each(ks).Some? && forall k | k in ks :: k.name == "xev_target" || NoDirective(k)
    ensures forall k | k in Each(ks).value :: k.name == "xev_target" || NoDirective(k)
    decreases |ks|
  {
    if ks != [] {
      assert ks[0] in ks;
      EachPlain(ks[1..]);
      NoDirectiveKids(ks[0]);
    }
  }

  lemma {:induction false} NoDirectiveKids(k: Elem)
    ensures NoDirective(k) ==> Norm(k.kids) == Some(k.kids)
  {
    if NoDirective(k) {
      NormNoDirective(k.kids);
    }
  }

  lemma {:induction false} RunText(st: State, ts: seq<Elem>)
    requires AllWellFormed(ts) && ListsFirst(ts) && HeadsAreDirectives(st.frames) && Run(st, ts).Some?
    ensures HeadsAreDirectives(Run(st, ts).value.frames)
    ensures StateText(Run(st, ts).value) == StateText(st) + Content(ts)
    decreases ts, 1
  {
    if ts == [] {
      ConcatNothing(StateText(st));
    } else {
      var t := ts[0];
      NormedText(t);
      ShiftText(st, t.(kids := Norm(t.kids).value));
      RunText(Step(st, t).value, ts[1..]);
      ConcatAssoc(StateText(st), One(t), Content(ts[1..]));
    }
  }
}
