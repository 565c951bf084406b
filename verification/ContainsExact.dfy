/** When splitting and joining all units of a program gives it back: just when every unit is tidy. */
module ContainsExact {
  import opened Wrappers
  import opened Xml
  import opened Contains

  /** No unit lies on the way from a unit to its statements. */
  predicate PlainWay(t: Elem, way: seq<nat>)
    decreases |way|
  {
    way == [] || way[0] >= |t.kids| || (!IsUnit(t.kids[way[0]]) && PlainWay(t.kids[way[0]], way[1..]))
  }

  predicate PlainWays(ts: seq<Elem>) {
    ts == [] ||
    ((IsUnit(ts[0]) ==> PlainWay(ts[0], Way(ts[0]))) && PlainWays(ts[0].kids) && PlainWays(ts[1..]))
  }

  /** Splitting all units and joining them again gives the program. */
  predicate ComesBack(ts: seq<Elem>) {
    Walk(ts, Plus).Some? && Walk(Walk(ts, Plus).value, Minus) == Some(ts)
  }

  lemma {:induction false} TidyAtPlain(t: Elem, way: seq<nat>, name: string)
    requires TidyAt(t, way, name)
    ensures PlainWay(t, way)
    decreases |way|
  {
    if way != [] {
      TidyAtPlain(t.kids[way[0]], way[1..], name);
    }
  }

  lemma {:induction false} TidyPlain(ts: seq<Elem>)
    requires TidyAll(ts)
    ensures PlainWays(ts)
  {
    if ts != [] {
      if IsUnit(ts[0]) {
        TidyAtPlain(ts[0], Way(ts[0]), HolderName(ts[0]));
      }
      TidyPlain(ts[0].kids);
      TidyPlain(ts[1..]);
    }
  }

  lemma {:induction false} PlainConcat(a: seq<Elem>, b: seq<Elem>)
    ensures PlainWays(a + b) <==> PlainWays(a) && PlainWays(b)
  {
    if a == [] {
      ConcatNothing(b);
    } else {
      assert (a + b)[1..] == a[1..] + b && (a + b)[0] == a[0];
      PlainConcat(a[1..], b);
    }
  }

  // ----- the walk element by element

  lemma {:induction false} WalkLength(ts: seq<Elem>, how: Change)
    requires Walk(ts, how).Some?
    ensures |Walk(ts, how).value| == |ts|
    decreases |ts|
  {
    if ts != [] {
      WalkLength(ts[1..], how);
    }
  }

  lemma {:induction false} WalkSplit(a: seq<Elem>, b: seq<Elem>, how: Change)
    requires Walk(a + b, how).Some?
    ensures Walk(a, how).Some? && Walk(b, how).Some?
    ensures Walk(a + b, how).value == Walk(a, how).value + Walk(b, how).value && |Walk(a, how).value| == |a|
    decreases |a|
  {
    if a == [] {
      ConcatNothing(b);
      ConcatNothing(Walk(b, how).value);
    } else {
      assert (a + b)[1..] == a[1..] + b && (a + b)[0] == a[0];
      WalkSplit(a[1..], b, how);
      WalkLength(a, how);
      WalkConcat(a, b, how);
    }
  }

  /** Of two lists that come back as one, each comes back. */
  lemma {:induction false} EachBack(a: seq<Elem>, b: seq<Elem>)
    requires ComesBack(a + b)
    ensures ComesBack(a) && ComesBack(b)
  {
    WalkSplit(a, b, Plus);
    var wa, wb := Walk(a, Plus).value, Walk(b, Plus).value;
    WalkSplit(wa, wb, Minus);
    SameParts(Walk(wa, Minus).value, Walk(wb, Minus).value, a, b);
  }

  lemma {:induction false} SameParts(a: seq<Elem>, b: seq<Elem>, c: seq<Elem>, d: seq<Elem>)
    requires a + b == c + d && |a| == |c|
    ensures a == c && b == d
  {
    assert (a + b)[..|a|] == a && (c + d)[..|c|] == c && (a + b)[|a|..] == b && (c + d)[|c|..] == d;
  }

  /** The same with one element between them that is changed on the way: it was split to `c'`, and
      after joining it is `y`. */
  lemma {:induction false} MiddleBack(a: seq<Elem>, c: Elem, b: seq<Elem>, c': Elem, y: Elem)
    requires Walk(a + [c'] + b, Plus).Some? && |a| < |Walk(a + [c'] + b, Plus).value|
    requires Walk(Walk(a + [c'] + b, Plus).value[|a| := y], Minus) == Some(a + [c] + b)
    ensures ComesBack(a) && ComesBack(b) && Walk([y], Minus) == Some([c])
    ensures Walk([c'], Plus) == Some([Walk(a + [c'] + b, Plus).value[|a|]])
  {
    WalkSplit(a + [c'], b, Plus);
    WalkSplit(a, [c'], Plus);
    WalkLength([c'], Plus);
    var wa, wc, wb := Walk(a, Plus).value, Walk([c'], Plus).value, Walk(b, Plus).value;
    assert wc == [wc[0]] && (wa + wc + wb)[|a|] == wc[0];
    assert (wa + wc + wb)[|a| := y] == wa + [y] + wb;
    WalkSplit(wa + [y], wb, Minus);
    WalkSplit(wa, [y], Minus);
    WalkLength([y], Minus);
    var va, vy, vb := Walk(wa, Minus).value, Walk([y], Minus).value, Walk(wb, Minus).value;
    SameParts(va + vy, vb, a + [c], b);
    SameParts(va, vy, a, [c]);
  }

  // ----- a unit

  lemma {:induction false} BodyWalked(h: seq<Elem>, t: seq<Elem>)
    requires Walk([Body(h, t)], Plus).Some?
    ensures Walk(h, Plus).Some? && Walk(t, Plus).Some?
    ensures Walk([Body(h, t)], Plus).value == [Body(Walk(h, Plus).value, Walk(t, Plus).value)]
  {
    var b := Body(h, t);
    BodyPlain(h, t);
    WalkPlain(b, Plus);
    WalkSplit([b.kids[0]], [b.kids[1]], Plus);
    WalkPlain(b.kids[0], Plus);
    WalkPlain(b.kids[1], Plus);
    WalkBody(h, t, Plus);
  }

  /** A holder that was split, walked, joined and walked again comes back only if it was tidy, and then
      head and tail come back. */
  lemma {:induction false} HolderBack(p: Elem, v: Elem)
    requires Contplus(p).Some? && Walk(Contplus(p).value.kids, Plus).Some?
    requires Contminus(p.(kids := Walk(Contplus(p).value.kids, Plus).value)) == Some(v)
    requires Walk(v.kids, Minus) == Some(p.kids)
    ensures Tidy(p) && ComesBack(Head(p.kids)) && ComesBack(Tail(p.kids))
  {
    var h, t := Head(p.kids), Tail(p.kids);
    SplitParts(p.kids);
    BodyWalked(h, t);
    var wh, wt := Walk(h, Plus).value, Walk(t, Plus).value;
    WalkLength(h, Plus);
    WalkLength(t, Plus);
    assert wh != [];
    if wt == [] {
      ConcatNothing(wh);
      WalkLength(wh, Minus);
      assert |p.kids| == |h|;
      assert Walk([], Plus) == Some([]) && Walk([], Minus) == Some([]);
    } else {
      WithTail(p, h, t, wh, wt);
    }
  }

  lemma {:induction false} WithTail(p: Elem, h: seq<Elem>, t: seq<Elem>, wh: seq<Elem>, wt: seq<Elem>)
    requires First(p.kids).Some? && p.kids == h + [First(p.kids).value] + t && |wh| == |h|
    requires Walk(wh + ([CONTAINS] + wt), Minus) == Some(p.kids)
    ensures First(p.kids).value == CONTAINS && Walk(wh, Minus) == Some(h) && Walk(wt, Minus) == Some(t)
  {
    var c := First(p.kids).value;
    WalkSplit(wh, [CONTAINS] + wt, Minus);
    WalkSplit([CONTAINS], wt, Minus);
    WalkContains(Minus);
    ConcatAssoc(h, [c], t);
    SameParts(Walk(wh, Minus).value, [CONTAINS] + Walk(wt, Minus).value, h, [c] + t);
    SameParts([CONTAINS], Walk(wt, Minus).value, [c], t);
    assert [CONTAINS][0] == [c][0];
  }

  /** The element `e` was split at the end of the way, walked, and joined to `v`. */
  predicate Went(e: Elem, way: seq<nat>, name: string, v: Elem) {
    && At(e, way, name, Plus).Some?
    && var e' := At(e, way, name, Plus).value;
    && Walk(e'.kids, Plus).Some?
    && At(e'.(kids := Walk(e'.kids, Plus).value), way, name, Minus) == Some(v)
  }

  lemma {:induction false} NameKept(e: Elem, way: seq<nat>, name: string, how: Change)
    requires At(e, way, name, how).Some?
    ensures At(e, way, name, how).value.name == e.name && At(e, way, name, how).value.attrs == e.attrs
    decreases |way|
  {
    if way != [] {
      NameKept(e.kids[way[0]], way[1..], name, how);
    }
  }

  /** One step along the way. */
  lemma {:induction false} StepBack(e: Elem, way: seq<nat>, name: string, v: Elem) returns (y: Elem)
    requires way != [] && PlainWay(e, way) && Went(e, way, name, v) && Walk(v.kids, Minus) == Some(e.kids)
    ensures way[0] < |e.kids| && !IsUnit(e.kids[way[0]]) && PlainWay(e.kids[way[0]], way[1..])
    ensures Went(e.kids[way[0]], way[1..], name, y) && Walk(y.kids, Minus) == Some(e.kids[way[0]].kids)
    ensures ComesBack(e.kids[..way[0]]) && ComesBack(e.kids[way[0] + 1..])
  {
    var i := way[0];
    var c := e.kids[i];
    var c' := At(c, way[1..], name, Plus).value;
    var a, b := e.kids[..i], e.kids[i + 1..];
    NameKept(c, way[1..], name, Plus);
    Around(e.kids, i, c);
    Around(e.kids, i, c');
    WalkLength(a + [c'] + b, Plus);
    var w := Walk(a + [c'] + b, Plus).value;
    y := At(w[i], way[1..], name, Minus).value;
    MiddleBack(a, c, b, c', y);
    WalkPlain(c', Plus);
    assert w[i] == c'.(kids := Walk(c'.kids, Plus).value);
    NameKept(w[i], way[1..], name, Minus);
    WalkPlain(y, Minus);
    assert [y.(kids := Walk(y.kids, Minus).value)][0] == [c][0];
  }

  // ----- whole programs

  lemma {:induction false} WayTidy(e: Elem, way: seq<nat>, name: string, v: Elem)
    requires PlainWay(e, way) && PlainWays(e.kids) && Went(e, way, name, v) && Walk(v.kids, Minus) == Some(e.kids)
    ensures TidyAt(e, way, name) && TidyAll(e.kids)
    decreases Elements(e.kids), 2
  {
    if way == [] {
      HolderTidy(e, v);
    } else {
      var i := way[0];
      var y := StepBack(e, way, name, v);
      var a, c, b := e.kids[..i], e.kids[i], e.kids[i + 1..];
      Parts(a, c, b);
      Around(e.kids, i, c);
      WayTidy(c, way[1..], name, y);
      BackTidy(a);
      BackTidy(b);
      TidyConcat(a + [c], b);
      TidyConcat(a, [c]);
      TidyOne(c);
    }
  }

  lemma {:induction false} Parts(a: seq<Elem>, c: Elem, b: seq<Elem>)
    ensures PlainWays(a + [c] + b) ==> PlainWays(a) && PlainWays(c.kids) && PlainWays(b)
    ensures Elements(a) < Elements(a + [c] + b) && Elements(b) < Elements(a + [c] + b)
    ensures Elements(c.kids) < Elements(a + [c] + b)
  {
    PlainConcat(a + [c], b);
    PlainConcat(a, [c]);
    ElementsConcat(a + [c], b);
    ElementsConcat(a, [c]);
    assert [c][1..] == [];
  }

  lemma {:induction false} HolderTidy(p: Elem, v: Elem)
    requires PlainWays(p.kids) && Contplus(p).Some? && Walk(Contplus(p).value.kids, Plus).Some?
    requires Contminus(p.(kids := Walk(Contplus(p).value.kids, Plus).value)) == Some(v)
    requires Walk(v.kids, Minus) == Some(p.kids)
    ensures Tidy(p) && TidyAll(p.kids)
    decreases Elements(p.kids), 1
  {
    HolderBack(p, v);
    SplitParts(p.kids);
    var h, t := Head(p.kids), Tail(p.kids);
    if First(p.kids).Some? {
      Parts(h, CONTAINS, t);
      BackTidy(h);
      BackTidy(t);
      WalkContains(Plus);
      TidyOne(CONTAINS);
      TidyConcat(h + [CONTAINS], t);
      TidyConcat(h, [CONTAINS]);
    } else {
      BackTidy(h);
    }
  }

  lemma {:induction false} BackTidy(ts: seq<Elem>)
    requires PlainWays(ts) && ComesBack(ts)
    ensures TidyAll(ts)
    decreases Elements(ts), 0
  {
    if ts != [] {
      var t := ts[0];
      assert ts == [t] + ts[1..];
      EachBack([t], ts[1..]);
      BackTidy(ts[1..]);
      FirstTidy(t);
    }
  }

  lemma {:induction false} FirstTidy(t: Elem)
    requires (IsUnit(t) ==> PlainWay(t, Way(t))) && PlainWays(t.kids) && ComesBack([t])
    ensures (IsUnit(t) ==> TidyAt(t, Way(t), HolderName(t))) && TidyAll(t.kids)
    decreases Elements(t.kids), 3
  {
    assert [t][1..] == [];
    var u := Unit(t, Plus).value;
    var w := u.(kids := Walk(u.kids, Plus).value);
    assert Walk([t], Plus).value == [w] && [w][1..] == [];
    var v := Unit(w, Minus).value;
    assert Walk([w], Minus).value == [v.(kids := Walk(v.kids, Minus).value)];
    assert v.(kids := Walk(v.kids, Minus).value) == t;
    if IsUnit(t) {
      UnitDown(t, Plus);
      WayTidy(t, Way(t), HolderName(t), v);
    } else {
      BackTidy(t.kids);
    }
  }

  /** Where no unit lies on another one's way, a program comes back if and only if every unit has the
      element that holds its statements where it belongs, and that one is tidy. */
  lemma {:induction false} ProgramExact(ts: seq<Elem>)
    ensures TidyAll(ts) <==> PlainWays(ts) && ComesBack(ts)
  {
    if TidyAll(ts) {
      TidyPlain(ts);
      ProgramRejoined(ts);
    }
    if PlainWays(ts) && ComesBack(ts) {
      BackTidy(ts);
    }
  }
}
