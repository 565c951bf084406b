/** Program units with a contains statement: putting what precedes and what follows the statement
    into elements of their own, and back. */
module Contains {
  import opened Wrappers
  import opened Xml

  predicate IsContains(t: Elem) {
    t.name == "SgContainsStatement"
  }

  const CONTAINS := Elem("SgContainsStatement", [], [])

  /** What precedes the first contains statement, and what follows it. */
  function Head(ts: seq<Elem>): seq<Elem> {
    if ts == [] || IsContains(ts[0]) then [] else [ts[0]] + Head(ts[1..])
  }

  function Tail(ts: seq<Elem>): seq<Elem> {
    if ts == [] then [] else if IsContains(ts[0]) then ts[1..] else Tail(ts[1..])
  }

  function Body(head: seq<Elem>, tail: seq<Elem>): Elem {
    Elem("contains_body", [], [Elem("contains_head", [], head), Elem("contains_tail", [], tail)])
  }

  /** Splits the children of a unit; fails when they start with the contains statement. */
  function Contplus(p: Elem): Option<Elem> {
    if p.kids != [] && IsContains(p.kids[0]) then None
    else Some(p.(kids := [Body(Head(p.kids), Tail(p.kids))]))
  }

  /** Joins them again, with a contains statement unless there is nothing behind it; fails when there
      is nothing before it. */
  function Contminus(p: Elem): Option<Elem> {
    if p.kids == [] || |p.kids[0].kids| < 2 || p.kids[0].kids[0].kids == [] then None
    else
      var x, y := p.kids[0].kids[0].kids, p.kids[0].kids[1].kids;
      Some(p.(kids := x + if y == [] then [] else [CONTAINS] + y))
  }

  /** The first contains statement. */
  function First(ts: seq<Elem>): Option<Elem> {
    if ts == [] then None else if IsContains(ts[0]) then Some(ts[0]) else First(ts[1..])
  }

  lemma {:induction false} SplitParts(ts: seq<Elem>)
    ensures ts == match First(ts) case None => Head(ts) case Some(c) => Head(ts) + [c] + Tail(ts)
    ensures First(ts).None? ==> Tail(ts) == []
    ensures forall t | t in Head(ts) :: !IsContains(t)
  {
    if ts != [] && !IsContains(ts[0]) {
      SplitParts(ts[1..]);
      assert ts == [ts[0]] + ts[1..];
      if First(ts).Some? {
        ConcatRegroup([ts[0]], Head(ts[1..]), [First(ts).value], Tail(ts[1..]));
      }
    } else if ts != [] {
      assert ts == [ts[0]] + ts[1..];
    }
  }

  /** A unit whose contains statement, if it has one, is bare and stands between statements. */
  predicate Tidy(p: Elem) {
    Head(p.kids) != [] && (First(p.kids).Some? ==> First(p.kids).value == CONTAINS && Tail(p.kids) != [])
  }

  /** Joining undoes splitting for these units and no others. */
  lemma {:induction false} UnitExact(p: Elem)
    ensures (Contplus(p).Some? && Contminus(Contplus(p).value) == Some(p)) <==> Tidy(p)
  {
    SplitParts(p.kids);
    var h, t := Head(p.kids), Tail(p.kids);
    if Contplus(p).Some? && h != [] {
      var q := Contminus(Contplus(p).value).value;
      assert p.(kids := p.kids) == p;
      if First(p.kids).Some? {
        var c := First(p.kids).value;
        var mid := if t == [] then [] else [CONTAINS] + t;
        ConcatAssoc(h, [c], t);
        if q == p {
          assert (h + mid)[|h|..] == mid && (h + ([c] + t))[|h|..] == [c] + t;
          assert t != [] ==> ([CONTAINS] + t)[0] == CONTAINS && ([c] + t)[0] == c;
        }
      } else {
        ConcatNothing(h);
      }
    }
  }

  // ----- whole programs

  predicate IsProgram(t: Elem) {
    t.name == "SgProgramHeaderStatement"
  }

  predicate IsProcedure(t: Elem) {
    t.name == "SgProcedureHeaderStatement"
  }

  predicate IsModule(t: Elem) {
    t.name == "SgModuleStatement"
  }

  predicate IsUnit(t: Elem) {
    IsProgram(t) || IsProcedure(t) || IsModule(t)
  }

  /** The way from a unit to the element that holds its statements, as positions among children. */
  function Way(t: Elem): seq<nat>
    requires IsUnit(t)
  {
    if IsProgram(t) then [1, 0] else if IsProcedure(t) then [2, 0] else [0]
  }

  function HolderName(t: Elem): string {
    if IsModule(t) then "SgClassDefinition" else "SgBasicBlock"
  }

  datatype Change = Plus | Minus

  function Apply(how: Change, p: Elem): Option<Elem> {
    if how == Plus then Contplus(p) else Contminus(p)
  }

  /** Changes the element at the end of the way, which must have the given name. */
  function At(t: Elem, way: seq<nat>, name: string, how: Change): Option<Elem>
    decreases |way|
  {
    if way == [] then if t.name == name then Apply(how, t) else None
    else if way[0] >= |t.kids| then None
    else
      match At(t.kids[way[0]], way[1..], name, how)
      case None => None
      case Some(k) => Some(t.(kids := t.kids[way[0] := k]))
  }

  /** The unit itself, ahead of what is in it. */
  function Unit(t: Elem, how: Change): Option<Elem> {
    if IsUnit(t) then At(t, Way(t), HolderName(t), how) else Some(t)
  }

  function Units(ts: seq<Elem>): nat {
    if ts == [] then 0 else (if IsUnit(ts[0]) then 1 else 0) + Units(ts[0].kids) + Units(ts[1..])
  }

  lemma {:induction false} UnitsConcat(a: seq<Elem>, b: seq<Elem>)
    ensures Units(a + b) == Units(a) + Units(b)
  {
    if a == [] {
      ConcatNothing(b);
    } else {
      assert (a + b)[1..] == a[1..] + b && (a + b)[0] == a[0];
      UnitsConcat(a[1..], b);
    }
  }

  lemma {:induction false} UnitsAt(ts: seq<Elem>, i: nat, k: Elem)
    requires i < |ts|
    ensures Units(ts[i := k]) == Units(ts) - Units([ts[i]]) + Units([k])
  {
    assert ts == ts[..i] + [ts[i]] + ts[i + 1..] && ts[i := k] == ts[..i] + [k] + ts[i + 1..];
    UnitsConcat(ts[..i] + [ts[i]], ts[i + 1..]);
    UnitsConcat(ts[..i], [ts[i]]);
    UnitsConcat(ts[..i] + [k], ts[i + 1..]);
    UnitsConcat(ts[..i], [k]);
  }

  lemma {:induction false} UnitsOne(t: Elem)
    ensures Units([t]) == (if IsUnit(t) then 1 else 0) + Units(t.kids)
  {
    assert [t][1..] == [];
  }

  /** No change makes more units than there were. */
  lemma {:induction false} UnitsApply(how: Change, p: Elem)
    requires Apply(how, p).Some?
    ensures Units(Apply(how, p).value.kids) <= Units(p.kids) && Apply(how, p).value.name == p.name
  {
    if how == Plus {
      SplitParts(p.kids);
      var h, t := Head(p.kids), Tail(p.kids);
      var b := Body(h, t);
      UnitsOne(b);
      assert b.kids == [b.kids[0]] + [b.kids[1]];
      UnitsConcat([b.kids[0]], [b.kids[1]]);
      UnitsOne(b.kids[0]);
      UnitsOne(b.kids[1]);
      if First(p.kids).Some? {
        UnitsConcat(h + [First(p.kids).value], t);
        UnitsConcat(h, [First(p.kids).value]);
      }
    } else {
      var b := p.kids[0];
      var x, y := b.kids[0], b.kids[1];
      assert p.kids == [b] + p.kids[1..];
      UnitsConcat([b], p.kids[1..]);
      UnitsOne(b);
      assert b.kids == [x] + ([y] + b.kids[2..]);
      UnitsConcat([x], [y] + b.kids[2..]);
      UnitsConcat([y], b.kids[2..]);
      UnitsOne(x);
      UnitsOne(y);
      UnitsConcat(x.kids, if y.kids == [] then [] else [CONTAINS] + y.kids);
      UnitsConcat([CONTAINS], y.kids);
      UnitsOne(CONTAINS);
    }
  }

  lemma {:induction false} UnitsWay(t: Elem, way: seq<nat>, name: string, how: Change)
    requires At(t, way, name, how).Some?
    ensures Units(At(t, way, name, how).value.kids) <= Units(t.kids) && At(t, way, name, how).value.name == t.name
    decreases |way|
  {
    if way == [] {
      UnitsApply(how, t);
    } else {
      var k := At(t.kids[way[0]], way[1..], name, how).value;
      UnitsWay(t.kids[way[0]], way[1..], name, how);
      UnitsAt(t.kids, way[0], k);
      UnitsOne(k);
      UnitsOne(t.kids[way[0]]);
    }
  }

  lemma {:induction false} UnitDown(t: Elem, how: Change)
    requires Unit(t, how).Some?
    ensures Units(Unit(t, how).value.kids) <= Units(t.kids) && Unit(t, how).value.name == t.name
    ensures !IsUnit(t) ==> Unit(t, how).value == t
  {
    if IsUnit(t) {
      UnitsWay(t, Way(t), HolderName(t), how);
    }
  }

  /** Changes every unit of a program, the outer ones first. */
  function Walk(ts: seq<Elem>, how: Change): Option<seq<Elem>>
    decreases Units(ts), Elements(ts)
  {
    if ts == [] then Some([]) else
      match Unit(ts[0], how)
      case None => None
      case Some(t) =>
        UnitDown(ts[0], how);
        var k, r := Walk(t.kids, how), Walk(ts[1..], how);
        if k.None? || r.None? then None else Some([t.(kids := k.value)] + r.value)
  }

  /** One element of such a program. */
  function WalkOne(t: Elem, how: Change): Option<Elem> {
    match Unit(t, how)
    case None => None
    case Some(u) =>
      match Walk(u.kids, how)
      case None => None
      case Some(kids) => Some(u.(kids := kids))
  }

  // ----- the round trip

  predicate TidyAt(t: Elem, way: seq<nat>, name: string)
    decreases |way|
  {
    if way == [] then t.name == name && Tidy(t)
    else way[0] < |t.kids| && !IsUnit(t.kids[way[0]]) && TidyAt(t.kids[way[0]], way[1..], name)
  }

  /** Every unit has the element that holds its statements where it belongs, and that one is tidy. */
  predicate TidyAll(ts: seq<Elem>) {
    ts == [] ||
    ((IsUnit(ts[0]) ==> TidyAt(ts[0], Way(ts[0]), HolderName(ts[0]))) && TidyAll(ts[0].kids) && TidyAll(ts[1..]))
  }

  lemma {:induction false} TidyConcat(a: seq<Elem>, b: seq<Elem>)
    ensures TidyAll(a + b) <==> TidyAll(a) && TidyAll(b)
  {
    if a == [] {
      ConcatNothing(b);
    } else {
      assert (a + b)[1..] == a[1..] + b && (a + b)[0] == a[0];
      TidyConcat(a[1..], b);
    }
  }

  lemma {:induction false} TidyOne(t: Elem)
    ensures TidyAll([t]) <==> (IsUnit(t) ==> TidyAt(t, Way(t), HolderName(t))) && TidyAll(t.kids)
  {
    assert [t][1..] == [];
  }

  lemma {:induction false} TidyParts(ts: seq<Elem>)
    requires TidyAll(ts)
    ensures TidyAll(Head(ts)) && TidyAll(Tail(ts))
  {
    SplitParts(ts);
    match First(ts)
    case None => assert TidyAll([]);
    case Some(c) =>
      TidyConcat(Head(ts) + [c], Tail(ts));
      TidyConcat(Head(ts), [c]);
  }

  lemma {:induction false} BodyPlain(h: seq<Elem>, t: seq<Elem>)
    ensures var b := Body(h, t);
            !IsUnit(b) && !IsUnit(b.kids[0]) && !IsUnit(b.kids[1]) && b.kids == [b.kids[0]] + [b.kids[1]]
  {
    assert |"contains_body"| == 13 && |"contains_head"| == 13;
    assert |"SgProgramHeaderStatement"| == 24 && |"SgProcedureHeaderStatement"| == 26 && |"SgModuleStatement"| == 17;
  }

  lemma {:induction false} TidyBody(h: seq<Elem>, t: seq<Elem>)
    requires TidyAll(h) && TidyAll(t)
    ensures TidyAll([Body(h, t)])
  {
    var b := Body(h, t);
    BodyPlain(h, t);
    TidyOne(b.kids[0]);
    TidyOne(b.kids[1]);
    TidyConcat([b.kids[0]], [b.kids[1]]);
    TidyOne(b);
  }

  lemma {:induction false} Around(ts: seq<Elem>, i: nat, k: Elem)
    requires i < |ts|
    ensures ts == ts[..i] + [ts[i]] + ts[i + 1..] && ts[i := k] == ts[..i] + [k] + ts[i + 1..]
  {
  }

  lemma {:induction false} TidyAfter(t: Elem, way: seq<nat>, name: string)
    requires TidyAt(t, way, name) && TidyAll(t.kids)
    ensures At(t, way, name, Plus).Some? && At(t, way, name, Plus).value.name == t.name
    ensures TidyAll(At(t, way, name, Plus).value.kids)
    decreases |way|
  {
    if way == [] {
      TidyParts(t.kids);
      TidyBody(Head(t.kids), Tail(t.kids));
    } else {
      var i := way[0];
      var c := t.kids[i];
      Around(t.kids, i, c);
      TidyConcat(t.kids[..i] + [c], t.kids[i + 1..]);
      TidyConcat(t.kids[..i], [c]);
      TidyOne(c);
      TidyAfter(c, way[1..], name);
      var k := At(c, way[1..], name, Plus).value;
      Around(t.kids, i, k);
      TidyOne(k);
      TidyConcat(t.kids[..i] + [k], t.kids[i + 1..]);
      TidyConcat(t.kids[..i], [k]);
    }
  }

  lemma {:induction false} WalkSome(ts: seq<Elem>)
    requires TidyAll(ts)
    ensures Walk(ts, Plus).Some? && |Walk(ts, Plus).value| == |ts|
    decreases Units(ts), Elements(ts)
  {
    if ts != [] {
      if IsUnit(ts[0]) {
        TidyAfter(ts[0], Way(ts[0]), HolderName(ts[0]));
      }
      var t := Unit(ts[0], Plus).value;
      UnitDown(ts[0], Plus);
      WalkSome(t.kids);
      WalkSome(ts[1..]);
    }
  }

  lemma {:induction false} WalkConcat(a: seq<Elem>, b: seq<Elem>, how: Change)
    requires Walk(a, how).Some? && Walk(b, how).Some?
    ensures Walk(a + b, how) == Some(Walk(a, how).value + Walk(b, how).value)
    decreases |a|
  {
    if a == [] {
      ConcatNothing(b);
      ConcatNothing(Walk(b, how).value);
    } else {
      assert (a + b)[1..] == a[1..] + b && (a + b)[0] == a[0];
      WalkConcat(a[1..], b, how);
      var t := Unit(a[0], how).value;
      ConcatAssoc([t.(kids := Walk(t.kids, how).value)], Walk(a[1..], how).value, Walk(b, how).value);
    }
  }

  lemma {:induction false} WalkPlain(t: Elem, how: Change)
    requires !IsUnit(t)
    ensures Walk([t], how) == match Walk(t.kids, how) case None => None case Some(k) => Some([t.(kids := k)])
  {
    assert [t][1..] == [];
    if Walk(t.kids, how).Some? {
      ConcatNothing([t.(kids := Walk(t.kids, how).value)]);
    }
  }

  lemma {:induction false} WalkBody(h: seq<Elem>, t: seq<Elem>, how: Change)
    requires Walk(h, how).Some? && Walk(t, how).Some?
    ensures Walk([Body(h, t)], how) == Some([Body(Walk(h, how).value, Walk(t, how).value)])
  {
    var b := Body(h, t);
    BodyPlain(h, t);
    WalkPlain(b.kids[0], how);
    WalkPlain(b.kids[1], how);
    WalkConcat([b.kids[0]], [b.kids[1]], how);
    WalkPlain(b, how);
    assert Walk(b.kids, how).value == Body(Walk(h, how).value, Walk(t, how).value).kids;
  }

  lemma {:induction false} WalkContains(how: Change)
    ensures Walk([CONTAINS], how) == Some([CONTAINS])
  {
    assert |"SgContainsStatement"| == 19;
    assert |"SgProgramHeaderStatement"| == 24 && |"SgProcedureHeaderStatement"| == 26 && |"SgModuleStatement"| == 17;
    WalkPlain(CONTAINS, how);
  }

  /** Where a unit was split, what was done inside it since is joined as if it had not been split. */
  lemma {:induction false} Rejoined(p: Elem)
    requires Tidy(p) && TidyAll(p.kids)
    ensures Contplus(p).Some? && Walk(Contplus(p).value.kids, Plus).Some? && Walk(p.kids, Plus).Some?
    ensures Contminus(p.(kids := Walk(Contplus(p).value.kids, Plus).value)) ==
            Some(p.(kids := Walk(p.kids, Plus).value))
  {
    var h, t := Head(p.kids), Tail(p.kids);
    SplitParts(p.kids);
    TidyParts(p.kids);
    WalkSome(h);
    WalkSome(t);
    WalkSome(p.kids);
    WalkBody(h, t, Plus);
    if First(p.kids).Some? {
      WalkContains(Plus);
      WalkConcat([CONTAINS], t, Plus);
      ConcatAssoc(h, [CONTAINS], t);
      WalkConcat(h, [CONTAINS] + t, Plus);
    } else {
      ConcatNothing(Walk(h, Plus).value);
    }
  }

  /** An element with what is inside its children done. */
  function Inside(e: Elem): Elem
    requires Walk(e.kids, Plus).Some?
  {
    e.(kids := Walk(e.kids, Plus).value)
  }

  lemma {:induction false} RejoinedAt(e: Elem, way: seq<nat>, name: string)
    requires TidyAt(e, way, name) && TidyAll(e.kids)
    ensures At(e, way, name, Plus).Some? && Walk(e.kids, Plus).Some?
    ensures var e' := At(e, way, name, Plus).value;
            e'.name == e.name && Walk(e'.kids, Plus).Some? && At(Inside(e'), way, name, Minus) == Some(Inside(e))
    decreases |way|
  {
    WalkSome(e.kids);
    if way == [] {
      Rejoined(e);
    } else {
      var i, c := way[0], e.kids[way[0]];
      Around(e.kids, i, c);
      TidyConcat(e.kids[..i] + [c], e.kids[i + 1..]);
      TidyConcat(e.kids[..i], [c]);
      TidyOne(c);
      RejoinedAt(c, way[1..], name);
      RejoinedStep(e, i, At(c, way[1..], name, Plus).value);
    }
  }

  /** With one child replaced, what is inside the children differs in that child only. */
  lemma {:induction false} RejoinedStep(e: Elem, i: nat, c': Elem)
    requires i < |e.kids| && TidyAll(e.kids[..i]) && TidyAll(e.kids[i + 1..])
    requires !IsUnit(e.kids[i]) && Walk(e.kids[i].kids, Plus).Some? && !IsUnit(c') && Walk(c'.kids, Plus).Some?
    ensures var e' := e.(kids := e.kids[i := c']);
            && Walk(e.kids, Plus).Some? && Walk(e'.kids, Plus).Some? && i < |Inside(e').kids|
            && Inside(e').kids[i] == Inside(c') && Inside(e').kids[i := Inside(e.kids[i])] == Inside(e).kids
  {
    var a, c, b := e.kids[..i], e.kids[i], e.kids[i + 1..];
    Around(e.kids, i, c');
    WalkSome(a);
    WalkSome(b);
    WalkPlain(c, Plus);
    WalkPlain(c', Plus);
    Swapped(a, c, b);
    Swapped(a, c', b);
    Around(Walk(a, Plus).value + [Inside(c')] + Walk(b, Plus).value, i, Inside(c));
  }

  lemma {:induction false} Swapped(a: seq<Elem>, c: Elem, b: seq<Elem>)
    requires Walk(a, Plus).Some? && Walk([c], Plus).Some? && Walk(b, Plus).Some?
    ensures Walk(a + [c] + b, Plus) == Some(Walk(a, Plus).value + Walk([c], Plus).value + Walk(b, Plus).value)
  {
    WalkConcat(a, [c], Plus);
    WalkConcat(a + [c], b, Plus);
  }

  /** Splitting all units of a program and joining them again gives the program. */
  lemma {:induction false} ProgramRejoined(ts: seq<Elem>)
    requires TidyAll(ts)
    ensures Walk(ts, Plus).Some? && Walk(Walk(ts, Plus).value, Minus) == Some(ts)
    decreases Elements(ts)
  {
    WalkSome(ts);
    if ts != [] {
      var t := ts[0];
      ProgramRejoined(t.kids);
      ProgramRejoined(ts[1..]);
      if IsUnit(t) {
        RejoinedAt(t, Way(t), HolderName(t));
      }
      var u := Unit(t, Plus).value;
      var w := u.(kids := Walk(u.kids, Plus).value);
      assert Unit(w, Minus) == Some(t.(kids := Walk(t.kids, Plus).value));
      assert t.(kids := t.kids) == t && [t] + ts[1..] == ts;
      assert ([w] + Walk(ts[1..], Plus).value)[1..] == Walk(ts[1..], Plus).value;
    }
  }
}
