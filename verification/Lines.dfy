/** Line directives, which apply to all that follows them among their siblings: turning what follows
    into a target of the directive, and back. */
module Lines {
  import opened Wrappers
  import opened Xml
  import opened Blocks

  /** A pragma with neither a begin nor an end clause. */
  predicate IsLine(t: Elem) {
    t.name == "xev_pragma" &&
        (t.kids != [] ==> !HasClause(t.kids[0].kids, "begin") && !HasClause(t.kids[0].kids, "end"))
  }

  function LineCount(ts: seq<Elem>): nat {
    if ts == [] then 0 else (if IsLine(ts[0]) then 1 else 0) + LineCount(ts[0].kids) + LineCount(ts[1..])
  }

  lemma {:induction false} CountSnoc(ts: seq<Elem>, t: Elem)
    ensures LineCount(ts + [t]) == LineCount(ts) + LineCount([t])
    ensures Elements(ts + [t]) == Elements(ts) + Elements([t])
  {
    if ts == [] {
      ConcatNothing([t]);
    } else {
      assert (ts + [t])[1..] == ts[1..] + [t] && (ts + [t])[0] == ts[0];
      CountSnoc(ts[1..], t);
    }
  }

  lemma {:induction false} CountTarget(ts: seq<Elem>)
    ensures LineCount([Target(ts)]) == LineCount(ts) && Elements([Target(ts)]) == 1 + Elements(ts)
  {
    assert "xev_target"[4] != "xev_pragma"[4];
    assert [Target(ts)][1..] == [];
  }

  /** All that follows a line directive becomes its last child; then the work goes on inside. */
  function ConstrLine(ts: seq<Elem>): seq<Elem>
    decreases LineCount(ts), Elements(ts)
  {
    if ts == [] then []
    else if IsLine(ts[0]) then
      CountSnoc(ts[0].kids, Target(ts[1..]));
      CountTarget(ts[1..]);
      [ts[0].(kids := ConstrLine(ts[0].kids + [Target(ts[1..])]))]
    else [ts[0].(kids := ConstrLine(ts[0].kids))] + ConstrLine(ts[1..])
  }

  /** The statements of a target go back behind their directive; inside the clause list nothing is done. */
  function DestrLine(ts: seq<Elem>): seq<Elem>
    decreases Elements(ts)
  {
    if ts == [] then []
    else if IsLine(ts[0]) && HasTarget(ts[0]) then
      ElementsConcat(ts[0].kids[1].kids, ts[1..]);
      TargetSize(ts[0].kids);
      [ts[0].(kids := [ts[0].kids[0]])] + DestrLine(ts[0].kids[1].kids + ts[1..])
    else [ts[0].(kids := DestrLine(ts[0].kids))] + DestrLine(ts[1..])
  }

  lemma {:induction false} TargetSize(kids: seq<Elem>)
    requires |kids| >= 2
    ensures Elements(kids[1].kids) < Elements(kids)
  {
  }

  /** No line directive has anything but its clause list, and no line directive is in a clause list. */
  predicate Spread(ts: seq<Elem>) {
    ts == [] ||
    ((if IsLine(ts[0]) then |ts[0].kids| == 1 && LineCount(ts[0].kids) == 0
      else Spread(ts[0].kids) && (IsDirective(ts[0]) && ts[0].kids != [] ==> LineCount([ts[0].kids[0]]) == 0)) &&
     Spread(ts[1..]))
  }

  /** Every line directive is the last of its siblings and holds what followed it. */
  predicate Gathered(ts: seq<Elem>) {
    ts == [] ||
    (if IsLine(ts[0])
     then |ts| == 1 && |ts[0].kids| == 2 && LineCount([ts[0].kids[0]]) == 0 &&
          ts[0].kids[1] == Target(ts[0].kids[1].kids) && Gathered(ts[0].kids[1].kids)
     else
       && Gathered(ts[0].kids) && Gathered(ts[1..])
       && (IsDirective(ts[0]) && ts[0].kids != [] ==> LineCount([ts[0].kids[0]]) == 0))
  }

  lemma {:induction false} NoLines(ts: seq<Elem>)
    requires LineCount(ts) == 0
    ensures ConstrLine(ts) == ts && DestrLine(ts) == ts && Gathered(ts)
  {
    if ts != [] {
      NoLines(ts[0].kids);
      NoLines(ts[1..]);
      if ts[0].kids != [] {
        assert [ts[0].kids[0]][1..] == [] && LineCount([ts[0].kids[0]]) == 0;
      }
      assert ts[0].(kids := ts[0].kids) == ts[0] && [ts[0]] + ts[1..] == ts;
    }
  }

  lemma {:induction false} ConstrDirective(t: Elem, rest: seq<Elem>)
    requires IsLine(t) && |t.kids| == 1 && LineCount(t.kids) == 0
    ensures ConstrLine([t] + rest) == [t.(kids := [t.kids[0], Target(ConstrLine(rest))])]
  {
    var l, target := t.kids[0], Target(rest);
    assert ([t] + rest)[1..] == rest && t.kids == [l] && t.kids + [target] == [l, target];
    assert "xev_target"[4] != "xev_pragma"[4];
    NoLines(l.kids);
    assert [l, target][1..] == [target] && [target][1..] == [];
    assert l.(kids := l.kids) == l;
    assert ConstrLine([target]) == [Target(ConstrLine(rest))];
    assert ConstrLine([l, target]) == [l] + [Target(ConstrLine(rest))] == [l, Target(ConstrLine(rest))];
    LineUnfold([t] + rest);
  }

  lemma {:induction false} LineUnfold(ts: seq<Elem>)
    requires ts != [] && IsLine(ts[0])
    ensures ConstrLine(ts) == [ts[0].(kids := ConstrLine(ts[0].kids + [Target(ts[1..])]))]
  {
  }

  lemma {:induction false} DestrDirective(t: Elem, body: seq<Elem>, rest: seq<Elem>)
    requires IsLine(t) && t.kids != [] && |t.kids| == 2 && t.kids[1] == Target(body)
    ensures DestrLine([t] + rest) == [t.(kids := [t.kids[0]])] + DestrLine(body + rest)
  {
    assert ([t] + rest)[1..] == rest;
  }

  lemma {:induction false} StillNoLine(t: Elem)
    requires !IsLine(t) && (IsDirective(t) && t.kids != [] ==> LineCount([t.kids[0]]) == 0)
    ensures !IsLine(t.(kids := ConstrLine(t.kids))) && !IsLine(t.(kids := DestrLine(t.kids)))
    ensures t.kids != [] && LineCount([t.kids[0]]) == 0 ==>
              ConstrLine(t.kids) != [] && ConstrLine(t.kids)[0] == t.kids[0] &&
              DestrLine(t.kids) != [] && DestrLine(t.kids)[0] == t.kids[0]
    ensures t.kids == [] ==> ConstrLine(t.kids) == [] && DestrLine(t.kids) == []
  {
    if t.kids != [] {
      var l := t.kids[0];
      if LineCount([l]) == 0 {
        NoLines(l.kids);
        assert l.(kids := l.kids) == l;
        assert ConstrLine(t.kids)[0] == l && DestrLine(t.kids)[0] == l;
      }
    }
  }

  /** Destruction undoes construction where no line directive has a target yet. */
  lemma {:induction false} DestrConstr(ts: seq<Elem>)
    requires Spread(ts)
    ensures DestrLine(ConstrLine(ts)) == ts && Gathered(ConstrLine(ts))
    decreases Elements(ts)
  {
    if ts != [] {
      var t, rest := ts[0], ts[1..];
      assert ts == [t] + rest;
      DestrConstr(rest);
      if IsLine(t) {
        ConstrDirective(t, rest);
        var t' := t.(kids := [t.kids[0], Target(ConstrLine(rest))]);
        assert IsLine(t') && [t.kids[0]] == t.kids && t.(kids := t.kids) == t;
        DestrDirective(t', ConstrLine(rest), []);
        ConcatNothing([t']);
        ConcatNothing(ConstrLine(rest));
      } else {
        DestrConstr(t.kids);
        StillNoLine(t);
        PlainConstr(t, rest);
      }
    }
  }

  lemma {:induction false} PlainConstr(t: Elem, rest: seq<Elem>)
    requires !IsLine(t)
    requires DestrLine(ConstrLine(t.kids)) == t.kids && Gathered(ConstrLine(t.kids)) &&
             !IsLine(t.(kids := ConstrLine(t.kids)))
    requires DestrLine(ConstrLine(rest)) == rest && Gathered(ConstrLine(rest))
    requires IsDirective(t) && ConstrLine(t.kids) != [] ==> LineCount([ConstrLine(t.kids)[0]]) == 0
    ensures DestrLine(ConstrLine([t] + rest)) == [t] + rest && Gathered(ConstrLine([t] + rest))
  {
    var t' := t.(kids := ConstrLine(t.kids));
    assert ([t] + rest)[1..] == rest;
    assert ([t'] + ConstrLine(rest))[1..] == ConstrLine(rest);
    assert t'.(kids := t.kids) == t;
  }

  /** Construction undoes destruction where every line directive holds all that follows it. */
  lemma {:induction false} ConstrDestr(ts: seq<Elem>)
    requires Gathered(ts)
    ensures ConstrLine(DestrLine(ts)) == ts
    decreases Elements(ts)
  {
    if ts != [] {
      var t, rest := ts[0], ts[1..];
      if IsLine(t) {
        var body := t.kids[1].kids;
        assert ts == [t] && rest == [];
        TargetSize(t.kids);
        ConstrDestr(body);
        ConcatNothing(body);
        DestrDirective(t, body, []);
        ConcatNothing([t]);
        var t0 := t.(kids := [t.kids[0]]);
        assert IsLine(t0);
        ConstrDirective(t0, DestrLine(body));
        assert t0.(kids := [t.kids[0], Target(body)]) == t by {
          assert t.kids == [t.kids[0], t.kids[1]];
        }
      } else {
        ConstrDestr(t.kids);
        ConstrDestr(rest);
        StillNoLine(t);
        var t' := t.(kids := DestrLine(t.kids));
        assert ([t'] + DestrLine(rest))[1..] == DestrLine(rest);
        assert t'.(kids := t.kids) == t && [t] + rest == ts;
      }
    }
  }

  // ----- what is gathered and scattered, written out

  predicate NoMark(clauses: seq<Elem>) {
    forall c | c in clauses :: AttrValue(c.attrs, "name") != Some("begin") && AttrValue(c.attrs, "name") != Some("end")
  }

  lemma {:induction false} NoDirectiveLines(ts: seq<Elem>)
    requires forall t | t in ts :: NoDirective(t)
    ensures LineCount(ts) == 0
  {
    if ts != [] {
      assert ts[0] in ts;
      NoDirectiveLines(ts[0].kids);
      NoDirectiveLines(ts[1..]);
    }
  }

  /** All that follows a pragma without begin and end, whatever it is, becomes a target behind its list. */
  lemma {:induction false} GatheredForm(t: Elem, l: Elem, rest: seq<Elem>)
    requires t.name == "xev_pragma" && t.kids == [l] && NoMark(l.kids) && NoDirective(l)
    ensures ConstrLine([t] + rest) == [Elem("xev_pragma", t.attrs, [l, Elem("xev_target", [], ConstrLine(rest))])]
  {
    NoDirectiveLines([l]);
    ConstrDirective(t, rest);
  }

  /** The children of a target follow its directive, which keeps its list only; other children are lost. */
  lemma {:induction false} ScatteredForm(t: Elem, l: Elem, target: Elem, more: seq<Elem>, rest: seq<Elem>)
    requires t.name == "xev_pragma" && t.kids == [l, target] + more && NoMark(l.kids) && target.name == "xev_target"
    ensures DestrLine([t] + rest) == [Elem("xev_pragma", t.attrs, [l])] + DestrLine(target.kids + rest)
  {
    assert ([t] + rest)[1..] == rest && t.kids[0] == l && t.kids[1] == target;
  }

  /** Anything else stays with what follows it: elements that are no pragma, and pragmas with a begin or
      an end in their list. */
  lemma {:induction false} OtherForm(t: Elem, rest: seq<Elem>)
    requires t.name != "xev_pragma" || (t.kids != [] && !NoMark(t.kids[0].kids))
    ensures ConstrLine([t] + rest) == [t.(kids := ConstrLine(t.kids))] + ConstrLine(rest)
    ensures DestrLine([t] + rest) == [t.(kids := DestrLine(t.kids))] + DestrLine(rest)
  {
    assert ([t] + rest)[1..] == rest;
  }
}
