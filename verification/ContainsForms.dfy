/** Program units with contains statements, written out: what is split and what it becomes, what is
    joined, and where each kind of unit holds its statements. */
module ContainsForms {
  import opened Wrappers
  import opened Xml
  import opened Contains

  predicate NoneContains(ts: seq<Elem>) {
    forall t | t in ts :: t.name != "SgContainsStatement"
  }

  lemma {:induction false} SplitAt(h: seq<Elem>, rest: seq<Elem>)
    requires NoneContains(h) && (rest == [] || rest[0].name == "SgContainsStatement")
    ensures Head(h + rest) == h && Tail(h + rest) == (if rest == [] then [] else rest[1..])
  {
    if h == [] {
      assert h + rest == rest;
    } else {
      assert h[0] in h && (h + rest)[0] == h[0] && (h + rest)[1..] == h[1..] + rest;
      assert forall t | t in h[1..] :: t in h;
      SplitAt(h[1..], rest);
      assert h == [h[0]] + h[1..];
    }
  }

  /** Statements around the first contains statement, which may have any attributes and children, go
      into a head and a tail below one body; the statement itself is dropped. */
  lemma {:induction false} SplitForm(p: Elem, h: seq<Elem>, c: Elem, t: seq<Elem>)
    requires NoneContains(h) && c.name == "SgContainsStatement" && p.kids == h + [c] + t
    ensures Contplus(p) ==
            if h == [] then None
            else Some(Elem(p.name, p.attrs, [Elem("contains_body", [], [Elem("contains_head", [], h),
                                                                        Elem("contains_tail", [], t)])]))
  {
    ConcatAssoc(h, [c], t);
    SplitAt(h, [c] + t);
    if h != [] {
      assert h[0] in h && p.kids[0] == h[0];
    } else {
      assert p.kids[0] == c;
    }
  }

  /** Without a contains statement the tail is empty. */
  lemma {:induction false} WholeForm(p: Elem)
    requires NoneContains(p.kids)
    ensures Contplus(p) == Some(Elem(p.name, p.attrs, [Elem("contains_body", [],
                                                            [Elem("contains_head", [], p.kids),
                                                             Elem("contains_tail", [], [])])]))
  {
    ConcatNothing(p.kids);
    SplitAt(p.kids, []);
    assert p.kids != [] ==> p.kids[0] in p.kids;
  }

  /** The children of the first two grandchildren are joined, whatever these are named and whatever
      else is there, with a bare contains statement between them unless there are no second ones. */
  lemma {:induction false} JoinForm(p: Elem, b: Elem, x: Elem, y: Elem, more: seq<Elem>, rest: seq<Elem>)
    requires p.kids == [b] + rest && b.kids == [x, y] + more
    ensures Contminus(p) ==
            if x.kids == [] then None
            else if y.kids == [] then Some(Elem(p.name, p.attrs, x.kids))
            else Some(Elem(p.name, p.attrs, x.kids + [Elem("SgContainsStatement", [], [])] + y.kids))
  {
    assert p.kids[0] == b && b.kids[0] == x && b.kids[1] == y;
    ConcatNothing(x.kids);
    ConcatAssoc(x.kids, [CONTAINS], y.kids);
  }

  // ----- where units hold their statements

  function Changed(how: Change, p: Elem, name: string): Option<Elem> {
    if p.name != name then None else if how == Plus then Contplus(p) else Contminus(p)
  }

  lemma {:induction false} AtSteps(t: Elem, i: nat, j: nat, name: string, how: Change)
    requires i < |t.kids| && j < |t.kids[i].kids|
    ensures At(t, [i, j], name, how) ==
            match Changed(how, t.kids[i].kids[j], name)
            case None => None
            case Some(k) => Some(t.(kids := t.kids[i := t.kids[i].(kids := t.kids[i].kids[j := k])]))
  {
    var u := t.kids[i];
    assert [i, j][1..] == [j] && [j][1..] == [];
    assert At(u.kids[j], [], name, how) == Changed(how, u.kids[j], name);
    assert At(u, [j], name, how) ==
           match Changed(how, u.kids[j], name) case None => None case Some(k) => Some(u.(kids := u.kids[j := k]));
  }

  /** A program holds its statements in the basic block that is first below its second child. */
  lemma {:induction false} ProgramForm(t: Elem, a: Elem, b: Elem, p: Elem, more: seq<Elem>, rest: seq<Elem>,
                                       how: Change)
    requires t.name == "SgProgramHeaderStatement" && t.kids == [a, b] + rest && b.kids == [p] + more
    ensures Unit(t, how) ==
            match Changed(how, p, "SgBasicBlock")
            case None => None
            case Some(q) => Some(Elem(t.name, t.attrs, [a, Elem(b.name, b.attrs, [q] + more)] + rest))
  {
    AtSteps(t, 1, 0, "SgBasicBlock", how);
    assert t.kids[1] == b && b.kids[0] == p;
    forall q: Elem, b': Elem
      ensures b.kids[0 := q] == [q] + more && t.kids[1 := b'] == [a, b'] + rest
    {
    }
  }

  /** A procedure holds them in the one that is first below its third child. */
  lemma {:induction false} ProcedureForm(t: Elem, a: Elem, a': Elem, b: Elem, p: Elem, more: seq<Elem>, rest: seq<Elem>,
                                         how: Change)
    requires t.name == "SgProcedureHeaderStatement" && t.kids == [a, a', b] + rest && b.kids == [p] + more
    ensures Unit(t, how) ==
            match Changed(how, p, "SgBasicBlock")
            case None => None
            case Some(q) => Some(Elem(t.name, t.attrs, [a, a', Elem(b.name, b.attrs, [q] + more)] + rest))
  {
    assert |"SgProgramHeaderStatement"| == 24 && |"SgProcedureHeaderStatement"| == 26;
    assert |"SgModuleStatement"| == 17;
    AtSteps(t, 2, 0, "SgBasicBlock", how);
    assert t.kids[2] == b && b.kids[0] == p;
    forall q: Elem, b': Elem
      ensures b.kids[0 := q] == [q] + more && t.kids[2 := b'] == [a, a', b'] + rest
    {
    }
  }

  /** A module holds them in the class definition that is its first child. */
  lemma {:induction false} ModuleForm(t: Elem, p: Elem, rest: seq<Elem>, how: Change)
    requires t.name == "SgModuleStatement" && t.kids == [p] + rest
    ensures Unit(t, how) ==
            match Changed(how, p, "SgClassDefinition")
            case None => None
            case Some(q) => Some(Elem(t.name, t.attrs, [q] + rest))
  {
    assert |"SgProgramHeaderStatement"| == 24 && |"SgProcedureHeaderStatement"| == 26;
    assert |"SgModuleStatement"| == 17;
    assert [0][1..] == [] && t.kids[0] == p;
    assert forall q: Elem :: t.kids[0 := q] == [q] + rest;
  }

  /** Nothing else is a unit. */
  lemma {:induction false} OtherForm(t: Elem, how: Change)
    requires t.name != "SgProgramHeaderStatement" && t.name != "SgProcedureHeaderStatement"
    requires t.name != "SgModuleStatement"
    ensures Unit(t, how) == Some(t)
  {
  }
}
