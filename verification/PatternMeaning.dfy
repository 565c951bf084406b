/** What a generated test says about an element, in terms of the configuration alone: which
    attribute values are left open, which must be the pattern's own, what a list variable takes,
    and which variables get a path. */
module PatternMeaning {
  import opened Wrappers
  import opened Xml
  import opened XPath
  import opened Patterns
  import opened PatternProofs

  /** A pattern for a single element. */
  predicate Single(conf: Conf, x: Forest) {
    ConfOk(conf) && x.Pat? && x.nodeVar.None? && x.next == Nil && PatOk(conf, x) && ListsLast(conf, x)
  }

  /** All emitted predicates hold at `e`, the only child of a document. */
  predicate Accepts(conf: Conf, x: Forest, e: Elem) {
    AllHold(Elem("", [], [e]), Preds(conf, x, 1, Empty), ElemNode(Kid(Root, 0)))
  }

  lemma {:induction false} AcceptsMatch(conf: Conf, x: Forest, e: Elem)
    requires Single(conf, x) && DocOk(e)
    ensures Accepts(conf, x, e) <==> MatchElem(conf, x, e)
  {
    var doc := Elem("", [], [e]);
    OnlyChild(e);
    MatchPatternCorrect(conf, x, doc, Root, 0, 1);
    assert MatchFrom(conf, x.next, doc.kids, 1);
  }

  /** The way to a pattern node: from the context node to a sibling before or after it, if it is not
      the one that is matched first, and then down from child to child. */
  lemma {:induction false} PathForms(k: nat, a: int, b: int)
    requires k >= 1
    ensures StackPath(1, Empty) == Here
    ensures StackPath(1 + k, Empty) == Then(Here, FollowingSibling(k))
    ensures StackPath(1 - k, Empty) == Then(Here, PrecedingSibling(k))
    ensures StackPath(b, Push(a, Push(1, Empty))) == Then(Then(Here, Child(a)), Child(b))
  {
    assert StackPath(a, Push(1, Empty)) == Then(StackPath(1, Empty), Child(a));
  }

  // ----- attributes

  function NewValue(e: Elem, j: nat, v: string): (r: Elem)
    requires j < |e.attrs|
    ensures AttrNames(r.attrs) == AttrNames(e.attrs)
  {
    var attrs := e.attrs[j := Attr(e.attrs[j].name, v)];
    assert forall i | 0 <= i < |attrs| :: AttrNames(attrs)[i] == AttrNames(e.attrs)[i];
    e.(attrs := attrs)
  }

  lemma {:induction false} NewValueNames(e: Elem, j: nat, v: string)
    requires j < |e.attrs|
    ensures DocOk(e) ==> DocOk(NewValue(e, j, v))
    ensures NewValue(NewValue(e, j, v), j, e.attrs[j].value) == e
  {
    var e' := NewValue(e, j, v);
    assert e'.kids == e.kids;
    assert e'.attrs[j := Attr(e'.attrs[j].name, e.attrs[j].value)] == e.attrs;
  }

  lemma {:induction false} SameName(attrs: seq<Attr>, a: Attr, b: Attr)
    requires Distinct(AttrNames(attrs)) && a in attrs && b in attrs && a.name == b.name
    ensures a == b
  {
    var i :| 0 <= i < |attrs| && attrs[i] == a;
    var j :| 0 <= j < |attrs| && attrs[j] == b;
    assert AttrNames(attrs)[i] == AttrNames(attrs)[j];
  }

  /** If `a` is open, the value in the element does not matter. */
  lemma {:induction false} OpenValue(conf: Conf, x: Forest, a: Attr, e: Elem, j: nat, v: string)
    requires x.Pat? && Distinct(AttrNames(x.attrs)) && a in x.attrs && Open(conf, x, a)
    requires j < |e.attrs| && e.attrs[j].name == a.name && MatchElem(conf, x, e)
    ensures MatchElem(conf, x, NewValue(e, j, v))
  {
    var e' := NewValue(e, j, v);
    forall b | b in x.attrs && b.name !in conf.ignoreAttrs
      ensures AttrMatches(conf, x, b, e')
    {
      assert AttrMatches(conf, x, b, e);
      var c :| c in e.attrs && c.name == b.name && (Open(conf, x, b) || c.value == b.value);
      var i :| 0 <= i < |e.attrs| && e.attrs[i] == c;
      assert e'.attrs[i] in e'.attrs && e'.attrs[i].name == b.name;
      if b.name == a.name {
        SameName(x.attrs, a, b);
      } else {
        assert e'.attrs[i] == c;
      }
    }
    forall b | b in e'.attrs && b.name !in conf.ignoreAttrs
      ensures b.name in AttrNames(x.attrs)
    {
      var i :| 0 <= i < |e'.attrs| && e'.attrs[i] == b;
      assert e.attrs[i] in e.attrs && e.attrs[i].name == b.name;
    }
    assert AttrsMatch(conf, x, e') && e'.kids == e.kids && e'.name == e.name;
  }

  lemma {:induction false} OpenVerdict(conf: Conf, x: Forest, a: Attr, e: Elem, j: nat, v: string)
    requires Single(conf, x) && DocOk(e) && a in x.attrs && Open(conf, x, a)
    requires j < |e.attrs| && e.attrs[j].name == a.name
    ensures Accepts(conf, x, e) <==> Accepts(conf, x, NewValue(e, j, v))
  {
    var e' := NewValue(e, j, v);
    NewValueNames(e, j, v);
    AcceptsMatch(conf, x, e);
    AcceptsMatch(conf, x, e');
    if MatchElem(conf, x, e) {
      OpenValue(conf, x, a, e, j, v);
    }
    if MatchElem(conf, x, e') {
      OpenValue(conf, x, a, e', j, e.attrs[j].value);
    }
  }

  /** Where the pattern has a declared variable for an attribute of a variable kind, the verdict does
      not depend on the value that the element has there. */
  lemma {:induction false} VariableValueOpen(conf: Conf, x: Forest, a: Attr, e: Elem, j: nat, v: string)
    requires Single(conf, x) && DocOk(e) && a in x.attrs && a.name in conf.attrKinds && a.value in conf.vars
    requires j < |e.attrs| && e.attrs[j].name == a.name
    ensures Accepts(conf, x, e) <==> Accepts(conf, x, NewValue(e, j, v))
  {
    OpenVerdict(conf, x, a, e, j, v);
  }

  lemma {:induction false} ValueOf(attrs: seq<Attr>, a: Attr)
    requires Distinct(AttrNames(attrs)) && a in attrs
    ensures AttrValue(attrs, a.name) == Some(a.value)
  {
    if attrs[0].name == a.name {
      SameName(attrs, attrs[0], a);
    } else {
      assert attrs == [attrs[0]] + attrs[1..];
      assert a in attrs[1..] && AttrNames(attrs)[1..] == AttrNames(attrs[1..]);
      ValueOf(attrs[1..], a);
    }
  }

  /** The text of an integer whose value is a variable does not matter either. */
  lemma {:induction false} IntegerTextOpen(conf: Conf, x: Forest, a: Attr, b: Attr, e: Elem, j: nat, v: string)
    requires Single(conf, x) && DocOk(e) && x.name == "SgIntVal" && a in x.attrs && a.name == "string"
    requires b in x.attrs && b.name == "value" && b.value in conf.vars
    requires j < |e.attrs| && e.attrs[j].name == "string"
    ensures Accepts(conf, x, e) <==> Accepts(conf, x, NewValue(e, j, v))
  {
    ValueOf(x.attrs, b);
    OpenVerdict(conf, x, a, e, j, v);
  }

  /** Any other attribute that is not ignored must be there with the pattern's own value. */
  lemma {:induction false} OtherValuesOwn(conf: Conf, x: Forest, a: Attr, e: Elem)
    requires Single(conf, x) && DocOk(e) && a in x.attrs && a.name !in conf.ignoreAttrs
    requires !(a.name in conf.attrKinds && a.value in conf.vars)
    requires !(x.name == "SgIntVal" && a.name == "string" &&
               exists b :: b in x.attrs && b.name == "value" && b.value in conf.vars)
    requires Accepts(conf, x, e)
    ensures a in e.attrs
  {
    AcceptsMatch(conf, x, e);
    assert AttrMatches(conf, x, a, e);
    if Open(conf, x, a) {
      ValueIn(x.attrs, "value");
      assert false;
    }
    var b :| b in e.attrs && b.name == a.name && b.value == a.value;
    assert b == a;
  }

  lemma {:induction false} ValueIn(attrs: seq<Attr>, name: string)
    requires AttrValue(attrs, name).Some?
    ensures Attr(name, AttrValue(attrs, name).value) in attrs
  {
    if attrs[0].name != name {
      ValueIn(attrs[1..], name);
      assert forall b :: b in attrs[1..] ==> b in attrs;
    }
  }

  /** An accepted element has just the pattern's attributes, up to ignored ones. */
  lemma {:induction false} SameAttributes(conf: Conf, x: Forest, e: Elem, name: string)
    requires Single(conf, x) && DocOk(e) && Accepts(conf, x, e) && name !in conf.ignoreAttrs
    ensures name in AttrNames(e.attrs) <==> name in AttrNames(x.attrs)
  {
    AcceptsMatch(conf, x, e);
    if name in AttrNames(e.attrs) {
      var i :| 0 <= i < |e.attrs| && AttrNames(e.attrs)[i] == name;
      assert e.attrs[i] in e.attrs;
    }
    if name in AttrNames(x.attrs) {
      var i :| 0 <= i < |x.attrs| && AttrNames(x.attrs)[i] == name;
      assert x.attrs[i] in x.attrs && AttrMatches(conf, x, x.attrs[i], e);
      var b :| b in e.attrs && b.name == name;
      NamesIn(e.attrs, b);
    }
  }

  lemma {:induction false} MoreNames(attrs: seq<Attr>, a: Attr)
    requires Distinct(AttrNames(attrs)) && a.name !in AttrNames(attrs)
    ensures AttrNames(attrs + [a]) == AttrNames(attrs) + [a.name] && Distinct(AttrNames(attrs + [a]))
  {
    assert forall i | 0 <= i < |attrs| :: AttrNames(attrs + [a])[i] == (attrs + [a])[i].name == AttrNames(attrs)[i];
  }

  /** An ignored attribute of the element does not matter. */
  lemma {:induction false} IgnoredInElement(conf: Conf, x: Forest, e: Elem, a: Attr)
    requires Single(conf, x) && DocOk(e) && a.name in conf.ignoreAttrs && a.name !in AttrNames(e.attrs)
    ensures Accepts(conf, x, e.(attrs := e.attrs + [a])) <==> Accepts(conf, x, e)
  {
    var e' := e.(attrs := e.attrs + [a]);
    MoreNames(e.attrs, a);
    assert DocOk(e') && e'.kids == e.kids;
    AcceptsMatch(conf, x, e);
    AcceptsMatch(conf, x, e');
    forall b | b in x.attrs && b.name !in conf.ignoreAttrs
      ensures AttrMatches(conf, x, b, e') <==> AttrMatches(conf, x, b, e)
    {
      assert forall c :: c in e'.attrs <==> c in e.attrs || c == a;
    }
    assert forall c :: c in e'.attrs <==> c in e.attrs || c == a;
  }

  lemma {:induction false} ValueBehind(attrs: seq<Attr>, a: Attr, name: string)
    requires a.name != name
    ensures AttrValue(attrs + [a], name) == AttrValue(attrs, name)
  {
    if attrs == [] {
      assert [] + [a] == [a] && [a][1..] == [];
    } else {
      assert (attrs + [a])[0] == attrs[0] && (attrs + [a])[1..] == attrs[1..] + [a];
      ValueBehind(attrs[1..], a, name);
    }
  }

  /** Nor does an ignored attribute of the pattern, other than the value of an integer. */
  lemma {:induction false} IgnoredInPattern(conf: Conf, x: Forest, e: Elem, a: Attr)
    requires Single(conf, x) && DocOk(e) && a.name in conf.ignoreAttrs && a.name !in AttrNames(x.attrs)
    requires a.name != "value"
    ensures var x' := x.(attrs := x.attrs + [a]); Single(conf, x') && (Accepts(conf, x', e) <==> Accepts(conf, x, e))
  {
    var x' := x.(attrs := x.attrs + [a]);
    MoreNames(x.attrs, a);
    AcceptsMatch(conf, x, e);
    AcceptsMatch(conf, x', e);
    ValueBehind(x.attrs, a, "value");
    assert forall c :: c in x'.attrs <==> c in x.attrs || c == a;
    forall b | b in x.attrs
      ensures AttrMatches(conf, x', b, e) <==> AttrMatches(conf, x, b, e)
    {
    }
    assert forall c | c !in conf.ignoreAttrs :: c in AttrNames(x'.attrs) <==> c in AttrNames(x.attrs);
  }

  // ----- children

  function Last(x: Forest): (r: Forest)
    requires x.Pat?
    ensures r.Pat?
  {
    if x.next.Nil? then x else Last(x.next)
  }

  /** The last child of the pattern is a list variable. */
  predicate TakesRest(conf: Conf, x: Forest) {
    x.Pat? && var v := Last(x).nodeVar; v.Some? && v.value in conf.vars && conf.vars[v.value].isList
  }

  lemma {:induction false} TakesRestEnds(conf: Conf, x: Forest)
    requires ListsLast(conf, x)
    ensures TakesRest(conf, x) <==> EndsInList(conf, x)
  {
    if x.Pat? {
      TakesRestEnds(conf, x.next);
      assert EndsInList(conf, Nil) == false;
    }
  }

  lemma {:induction false} MatchLonger(conf: Conf, x: Forest, kids: seq<Elem>, k: Elem, i: int)
    requires MatchFrom(conf, x, kids, i)
    ensures MatchFrom(conf, x, kids + [k], i)
  {
    if x.Pat? {
      MatchLonger(conf, x.next, kids, k, i + 1);
      assert !IsList(conf, x) || x.nodeVar.None? ==> (kids + [k])[i] == kids[i];
    }
  }

  lemma {:induction false} CountLonger(kids: seq<Elem>, k: Elem, vs: seq<string>)
    ensures CountNotIn(ElemNames(kids + [k]), vs) ==
            CountNotIn(ElemNames(kids), vs) + (if k.name in vs then 0 else 1)
  {
    var names := ElemNames(kids + [k]);
    if kids == [] {
      assert [] + [k] == [k] && names[1..] == [] && names[0] == k.name;
    } else {
      CountLonger(kids[1..], k, vs);
      assert (kids + [k])[1..] == kids[1..] + [k] && (kids + [k])[0] == kids[0];
      assert names[1..] == ElemNames(kids[1..] + [k]) && ElemNames(kids)[1..] == ElemNames(kids[1..]);
    }
  }

  /** One more child of a kind that is not ignored is accepted exactly where a list variable takes it. */
  lemma {:induction false} RestTaken(conf: Conf, x: Forest, e: Elem, k: Elem)
    requires Single(conf, x) && DocOk(e) && DocOk(k) && Accepts(conf, x, e) && k.name !in conf.ignoreElems
    ensures Accepts(conf, x, e.(kids := e.kids + [k])) <==> TakesRest(conf, x.child)
  {
    var e' := e.(kids := e.kids + [k]);
    AcceptsMatch(conf, x, e);
    assert DocOk(e');
    AcceptsMatch(conf, x, e');
    TakesRestEnds(conf, x.child);
    CountLonger(e.kids, k, conf.ignoreElems);
    MatchLonger(conf, x.child, e.kids, k, 0);
    assert AttrsMatch(conf, x, e') by {
      assert forall a | a in x.attrs && a.name !in conf.ignoreAttrs ::
          AttrMatches(conf, x, a, e) && AttrMatches(conf, x, a, e');
    }
  }

  /** One more child of an ignored kind, behind the others, is always accepted. */
  lemma {:induction false} IgnoredChildTaken(conf: Conf, x: Forest, e: Elem, k: Elem)
    requires Single(conf, x) && DocOk(e) && DocOk(k) && Accepts(conf, x, e) && k.name in conf.ignoreElems
    ensures Accepts(conf, x, e.(kids := e.kids + [k]))
  {
    var e' := e.(kids := e.kids + [k]);
    AcceptsMatch(conf, x, e);
    assert DocOk(e');
    AcceptsMatch(conf, x, e');
    CountLonger(e.kids, k, conf.ignoreElems);
    MatchLonger(conf, x.child, e.kids, k, 0);
    assert AttrsMatch(conf, x, e') by {
      assert forall a | a in x.attrs && a.name !in conf.ignoreAttrs ::
          AttrMatches(conf, x, a, e) && AttrMatches(conf, x, a, e');
    }
  }

  /** The pattern that spells out an element, ignored children included. */
  function InFull(e: Elem): Forest
    decreases e, 1
  {
    Pat(e.name, e.attrs, None, KidsInFull(e.kids), Nil)
  }

  function KidsInFull(kids: seq<Elem>): Forest
    decreases kids, 0
  {
    if kids == [] then Nil
    else Pat(kids[0].name, kids[0].attrs, None, KidsInFull(kids[0].kids), KidsInFull(kids[1..]))
  }

  lemma {:induction false} OwnAttrs(conf: Conf, x: Forest, e: Elem)
    requires x.Pat? && x.attrs == e.attrs
    ensures AttrsMatch(conf, x, e)
  {
    forall b | b in e.attrs
      ensures b.name in AttrNames(x.attrs)
    {
      NamesIn(e.attrs, b);
    }
  }

  lemma {:induction false} KidsMatch(conf: Conf, all: seq<Elem>, kids: seq<Elem>, i: nat)
    requires i + |kids| == |all| && kids == all[i..] && forall k | k in kids :: DocOk(k)
    ensures var x := KidsInFull(kids);
            MatchFrom(conf, x, all, i) && PatOk(conf, x) && ListsLast(conf, x) && !EndsInList(conf, x) &&
            Siblings(conf, x) == CountNotIn(ElemNames(kids), conf.ignoreElems)
    decreases kids
  {
    if kids != [] {
      var k := kids[0];
      assert kids[1..] == all[i + 1..] && all[i] == k && DocOk(k);
      KidsMatch(conf, all, kids[1..], i + 1);
      KidsMatch(conf, k.kids, k.kids, 0);
      assert ElemNames(kids)[1..] == ElemNames(kids[1..]);
      OwnAttrs(conf, KidsInFull(kids), k);
    }
  }

  /** Every element is accepted by the pattern that spells it out in full, whatever is ignored. */
  lemma {:induction false} InFullAccepted(conf: Conf, e: Elem)
    requires ConfOk(conf) && DocOk(e)
    ensures Single(conf, InFull(e)) && Accepts(conf, InFull(e), e)
  {
    KidsMatch(conf, e.kids, e.kids, 0);
    OwnAttrs(conf, InFull(e), e);
    AcceptsMatch(conf, InFull(e), e);
  }

  // ----- variables

  /** The attribute stands for the variable: both are of one kind. */
  predicate StandsFor(conf: Conf, a: Attr, id: nat) {
    a.name in conf.attrKinds && a.value in conf.vars &&
    conf.vars[a.value].kind == conf.attrKinds[a.name] && conf.vars[a.value].id == id
  }

  predicate Occurs(conf: Conf, x: Forest, id: nat)
    requires PatOk(conf, x)
  {
    x.Pat? &&
    ((exists a :: a in x.attrs && StandsFor(conf, a, id))
     || (if x.nodeVar.Some? then conf.vars[x.nodeVar.value].id == id else Occurs(conf, x.child, id))
     || Occurs(conf, x.next, id))
  }

  predicate Registered(regs: seq<(nat, VarPath)>, id: nat) {
    exists r :: r in regs && r.0 == id
  }

  lemma {:induction false} RegisteredConcat(a: seq<(nat, VarPath)>, b: seq<(nat, VarPath)>, id: nat)
    ensures Registered(a + b, id) <==> Registered(a, id) || Registered(b, id)
  {
    assert forall r :: r in a + b <==> r in a || r in b;
  }

  lemma {:induction false} AttrsRegistered(conf: Conf, attrs: seq<Attr>, path: Path, id: nat)
    ensures Registered(AttrRegs(conf, attrs, path), id) <==> exists a :: a in attrs && StandsFor(conf, a, id)
  {
    if attrs != [] {
      var a := attrs[0];
      assert attrs == [a] + attrs[1..];
      AttrsRegistered(conf, attrs[1..], path, id);
      var here := if BindsAttr(conf, a) then [(conf.vars[a.value].id, AttrPath(path, a.name))] else [];
      RegisteredConcat(here, AttrRegs(conf, attrs[1..], path), id);
      assert Registered(here, id) <==> StandsFor(conf, a, id) by {
        assert here != [] ==> here[0] in here;
      }
    }
  }

  lemma {:induction false} PatternRegistered(conf: Conf, x: Forest, cnt: int, stack: Stack, id: nat)
    requires PatOk(conf, x)
    ensures Registered(Regs(conf, x, cnt, stack), id) <==> Occurs(conf, x, id)
    decreases x
  {
    if x.Pat? {
      var path := StackPath(cnt, stack);
      PatternRegistered(conf, x.next, cnt + 1, stack, id);
      AttrsRegistered(conf, x.attrs, path, id);
      RegisteredConcat(OwnRegs(conf, x, cnt, stack), Regs(conf, x.next, cnt + 1, stack), id);
      if x.nodeVar.None? {
        PatternRegistered(conf, x.child, 1, Push(cnt, stack), id);
        RegisteredConcat(AttrRegs(conf, x.attrs, path), Regs(conf, x.child, 1, Push(cnt, stack)), id);
      } else {
        RegisteredConcat(AttrRegs(conf, x.attrs, path), NodeRegs(conf, x, path), id);
        assert NodeRegs(conf, x, path)[0] in NodeRegs(conf, x, path);
      }
    }
  }

  lemma {:induction false} RegisterKeys(known: map<nat, VarPath>, regs: seq<(nat, VarPath)>, id: nat)
    ensures id in Register(known, regs) <==> id in known || Registered(regs, id)
    decreases regs
  {
    if regs != [] {
      assert regs == [regs[0]] + regs[1..];
      RegisterKeys(if regs[0].0 in known then known else known[regs[0].0 := regs[0].1], regs[1..], id);
      RegisteredConcat([regs[0]], regs[1..], id);
      assert Registered([regs[0]], id) <==> regs[0].0 == id by {
        assert regs[0] in [regs[0]];
      }
    }
  }

  /** A variable has a path exactly if an attribute of its kind, or a node, stands for it. */
  lemma {:induction false} PathsExact(conf: Conf, x: Forest, cnt: int, id: nat)
    requires PatOk(conf, x)
    ensures id in Register(map[], Regs(conf, x, cnt, Empty)) <==> Occurs(conf, x, id)
  {
    PatternRegistered(conf, x, cnt, Empty, id);
    RegisterKeys(map[], Regs(conf, x, cnt, Empty), id);
  }

  lemma {:induction false} FirstAttr(conf: Conf, attrs: seq<Attr>, parent: Loc, i: int, k: nat, id: nat)
    requires k < |attrs| && StandsFor(conf, attrs[k], id)
    requires forall j | 0 <= j < k :: !StandsFor(conf, attrs[j], id)
    ensures FirstFor(AttrBindings(conf, attrs, parent, i), id) == Some(AttrOf(parent, i, attrs[k].name))
  {
    var rest := AttrBindings(conf, attrs[1..], parent, i);
    if k > 0 {
      assert attrs[1..][k - 1] == attrs[k];
      assert forall j | 0 <= j < k - 1 :: attrs[1..][j] == attrs[j + 1];
      FirstAttr(conf, attrs[1..], parent, i, k - 1, id);
      assert !StandsFor(conf, attrs[0], id);
      if BindsAttr(conf, attrs[0]) {
        var b := (conf.vars[attrs[0].value].id, AttrOf(parent, i, attrs[0].name));
        assert ([b] + rest)[1..] == rest;
      } else {
        assert [] + rest == rest;
      }
    }
  }

  lemma {:induction false} FirstConcat(a: seq<(nat, Bound)>, b: seq<(nat, Bound)>, id: nat)
    requires FirstFor(a, id).Some?
    ensures FirstFor(a + b, id) == FirstFor(a, id)
  {
    if a[0].0 != id {
      assert (a + b)[1..] == a[1..] + b;
      FirstConcat(a[1..], b, id);
    }
  }

  lemma {:induction false} FirstBinding(conf: Conf, x: Forest, k: nat, id: nat)
    requires Single(conf, x) && k < |x.attrs| && StandsFor(conf, x.attrs[k], id)
    requires forall j | 0 <= j < k :: !StandsFor(conf, x.attrs[j], id)
    ensures FirstFor(Bindings(conf, x, Root, 0), id) == Some(AttrOf(Root, 0, x.attrs[k].name))
  {
    FirstAttr(conf, x.attrs, Root, 0, k, id);
    FirstConcat(AttrBindings(conf, x.attrs, Root, 0), Bindings(conf, x.child, Kid(Root, 0), 0), id);
    FirstConcat(OwnBindings(conf, x, Root, 0), Bindings(conf, x.next, Root, 1), id);
  }

  lemma {:induction false} OnlyChild(e: Elem)
    requires DocOk(e)
    ensures var doc := Elem("", [], [e]); DocOk(doc) && At(doc, Root) == doc && ValidLoc(doc, Kid(Root, 0))
  {
    var doc := Elem("", [], [e]);
    assert AttrNames(doc.attrs) == [] && At(doc, Root) == doc;
  }

  /** In an accepted element the path of a variable selects the attribute that first stands for it. */
  lemma {:induction false} AttrVariableBound(conf: Conf, x: Forest, e: Elem, k: nat, id: nat)
    requires Single(conf, x) && DocOk(e) && Accepts(conf, x, e)
    requires k < |x.attrs| && StandsFor(conf, x.attrs[k], id)
    requires forall j | 0 <= j < k :: !StandsFor(conf, x.attrs[j], id)
    ensures var doc, paths := Elem("", [], [e]), Register(map[], Regs(conf, x, 1, Empty));
            id in paths && EvalVar(doc, paths[id], ElemNode(Kid(Root, 0))) ==
            set j | 0 <= j < |e.attrs| && e.attrs[j].name == x.attrs[k].name :: AttrNode(Kid(Root, 0), j)
  {
    var doc := Elem("", [], [e]);
    OnlyChild(e);
    FirstBinding(conf, x, k, id);
    VariablesCorrect(conf, x, doc, Root, 0, 1, id);
    assert At(doc, Root).kids[0] == e;
  }

  lemma {:induction false} NoAttr(conf: Conf, attrs: seq<Attr>, parent: Loc, i: int, id: nat)
    requires forall a | a in attrs :: !StandsFor(conf, a, id)
    ensures FirstFor(AttrBindings(conf, attrs, parent, i), id) == None
  {
    if attrs != [] {
      NoAttr(conf, attrs[1..], parent, i, id);
      assert !StandsFor(conf, attrs[0], id);
      var rest := AttrBindings(conf, attrs[1..], parent, i);
      if BindsAttr(conf, attrs[0]) {
        var b := (conf.vars[attrs[0].value].id, AttrOf(parent, i, attrs[0].name));
        assert ([b] + rest)[1..] == rest;
      } else {
        assert [] + rest == rest;
      }
    }
  }

  lemma {:induction false} FirstBehind(a: seq<(nat, Bound)>, b: seq<(nat, Bound)>, id: nat)
    requires FirstFor(a, id).None?
    ensures FirstFor(a + b, id) == FirstFor(b, id)
  {
    if a == [] {
      assert a + b == b;
    } else {
      assert (a + b)[1..] == a[1..] + b;
      FirstBehind(a[1..], b, id);
    }
  }

  lemma {:induction false} FirstNode(conf: Conf, x: Forest, v: string, parent: Loc, i: int)
    requires x.Pat? && PatOk(conf, x) && x.nodeVar == Some(v)
    requires forall a | a in x.attrs :: !StandsFor(conf, a, conf.vars[v].id)
    ensures FirstFor(Bindings(conf, x, parent, i), conf.vars[v].id) ==
            Some(if conf.vars[v].isList then Suffix(parent, i) else Sibling(parent, i))
  {
    var id := conf.vars[v].id;
    var node := NodeBinding(conf, x, parent, i);
    NoAttr(conf, x.attrs, parent, i, id);
    FirstBehind(AttrBindings(conf, x.attrs, parent, i), node, id);
    FirstConcat(OwnBindings(conf, x, parent, i), Bindings(conf, x.next, parent, i + 1), id);
  }

  /** The path of a node variable selects the node it stands for, that of a list variable this one and
      all behind it. */
  lemma {:induction false} NodeVariableBound(conf: Conf, x: Forest, v: string, doc: Elem, parent: Loc, i: nat, cnt: int)
    requires ConfOk(conf) && x.Pat? && PatOk(conf, x) && ListsLast(conf, x) && DocOk(doc)
    requires ValidLoc(doc, Kid(parent, i)) && i + cnt - 1 >= 0
    requires AllHold(doc, Preds(conf, x, cnt, Empty), ElemNode(Kid(parent, i)))
    requires x.nodeVar == Some(v) && forall a | a in x.attrs :: !StandsFor(conf, a, conf.vars[v].id)
    ensures var j, paths := i + cnt - 1, Register(map[], Regs(conf, x, cnt, Empty));
            conf.vars[v].id in paths && EvalVar(doc, paths[conf.vars[v].id], ElemNode(Kid(parent, i))) ==
            set l | j <= l < (if conf.vars[v].isList then |At(doc, parent).kids| else j + 1) :: ElemNode(Kid(parent, l))
  {
    var j := i + cnt - 1;
    VariablesCorrect(conf, x, doc, parent, i, cnt, conf.vars[v].id);
    FirstNode(conf, x, v, parent, j);
    if !conf.vars[v].isList {
      RootMatches(conf, x, doc, parent, i, cnt);
      assert j < |At(doc, parent).kids|;
      assert (set l | j <= l < j + 1 :: ElemNode(Kid(parent, l))) == {ElemNode(Kid(parent, j))};
    }
  }
}
