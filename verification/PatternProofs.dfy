/** The generated predicates mean what the structural matcher says, and the registered
    paths select what the matcher binds. */
module PatternProofs {
  import opened Wrappers
  import opened Xml
  import opened XPath
  import opened Patterns

  /** XML 1.0, section 3.1: no attribute name appears twice in one tag. */
  predicate DocOk(e: Elem) {
    Distinct(AttrNames(e.attrs)) && forall k | k in e.kids :: DocOk(k)
  }

  lemma {:induction false} DocOkAt(doc: Elem, loc: Loc)
    requires DocOk(doc) && ValidLoc(doc, loc)
    ensures DocOk(At(doc, loc))
    decreases loc
  {
    if loc.Kid? {
      DocOkAt(doc, loc.parent);
    }
  }

  /** `stack` leads from the context node to the element whose children are being matched;
      an empty stack stands for the siblings of the context node itself. */
  ghost predicate Anchored(doc: Elem, ctx: Loc, parent: Loc, base: int, stack: Stack) {
    && ctx.Kid? && ValidLoc(doc, ctx) && ValidLoc(doc, parent)
    && (stack.Empty? ==> parent == ctx.parent && base == ctx.index)
    && (stack.Push? ==> parent.Kid? && base == 0 &&
                        Eval(doc, StackPath(stack.cnt, stack.rest), {ElemNode(ctx)}) == {ElemNode(parent)})
  }

  ghost function Target(doc: Elem, parent: Loc, j: int): set<Node>
    requires ValidLoc(doc, parent)
  {
    if 0 <= j < |At(doc, parent).kids| then {ElemNode(Kid(parent, j))} else {}
  }

  lemma {:induction false} StackPathTarget(doc: Elem, ctx: Loc, parent: Loc, base: int, stack: Stack, cnt: int)
    requires Anchored(doc, ctx, parent, base, stack)
    requires stack.Push? ==> cnt >= 1
    ensures Eval(doc, StackPath(cnt, stack), {ElemNode(ctx)}) == Target(doc, parent, base + cnt - 1)
  {
    var n := ElemNode(ctx);
    if stack.Empty? {
        if cnt != 1 {
        AdvanceOne(doc, n, StackPath(cnt, stack).step);
      }
    } else {
      EvalExtend(doc, StackPath(stack.cnt, stack.rest), Child(cnt), {n}, ElemNode(parent));
    }
  }

  // ----- attributes

  lemma {:induction false} NamesIn(attrs: seq<Attr>, b: Attr)
    requires b in attrs
    ensures b.name in AttrNames(attrs)
  {
    var i :| 0 <= i < |attrs| && attrs[i] == b;
    assert AttrNames(attrs)[i] == b.name;
  }

  lemma {:induction false} NamedAttrs(loc: Loc, attrs: seq<Attr>, name: string)
    ensures |set j | 0 <= j < |attrs| && attrs[j].name == name :: AttrNode(loc, j)| == CountEq(AttrNames(attrs), name)
  {
    var names := AttrNames(attrs);
    AttrPicks(loc, names, name, |names|);
    assert names[..|names|] == names;
    assert (set j | 0 <= j < |attrs| && attrs[j].name == name :: AttrNode(loc, j)) ==
           (set j | 0 <= j < |names| && names[j] == name :: AttrNode(loc, j));
  }

  lemma {:induction false} NamedAttrNodes(doc: Elem, loc: Loc, path: Path, from: set<Node>, name: string)
    requires loc.Kid? && ValidLoc(doc, loc) && Eval(doc, path, from) == {ElemNode(loc)}
    ensures |Eval(doc, Then(path, NamedAttr(name)), from)| == CountEq(AttrNames(At(doc, loc).attrs), name)
    ensures Eval(doc, Then(path, NamedAttr(name)), from) ==
            set j | 0 <= j < |At(doc, loc).attrs| && At(doc, loc).attrs[j].name == name :: AttrNode(loc, j)
  {
    EvalExtend(doc, path, NamedAttr(name), from, ElemNode(loc));
    NamedAttrs(loc, At(doc, loc).attrs, name);
  }

  lemma {:induction false} NamedKidNodes(doc: Elem, loc: Loc, path: Path, from: set<Node>, name: string)
    requires loc.Kid? && ValidLoc(doc, loc) && Eval(doc, path, from) == {ElemNode(loc)}
    ensures |Eval(doc, Then(path, NamedChild(name)), from)| == CountEq(ElemNames(At(doc, loc).kids), name)
  {
    var kids := At(doc, loc).kids;
    var names := ElemNames(kids);
    EvalExtend(doc, path, NamedChild(name), from, ElemNode(loc));
    ElemPicks(loc, names, name, |names|);
    assert names[..|names|] == names;
    assert (set j | 0 <= j < |kids| && kids[j].name == name :: ElemNode(Kid(loc, j))) ==
           (set j | 0 <= j < |names| && names[j] == name :: ElemNode(Kid(loc, j)));
  }

  lemma {:induction false} AttrMinusSum(doc: Elem, loc: Loc, path: Path, from: set<Node>, ignored: seq<string>)
    requires loc.Kid? && ValidLoc(doc, loc) && Eval(doc, path, from) == {ElemNode(loc)} && Distinct(ignored)
    ensures CountSum(doc, AttrMinus(path, ignored), from) + CountNotIn(AttrNames(At(doc, loc).attrs), ignored) ==
            |At(doc, loc).attrs|
  {
    var names := AttrNames(At(doc, loc).attrs);
    if ignored == [] {
      CountNotInNone(names);
    } else {
      AttrMinusSum(doc, loc, path, from, ignored[1..]);
      NamedAttrNodes(doc, loc, path, from, ignored[0]);
      CountNotInCons(names, ignored[0], ignored[1..]);
      assert [ignored[0]] + ignored[1..] == ignored;
      assert AttrMinus(path, ignored)[1..] == AttrMinus(path, ignored[1..]);
    }
  }

  lemma {:induction false} ElemMinusSum(doc: Elem, loc: Loc, path: Path, from: set<Node>, ignored: seq<string>)
    requires loc.Kid? && ValidLoc(doc, loc) && Eval(doc, path, from) == {ElemNode(loc)} && Distinct(ignored)
    ensures CountSum(doc, ElemMinus(path, ignored), from) + CountNotIn(ElemNames(At(doc, loc).kids), ignored) ==
            |At(doc, loc).kids|
  {
    var names := ElemNames(At(doc, loc).kids);
    if ignored == [] {
      CountNotInNone(names);
    } else {
      ElemMinusSum(doc, loc, path, from, ignored[1..]);
      NamedKidNodes(doc, loc, path, from, ignored[0]);
      CountNotInCons(names, ignored[0], ignored[1..]);
      assert [ignored[0]] + ignored[1..] == ignored;
      assert ElemMinus(path, ignored)[1..] == ElemMinus(path, ignored[1..]);
    }
  }

  lemma {:induction false} AttrCountMeaning(conf: Conf, x: Forest, doc: Elem, loc: Loc, path: Path, n: Node)
    requires ConfOk(conf) && x.Pat? && loc.Kid? && ValidLoc(doc, loc) && Eval(doc, path, {n}) == {ElemNode(loc)}
    ensures Holds(doc, Count(Then(path, AnyAttr), AttrMinus(path, conf.ignoreAttrs),
                             CountNotIn(AttrNames(x.attrs), conf.ignoreAttrs), false), n)
       <==> CountNotIn(AttrNames(At(doc, loc).attrs), conf.ignoreAttrs) ==
            CountNotIn(AttrNames(x.attrs), conf.ignoreAttrs)
  {
    EvalExtend(doc, path, AnyAttr, {n}, ElemNode(loc));
    AttrAll(loc, |At(doc, loc).attrs|);
    AttrMinusSum(doc, loc, path, {n}, conf.ignoreAttrs);
  }

  lemma {:induction false} KidCountMeaning(conf: Conf, x: Forest, doc: Elem, loc: Loc, path: Path, n: Node)
    requires ConfOk(conf) && loc.Kid? && ValidLoc(doc, loc) && Eval(doc, path, {n}) == {ElemNode(loc)}
    ensures Holds(doc,
                  Count(Then(path, AnyChild), ElemMinus(path, conf.ignoreElems), Siblings(conf, x),
                        EndsInList(conf, x)), n)
       <==> KidCountMatches(conf, x, At(doc, loc))
  {
    EvalExtend(doc, path, AnyChild, {n}, ElemNode(loc));
    ElemAll(loc, |At(doc, loc).kids|);
    ElemMinusSum(doc, loc, path, {n}, conf.ignoreElems);
  }

  lemma {:induction false} AttrPredMeaning(conf: Conf, x: Forest, a: Attr, doc: Elem, loc: Loc, path: Path, n: Node)
    requires x.Pat? && loc.Kid? && ValidLoc(doc, loc) && Eval(doc, path, {n}) == {ElemNode(loc)}
    ensures Holds(doc, if Open(conf, x, a) then Exists(Then(path, NamedAttr(a.name)))
                       else Equals(Then(path, NamedAttr(a.name)), a.value), n)
       <==> AttrMatches(conf, x, a, At(doc, loc))
  {
    var attrs := At(doc, loc).attrs;
    NamedAttrNodes(doc, loc, path, {n}, a.name);
    var found := Eval(doc, Then(path, NamedAttr(a.name)), {n});
    if AttrMatches(conf, x, a, At(doc, loc)) {
      var b :| b in attrs && b.name == a.name && (Open(conf, x, a) || b.value == a.value);
      var j :| 0 <= j < |attrs| && attrs[j] == b;
      assert AttrNode(loc, j) in found;
      assert b.value == a.value ==> HasValue(doc, AttrNode(loc, j), a.value);
    }
    if Open(conf, x, a) {
      if found != {} {
        var m :| m in found;
        assert attrs[m.index] in attrs;
      }
    } else if m :| m in found && HasValue(doc, m, a.value) {
      assert attrs[m.index] in attrs;
    }
  }

  lemma {:induction false} AttrPredsMeaning(conf: Conf, x: Forest, attrs: seq<Attr>, doc: Elem, loc: Loc,
                                            path: Path, n: Node)
    requires x.Pat? && loc.Kid? && ValidLoc(doc, loc) && Eval(doc, path, {n}) == {ElemNode(loc)}
    ensures AllHold(doc, AttrPreds(conf, x, attrs, path), n)
       <==> forall a | a in attrs && a.name !in conf.ignoreAttrs :: AttrMatches(conf, x, a, At(doc, loc))
  {
    if attrs != [] {
      var a, rest := attrs[0], attrs[1..];
      assert attrs == [a] + rest;
      AttrPredsMeaning(conf, x, rest, doc, loc, path, n);
      AttrPredMeaning(conf, x, a, doc, loc, path, n);
      var here := if a.name in conf.ignoreAttrs then []
                  else if Open(conf, x, a) then [Exists(Then(path, NamedAttr(a.name)))]
                  else [Equals(Then(path, NamedAttr(a.name)), a.value)];
      AllHoldConcat(doc, here, AttrPreds(conf, x, rest, path), n);
      assert AllHold(doc, here, n) <==> (a.name !in conf.ignoreAttrs ==> AttrMatches(conf, x, a, At(doc, loc))) by {
        if here != [] {
          OneHolds(doc, here[0], n);
        }
      }
    }
  }

  lemma {:induction false} AllHoldConcat(doc: Elem, a: seq<Pred>, b: seq<Pred>, n: Node)
    ensures AllHold(doc, a + b, n) <==> AllHold(doc, a, n) && AllHold(doc, b, n)
  {
    if a == [] {
      assert a + b == b;
    } else {
      assert (a + b)[1..] == a[1..] + b;
      AllHoldConcat(doc, a[1..], b, n);
    }
  }

  ghost function NamesNotIn(s: seq<string>, vs: seq<string>): set<string> {
    set v | v in s && v !in vs
  }

  lemma {:induction false} CountIsCardinality(s: seq<string>, vs: seq<string>)
    requires Distinct(s)
    ensures |NamesNotIn(s, vs)| == CountNotIn(s, vs)
  {
    if s == [] {
      assert NamesNotIn(s, vs) == {};
    } else {
      CountIsCardinality(s[1..], vs);
      assert s == [s[0]] + s[1..];
      if s[0] in vs {
        assert NamesNotIn(s, vs) == NamesNotIn(s[1..], vs);
      } else {
        assert NamesNotIn(s, vs) == {s[0]} + NamesNotIn(s[1..], vs);
        assert s[0] !in s[1..];
      }
    }
  }

  lemma {:induction false} SameSize(a: set<string>, b: set<string>)
    requires a <= b
    ensures |a| <= |b|
    ensures |a| == |b| <==> b <= a
  {
    assert b == a + (b - a);
    assert |b| == |a| + |b - a|;
  }

  /** When every pattern attribute is present, counting decides whether there are others. */
  lemma {:induction false} CountingArgument(conf: Conf, x: Forest, e: Elem)
    requires x.Pat? && Distinct(AttrNames(x.attrs)) && Distinct(AttrNames(e.attrs))
    requires forall a | a in x.attrs && a.name !in conf.ignoreAttrs :: AttrMatches(conf, x, a, e)
    ensures CountNotIn(AttrNames(e.attrs), conf.ignoreAttrs) == CountNotIn(AttrNames(x.attrs), conf.ignoreAttrs)
       <==> forall b | b in e.attrs && b.name !in conf.ignoreAttrs :: b.name in AttrNames(x.attrs)
  {
    var have, want := NamesNotIn(AttrNames(e.attrs), conf.ignoreAttrs),
        NamesNotIn(AttrNames(x.attrs), conf.ignoreAttrs);
    CountIsCardinality(AttrNames(e.attrs), conf.ignoreAttrs);
    CountIsCardinality(AttrNames(x.attrs), conf.ignoreAttrs);
    forall v | v in want ensures v in have {
      var i :| 0 <= i < |x.attrs| && AttrNames(x.attrs)[i] == v;
      assert x.attrs[i] in x.attrs && AttrMatches(conf, x, x.attrs[i], e);
      var b :| b in e.attrs && b.name == v;
      NamesIn(e.attrs, b);
    }
    SameSize(want, have);
    if have <= want {
      forall b | b in e.attrs && b.name !in conf.ignoreAttrs ensures b.name in AttrNames(x.attrs) {
        NamesIn(e.attrs, b);
        assert b.name in have;
      }
    }
    if forall b | b in e.attrs && b.name !in conf.ignoreAttrs :: b.name in AttrNames(x.attrs) {
      forall v | v in have ensures v in want {
        var i :| 0 <= i < |e.attrs| && AttrNames(e.attrs)[i] == v;
        assert e.attrs[i] in e.attrs;
      }
    }
  }

  function NamePred(x: Forest, path: Path): Pred
    requires x.Pat?
  {
    Exists(Then(path, SelfName(x.name)))
  }

  function AttrCountPred(conf: Conf, x: Forest, path: Path): Pred
    requires x.Pat?
  {
    Count(Then(path, AnyAttr), AttrMinus(path, conf.ignoreAttrs), CountNotIn(AttrNames(x.attrs), conf.ignoreAttrs),
          false)
  }

  function KidCountPred(conf: Conf, x: Forest, path: Path): Pred {
    Count(Then(path, AnyChild), ElemMinus(path, conf.ignoreElems), Siblings(conf, x), EndsInList(conf, x))
  }

  lemma {:induction false} OneHolds(doc: Elem, p: Pred, n: Node)
    ensures AllHold(doc, [p], n) <==> Holds(doc, p, n)
  {
    assert [p][1..] == [];
  }

  lemma {:induction false} HeadSplit(conf: Conf, x: Forest, doc: Elem, path: Path, n: Node)
    requires x.Pat?
    ensures AllHold(doc, HeadPreds(conf, x, path), n)
       <==> Holds(doc, NamePred(x, path), n) && AllHold(doc, AttrPreds(conf, x, x.attrs, path), n) &&
            Holds(doc, AttrCountPred(conf, x, path), n) && Holds(doc, KidCountPred(conf, x.child, path), n)
  {
    var name, attrs := [NamePred(x, path)], AttrPreds(conf, x, x.attrs, path);
    var acount, kcount := [AttrCountPred(conf, x, path)], [KidCountPred(conf, x.child, path)];
    assert HeadPreds(conf, x, path) == name + attrs + acount + kcount;
    AllHoldConcat(doc, name + attrs + acount, kcount, n);
    AllHoldConcat(doc, name + attrs, acount, n);
    AllHoldConcat(doc, name, attrs, n);
    OneHolds(doc, name[0], n);
    OneHolds(doc, acount[0], n);
    OneHolds(doc, kcount[0], n);
  }

  lemma {:induction false} HeadMeaning(conf: Conf, x: Forest, doc: Elem, loc: Loc, path: Path, n: Node)
    requires ConfOk(conf) && x.Pat? && Distinct(AttrNames(x.attrs)) && DocOk(doc)
    requires loc.Kid? && ValidLoc(doc, loc) && Eval(doc, path, {n}) == {ElemNode(loc)}
    ensures AllHold(doc, HeadPreds(conf, x, path), n) <==> HeadFits(conf, x, At(doc, loc))
  {
    var e := At(doc, loc);
    HeadSplit(conf, x, doc, path, n);
    assert Holds(doc, NamePred(x, path), n) <==> e.name == x.name by {
      EvalExtend(doc, path, SelfName(x.name), {n}, ElemNode(loc));
    }
    AttrPredsMeaning(conf, x, x.attrs, doc, loc, path, n);
    AttrCountMeaning(conf, x, doc, loc, path, n);
    KidCountMeaning(conf, x.child, doc, loc, path, n);
    if AllHold(doc, AttrPreds(conf, x, x.attrs, path), n) {
      DocOkAt(doc, loc);
      CountingArgument(conf, x, e);
    }
  }

  /** Without a target the first predicate of a node already fails. */
  lemma {:induction false} NoTarget(conf: Conf, x: Forest, doc: Elem, path: Path, n: Node)
    requires x.Pat? && !IsList(conf, x) && Eval(doc, path, {n}) == {}
    ensures !AllHold(doc, NodePreds(conf, x, path), n)
  {
    var s := if x.nodeVar.Some? then SelfAny else SelfName(x.name);
    assert Eval(doc, Then(path, s), {n}) == {};
    assert NodePreds(conf, x, path)[0] == Exists(Then(path, s));
  }

  /** What a pattern node by itself asks of the sibling at position `j`. */
  predicate NodeFits(conf: Conf, x: Forest, kids: seq<Elem>, j: int)
    requires x.Pat?
  {
    !IsList(conf, x) ==>
      0 <= j < |kids| && (x.nodeVar.None? ==> HeadFits(conf, x, kids[j]))
  }

  predicate HeadFits(conf: Conf, x: Forest, e: Elem)
    requires x.Pat?
  {
    e.name == x.name && AttrsMatch(conf, x, e) && KidCountMatches(conf, x.child, e)
  }

  lemma {:induction false} MatchSplit(conf: Conf, x: Forest, kids: seq<Elem>, j: int)
    requires x.Pat?
    ensures MatchFrom(conf, x, kids, j)
       <==> NodeFits(conf, x, kids, j) &&
            (x.nodeVar.None? && 0 <= j < |kids| ==> MatchFrom(conf, x.child, kids[j].kids, 0)) &&
            MatchFrom(conf, x.next, kids, j + 1)
  {
  }

  lemma {:induction false} SelfSelects(doc: Elem, n: Node, parent: Loc, j: int, path: Path)
    requires ValidLoc(doc, parent) && Eval(doc, path, {n}) == Target(doc, parent, j)
    ensures Eval(doc, Then(path, SelfAny), {n}) == Target(doc, parent, j)
  {
    if 0 <= j < |At(doc, parent).kids| {
      AdvanceOne(doc, ElemNode(Kid(parent, j)), SelfAny);
    }
  }

  lemma {:induction false} VarMeaning(conf: Conf, x: Forest, doc: Elem, n: Node, parent: Loc, j: int, path: Path)
    requires x.Pat? && x.nodeVar.Some? && !IsList(conf, x)
    requires ValidLoc(doc, parent) && Eval(doc, path, {n}) == Target(doc, parent, j)
    ensures AllHold(doc, NodePreds(conf, x, path), n) <==> 0 <= j < |At(doc, parent).kids|
  {
    SelfSelects(doc, n, parent, j, path);
    OneHolds(doc, Exists(Then(path, SelfAny)), n);
  }

  lemma {:induction false} ElemMeaning(conf: Conf, x: Forest, doc: Elem, n: Node, parent: Loc, j: int, path: Path)
    requires ConfOk(conf) && x.Pat? && x.nodeVar.None? && Distinct(AttrNames(x.attrs)) && DocOk(doc)
    requires ValidLoc(doc, parent) && Eval(doc, path, {n}) == Target(doc, parent, j)
    ensures AllHold(doc, NodePreds(conf, x, path), n)
       <==> 0 <= j < |At(doc, parent).kids| && HeadFits(conf, x, At(doc, parent).kids[j])
  {
    if 0 <= j < |At(doc, parent).kids| {
      HeadMeaning(conf, x, doc, Kid(parent, j), path, n);
    } else {
      NoTarget(conf, x, doc, path, n);
    }
  }

  lemma {:induction false} NodeMeaning(conf: Conf, x: Forest, doc: Elem, ctx: Loc, parent: Loc, j: int, cnt: int,
                                       stack: Stack)
    requires x.Pat? && Posed(conf, x, doc, ctx, parent, j, cnt, stack)
    ensures AllHold(doc, NodePreds(conf, x, StackPath(cnt, stack)), ElemNode(ctx))
       <==> NodeFits(conf, x, At(doc, parent).kids, j)
  {
    var path := StackPath(cnt, stack);
    StackPathTarget(doc, ctx, parent, j + 1 - cnt, stack, cnt);
    if x.nodeVar.None? {
      ElemMeaning(conf, x, doc, ElemNode(ctx), parent, j, path);
    } else if !IsList(conf, x) {
      VarMeaning(conf, x, doc, ElemNode(ctx), parent, j, path);
    }
  }

  lemma {:induction false} PredsSplit(conf: Conf, x: Forest, doc: Elem, cnt: int, stack: Stack, n: Node)
    requires x.Pat?
    ensures AllHold(doc, Preds(conf, x, cnt, stack), n)
       <==> AllHold(doc, NodePreds(conf, x, StackPath(cnt, stack)), n) &&
            (x.nodeVar.None? ==> AllHold(doc, Preds(conf, x.child, 1, Push(cnt, stack)), n)) &&
            AllHold(doc, Preds(conf, x.next, cnt + 1, stack), n)
  {
    var below := if x.nodeVar.None? then Preds(conf, x.child, 1, Push(cnt, stack)) else [];
    AllHoldConcat(doc, OwnPreds(conf, x, cnt, stack), Preds(conf, x.next, cnt + 1, stack), n);
    AllHoldConcat(doc, NodePreds(conf, x, StackPath(cnt, stack)), below, n);
  }

  lemma {:induction false} AnchorChild(doc: Elem, ctx: Loc, parent: Loc, base: int, cnt: int, stack: Stack)
    requires Anchored(doc, ctx, parent, base, stack) && (stack.Push? ==> cnt >= 1)
    requires 0 <= base + cnt - 1 < |At(doc, parent).kids|
    ensures Anchored(doc, ctx, Kid(parent, base + cnt - 1), 0, Push(cnt, stack))
    ensures At(doc, Kid(parent, base + cnt - 1)) == At(doc, parent).kids[base + cnt - 1]
  {
    StackPathTarget(doc, ctx, parent, base, stack, cnt);
  }

  ghost predicate Posed(conf: Conf, x: Forest, doc: Elem, ctx: Loc, parent: Loc, j: int, cnt: int, stack: Stack) {
    && ConfOk(conf) && PatOk(conf, x) && ListsLast(conf, x) && DocOk(doc)
    && Anchored(doc, ctx, parent, j + 1 - cnt, stack) && (stack.Push? ==> cnt >= 1)
  }

  /** The conjunction of all predicates generated for a pattern holds at a node exactly when
      the structural matcher accepts the siblings it points at. */
  lemma {:induction false} CompileCorrect(conf: Conf, x: Forest, doc: Elem, ctx: Loc, parent: Loc, j: int, cnt: int,
                                          stack: Stack)
    requires Posed(conf, x, doc, ctx, parent, j, cnt, stack)
    ensures AllHold(doc, Preds(conf, x, cnt, stack), ElemNode(ctx)) <==> MatchFrom(conf, x, At(doc, parent).kids, j)
    decreases x, 1
  {
    if x.Pat? {
      NodeMeaning(conf, x, doc, ctx, parent, j, cnt, stack);
      CompileNext(conf, x, doc, ctx, parent, j, cnt, stack);
      if x.nodeVar.None? && 0 <= j < |At(doc, parent).kids| {
        CompileChild(conf, x, doc, ctx, parent, j, cnt, stack);
      }
      PredsSplit(conf, x, doc, cnt, stack, ElemNode(ctx));
      MatchSplit(conf, x, At(doc, parent).kids, j);
    }
  }

  lemma {:induction false} CompileNext(conf: Conf, x: Forest, doc: Elem, ctx: Loc, parent: Loc, j: int, cnt: int,
                                       stack: Stack)
    requires x.Pat? && Posed(conf, x, doc, ctx, parent, j, cnt, stack)
    ensures AllHold(doc, Preds(conf, x.next, cnt + 1, stack), ElemNode(ctx))
            <==> MatchFrom(conf, x.next, At(doc, parent).kids, j + 1)
    decreases x, 0
  {
    CompileCorrect(conf, x.next, doc, ctx, parent, j + 1, cnt + 1, stack);
  }

  lemma {:induction false} CompileChild(conf: Conf, x: Forest, doc: Elem, ctx: Loc, parent: Loc, j: nat, cnt: int,
                                        stack: Stack)
    requires x.Pat? && x.nodeVar.None? && Posed(conf, x, doc, ctx, parent, j, cnt, stack)
    requires j < |At(doc, parent).kids|
    ensures AllHold(doc, Preds(conf, x.child, 1, Push(cnt, stack)), ElemNode(ctx))
       <==> MatchFrom(conf, x.child, At(doc, parent).kids[j].kids, 0)
    decreases x, 0
  {
    AnchorChild(doc, ctx, parent, j + 1 - cnt, cnt, stack);
    CompileCorrect(conf, x.child, doc, ctx, Kid(parent, j), 0, 1, Push(cnt, stack));
  }

  lemma {:induction false} AnchorSelf(doc: Elem, parent: Loc, i: nat)
    requires ValidLoc(doc, Kid(parent, i))
    ensures ValidLoc(doc, parent) && i < |At(doc, parent).kids|
    ensures Anchored(doc, Kid(parent, i), parent, i, Empty)
  {
  }

  lemma {:induction false} PosedSelf(conf: Conf, x: Forest, doc: Elem, parent: Loc, i: nat, cnt: int)
    requires ConfOk(conf) && PatOk(conf, x) && ListsLast(conf, x) && DocOk(doc)
    requires ValidLoc(doc, Kid(parent, i))
    ensures ValidLoc(doc, parent) && Posed(conf, x, doc, Kid(parent, i), parent, i + cnt - 1, cnt, Empty)
  {
    AnchorSelf(doc, parent, i);
    assert i + cnt - 1 + 1 - cnt == i;
  }

  /** Called for the siblings that start `cnt - 1` places after the context node. */
  lemma {:induction false} MatchPatternCorrect(conf: Conf, x: Forest, doc: Elem, parent: Loc, i: nat, cnt: int)
    requires ConfOk(conf) && PatOk(conf, x) && ListsLast(conf, x) && DocOk(doc)
    requires ValidLoc(doc, Kid(parent, i))
    ensures ValidLoc(doc, parent)
    ensures AllHold(doc, Preds(conf, x, cnt, Empty), ElemNode(Kid(parent, i)))
       <==> MatchFrom(conf, x, At(doc, parent).kids, i + cnt - 1)
  {
    PosedSelf(conf, x, doc, parent, i, cnt);
    CompileCorrect(conf, x, doc, Kid(parent, i), parent, i + cnt - 1, cnt, Empty);
  }

  // ----- variables

  /** Entry by entry, the registered path selects the bound nodes. */
  predicate Agree(doc: Elem, n: Node, regs: seq<(nat, VarPath)>, binds: seq<(nat, Bound)>)
    decreases regs
  {
    |regs| == |binds| &&
    (regs != [] ==> regs[0].0 == binds[0].0 && EvalVar(doc, regs[0].1, n) == BoundNodes(doc, binds[0].1) &&
                    Agree(doc, n, regs[1..], binds[1..]))
  }

  lemma {:induction false} AgreeConcat(doc: Elem, n: Node, r: seq<(nat, VarPath)>, b: seq<(nat, Bound)>,
                                       r': seq<(nat, VarPath)>, b': seq<(nat, Bound)>)
    requires Agree(doc, n, r, b) && Agree(doc, n, r', b')
    ensures Agree(doc, n, r + r', b + b')
    decreases r
  {
    if r == [] {
      assert r + r' == r' && b + b' == b';
    } else {
      AgreeConcat(doc, n, r[1..], b[1..], r', b');
      assert (r + r')[1..] == r[1..] + r' && (b + b')[1..] == b[1..] + b';
    }
  }

  lemma {:induction false} AttrPathSelects(doc: Elem, n: Node, parent: Loc, j: int, path: Path, name: string)
    requires ValidLoc(doc, parent) && Eval(doc, path, {n}) == Target(doc, parent, j)
    ensures EvalVar(doc, AttrPath(path, name), n) == BoundNodes(doc, AttrOf(parent, j, name))
  {
    SelfSelects(doc, n, parent, j, path);
    if 0 <= j < |At(doc, parent).kids| {
      NamedAttrNodes(doc, Kid(parent, j), Then(path, SelfAny), {n}, name);
    }
  }

  lemma {:induction false} AttrRegsAgree(conf: Conf, attrs: seq<Attr>, doc: Elem, n: Node, parent: Loc, j: int,
                                         path: Path)
    requires ValidLoc(doc, parent) && Eval(doc, path, {n}) == Target(doc, parent, j)
    ensures Agree(doc, n, AttrRegs(conf, attrs, path), AttrBindings(conf, attrs, parent, j))
  {
    if attrs != [] {
      var a := attrs[0];
      var rs, bs := AttrRegs(conf, attrs[1..], path), AttrBindings(conf, attrs[1..], parent, j);
      AttrRegsAgree(conf, attrs[1..], doc, n, parent, j, path);
      if BindsAttr(conf, a) {
        var r, b := (conf.vars[a.value].id, AttrPath(path, a.name)), (conf.vars[a.value].id, AttrOf(parent, j, a.name));
        AttrPathSelects(doc, n, parent, j, path, a.name);
        assert ([r] + rs)[1..] == rs && ([b] + bs)[1..] == bs;
      } else {
        assert [] + rs == rs && [] + bs == bs;
      }
    }
  }

  lemma {:induction false} FollowingSelects(doc: Elem, n: Node, parent: Loc, j: nat, path: Path)
    requires ValidLoc(doc, parent) && Eval(doc, path, {n}) == Target(doc, parent, j)
    ensures Eval(doc, Then(path, FollowingSiblings), {n}) == KidNodes(parent, j + 1, |At(doc, parent).kids|)
  {
    if j < |At(doc, parent).kids| {
      AdvanceOne(doc, ElemNode(Kid(parent, j)), FollowingSiblings);
    }
  }

  lemma {:induction false} ListPathSelects(doc: Elem, n: Node, parent: Loc, j: int, path: Path)
    requires ValidLoc(doc, parent) && j >= 0 && Eval(doc, path, {n}) == Target(doc, parent, j)
    ensures EvalVar(doc, ListPath(path), n) == BoundNodes(doc, Suffix(parent, j))
  {
    SelfSelects(doc, n, parent, j, path);
    FollowingSelects(doc, n, parent, j, path);
    KidNodesFirst(parent, j, |At(doc, parent).kids|);
    KidNodesFirst(parent, j + 1, |At(doc, parent).kids|);
  }

  lemma {:induction false} NodeRegsAgree(conf: Conf, x: Forest, doc: Elem, n: Node, parent: Loc, j: int, path: Path)
    requires x.Pat? && PatOk(conf, x) && x.nodeVar.Some?
    requires ValidLoc(doc, parent) && Eval(doc, path, {n}) == Target(doc, parent, j) && (IsList(conf, x) ==> j >= 0)
    ensures Agree(doc, n, NodeRegs(conf, x, path),
                  NodeBinding(conf, x, parent, j))
  {
    if IsList(conf, x) {
      ListPathSelects(doc, n, parent, j, path);
    } else {
      NodePathSelects(doc, n, parent, j, path);
    }
  }

  lemma {:induction false} NodePathSelects(doc: Elem, n: Node, parent: Loc, j: int, path: Path)
    requires ValidLoc(doc, parent) && Eval(doc, path, {n}) == Target(doc, parent, j)
    ensures EvalVar(doc, NodePath(path), n) == BoundNodes(doc, Sibling(parent, j))
  {
    SelfSelects(doc, n, parent, j, path);
  }

  ghost predicate Ready(conf: Conf, x: Forest, doc: Elem, ctx: Loc, parent: Loc, j: nat, cnt: int, stack: Stack) {
    Posed(conf, x, doc, ctx, parent, j, cnt, stack) && MatchFrom(conf, x, At(doc, parent).kids, j)
  }

  /** Every path registered while a matching pattern is read selects exactly the nodes its
      variable stands for. */
  lemma {:induction false} RegistersBindings(conf: Conf, x: Forest, doc: Elem, ctx: Loc, parent: Loc, j: nat,
                                             cnt: int, stack: Stack)
    requires Ready(conf, x, doc, ctx, parent, j, cnt, stack)
    ensures Agree(doc, ElemNode(ctx), Regs(conf, x, cnt, stack), Bindings(conf, x, parent, j))
    decreases x, 2
  {
    if x.Pat? {
      RegistersNext(conf, x, doc, ctx, parent, j, cnt, stack);
      RegistersOwn(conf, x, doc, ctx, parent, j, cnt, stack);
      AgreeConcat(doc, ElemNode(ctx), OwnRegs(conf, x, cnt, stack), OwnBindings(conf, x, parent, j),
                  Regs(conf, x.next, cnt + 1, stack), Bindings(conf, x.next, parent, j + 1));
    }
  }

  lemma {:induction false} RegistersNext(conf: Conf, x: Forest, doc: Elem, ctx: Loc, parent: Loc, j: nat, cnt: int,
                                         stack: Stack)
    requires x.Pat? && Ready(conf, x, doc, ctx, parent, j, cnt, stack)
    ensures Agree(doc, ElemNode(ctx), Regs(conf, x.next, cnt + 1, stack), Bindings(conf, x.next, parent, j + 1))
    decreases x, 0
  {
    MatchSplit(conf, x, At(doc, parent).kids, j);
    RegistersBindings(conf, x.next, doc, ctx, parent, j + 1, cnt + 1, stack);
  }

  lemma {:induction false} RegistersOwn(conf: Conf, x: Forest, doc: Elem, ctx: Loc, parent: Loc, j: nat, cnt: int,
                                        stack: Stack)
    requires x.Pat? && Ready(conf, x, doc, ctx, parent, j, cnt, stack)
    ensures Agree(doc, ElemNode(ctx), OwnRegs(conf, x, cnt, stack), OwnBindings(conf, x, parent, j))
    decreases x, 1
  {
    var n := ElemNode(ctx);
    var path := StackPath(cnt, stack);
    var ra, ba := AttrRegs(conf, x.attrs, path), AttrBindings(conf, x.attrs, parent, j);
    StackPathTarget(doc, ctx, parent, j + 1 - cnt, stack, cnt);
    AttrRegsAgree(conf, x.attrs, doc, n, parent, j, path);
    if x.nodeVar.Some? {
      NodeRegsAgree(conf, x, doc, n, parent, j, path);
      AgreeConcat(doc, n, ra, ba, NodeRegs(conf, x, path), NodeBinding(conf, x, parent, j));
    } else {
      RegistersChild(conf, x, doc, ctx, parent, j, cnt, stack);
      AgreeConcat(doc, n, ra, ba, Regs(conf, x.child, 1, Push(cnt, stack)), Bindings(conf, x.child, Kid(parent, j), 0));
    }
  }

  lemma {:induction false} RegistersChild(conf: Conf, x: Forest, doc: Elem, ctx: Loc, parent: Loc, j: nat, cnt: int,
                                          stack: Stack)
    requires x.Pat? && x.nodeVar.None? && Ready(conf, x, doc, ctx, parent, j, cnt, stack)
    ensures Agree(doc, ElemNode(ctx), Regs(conf, x.child, 1, Push(cnt, stack)),
                  Bindings(conf, x.child, Kid(parent, j), 0))
    decreases x, 0
  {
    MatchSplit(conf, x, At(doc, parent).kids, j);
    AnchorChild(doc, ctx, parent, j + 1 - cnt, cnt, stack);
    RegistersBindings(conf, x.child, doc, ctx, Kid(parent, j), 0, 1, Push(cnt, stack));
  }

  /** Where the first binding of a variable is, if it is bound at all. */
  ghost function FirstFor(binds: seq<(nat, Bound)>, id: nat): Option<Bound> {
    if binds == [] then None
    else if binds[0].0 == id then Some(binds[0].1)
    else FirstFor(binds[1..], id)
  }

  lemma {:induction false} RegisterKeepsFirst(doc: Elem, n: Node, known: map<nat, VarPath>,
                                              regs: seq<(nat, VarPath)>, binds: seq<(nat, Bound)>, id: nat)
    requires Agree(doc, n, regs, binds)
    ensures id in known ==> id in Register(known, regs) && Register(known, regs)[id] == known[id]
    ensures id !in known && FirstFor(binds, id).None? ==> id !in Register(known, regs)
    ensures id !in known && FirstFor(binds, id).Some? ==>
              id in Register(known, regs) &&
              EvalVar(doc, Register(known, regs)[id], n) == BoundNodes(doc, FirstFor(binds, id).value)
    decreases regs
  {
    if regs != [] {
      var known' := if regs[0].0 in known then known else known[regs[0].0 := regs[0].1];
      RegisterKeepsFirst(doc, n, known', regs[1..], binds[1..], id);
    }
  }

  lemma {:induction false} RootMatches(conf: Conf, x: Forest, doc: Elem, parent: Loc, i: nat, cnt: int)
    requires ConfOk(conf) && PatOk(conf, x) && ListsLast(conf, x) && DocOk(doc)
    requires ValidLoc(doc, Kid(parent, i)) && i + cnt - 1 >= 0
    requires AllHold(doc, Preds(conf, x, cnt, Empty), ElemNode(Kid(parent, i)))
    ensures Ready(conf, x, doc, Kid(parent, i), parent, i + cnt - 1, cnt, Empty)
  {
    PosedSelf(conf, x, doc, parent, i, cnt);
    MatchPatternCorrect(conf, x, doc, parent, i, cnt);
  }

  lemma {:induction false} RootRegisters(conf: Conf, x: Forest, doc: Elem, parent: Loc, i: nat, cnt: int)
    requires ConfOk(conf) && PatOk(conf, x) && ListsLast(conf, x) && DocOk(doc)
    requires ValidLoc(doc, Kid(parent, i)) && i + cnt - 1 >= 0
    requires AllHold(doc, Preds(conf, x, cnt, Empty), ElemNode(Kid(parent, i)))
    ensures Agree(doc, ElemNode(Kid(parent, i)), Regs(conf, x, cnt, Empty), Bindings(conf, x, parent, i + cnt - 1))
  {
    RootMatches(conf, x, doc, parent, i, cnt);
    RegistersBindings(conf, x, doc, Kid(parent, i), parent, i + cnt - 1, cnt, Empty);
  }

  /** Whenever the pattern matches, the path a variable ends up with selects what the matcher binds to it. */
  lemma {:induction false} VariablesCorrect(conf: Conf, x: Forest, doc: Elem, parent: Loc, i: nat, cnt: int, id: nat)
    requires ConfOk(conf) && PatOk(conf, x) && ListsLast(conf, x) && DocOk(doc)
    requires ValidLoc(doc, Kid(parent, i)) && i + cnt - 1 >= 0
    requires AllHold(doc, Preds(conf, x, cnt, Empty), ElemNode(Kid(parent, i)))
    ensures var paths := Register(map[], Regs(conf, x, cnt, Empty));
            var bound := FirstFor(Bindings(conf, x, parent, i + cnt - 1), id);
            (id in paths <==> bound.Some?) &&
            (id in paths ==> EvalVar(doc, paths[id], ElemNode(Kid(parent, i))) == BoundNodes(doc, bound.value))
  {
    RootRegisters(conf, x, doc, parent, i, cnt);
    RegisterKeepsFirst(doc, ElemNode(Kid(parent, i)), map[], Regs(conf, x, cnt, Empty),
                       Bindings(conf, x, parent, i + cnt - 1), id);
  }
}
