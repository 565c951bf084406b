/** Tree patterns of the template generator, the structural matcher they stand for,
    and the predicates and variable paths generated from them. */
module Patterns {
  import opened Wrappers
  import opened Xml
  import opened XPath

  datatype Kind = NameKind | ValueKind | NodeKind(tag: string)

  datatype Var = Var(kind: Kind, isList: bool, id: nat)

  /** The loaded configuration, and the variables declared so far (an alias shares its id). */
  datatype Conf = Conf(attrKinds: map<string, Kind>, ignoreAttrs: seq<string>,
                       ignoreElems: seq<string>, vars: map<string, Var>)

  /** A pattern as first child and next sibling; `nodeVar` is the variable the whole node stands for. */
  datatype Forest =
    | Nil
    | Pat(name: string, attrs: seq<Attr>, nodeVar: Option<string>, child: Forest, next: Forest)

  predicate ConfOk(conf: Conf) {
    && Distinct(conf.ignoreAttrs)
    && Distinct(conf.ignoreElems)
    && (forall a | a in conf.ignoreAttrs :: a !in conf.attrKinds)
    && (forall a | a in conf.attrKinds :: !conf.attrKinds[a].NodeKind?)
    && (forall v | v in conf.vars && conf.vars[v].isList :: conf.vars[v].kind.NodeKind?)
  }

  predicate PatOk(conf: Conf, x: Forest) {
    x.Pat? ==>
      && Distinct(AttrNames(x.attrs))
      && (x.nodeVar.Some? ==> x.nodeVar.value in conf.vars && conf.vars[x.nodeVar.value].kind.NodeKind?)
      && (x.nodeVar.None? ==> PatOk(conf, x.child))
      && PatOk(conf, x.next)
  }

  predicate IsList(conf: Conf, x: Forest)
    requires x.Pat?
  {
    x.nodeVar.Some? && x.nodeVar.value in conf.vars && conf.vars[x.nodeVar.value].isList
  }

  /** A list variable may only be the last of its siblings. */
  predicate ListsLast(conf: Conf, x: Forest) {
    x.Pat? ==>
      && (IsList(conf, x) ==> x.next == Nil)
      && (x.nodeVar.None? ==> ListsLast(conf, x.child))
      && ListsLast(conf, x.next)
  }

  /** Attributes whose value is left open: the pattern asks only that they are present. */
  predicate Open(conf: Conf, x: Forest, a: Attr)
    requires x.Pat?
  {
    || (a.name == "string" && x.name == "SgIntVal" &&
        AttrValue(x.attrs, "value").Some? && AttrValue(x.attrs, "value").value in conf.vars)
    || (a.name in conf.attrKinds && a.value in conf.vars)
  }

  predicate BindsAttr(conf: Conf, a: Attr) {
    a.name in conf.attrKinds && a.value in conf.vars && conf.vars[a.value].kind == conf.attrKinds[a.name]
  }

  // ----- the structural matcher

  predicate AttrMatches(conf: Conf, x: Forest, a: Attr, e: Elem)
    requires x.Pat?
  {
    exists b | b in e.attrs :: b.name == a.name && (Open(conf, x, a) || b.value == a.value)
  }

  predicate AttrsMatch(conf: Conf, x: Forest, e: Elem)
    requires x.Pat?
  {
    && (forall a | a in x.attrs && a.name !in conf.ignoreAttrs :: AttrMatches(conf, x, a, e))
    && (forall b | b in e.attrs && b.name !in conf.ignoreAttrs :: b.name in AttrNames(x.attrs))
  }

  /** Siblings that must be there, and whether a list variable takes the rest. */
  function Siblings(conf: Conf, x: Forest): nat {
    if x.Nil? || IsList(conf, x) then 0
    else (if x.name !in conf.ignoreElems then 1 else 0) + Siblings(conf, x.next)
  }

  predicate EndsInList(conf: Conf, x: Forest) {
    x.Pat? && (IsList(conf, x) || EndsInList(conf, x.next))
  }

  predicate KidCountMatches(conf: Conf, x: Forest, e: Elem) {
    var n := CountNotIn(ElemNames(e.kids), conf.ignoreElems);
    if EndsInList(conf, x) then n >= Siblings(conf, x) else n == Siblings(conf, x)
  }

  predicate MatchElem(conf: Conf, x: Forest, e: Elem)
    requires x.Pat?
    decreases x, 0
  {
    && e.name == x.name
    && AttrsMatch(conf, x, e)
    && KidCountMatches(conf, x.child, e)
    && MatchFrom(conf, x.child, e.kids, 0)
  }

  /** The pattern siblings `x` against the elements of `kids` from position `i` on. */
  predicate MatchFrom(conf: Conf, x: Forest, kids: seq<Elem>, i: int)
    decreases x, 1
  {
    x.Pat? ==>
      && (!IsList(conf, x) ==> 0 <= i < |kids|)
      && (x.nodeVar.None? ==> MatchElem(conf, x, kids[i]))
      && MatchFrom(conf, x.next, kids, i + 1)
  }

  datatype Bound =
    | Sibling(parent: Loc, at: int)
    | AttrOf(parent: Loc, at: int, name: string)
    | Suffix(parent: Loc, from: int)

  /** The nodes a variable stands for, said without paths. */
  function BoundNodes(doc: Elem, b: Bound): set<Node> {
    if !ValidLoc(doc, b.parent) then {} else
      var kids := At(doc, b.parent).kids;
      match b
      case Sibling(parent, i) => if 0 <= i < |kids| then {ElemNode(Kid(parent, i))} else {}
      case AttrOf(parent, i, name) =>
        if 0 <= i < |kids|
        then set j | 0 <= j < |kids[i].attrs| && kids[i].attrs[j].name == name :: AttrNode(Kid(parent, i), j)
        else {}
      case Suffix(parent, from) => KidNodes(parent, if from < 0 then 0 else from, |kids|)
  }

  function AttrBindings(conf: Conf, attrs: seq<Attr>, parent: Loc, i: int): seq<(nat, Bound)> {
    if attrs == [] then [] else
      (if BindsAttr(conf, attrs[0])
       then [(conf.vars[attrs[0].value].id, AttrOf(parent, i, attrs[0].name))] else [])
      + AttrBindings(conf, attrs[1..], parent, i)
  }

  function NodeBinding(conf: Conf, x: Forest, parent: Loc, i: int): seq<(nat, Bound)>
    requires x.Pat? && x.nodeVar.Some? && PatOk(conf, x)
  {
    [(conf.vars[x.nodeVar.value].id, if IsList(conf, x) then Suffix(parent, i) else Sibling(parent, i))]
  }

  function OwnBindings(conf: Conf, x: Forest, parent: Loc, i: int): seq<(nat, Bound)>
    requires x.Pat? && PatOk(conf, x)
    decreases x, 0
  {
    AttrBindings(conf, x.attrs, parent, i)
    + (if x.nodeVar.Some? then NodeBinding(conf, x, parent, i)
       else if i >= 0 then Bindings(conf, x.child, Kid(parent, i), 0)
       else [])
  }

  /** What each variable of a pattern matched from sibling `i` under `parent` stands for,
      in the order in which the pattern is read. */
  function Bindings(conf: Conf, x: Forest, parent: Loc, i: int): seq<(nat, Bound)>
    requires PatOk(conf, x)
    decreases x, 1
  {
    if x.Nil? then [] else OwnBindings(conf, x, parent, i) + Bindings(conf, x.next, parent, i + 1)
  }

  // ----- what is generated

  /** Sibling positions on the way to the current pattern node, innermost on top. */
  datatype Stack = Empty | Push(cnt: int, rest: Stack)

  /** The path to the current pattern node: the bottom entry is relative to the context node. */
  function StackPath(cnt: int, rest: Stack): Path
    decreases rest
  {
    match rest
    case Empty =>
      if cnt > 1 then Then(Here, FollowingSibling(cnt - 1))
      else if cnt < 1 then Then(Here, PrecedingSibling(1 - cnt))
      else Here
    case Push(c, r) => Then(StackPath(c, r), Child(cnt))
  }

  datatype VarPath = NodePath(path: Path) | AttrPath(path: Path, name: string) | ListPath(path: Path)

  function EvalVar(doc: Elem, v: VarPath, n: Node): set<Node> {
    match v
    case NodePath(path) => Eval(doc, Then(path, SelfAny), {n})
    case AttrPath(path, name) => Eval(doc, Then(Then(path, SelfAny), NamedAttr(name)), {n})
    case ListPath(path) => Eval(doc, Then(path, SelfAny), {n}) + Eval(doc, Then(path, FollowingSiblings), {n})
  }

  function AttrPreds(conf: Conf, x: Forest, attrs: seq<Attr>, path: Path): seq<Pred>
    requires x.Pat?
  {
    if attrs == [] then [] else
      var a := attrs[0];
      (if a.name in conf.ignoreAttrs then []
       else if Open(conf, x, a) then [Exists(Then(path, NamedAttr(a.name)))]
       else [Equals(Then(path, NamedAttr(a.name)), a.value)])
      + AttrPreds(conf, x, attrs[1..], path)
  }

  function AttrMinus(path: Path, ignored: seq<string>): seq<Path> {
    if ignored == [] then [] else [Then(path, NamedAttr(ignored[0]))] + AttrMinus(path, ignored[1..])
  }

  function ElemMinus(path: Path, ignored: seq<string>): seq<Path> {
    if ignored == [] then [] else [Then(path, NamedChild(ignored[0]))] + ElemMinus(path, ignored[1..])
  }

  function HeadPreds(conf: Conf, x: Forest, path: Path): seq<Pred>
    requires x.Pat?
  {
    [Exists(Then(path, SelfName(x.name)))]
    + AttrPreds(conf, x, x.attrs, path)
    + [Count(Then(path, AnyAttr), AttrMinus(path, conf.ignoreAttrs), CountNotIn(AttrNames(x.attrs), conf.ignoreAttrs),
             false)]
    + [Count(Then(path, AnyChild), ElemMinus(path, conf.ignoreElems), Siblings(conf, x.child),
             EndsInList(conf, x.child))]
  }

  function NodePreds(conf: Conf, x: Forest, path: Path): seq<Pred>
    requires x.Pat?
  {
    if IsList(conf, x) then []
    else if x.nodeVar.Some? then [Exists(Then(path, SelfAny))]
    else HeadPreds(conf, x, path)
  }

  /** One pattern node and all below it. */
  function OwnPreds(conf: Conf, x: Forest, cnt: int, stack: Stack): seq<Pred>
    requires x.Pat?
    decreases x, 0
  {
    NodePreds(conf, x, StackPath(cnt, stack))
    + (if x.nodeVar.None? then Preds(conf, x.child, 1, Push(cnt, stack)) else [])
  }

  function Preds(conf: Conf, x: Forest, cnt: int, stack: Stack): seq<Pred>
    decreases x, 1
  {
    if x.Nil? then [] else OwnPreds(conf, x, cnt, stack) + Preds(conf, x.next, cnt + 1, stack)
  }

  function AttrRegs(conf: Conf, attrs: seq<Attr>, path: Path): seq<(nat, VarPath)> {
    if attrs == [] then [] else
      (if BindsAttr(conf, attrs[0]) then [(conf.vars[attrs[0].value].id, AttrPath(path, attrs[0].name))] else [])
      + AttrRegs(conf, attrs[1..], path)
  }

  function NodeRegs(conf: Conf, x: Forest, path: Path): seq<(nat, VarPath)>
    requires x.Pat? && x.nodeVar.Some? && PatOk(conf, x)
  {
    if IsList(conf, x) then [(conf.vars[x.nodeVar.value].id, ListPath(path))]
    else [(conf.vars[x.nodeVar.value].id, NodePath(path))]
  }

  function OwnRegs(conf: Conf, x: Forest, cnt: int, stack: Stack): seq<(nat, VarPath)>
    requires x.Pat? && PatOk(conf, x)
    decreases x, 0
  {
    AttrRegs(conf, x.attrs, StackPath(cnt, stack))
    + (if x.nodeVar.None? then Regs(conf, x.child, 1, Push(cnt, stack)) else NodeRegs(conf, x, StackPath(cnt, stack)))
  }

  function Regs(conf: Conf, x: Forest, cnt: int, stack: Stack): seq<(nat, VarPath)>
    requires PatOk(conf, x)
    decreases x, 1
  {
    if x.Nil? then [] else OwnRegs(conf, x, cnt, stack) + Regs(conf, x.next, cnt + 1, stack)
  }

  /** A variable keeps the first path registered for it. */
  function Register(known: map<nat, VarPath>, regs: seq<(nat, VarPath)>): map<nat, VarPath>
    decreases regs
  {
    if regs == [] then known
    else Register(if regs[0].0 in known then known else known[regs[0].0 := regs[0].1], regs[1..])
  }
}
