/** The part of XPath 1.0 that the template generator emits: location paths over
    element and attribute nodes (sections 2.1 to 2.5), node-set comparison with a
    string (section 3.4) and `count` (section 4.1). */
module XPath {
  import opened Xml

  /** An element is addressed by its parent and its position among the parent's children. */
  datatype Loc = Root | Kid(parent: Loc, index: nat)

  datatype Node = ElemNode(loc: Loc) | AttrNode(owner: Loc, index: nat)

  predicate ValidLoc(doc: Elem, loc: Loc)
    decreases loc, 0
  {
    loc.Kid? ==> ValidLoc(doc, loc.parent) && loc.index < |At(doc, loc.parent).kids|
  }

  function At(doc: Elem, loc: Loc): Elem
    requires ValidLoc(doc, loc)
    decreases loc, 1
  {
    match loc
    case Root => doc
    case Kid(parent, index) => At(doc, parent).kids[index]
  }

  datatype Step =
    | FollowingSibling(k: int)    // following-sibling::*[k]
    | FollowingSiblings           // following-sibling::*
    | PrecedingSibling(k: int)    // preceding-sibling::*[k]
    | Child(k: int)               // *[k]
    | AnyChild                    // *
    | NamedChild(name: string)    // name
    | SelfAny                     // self::*
    | SelfName(name: string)      // self::name
    | AnyAttr                     // @*
    | NamedAttr(name: string)     // @name

  /** A location path, read from the left; `Here` is the empty path. */
  datatype Path = Here | Then(before: Path, step: Step)

  function KidNodes(parent: Loc, from: nat, to: nat): set<Node> {
    set j | from <= j < to :: ElemNode(Kid(parent, j))
  }

  /** The nodes one step selects from one context node, with positions counted in axis order. */
  function Select(doc: Elem, n: Node, s: Step): set<Node> {
    if n.AttrNode? || !ValidLoc(doc, n.loc) || n.loc.Root? then {} else
      var e := At(doc, n.loc);
      var up, here := n.loc.parent, n.loc.index;
      var sibs := |At(doc, up).kids|;
      match s
      case FollowingSibling(k) => if k >= 1 && here + k < sibs then {ElemNode(Kid(up, here + k))} else {}
      case FollowingSiblings => KidNodes(up, here + 1, sibs)
      case PrecedingSibling(k) => if 1 <= k <= here then {ElemNode(Kid(up, here - k))} else {}
      case Child(k) => if 1 <= k <= |e.kids| then {ElemNode(Kid(n.loc, k - 1))} else {}
      case AnyChild => KidNodes(n.loc, 0, |e.kids|)
      case NamedChild(name) => set j | 0 <= j < |e.kids| && e.kids[j].name == name :: ElemNode(Kid(n.loc, j))
      case SelfAny => {n}
      case SelfName(name) => if e.name == name then {n} else {}
      case AnyAttr => set j | 0 <= j < |e.attrs| :: AttrNode(n.loc, j)
      case NamedAttr(name) => set j | 0 <= j < |e.attrs| && e.attrs[j].name == name :: AttrNode(n.loc, j)
  }

  function Advance(doc: Elem, from: set<Node>, s: Step): set<Node> {
    set n, m | n in from && m in Select(doc, n, s) :: m
  }

  function Eval(doc: Elem, path: Path, from: set<Node>): set<Node> {
    match path
    case Here => from
    case Then(before, s) => Advance(doc, Eval(doc, before, from), s)
  }

  /** A predicate of the form the generator writes between brackets. */
  datatype Pred =
    | Exists(path: Path)
    | Equals(path: Path, value: string)
    | Count(path: Path, minus: seq<Path>, n: int, atLeast: bool)

  function CountSum(doc: Elem, paths: seq<Path>, from: set<Node>): nat {
    if paths == [] then 0 else |Eval(doc, paths[0], from)| + CountSum(doc, paths[1..], from)
  }

  predicate HasValue(doc: Elem, n: Node, value: string) {
    n.AttrNode? && ValidLoc(doc, n.owner) && n.index < |At(doc, n.owner).attrs| &&
    At(doc, n.owner).attrs[n.index].value == value
  }

  predicate Holds(doc: Elem, p: Pred, n: Node) {
    match p
    case Exists(path) => Eval(doc, path, {n}) != {}
    case Equals(path, value) => exists m | m in Eval(doc, path, {n}) :: HasValue(doc, m, value)
    case Count(path, minus, k, atLeast) =>
      var c := |Eval(doc, path, {n})| - CountSum(doc, minus, {n});
      if atLeast then c >= k else c == k
  }

  predicate AllHold(doc: Elem, ps: seq<Pred>, n: Node) {
    ps == [] || (Holds(doc, ps[0], n) && AllHold(doc, ps[1..], n))
  }

  lemma {:induction false} AdvanceOne(doc: Elem, n: Node, s: Step)
    ensures Advance(doc, {n}, s) == Select(doc, n, s)
  {
  }

  /** Extending a path that selects a single node, or no node, by one step. */
  lemma {:induction false} EvalExtend(doc: Elem, path: Path, s: Step, from: set<Node>, n: Node)
    requires Eval(doc, path, from) == {n}
    ensures Eval(doc, Then(path, s), from) == Select(doc, n, s)
  {
    AdvanceOne(doc, n, s);
  }

  /** Positions count from 1: among children from the first, among siblings from the nearest. */
  lemma {:induction false} Positions(doc: Elem, parent: Loc, i: nat, k: nat)
    requires ValidLoc(doc, Kid(parent, i)) && k >= 1
    ensures var here, e := Kid(parent, i), At(doc, parent).kids[i];
            && (k <= |e.kids| ==> Select(doc, ElemNode(here), Child(k)) == {ElemNode(Kid(here, k - 1))})
            && (i + k < |At(doc, parent).kids| ==>
                  Select(doc, ElemNode(here), FollowingSibling(k)) == {ElemNode(Kid(parent, i + k))})
            && (k <= i ==> Select(doc, ElemNode(here), PrecedingSibling(k)) == {ElemNode(Kid(parent, i - k))})
  {
    assert At(doc, Kid(parent, i)) == At(doc, parent).kids[i];
  }

  // ----- counting names

  function CountEq(s: seq<string>, v: string): nat {
    if s == [] then 0 else (if s[0] == v then 1 else 0) + CountEq(s[1..], v)
  }

  function CountNotIn(s: seq<string>, vs: seq<string>): nat {
    if s == [] then 0 else (if s[0] !in vs then 1 else 0) + CountNotIn(s[1..], vs)
  }

  function AttrNames(attrs: seq<Attr>): (r: seq<string>)
    ensures |r| == |attrs| && forall i | 0 <= i < |r| :: r[i] == attrs[i].name
  {
    if attrs == [] then [] else [attrs[0].name] + AttrNames(attrs[1..])
  }

  function ElemNames(kids: seq<Elem>): (r: seq<string>)
    ensures |r| == |kids| && forall i | 0 <= i < |r| :: r[i] == kids[i].name
  {
    if kids == [] then [] else [kids[0].name] + ElemNames(kids[1..])
  }

  predicate Distinct(s: seq<string>) {
    forall i, j | 0 <= i < j < |s| :: s[i] != s[j]
  }

  lemma {:induction false} CountEqLast(s: seq<string>, v: string)
    requires s != []
    ensures CountEq(s, v) == CountEq(s[..|s| - 1], v) + (if s[|s| - 1] == v then 1 else 0)
  {
    if |s| > 1 {
      CountEqLast(s[1..], v);
      assert s[1..][..|s| - 2] == s[..|s| - 1][1..];
    }
  }

  /** Removing one more name from the count takes away exactly its occurrences. */
  lemma {:induction false} CountNotInCons(s: seq<string>, v: string, vs: seq<string>)
    requires v !in vs
    ensures CountNotIn(s, vs) == CountNotIn(s, [v] + vs) + CountEq(s, v)
  {
    if s != [] {
      CountNotInCons(s[1..], v, vs);
    }
  }

  lemma {:induction false} CountNotInNone(s: seq<string>)
    ensures CountNotIn(s, []) == |s|
  {
    if s != [] {
      CountNotInNone(s[1..]);
    }
  }

  lemma {:induction false} AttrPicks(loc: Loc, s: seq<string>, v: string, n: nat)
    requires n <= |s|
    ensures |set j | 0 <= j < n && s[j] == v :: AttrNode(loc, j)| == CountEq(s[..n], v)
  {
    var now := set j | 0 <= j < n && s[j] == v :: AttrNode(loc, j);
    if n == 0 {
      assert now == {};
    } else {
      AttrPicks(loc, s, v, n - 1);
      PrefixSnoc(s, n, v);
      var before := set j | 0 <= j < n - 1 && s[j] == v :: AttrNode(loc, j);
      var last := AttrNode(loc, n - 1);
      assert last !in before;
      if s[n - 1] == v {
        assert now == before + {last};
      } else {
        assert now == before;
      }
    }
  }

  lemma {:induction false} AttrAll(loc: Loc, n: nat)
    ensures |set j | 0 <= j < n :: AttrNode(loc, j)| == n
  {
    var now := set j | 0 <= j < n :: AttrNode(loc, j);
    if n == 0 {
      assert now == {};
    } else {
      AttrAll(loc, n - 1);
      assert now == (set j | 0 <= j < n - 1 :: AttrNode(loc, j)) + {AttrNode(loc, n - 1)};
    }
  }

  lemma {:induction false} ElemPicks(loc: Loc, s: seq<string>, v: string, n: nat)
    requires n <= |s|
    ensures |set j | 0 <= j < n && s[j] == v :: ElemNode(Kid(loc, j))| == CountEq(s[..n], v)
  {
    var now := set j | 0 <= j < n && s[j] == v :: ElemNode(Kid(loc, j));
    if n == 0 {
      assert now == {};
    } else {
      ElemPicks(loc, s, v, n - 1);
      PrefixSnoc(s, n, v);
      var before := set j | 0 <= j < n - 1 && s[j] == v :: ElemNode(Kid(loc, j));
      var last := ElemNode(Kid(loc, n - 1));
      assert last !in before;
      if s[n - 1] == v {
        assert now == before + {last};
      } else {
        assert now == before;
      }
    }
  }

  lemma {:induction false} ElemAll(loc: Loc, n: nat)
    ensures |KidNodes(loc, 0, n)| == n
  {
    if n == 0 {
      assert KidNodes(loc, 0, n) == {};
    } else {
      ElemAll(loc, n - 1);
      assert KidNodes(loc, 0, n) == KidNodes(loc, 0, n - 1) + {ElemNode(Kid(loc, n - 1))};
    }
  }

  lemma {:induction false} KidNodesFirst(parent: Loc, from: nat, to: nat)
    ensures KidNodes(parent, from, to) ==
            if from < to then {ElemNode(Kid(parent, from))} + KidNodes(parent, from + 1, to) else {}
  {
  }

  lemma {:induction false} PrefixSnoc(s: seq<string>, n: nat, v: string)
    requires 0 < n <= |s|
    ensures CountEq(s[..n], v) == CountEq(s[..n - 1], v) + (if s[n - 1] == v then 1 else 0)
  {
    CountEqLast(s[..n], v);
    assert s[..n][..n - 1] == s[..n - 1];
  }
}
