/** Ignored element kinds. A pattern is meant to describe an element with its ignored children
    left out; the generated tests count children that way but index them with the ignored ones
    in place. The two agree on an element, for all patterns, exactly when no ignored child
    stands ahead of one that is not ignored. */
module PatternIntent {
  import opened Wrappers
  import opened Xml
  import opened XPath
  import opened Patterns

  function Kept(conf: Conf, kids: seq<Elem>): seq<Elem> {
    if kids == [] then []
    else if kids[0].name in conf.ignoreElems then Kept(conf, kids[1..])
    else [kids[0]] + Kept(conf, kids[1..])
  }

  /** The pattern siblings `x` describe all of `kids`, in order. */
  predicate Describes(conf: Conf, x: Forest, kids: seq<Elem>)
    decreases x, 1
  {
    match x
    case Nil => kids == []
    case Pat(_, _, _, _, next) =>
      if IsList(conf, x) then true
      else kids != [] && (x.nodeVar.None? ==> DescribesElem(conf, x, kids[0])) && Describes(conf, next, kids[1..])
  }

  predicate DescribesElem(conf: Conf, x: Forest, e: Elem)
    requires x.Pat?
    decreases x, 0
  {
    e.name == x.name && AttrsMatch(conf, x, e) && Describes(conf, x.child, Kept(conf, e.kids))
  }

  /** No pattern node is of an ignored kind. */
  predicate NoIgnored(conf: Conf, x: Forest) {
    x.Pat? ==> x.name !in conf.ignoreElems && NoIgnored(conf, x.child) && NoIgnored(conf, x.next)
  }

  /** Once an ignored child has been seen, nothing but ignored children follow. */
  predicate IgnoredLast(conf: Conf, kids: seq<Elem>) {
    kids != [] ==>
      if kids[0].name in conf.ignoreElems then Kept(conf, kids[1..]) == [] else IgnoredLast(conf, kids[1..])
  }

  /** In `e` and below, outside ignored elements, the ignored children come last. */
  predicate Orderly(conf: Conf, e: Elem) {
    IgnoredLast(conf, e.kids) && forall k | k in e.kids && k.name !in conf.ignoreElems :: Orderly(conf, k)
  }

  lemma {:induction false} KeptCount(conf: Conf, kids: seq<Elem>)
    ensures |Kept(conf, kids)| == CountNotIn(ElemNames(kids), conf.ignoreElems) <= |kids|
  {
    if kids != [] {
      KeptCount(conf, kids[1..]);
      assert ElemNames(kids)[1..] == ElemNames(kids[1..]);
    }
  }

  lemma {:induction false} KeptMembers(conf: Conf, kids: seq<Elem>)
    ensures forall k :: k in Kept(conf, kids) <==> k in kids && k.name !in conf.ignoreElems
  {
    if kids != [] {
      KeptMembers(conf, kids[1..]);
      assert kids == [kids[0]] + kids[1..];
    }
  }

  lemma {:induction false} KeptFirst(conf: Conf, kids: seq<Elem>)
    requires IgnoredLast(conf, kids)
    ensures |Kept(conf, kids)| <= |kids|
    ensures forall j | 0 <= j < |Kept(conf, kids)| :: Kept(conf, kids)[j] == kids[j]
  {
    KeptCount(conf, kids);
    if kids != [] && kids[0].name !in conf.ignoreElems {
      KeptFirst(conf, kids[1..]);
      forall j | 0 < j < |Kept(conf, kids)| ensures Kept(conf, kids)[j] == kids[j] {
        assert Kept(conf, kids)[j] == Kept(conf, kids[1..])[j - 1] == kids[1..][j - 1];
      }
    }
  }

  /** If the first `|Kept|` children are not ignored, the ignored ones come last. */
  lemma {:induction false} FirstKept(conf: Conf, kids: seq<Elem>)
    requires |Kept(conf, kids)| <= |kids|
    requires forall j | 0 <= j < |Kept(conf, kids)| :: kids[j].name !in conf.ignoreElems
    ensures IgnoredLast(conf, kids)
  {
    if kids != [] {
      var rest := kids[1..];
      KeptCount(conf, rest);
      if kids[0].name in conf.ignoreElems {
        assert Kept(conf, kids) == [];
      } else {
        forall j | 0 <= j < |Kept(conf, rest)| ensures rest[j].name !in conf.ignoreElems {
          assert rest[j] == kids[j + 1];
        }
        FirstKept(conf, rest);
      }
    }
  }

  /** What the compiled test asks of the children from position `i` on: positions, and the count. */
  predicate Tested(conf: Conf, x: Forest, kids: seq<Elem>, i: nat) {
    var n := |Kept(conf, kids)|;
    MatchFrom(conf, x, kids, i) &&
        (if EndsInList(conf, x) then n >= i + Siblings(conf, x) else n == i + Siblings(conf, x))
  }

  lemma {:induction false} NothingAgrees(conf: Conf, kids: seq<Elem>, i: nat)
    requires i <= |Kept(conf, kids)|
    ensures Describes(conf, Nil, Kept(conf, kids)[i..]) <==> Tested(conf, Nil, kids, i)
  {
    assert Kept(conf, kids)[i..] == [] <==> i == |Kept(conf, kids)|;
    assert Siblings(conf, Nil) == 0 && !EndsInList(conf, Nil) && MatchFrom(conf, Nil, kids, i);
  }

  lemma {:induction false} ListAgrees(conf: Conf, x: Forest, kids: seq<Elem>, i: nat)
    requires x.Pat? && ListsLast(conf, x) && IsList(conf, x) && i <= |Kept(conf, kids)|
    ensures Describes(conf, x, Kept(conf, kids)[i..]) && Tested(conf, x, kids, i)
  {
    assert x.next == Nil && MatchFrom(conf, x.next, kids, i + 1);
    assert Siblings(conf, x) == 0 && EndsInList(conf, x);
  }

  lemma {:induction false} TooFewAgree(conf: Conf, x: Forest, kids: seq<Elem>, i: nat)
    requires x.Pat? && NoIgnored(conf, x) && !IsList(conf, x) && i == |Kept(conf, kids)|
    ensures !Describes(conf, x, Kept(conf, kids)[i..]) && !Tested(conf, x, kids, i)
  {
    assert Kept(conf, kids)[i..] == [];
    assert Siblings(conf, x) == 1 + Siblings(conf, x.next) && Siblings(conf, x.next) >= 0;
  }

  lemma {:induction false} OneMoreAgrees(conf: Conf, x: Forest, kids: seq<Elem>, i: nat)
    requires x.Pat? && NoIgnored(conf, x) && !IsList(conf, x)
    requires i < |Kept(conf, kids)| <= |kids| && Kept(conf, kids)[i] == kids[i]
    requires Describes(conf, x.next, Kept(conf, kids)[i + 1..]) <==> Tested(conf, x.next, kids, i + 1)
    requires x.nodeVar.None? ==> (DescribesElem(conf, x, kids[i]) <==> MatchElem(conf, x, kids[i]))
    ensures Describes(conf, x, Kept(conf, kids)[i..]) <==> Tested(conf, x, kids, i)
  {
    var rest := Kept(conf, kids)[i..];
    assert rest != [] && rest[0] == kids[i] && rest[1..] == Kept(conf, kids)[i + 1..];
    assert Siblings(conf, x) == 1 + Siblings(conf, x.next) && EndsInList(conf, x) == EndsInList(conf, x.next);
    assert MatchFrom(conf, x, kids, i)
        <==> (x.nodeVar.None? ==> MatchElem(conf, x, kids[i])) && MatchFrom(conf, x.next, kids, i + 1);
  }

  lemma {:induction false} SiblingsAgree(conf: Conf, x: Forest, kids: seq<Elem>, i: nat)
    requires ListsLast(conf, x) && NoIgnored(conf, x) && IgnoredLast(conf, kids)
    requires forall k | k in kids && k.name !in conf.ignoreElems :: Orderly(conf, k)
    requires i <= |Kept(conf, kids)|
    ensures Describes(conf, x, Kept(conf, kids)[i..]) <==> Tested(conf, x, kids, i)
    decreases x, 1
  {
    var kept := Kept(conf, kids);
    KeptFirst(conf, kids);
    KeptMembers(conf, kids);
    if x.Nil? {
      NothingAgrees(conf, kids, i);
    } else if IsList(conf, x) {
      ListAgrees(conf, x, kids, i);
    } else if i == |kept| {
      TooFewAgree(conf, x, kids, i);
    } else {
      assert kept[i] in kept && kept[i] == kids[i];
      SiblingsAgree(conf, x.next, kids, i + 1);
      if x.nodeVar.None? {
        ElemAgrees(conf, x, kids[i]);
      }
      OneMoreAgrees(conf, x, kids, i);
    }
  }

  lemma {:induction false} ElemAgrees(conf: Conf, x: Forest, e: Elem)
    requires x.Pat? && x.nodeVar.None? && ListsLast(conf, x) && NoIgnored(conf, x.child) && Orderly(conf, e)
    ensures DescribesElem(conf, x, e) <==> MatchElem(conf, x, e)
    decreases x, 0
  {
    KeptCount(conf, e.kids);
    assert Kept(conf, e.kids)[0..] == Kept(conf, e.kids);
    SiblingsAgree(conf, x.child, e.kids, 0);
  }

  /** The pattern that spells out an element, ignored children left out. */
  function Literal(conf: Conf, e: Elem): Forest
    decreases e, 1
  {
    Pat(e.name, e.attrs, None, LiteralKids(conf, e.kids), Nil)
  }

  function LiteralKids(conf: Conf, kids: seq<Elem>): Forest
    decreases kids, 0
  {
    if kids == [] then Nil
    else if kids[0].name in conf.ignoreElems then LiteralKids(conf, kids[1..])
    else Pat(kids[0].name, kids[0].attrs, None, LiteralKids(conf, kids[0].kids), LiteralKids(conf, kids[1..]))
  }

  lemma {:induction false} AttrsMatchSelf(conf: Conf, x: Forest, e: Elem)
    requires x.Pat? && x.attrs == e.attrs
    ensures AttrsMatch(conf, x, e)
  {
    forall b | b in e.attrs ensures b.name in AttrNames(x.attrs) {
      var i :| 0 <= i < |e.attrs| && e.attrs[i] == b;
      assert AttrNames(x.attrs)[i] == b.name;
    }
  }

  lemma {:induction false} LiteralDescribes(conf: Conf, kids: seq<Elem>)
    ensures Describes(conf, LiteralKids(conf, kids), Kept(conf, kids))
    ensures NoIgnored(conf, LiteralKids(conf, kids)) && ListsLast(conf, LiteralKids(conf, kids))
    ensures Siblings(conf, LiteralKids(conf, kids)) == |Kept(conf, kids)| && !EndsInList(conf, LiteralKids(conf, kids))
    decreases kids
  {
    if kids != [] {
      LiteralDescribes(conf, kids[1..]);
      if kids[0].name !in conf.ignoreElems {
        var x := LiteralKids(conf, kids);
        LiteralDescribes(conf, kids[0].kids);
        AttrsMatchSelf(conf, x, kids[0]);
        assert Kept(conf, kids)[1..] == Kept(conf, kids[1..]);
      }
    }
  }

  /** The literal pattern of kept children, read against `kids` from position `i`, has `kept` ahead of it. */
  lemma {:induction false} LiteralMatches(conf: Conf, kept: seq<Elem>, kids: seq<Elem>, i: nat)
    requires forall k | k in kept :: k.name !in conf.ignoreElems
    requires i + |kept| <= |kids|
    requires MatchFrom(conf, LiteralKids(conf, kept), kids, i)
    ensures forall j | 0 <= j < |kept| :: kids[i + j].name == kept[j].name
    ensures forall j | 0 <= j < |kept| && kids[i + j] == kept[j] :: MatchElem(conf, Literal(conf, kept[j]), kept[j])
  {
    if kept != [] {
      assert kept[0] in kept;
      assert forall k | k in kept[1..] :: k in kept;
      LiteralMatches(conf, kept[1..], kids, i + 1);
      forall j | 0 <= j < |kept| ensures kids[i + j].name == kept[j].name
        ensures kids[i + j] == kept[j] ==> MatchElem(conf, Literal(conf, kept[j]), kept[j]) {
        if j > 0 {
          assert kept[1..][j - 1] == kept[j];
          assert kids[i + 1 + (j - 1)] == kids[i + j];
        }
      }
    }
  }

  lemma {:induction false} LiteralOfKept(conf: Conf, kids: seq<Elem>)
    ensures LiteralKids(conf, Kept(conf, kids)) == LiteralKids(conf, kids)
  {
    if kids != [] {
      LiteralOfKept(conf, kids[1..]);
      if kids[0].name !in conf.ignoreElems {
        assert Kept(conf, kids)[1..] == Kept(conf, kids[1..]);
      }
    }
  }

  /** The generated tests accept an element's own literal pattern only if the element is orderly. */
  lemma {:induction false} LiteralDemandsOrder(conf: Conf, e: Elem)
    requires MatchElem(conf, Literal(conf, e), e)
    ensures Orderly(conf, e)
    decreases e
  {
    LiteralOrdersKids(conf, e);
    forall k | k in e.kids && k.name !in conf.ignoreElems ensures Orderly(conf, k) {
      LiteralDemandsOrder(conf, k);
    }
  }

  lemma {:induction false} KeptPositions(conf: Conf, e: Elem)
    requires MatchElem(conf, Literal(conf, e), e)
    ensures |Kept(conf, e.kids)| <= |e.kids|
    ensures forall j | 0 <= j < |Kept(conf, e.kids)| :: e.kids[j].name == Kept(conf, e.kids)[j].name
    ensures forall j | 0 <= j < |Kept(conf, e.kids)| && e.kids[j] == Kept(conf, e.kids)[j] ::
              MatchElem(conf, Literal(conf, e.kids[j]), e.kids[j])
  {
    var kids, kept := e.kids, Kept(conf, e.kids);
    KeptCount(conf, kids);
    KeptMembers(conf, kids);
    LiteralOfKept(conf, kids);
    LiteralMatches(conf, kept, kids, 0);
    assert forall j | 0 <= j < |kept| :: kids[0 + j] == kids[j];
  }

  lemma {:induction false} LiteralOrdersKids(conf: Conf, e: Elem)
    requires MatchElem(conf, Literal(conf, e), e)
    ensures IgnoredLast(conf, e.kids)
    ensures forall k | k in e.kids && k.name !in conf.ignoreElems :: MatchElem(conf, Literal(conf, k), k)
  {
    var kids, kept := e.kids, Kept(conf, e.kids);
    KeptPositions(conf, e);
    KeptMembers(conf, kids);
    FirstKept(conf, kids);
    KeptFirst(conf, kids);
    forall k | k in kids && k.name !in conf.ignoreElems ensures MatchElem(conf, Literal(conf, k), k) {
      var j :| 0 <= j < |kept| && kept[j] == k;
    }
  }

  ghost predicate Agrees(conf: Conf, e: Elem) {
    forall x: Forest | x.Pat? && x.nodeVar.None? && ListsLast(conf, x) && NoIgnored(conf, x.child) ::
      MatchElem(conf, x, e) <==> DescribesElem(conf, x, e)
  }

  /** When the positional tests and the intended meaning coincide, and only then. */
  lemma {:induction false} IgnoredKindsExact(conf: Conf, e: Elem)
    ensures Agrees(conf, e) <==> Orderly(conf, e)
  {
    if Orderly(conf, e) {
      forall x: Forest | x.Pat? && x.nodeVar.None? && ListsLast(conf, x) && NoIgnored(conf, x.child)
        ensures MatchElem(conf, x, e) <==> DescribesElem(conf, x, e)
      {
        ElemAgrees(conf, x, e);
      }
    }
    if Agrees(conf, e) {
      var x := Literal(conf, e);
      LiteralDescribes(conf, e.kids);
      AttrsMatchSelf(conf, x, e);
      assert ListsLast(conf, x) && NoIgnored(conf, x.child) && x.nodeVar.None?;
      assert DescribesElem(conf, x, e);
      LiteralDemandsOrder(conf, e);
    }
  }

  /** An ignored child ahead of one that is not: the pattern that spells the element out describes it,
      and the generated test rejects it. */
  lemma {:induction false} IgnoredAheadRejected()
    ensures var conf := Conf(map[], [], ["info"], map[]);
            var e := Elem("p", [], [Elem("info", [], []), Elem("q", [], [])]);
            var x := Pat("p", [], None, Pat("q", [], None, Nil, Nil), Nil);
            !Orderly(conf, e) && DescribesElem(conf, x, e) && !MatchElem(conf, x, e)
  {
    var conf := Conf(map[], [], ["info"], map[]);
    var info, q := Elem("info", [], []), Elem("q", [], []);
    var e := Elem("p", [], [info, q]);
    var y := Pat("q", [], None, Nil, Nil);
    var x := Pat("p", [], None, y, Nil);
    assert "info" in conf.ignoreElems && "q" !in conf.ignoreElems;
    assert e.kids[1..] == [q] && [q][1..] == [];
    assert Kept(conf, [q]) == [q] && Kept(conf, e.kids) == [q];
    assert Kept(conf, q.kids) == [] && DescribesElem(conf, y, q);
    assert Describes(conf, y, [q]);
    assert e.kids[0].name == "info" && !MatchElem(conf, y, info) && !MatchFrom(conf, y, e.kids, 0);
  }
}
