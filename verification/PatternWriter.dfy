/** The generator itself: predicates are appended to the output and variable paths are
    registered while the pattern is walked. */
module PatternWriter {
  import opened Wrappers
  import opened Xml
  import opened XPath
  import opened Patterns
  import opened PatternProofs

  lemma {:induction false} RegisterConcat(known: map<nat, VarPath>, a: seq<(nat, VarPath)>, b: seq<(nat, VarPath)>)
    ensures Register(known, a + b) == Register(Register(known, a), b)
    decreases a
  {
    if a == [] {
      assert a + b == b;
    } else {
      assert (a + b)[1..] == a[1..] + b;
      RegisterConcat(if a[0].0 in known then known else known[a[0].0 := a[0].1], a[1..], b);
    }
  }

  lemma {:induction false} RegisterAttrs(conf: Conf, known: map<nat, VarPath>, attrs: seq<Attr>, path: Path)
    requires attrs != []
    ensures var a := attrs[0];
            Register(known, AttrRegs(conf, attrs, path)) ==
            Register(if BindsAttr(conf, a) && conf.vars[a.value].id !in known
                     then known[conf.vars[a.value].id := AttrPath(path, a.name)] else known,
                     AttrRegs(conf, attrs[1..], path))
  {
    var a := attrs[0];
    if BindsAttr(conf, a) {
      var r: (nat, VarPath) := (conf.vars[a.value].id, AttrPath(path, a.name));
      assert AttrRegs(conf, attrs, path) == [r] + AttrRegs(conf, attrs[1..], path);
      RegisterConcat(known, [r], AttrRegs(conf, attrs[1..], path));
      assert [r][1..] == [];
    } else {
      assert AttrRegs(conf, attrs, path) == AttrRegs(conf, attrs[1..], path);
    }
  }

  function AttrPred(conf: Conf, x: Forest, a: Attr, path: Path): Pred
    requires x.Pat?
  {
    if Open(conf, x, a) then Exists(Then(path, NamedAttr(a.name))) else Equals(Then(path, NamedAttr(a.name)), a.value)
  }

  lemma {:induction false} AttrStep(conf: Conf, x: Forest, i: nat, path: Path, out: seq<Pred>)
    requires x.Pat? && i < |x.attrs|
    ensures var a := x.attrs[i];
            out + AttrPreds(conf, x, x.attrs[i..], path) ==
            (if a.name in conf.ignoreAttrs then out else out + [AttrPred(conf, x, a, path)]) +
                AttrPreds(conf, x, x.attrs[i + 1..], path)
    ensures CountNotIn(AttrNames(x.attrs[i..]), conf.ignoreAttrs) ==
            (if x.attrs[i].name in conf.ignoreAttrs then 0 else 1) +
                CountNotIn(AttrNames(x.attrs[i + 1..]), conf.ignoreAttrs)
  {
    assert x.attrs[i..][1..] == x.attrs[i + 1..];
    assert AttrNames(x.attrs[i..])[1..] == AttrNames(x.attrs[i + 1..]);
    var rest := AttrPreds(conf, x, x.attrs[i + 1..], path);
    if x.attrs[i].name in conf.ignoreAttrs {
      assert [] + rest == rest;
    } else {
      assert out + ([AttrPred(conf, x, x.attrs[i], path)] + rest) == out + [AttrPred(conf, x, x.attrs[i], path)] + rest;
    }
  }

  /** Negative, namely `-1 - c`, when the siblings end in a list variable. */
  method CountSibling(conf: Conf, x: Forest) returns (c: int)
    ensures c == if EndsInList(conf, x) then -1 - Siblings(conf, x) else Siblings(conf, x)
  {
    var xx := x;
    c := 0;
    while xx.Pat?
      invariant c >= 0
      invariant EndsInList(conf, x) == EndsInList(conf, xx)
      invariant Siblings(conf, x) == c + Siblings(conf, xx)
      decreases xx
    {
      if IsList(conf, xx) {
        return -1 - c;
      }
      if xx.name !in conf.ignoreElems {
        c := c + 1;
      }
      xx := xx.next;
    }
  }

  method MinusAttrs(path: Path, ignored: seq<string>) returns (minus: seq<Path>)
    ensures minus == AttrMinus(path, ignored)
  {
    minus := [];
    for i := 0 to |ignored|
      invariant minus + AttrMinus(path, ignored[i..]) == AttrMinus(path, ignored)
    {
      assert AttrMinus(path, ignored[i..]) == [Then(path, NamedAttr(ignored[i]))] + AttrMinus(path, ignored[i + 1..]);
      minus := minus + [Then(path, NamedAttr(ignored[i]))];
    }
  }

  method MinusElems(path: Path, ignored: seq<string>) returns (minus: seq<Path>)
    ensures minus == ElemMinus(path, ignored)
  {
    minus := [];
    for i := 0 to |ignored|
      invariant minus + ElemMinus(path, ignored[i..]) == ElemMinus(path, ignored)
    {
      assert ElemMinus(path, ignored[i..]) == [Then(path, NamedChild(ignored[i]))] + ElemMinus(path, ignored[i + 1..]);
      minus := minus + [Then(path, NamedChild(ignored[i]))];
    }
  }

  class Writer {
    const conf: Conf
    var out: seq<Pred>
    var paths: map<nat, VarPath>

    constructor (conf: Conf)
      ensures this.conf == conf && out == [] && paths == map[]
    {
      this.conf := conf;
      out, paths := [], map[];
    }

    method RegisterVar(id: nat, path: VarPath)
      modifies this`paths
      ensures paths == Register(old(paths), [(id, path)])
    {
      ghost var one: seq<(nat, VarPath)> := [(id, path)];
      assert one[1..] == [];
      if id !in paths {
        paths := paths[id := path];
      }
    }

    method RegisterAttrVars(attrs: seq<Attr>, path: Path)
      modifies this`paths
      ensures paths == Register(old(paths), AttrRegs(conf, attrs, path))
    {
      for i := 0 to |attrs|
        invariant Register(paths, AttrRegs(conf, attrs[i..], path)) == Register(old(paths), AttrRegs(conf, attrs, path))
      {
        RegisterAttrs(conf, paths, attrs[i..], path);
        assert attrs[i..][1..] == attrs[i + 1..];
        if BindsAttr(conf, attrs[i]) {
          var id := conf.vars[attrs[i].value].id;
          if id !in paths {
            paths := paths[id := AttrPath(path, attrs[i].name)];
          }
        }
      }
    }

    /** The attribute tests; `acount` is the number of attributes a match must have. */
    method WriteAttrs(x: Forest, path: Path) returns (acount: nat)
      requires x.Pat?
      modifies this`out
      ensures out == old(out) + AttrPreds(conf, x, x.attrs, path)
      ensures acount == CountNotIn(AttrNames(x.attrs), conf.ignoreAttrs)
    {
      acount := 0;
      for i := 0 to |x.attrs|
        invariant out + AttrPreds(conf, x, x.attrs[i..], path) == old(out) + AttrPreds(conf, x, x.attrs, path)
        invariant acount + CountNotIn(AttrNames(x.attrs[i..]), conf.ignoreAttrs) ==
                  CountNotIn(AttrNames(x.attrs), conf.ignoreAttrs)
      {
        var a := x.attrs[i];
        AttrStep(conf, x, i, path, out);
        if a.name !in conf.ignoreAttrs {
          out := out + [AttrPred(conf, x, a, path)];
          acount := acount + 1;
        }
      }
    }

    method WriteHead(x: Forest, path: Path)
      requires x.Pat?
      modifies this`out
      ensures out == old(out) + HeadPreds(conf, x, path)
    {
      ghost var start := out;
      out := out + [NamePred(x, path)];
      var acount := WriteAttrs(x, path);
      var minus := MinusAttrs(path, conf.ignoreAttrs);
      out := out + [Count(Then(path, AnyAttr), minus, acount, false)];
      var c := CountSibling(conf, x.child);
      minus := MinusElems(path, conf.ignoreElems);
      if c < 0 {
        out := out + [Count(Then(path, AnyChild), minus, -c - 1, true)];
      } else {
        out := out + [Count(Then(path, AnyChild), minus, c, false)];
      }
      assert out == start + [NamePred(x, path)] + AttrPreds(conf, x, x.attrs, path)
                    + [AttrCountPred(conf, x, path)] + [KidCountPred(conf, x.child, path)];
    }

    /** A node that is a variable: its path, and for a single one that it is there. */
    method WriteVar(x: Forest, path: Path)
      requires x.Pat? && x.nodeVar.Some? && PatOk(conf, x)
      modifies this
      ensures out == old(out) + NodePreds(conf, x, path)
      ensures paths == Register(old(paths), NodeRegs(conf, x, path))
    {
      var v := conf.vars[x.nodeVar.value];
      if v.isList {
        RegisterVar(v.id, ListPath(path));
      } else {
        RegisterVar(v.id, NodePath(path));
        out := out + [Exists(Then(path, SelfAny))];
      }
    }

    /** One pattern node and all below it. */
    method WriteNode(x: Forest, cnt: int, stack: Stack) returns (ok: bool)
      requires x.Pat? && PatOk(conf, x)
      modifies this
      ensures ok <==> (x.nodeVar.None? ==> ListsLast(conf, x.child))
      ensures ok ==> out == old(out) + OwnPreds(conf, x, cnt, stack)
      ensures ok ==> paths == Register(old(paths), OwnRegs(conf, x, cnt, stack))
      decreases x, 0
    {
      var path := StackPath(cnt, stack);
      RegisterAttrVars(x.attrs, path);
      if x.nodeVar.Some? {
        RegisterConcat(old(paths), AttrRegs(conf, x.attrs, path), NodeRegs(conf, x, path));
        WriteVar(x, path);
        assert NodePreds(conf, x, path) + [] == NodePreds(conf, x, path);
        ok := true;
      } else {
        RegisterConcat(old(paths), AttrRegs(conf, x.attrs, path), Regs(conf, x.child, 1, Push(cnt, stack)));
        ConcatAssoc(old(out), HeadPreds(conf, x, path), Preds(conf, x.child, 1, Push(cnt, stack)));
        WriteHead(x, path);
        ok := WriteMatchPattern(x.child, 1, Push(cnt, stack));
      }
    }

    /** Fails when a list variable is not the last of its siblings. */
    method WriteMatchPattern(x: Forest, cnt: int, stack: Stack) returns (ok: bool)
      requires PatOk(conf, x)
      modifies this
      ensures ok <==> ListsLast(conf, x)
      ensures ok ==> out == old(out) + Preds(conf, x, cnt, stack)
      ensures ok ==> paths == Register(old(paths), Regs(conf, x, cnt, stack))
      decreases x, 1
    {
      if x.Nil? {
        return true;
      }
      ok := WriteNode(x, cnt, stack);
      if !ok || (IsList(conf, x) && x.next != Nil) {
        return false;
      }
      ConcatAssoc(old(out), OwnPreds(conf, x, cnt, stack), Preds(conf, x.next, cnt + 1, stack));
      ok := WriteMatchPattern(x.next, cnt + 1, stack);
      RegisterConcat(old(paths), OwnRegs(conf, x, cnt, stack), Regs(conf, x.next, cnt + 1, stack));
    }

    /** The whole test for a pattern: written from scratch, the predicates hold at sibling `i` under
        `parent` exactly when the siblings `cnt - 1` places further on match. */
    method WriteTest(x: Forest, cnt: int) returns (ok: bool)
      requires ConfOk(conf) && PatOk(conf, x)
      modifies this
      ensures ok <==> ListsLast(conf, x)
      ensures ok ==> forall doc: Elem, parent: Loc, i: nat | DocOk(doc) && ValidLoc(doc, Kid(parent, i)) ::
                       AllHold(doc, out, ElemNode(Kid(parent, i))) <==>
                       MatchFrom(conf, x, At(doc, parent).kids, i + cnt - 1)
    {
      out, paths := [], map[];
      ok := WriteMatchPattern(x, cnt, Empty);
      if ok {
        assert [] + Preds(conf, x, cnt, Empty) == Preds(conf, x, cnt, Empty);
        forall doc: Elem, parent: Loc, i: nat | DocOk(doc) && ValidLoc(doc, Kid(parent, i))
          ensures AllHold(doc, out, ElemNode(Kid(parent, i))) <==> MatchFrom(conf, x, At(doc, parent).kids, i + cnt - 1)
        {
          MatchPatternCorrect(conf, x, doc, parent, i, cnt);
        }
      }
    }
  }
}
