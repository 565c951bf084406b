/** The four walks keep the queue of code expressions aligned: together they give the program back. */
module PragmaTrip {
  import opened Wrappers
  import opened Xml
  import opened Directive
  import opened DirectiveProofs
  import opened DirectiveCount
  import opened PragmaTree

  lemma {:induction false} NamesDiffer()
    ensures "SgPragma" != "SgPragmaDeclaration" && "SgPragma" != "SgExprStatement" && "SgPragma" != "xev_pragma"
    ensures "SgPragmaDeclaration" != "SgExprStatement" && "SgPragmaDeclaration" != "xev_pragma"
    ensures "SgExprStatement" != "xev_pragma"
    ensures "SgPragmaDeclaration" != "SgFunctionCallExp" && "SgPragmaDeclaration" != "SgFunctionRefExp"
  {
    assert |"SgPragma"| == 8 && |"SgPragmaDeclaration"| == 19 && |"SgExprStatement"| == 15 && |"xev_pragma"| == 10;
    assert |"SgFunctionCallExp"| == 17 && |"SgFunctionRefExp"| == 16;
  }

  // ----- collecting undoes placing

  lemma {:induction false} CollectConcat(a: seq<Elem>, b: seq<Elem>)
    ensures Collect(a + b) == Collected(Collect(a).trees + Collect(b).trees, Collect(a).queue + Collect(b).queue)
    decreases |a|
  {
    if a == [] {
      ConcatNothing(b);
      ConcatNothing(Collect(b).trees);
      ConcatNothing(Collect(b).queue);
    } else {
      assert (a + b)[1..] == a[1..] + b && (a + b)[0] == a[0];
      CollectConcat(a[1..], b);
      var ra, rb := Collect(a[1..]), Collect(b);
      if IsExtract(a[0]) {
        ConcatAssoc([Extracted(a[0])], ra.queue, rb.queue);
      } else {
        var k := Collect(a[0].kids);
        ConcatAssoc([a[0].(kids := k.trees)], ra.trees, rb.trees);
        ConcatAssoc(k.queue, ra.queue, rb.queue);
      }
    }
  }

  lemma {:induction false} CollectExtracts(exps: seq<Exp>)
    ensures Collect(Extracts(exps)) == Collected([], exps)
  {
    if exps != [] {
      var e := Extract(exps[0]);
      assert IsExtract(e) && Extracted(e) == exps[0];
      assert Extracts(exps)[0] == e && Extracts(exps)[1..] == Extracts(exps[1..]);
      CollectExtracts(exps[1..]);
      ConcatHead([], exps);
      ConcatNothing(exps);
    }
  }

  /** Placing changes no element but by what comes behind its children. */
  lemma {:induction false} PlaceHead(ts: seq<Elem>, q: seq<Exp>)
    requires Place(ts, q).Walked?
    ensures var r := Place(ts, q).trees;
            if ts == [] then r == []
            else
              && r != [] && r[0].name == ts[0].name && r[0].attrs == ts[0].attrs
              && (ts[0].kids == [] <==> r[0].kids == [])
              && (ts[0].kids != [] ==>
                    r[0].kids[0].name == ts[0].kids[0].name && r[0].kids[0].attrs == ts[0].kids[0].attrs)
  {
    if ts != [] {
      var c := Wanted(ts[0]).value;
      var k := Place(ts[0].kids, q[c..]);
      var r := Place(ts[1..], k.queue);
      FirstOf(ts[0].(kids := k.trees), Extracts(q[..c]), r.trees);
      if ts[0].kids != [] {
        PlaceHead(ts[0].kids, q[c..]);
      }
    }
  }

  lemma {:induction false} FirstOf(t: Elem, a: seq<Elem>, b: seq<Elem>)
    ensures ([t] + a + b)[0] == t && [t] + a + b == [t] + (a + b)
  {
  }

  /** The parts of an element that make it carry an expression. */
  lemma {:induction false} PlacedExtract(t: Elem, q: seq<Exp>)
    requires Place(t.kids, q).Walked? && IsExtract(t.(kids := Place(t.kids, q).trees))
    ensures IsExtract(t)
  {
    PlaceHead(t.kids, q);
    var kids := t.kids;
    if kids != [] {
      var c := Wanted(kids[0]).value;
      var k := Place(kids[0].kids, q[c..]);
      FirstOf(kids[0].(kids := k.trees), Extracts(q[..c]), Place(kids[1..], k.queue).trees);
      PlaceHead(kids[0].kids, q[c..]);
    }
  }

  lemma {:induction false} UnparsedExtract(t: Elem, n: nat)
    requires IsExtract(t.(kids := Unparse(t.kids, n))) && t.kids != []
    ensures IsExtract(t)
  {
    NamesDiffer();
    UnparseCons(t.kids, n);
    var k := t.kids[0];
    assert !IsPragma(k);
    UnparseCons(k.kids, n);
  }

  lemma {:induction false} PlaceText(text: string, q: seq<Exp>)
    ensures Place(Declaration(text).kids, q) == Walked(Declaration(text).kids, q)
    ensures Collect(Declaration(text).kids) == Collected(Declaration(text).kids, [])
  {
    NamesDiffer();
    var e := Elem("SgPragma", [Attr("pragma", text)], []);
    assert Declaration(text).kids == [e] && [e][1..] == [] && e.(kids := []) == e;
    assert q[0..] == q && q[..0] == [];
    assert Extracts([]) == [];
    assert [e] + [] + [] == [e];
  }

  /** What the walks make of one directive, or of an element that is none. */
  lemma {:induction false} PlacedPragma(t: Elem, n: nat, q: seq<Exp>)
    requires IsPragma(t) && LegalPragma(t)
    ensures var d := Declaration(PragmaText(PragmaOf(t), n));
            && IsDeclaration(d) && Wanted(d) == Some(|CodesOne(t)|) && !IsExtract(d)
            && (CodesOne(t) + q)[|CodesOne(t)|..] == q && (CodesOne(t) + q)[..|CodesOne(t)|] == CodesOne(t)
            && Place(d.kids, q) == Walked(d.kids, q) && Collect(d.kids) == Collected(d.kids, [])
  {
    NamesDiffer();
    CountPragma(PragmaOf(t), n);
    PlaceText(PragmaText(PragmaOf(t), n), q);
  }

  /** Placed expressions are collected again, in the same order, and leave no trace. */
  predicate Restored(p: Walked, u: seq<Elem>, codes: seq<Exp>, q: seq<Exp>) {
    p.Walked? && p.queue == q && Collect(p.trees) == Collected(u, codes)
  }

  lemma {:induction false} JoinRestored(d: Elem, kids: seq<Elem>, exps: seq<Exp>, rest: seq<Elem>,
                                        codesKids: seq<Exp>, u: seq<Elem>, codes: seq<Exp>)
    requires !IsExtract(d) && Collect(d.kids) == Collected(kids, codesKids) && Collect(rest) == Collected(u, codes)
    ensures Collect([d] + Extracts(exps) + rest) == Collected([d.(kids := kids)] + u, codesKids + (exps + codes))
  {
    CollectExtracts(exps);
    CollectConcat(Extracts(exps), rest);
    ConcatNothing(u);
    var all := [d] + (Extracts(exps) + rest);
    FirstOf(d, Extracts(exps), rest);
    assert all[0] == d && all[1..] == Extracts(exps) + rest;
  }

  lemma {:induction false} PlaceCollect(ts: seq<Elem>, n: nat, q: seq<Exp>)
    requires Clean(ts)
    ensures Restored(Place(Unparse(ts, n), CodesIn(ts) + q), Unparse(ts, n), CodesIn(ts), q)
    decreases ts
  {
    if ts == [] {
      ConcatNothing(q);
    } else {
      PlaceCollect(ts[1..], n + |CodesOne(ts[0])|, q);
      UnparseCons(ts, n);
      ConcatAssoc(CodesOne(ts[0]), CodesIn(ts[1..]), q);
      if IsPragma(ts[0]) {
        PragmaStep(ts, n, q);
      } else {
        PlaceCollect(ts[0].kids, n, CodesIn(ts[1..]) + q);
        PlainStep(ts, n, q);
      }
    }
  }

  lemma {:induction false} UnparseCons(ts: seq<Elem>, n: nat)
    requires ts != []
    ensures var u := Unparse(ts, n);
            && u != [] && u[1..] == Unparse(ts[1..], n + |CodesOne(ts[0])|)
            && u[0] ==
                (if IsPragma(ts[0]) then Declaration(PragmaText(PragmaOf(ts[0]), n))
                 else ts[0].(kids := Unparse(ts[0].kids, n)))
            && u == [u[0]] + u[1..]
    ensures CodesIn(ts) == CodesOne(ts[0]) + CodesIn(ts[1..])
  {
  }

  lemma {:induction false} PragmaStep(ts: seq<Elem>, n: nat, q: seq<Exp>)
    requires ts != [] && Clean(ts) && IsPragma(ts[0])
    requires var n' := n + |CodesOne(ts[0])|;
             Restored(Place(Unparse(ts[1..], n'), CodesIn(ts[1..]) + q), Unparse(ts[1..], n'), CodesIn(ts[1..]), q)
    ensures Restored(Place(Unparse(ts, n), CodesOne(ts[0]) + (CodesIn(ts[1..]) + q)), Unparse(ts, n), CodesIn(ts), q)
  {
    var codes, q' := CodesOne(ts[0]), CodesIn(ts[1..]) + q;
    PlacedPragma(ts[0], n, q');
    UnparseCons(ts, n);
    var u := Unparse(ts, n);
    assert u[0].(kids := u[0].kids) == u[0];
    JoinRestored(u[0], u[0].kids, codes, Place(u[1..], q').trees, [], u[1..], CodesIn(ts[1..]));
    ConcatNothing(CodesIn(ts));
  }

  lemma {:induction false} PlainStep(ts: seq<Elem>, n: nat, q: seq<Exp>)
    requires ts != [] && Clean(ts) && !IsPragma(ts[0])
    requires var n' := n + |CodesOne(ts[0])|;
             Restored(Place(Unparse(ts[1..], n'), CodesIn(ts[1..]) + q), Unparse(ts[1..], n'), CodesIn(ts[1..]), q)
    requires var q' := CodesIn(ts[1..]) + q; var kids := ts[0].kids;
             Restored(Place(Unparse(kids, n), CodesIn(kids) + q'), Unparse(kids, n), CodesIn(kids), q')
    ensures Restored(Place(Unparse(ts, n), CodesOne(ts[0]) + (CodesIn(ts[1..]) + q)), Unparse(ts, n), CodesIn(ts), q)
  {
    var q0 := CodesOne(ts[0]) + (CodesIn(ts[1..]) + q);
    UnparseCons(ts, n);
    var u := Unparse(ts, n);
    assert q0[0..] == q0 && q0[..0] == [] && Extracts([]) == [];
    var d := u[0].(kids := Place(u[0].kids, q0).trees);
    if IsExtract(d) {
      PlacedExtract(u[0], q0);
      assert ts[0].kids != [];
      UnparsedExtract(ts[0], n);
    }
    JoinRestored(d, u[0].kids, [], Place(u[1..], CodesIn(ts[1..]) + q).trees, CodesIn(ts[0].kids), u[1..],
                 CodesIn(ts[1..]));
    ConcatNothing(CodesIn(ts[1..]));
  }

  // ----- parsing undoes printing

  lemma {:induction false} ParsePragmaBack(t: Elem, n: nat, q: seq<Exp>)
    requires IsPragma(t) && LegalPragma(t)
    ensures var d := Declaration(PragmaText(PragmaOf(t), n));
            IsDeclaration(d) && ParseDeclaration(d, CodesOne(t) + q) == Parsed(t, q)
  {
    var cs := PragmaOf(t);
    ClauseStart(cs, n);
    ParseUnparse(cs, n, q);
  }

  lemma {:induction false} ParseBack(ts: seq<Elem>, n: nat, q: seq<Exp>)
    requires Clean(ts)
    ensures Parse(Unparse(ts, n), CodesIn(ts) + q) == Walked(ts, q)
    decreases ts
  {
    if ts == [] {
      ConcatNothing(q);
    } else {
      var t, q' := ts[0], CodesIn(ts[1..]) + q;
      ParseBack(ts[1..], n + |CodesOne(t)|, q);
      UnparseCons(ts, n);
      ConcatAssoc(CodesOne(t), CodesIn(ts[1..]), q);
      if IsPragma(t) {
        ParsePragmaBack(t, n, q');
      } else {
        ParseBack(t.kids, n, q');
        assert t.(kids := t.kids) == t;
      }
      assert [t] + ts[1..] == ts;
    }
  }

  /** Printing all directives, placing their expressions, collecting these and parsing gives the
      program back, every code term with its own expression, and uses up both queues. */
  lemma {:induction false} RoundTrip(ts: seq<Elem>)
    requires Clean(ts)
    ensures var p := Place(Unparse(ts, 0), CodesIn(ts));
            && p.Walked? && p.queue == []
            && (var c := Collect(p.trees); c.queue == CodesIn(ts) && Parse(c.trees, c.queue) == Walked(ts, []))
  {
    PlaceCollect(ts, 0, []);
    ParseBack(ts, 0, []);
    ConcatNothing(CodesIn(ts));
  }
}
