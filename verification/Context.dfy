/** Context conditions and context updates in generated templates. The contexts are kept in a string
    with a `t` for each that holds. */
module Context {
  import opened Wrappers

  // ----- conditions

  datatype Ctx = All(kids: seq<Ctx>) | Any(kids: seq<Ctx>) | NotAll(kids: seq<Ctx>) | Is(name: string)

  /** Tokens of the emitted condition; `Holds(k)` tests the `k`-th character, counted from 1. */
  datatype Tok = And | Or | Not | Open | Close | True | False | Holds(k: nat)

  /** The position of a context by name; of two with the same name the later one counts. */
  function Lookup(ctxlist: seq<(string, nat)>, name: string): Option<nat> {
    if ctxlist == [] then None
    else if ctxlist[0].0 == name then Some(ctxlist[0].1)
    else Lookup(ctxlist[1..], name)
  }

  predicate Defined(ctxlist: seq<(string, nat)>, c: Ctx)
    decreases c, 0
  {
    match c
    case Is(name) => Lookup(ctxlist, name).Some?
    case _ => AllDefined(ctxlist, c.kids)
  }

  predicate AllDefined(ctxlist: seq<(string, nat)>, cs: seq<Ctx>)
    decreases cs, 1
  {
    cs == [] || (Defined(ctxlist, cs[0]) && AllDefined(ctxlist, cs[1..]))
  }

  /** What the condition means. */
  predicate Truth(ctxlist: seq<(string, nat)>, c: Ctx, context: string)
    requires Defined(ctxlist, c)
    decreases c, 0
  {
    match c
    case All(kids) => Every(ctxlist, kids, context)
    case Any(kids) => AtLeastOne(ctxlist, kids, context)
    case NotAll(kids) => !Every(ctxlist, kids, context)
    case Is(name) => var k := Lookup(ctxlist, name).value; k < |context| && context[k] == 't'
  }

  predicate Every(ctxlist: seq<(string, nat)>, cs: seq<Ctx>, context: string)
    requires AllDefined(ctxlist, cs)
    decreases cs, 1
  {
    cs == [] || (Truth(ctxlist, cs[0], context) && Every(ctxlist, cs[1..], context))
  }

  predicate AtLeastOne(ctxlist: seq<(string, nat)>, cs: seq<Ctx>, context: string)
    requires AllDefined(ctxlist, cs)
    decreases cs, 1
  {
    cs != [] && (Truth(ctxlist, cs[0], context) || AtLeastOne(ctxlist, cs[1..], context))
  }

  lemma {:induction false} EachDefined(ctxlist: seq<(string, nat)>, cs: seq<Ctx>, i: nat)
    requires AllDefined(ctxlist, cs) && i < |cs|
    ensures Defined(ctxlist, cs[i])
  {
    if i > 0 {
      EachDefined(ctxlist, cs[1..], i - 1);
    }
  }

  /** Whether condition `i` holds, if it is defined. */
  predicate TruthAt(ctxlist: seq<(string, nat)>, cs: seq<Ctx>, i: nat, context: string)
    requires i < |cs|
  {
    Defined(ctxlist, cs[i]) && Truth(ctxlist, cs[i], context)
  }

  lemma {:induction false} ListTruth(ctxlist: seq<(string, nat)>, cs: seq<Ctx>, context: string)
    requires AllDefined(ctxlist, cs)
    ensures Every(ctxlist, cs, context) <==> forall i :: 0 <= i < |cs| ==> TruthAt(ctxlist, cs, i, context)
    ensures AtLeastOne(ctxlist, cs, context) <==> exists i :: 0 <= i < |cs| && TruthAt(ctxlist, cs, i, context)
  {
    if cs != [] {
      var rest := cs[1..];
      ListTruth(ctxlist, rest, context);
      assert TruthAt(ctxlist, cs, 0, context) <==> Truth(ctxlist, cs[0], context);
      forall i | 0 <= i < |cs|
        ensures i > 0 ==> (TruthAt(ctxlist, cs, i, context) <==> TruthAt(ctxlist, rest, i - 1, context))
      {
        assert i > 0 ==> rest[i - 1] == cs[i];
      }
      forall i | 0 <= i < |rest|
        ensures TruthAt(ctxlist, rest, i, context) <==> TruthAt(ctxlist, cs, i + 1, context)
      {
        assert rest[i] == cs[i + 1];
      }
    }
  }

  /** `and` asks for all conditions, `or` for one, `not` for one that does not hold; a context holds if
      the character at its position is a `t`. */
  lemma {:induction false} TruthExact(ctxlist: seq<(string, nat)>, cs: seq<Ctx>, context: string)
    requires AllDefined(ctxlist, cs)
    ensures Truth(ctxlist, All(cs), context) <==> forall i :: 0 <= i < |cs| ==> TruthAt(ctxlist, cs, i, context)
    ensures Truth(ctxlist, Any(cs), context) <==> exists i :: 0 <= i < |cs| && TruthAt(ctxlist, cs, i, context)
    ensures Truth(ctxlist, NotAll(cs), context) <==> exists i :: 0 <= i < |cs| && !TruthAt(ctxlist, cs, i, context)
  {
    ListTruth(ctxlist, cs, context);
  }

  /** The first entry of the list counts, which is the one put there last. */
  lemma {:induction false} NameTruth(before: seq<(string, nat)>, name: string, k: nat, rest: seq<(string, nat)>,
                                     context: string)
    requires forall i | 0 <= i < |before| :: before[i].0 != name
    ensures var l := before + [(name, k)] + rest;
            Defined(l, Is(name)) && (Truth(l, Is(name), context) <==> k < |context| && context[k] == 't')
  {
    var l := before + [(name, k)] + rest;
    if before == [] {
      assert l[0] == (name, k);
    } else {
      assert l[0] == before[0] && l[1..] == before[1..] + [(name, k)] + rest;
      NameTruth(before[1..], name, k, rest, context);
      assert Lookup(l, name) == Lookup(l[1..], name);
    }
  }

  /** One condition behind an operator. */
  function Emit(ctxlist: seq<(string, nat)>, c: Ctx): seq<Tok>
    requires Defined(ctxlist, c)
    decreases c, 0
  {
    match c
    case All(kids) => [Open, True] + EmitList(ctxlist, kids, And) + [Close]
    case Any(kids) => [Open, False] + EmitList(ctxlist, kids, Or) + [Close]
    case NotAll(kids) => [Not, Open, True] + EmitList(ctxlist, kids, And) + [Close]
    case Is(name) => [Holds(Lookup(ctxlist, name).value + 1)]
  }

  function EmitList(ctxlist: seq<(string, nat)>, cs: seq<Ctx>, op: Tok): seq<Tok>
    requires AllDefined(ctxlist, cs)
    decreases cs, 1
  {
    if cs == [] then [] else [op] + Emit(ctxlist, cs[0]) + EmitList(ctxlist, cs[1..], op)
  }

  /** Writes the conditions one after the other, each behind `and` or `or`; fails on a context that is
      not defined. */
  method WriteContextTest(ctxlist: seq<(string, nat)>, ctx: seq<Ctx>, stat: nat) returns (out: Option<seq<Tok>>)
    ensures out == if AllDefined(ctxlist, ctx)
                   then Some(EmitList(ctxlist, ctx, if stat == 0 then And else Or)) else None
    decreases ctx
  {
    if ctx == [] {
      return Some([]);
    }
    var op := if stat == 0 then And else Or;
    var item;
    match ctx[0] {
      case All(kids) =>
        var inner := WriteContextTest(ctxlist, kids, 0);
        item := if inner.None? then None else Some([Open, True] + inner.value + [Close]);
      case Any(kids) =>
        var inner := WriteContextTest(ctxlist, kids, 1);
        item := if inner.None? then None else Some([Open, False] + inner.value + [Close]);
      case NotAll(kids) =>
        var inner := WriteContextTest(ctxlist, kids, 0);
        item := if inner.None? then None else Some([Not, Open, True] + inner.value + [Close]);
      case Is(name) =>
        var id := Lookup(ctxlist, name);
        item := if id.None? then None else Some([Holds(id.value + 1)]);
    }
    if item.None? {
      return None;
    }
    var rest := WriteContextTest(ctxlist, ctx[1..], stat);
    out := if rest.None? then None else Some([op] + item.value + rest.value);
  }

  // ----- evaluating a condition (sections 3.1 and 3.4 of XPath 1.0: `and` binds tighter than `or`)

  datatype Got = Bad | Got(value: bool, rest: seq<Tok>)

  function Primary(ts: seq<Tok>, context: string): (r: Got)
    ensures r.Got? ==> |r.rest| < |ts|
    decreases |ts|, 0
  {
    if ts == [] then Bad else
      match ts[0]
      case True => Got(true, ts[1..])
      case False => Got(false, ts[1..])
      case Holds(k) => Got(1 <= k <= |context| && context[k - 1] == 't', ts[1..])
      case Open => Closed(Expr(ts[1..], context))
      case Not =>
        if |ts| >= 2 && ts[1] == Open then
          var r := Closed(Expr(ts[2..], context));
          if r.Bad? then Bad else Got(!r.value, r.rest)
        else Bad
      case _ => Bad
  }

  function Closed(r: Got): Got {
    if r.Got? && r.rest != [] && r.rest[0] == Close then Got(r.value, r.rest[1..]) else Bad
  }

  function AndRest(v: bool, ts: seq<Tok>, context: string): (r: Got)
    ensures r.Got? ==> |r.rest| <= |ts|
    decreases |ts|, 1
  {
    if ts == [] || ts[0] != And then Got(v, ts) else
      match Primary(ts[1..], context)
      case Bad => Bad
      case Got(w, rest) => AndRest(v && w, rest, context)
  }

  function OrRest(v: bool, ts: seq<Tok>, context: string): (r: Got)
    ensures r.Got? ==> |r.rest| <= |ts|
    decreases |ts|, 2
  {
    if ts == [] || ts[0] != Or then Got(v, ts) else
      match Primary(ts[1..], context)
      case Bad => Bad
      case Got(w, rest) =>
        match AndRest(w, rest, context)
        case Bad => Bad
        case Got(u, rest') => OrRest(v || u, rest', context)
  }

  function Expr(ts: seq<Tok>, context: string): (r: Got)
    ensures r.Got? ==> |r.rest| <= |ts|
    decreases |ts|, 3
  {
    match Primary(ts, context)
    case Bad => Bad
    case Got(v, rest) =>
      match AndRest(v, rest, context)
      case Bad => Bad
      case Got(w, rest') => OrRest(w, rest', context)
  }

  /** A text that continues neither with `and` nor with `or`. */
  predicate Ends(rest: seq<Tok>) {
    rest == [] || (rest[0] != And && rest[0] != Or)
  }

  lemma {:induction false} EmitListCons(ctxlist: seq<(string, nat)>, cs: seq<Ctx>, op: Tok, rest: seq<Tok>)
    requires cs != [] && AllDefined(ctxlist, cs)
    ensures var ts := EmitList(ctxlist, cs, op) + rest;
            ts != [] && ts[0] == op && ts[1..] == Emit(ctxlist, cs[0]) + (EmitList(ctxlist, cs[1..], op) + rest)
  {
    var e, l := Emit(ctxlist, cs[0]), EmitList(ctxlist, cs[1..], op);
    ConcatAssoc([op] + e, l, rest);
    ConcatAssoc([op], e, l + rest);
    assert ([op] + (e + (l + rest)))[1..] == e + (l + rest);
  }

  /** A list of conditions is evaluated from left to right. */
  lemma {:induction false} EmitHolds(ctxlist: seq<(string, nat)>, c: Ctx, context: string, rest: seq<Tok>)
    requires Defined(ctxlist, c)
    ensures Primary(Emit(ctxlist, c) + rest, context) == Got(Truth(ctxlist, c, context), rest)
    decreases c, 0
  {
    match c
    case Is(name) => assert (Emit(ctxlist, c) + rest)[1..] == rest;
    case All(kids) =>
      AndHolds(ctxlist, true, kids, context, [Close] + rest);
      AllPrimary(EmitList(ctxlist, kids, And), Every(ctxlist, kids, context), context, rest);
    case Any(kids) =>
      OrHolds(ctxlist, false, kids, context, [Close] + rest);
      OrStarts(ctxlist, kids, context, rest);
      AnyPrimary(EmitList(ctxlist, kids, Or), AtLeastOne(ctxlist, kids, context), context, rest);
    case NotAll(kids) =>
      AndHolds(ctxlist, true, kids, context, [Close] + rest);
      NotPrimary(EmitList(ctxlist, kids, And), Every(ctxlist, kids, context), context, rest);
  }

  lemma {:induction false} AllPrimary(l: seq<Tok>, v: bool, context: string, rest: seq<Tok>)
    requires AndRest(true, l + ([Close] + rest), context) == Got(v, [Close] + rest)
    ensures Primary([Open, True] + l + [Close] + rest, context) == Got(v, rest)
  {
    AllGroup(l, v, context, rest);
    Grouped(True, l, rest);
  }

  lemma {:induction false} AnyPrimary(l: seq<Tok>, v: bool, context: string, rest: seq<Tok>)
    requires var ts := l + ([Close] + rest);
             AndRest(false, ts, context) == Got(false, ts) && OrRest(false, ts, context) == Got(v, [Close] + rest)
    ensures Primary([Open, False] + l + [Close] + rest, context) == Got(v, rest)
  {
    AnyGroup(l, v, context, rest);
    Grouped(False, l, rest);
  }

  lemma {:induction false} NotPrimary(l: seq<Tok>, v: bool, context: string, rest: seq<Tok>)
    requires AndRest(true, l + ([Close] + rest), context) == Got(v, [Close] + rest)
    ensures Primary([Not, Open, True] + l + [Close] + rest, context) == Got(!v, rest)
  {
    AllGroup(l, v, context, rest);
    Negated(l, rest);
  }

  lemma {:induction false} AllGroup(l: seq<Tok>, v: bool, context: string, rest: seq<Tok>)
    requires AndRest(true, l + ([Close] + rest), context) == Got(v, [Close] + rest)
    ensures Expr([True] + (l + ([Close] + rest)), context) == Got(v, [Close] + rest)
  {
    var ts := l + ([Close] + rest);
    assert ([True] + ts)[1..] == ts && ([True] + ts)[0] == True;
    assert ([Close] + rest)[0] == Close;
  }

  lemma {:induction false} AnyGroup(l: seq<Tok>, v: bool, context: string, rest: seq<Tok>)
    requires var ts := l + ([Close] + rest);
             AndRest(false, ts, context) == Got(false, ts) && OrRest(false, ts, context) == Got(v, [Close] + rest)
    ensures Expr([False] + (l + ([Close] + rest)), context) == Got(v, [Close] + rest)
  {
    var ts := l + ([Close] + rest);
    assert ([False] + ts)[1..] == ts && ([False] + ts)[0] == False;
  }

  lemma {:induction false} Grouped(t: Tok, l: seq<Tok>, rest: seq<Tok>)
    ensures var ts := [Open, t] + l + [Close] + rest;
            ts[0] == Open && ts[1..] == [t] + (l + ([Close] + rest)) &&
                ([t] + (l + ([Close] + rest)))[1..] == l + ([Close] + rest)
    ensures ([Close] + rest)[1..] == rest
  {
  }

  lemma {:induction false} Negated(l: seq<Tok>, rest: seq<Tok>)
    ensures var ts := [Not, Open, True] + l + [Close] + rest;
            |ts| >= 2 && ts[0] == Not && ts[1] == Open && ts[2..] == [True] + (l + ([Close] + rest)) &&
            ([True] + (l + ([Close] + rest)))[1..] == l + ([Close] + rest)
    ensures ([Close] + rest)[1..] == rest
  {
  }

  lemma {:induction false} OrStarts(ctxlist: seq<(string, nat)>, cs: seq<Ctx>, context: string, rest: seq<Tok>)
    requires AllDefined(ctxlist, cs)
    ensures var ts := EmitList(ctxlist, cs, Or) + ([Close] + rest); AndRest(false, ts, context) == Got(false, ts)
  {
    if cs != [] {
      EmitListCons(ctxlist, cs, Or, [Close] + rest);
    }
  }

  lemma {:induction false} AndHolds(ctxlist: seq<(string, nat)>, v: bool, cs: seq<Ctx>, context: string, rest: seq<Tok>)
    requires AllDefined(ctxlist, cs) && Ends(rest)
    ensures AndRest(v, EmitList(ctxlist, cs, And) + rest, context) == Got(v && Every(ctxlist, cs, context), rest)
    decreases cs, 1
  {
    if cs == [] {
      ConcatNothing(rest);
    } else {
      EmitListCons(ctxlist, cs, And, rest);
      EmitHolds(ctxlist, cs[0], context, EmitList(ctxlist, cs[1..], And) + rest);
      AndHolds(ctxlist, v && Truth(ctxlist, cs[0], context), cs[1..], context, rest);
    }
  }

  lemma {:induction false} OrHolds(ctxlist: seq<(string, nat)>, v: bool, cs: seq<Ctx>, context: string, rest: seq<Tok>)
    requires AllDefined(ctxlist, cs) && Ends(rest)
    ensures OrRest(v, EmitList(ctxlist, cs, Or) + rest, context) == Got(v || AtLeastOne(ctxlist, cs, context), rest)
    decreases cs, 1
  {
    if cs == [] {
      ConcatNothing(rest);
    } else {
      var more := EmitList(ctxlist, cs[1..], Or) + rest;
      EmitListCons(ctxlist, cs, Or, rest);
      EmitHolds(ctxlist, cs[0], context, more);
      if |cs| > 1 {
        EmitListCons(ctxlist, cs[1..], Or, rest);
      } else {
        ConcatNothing(rest);
      }
      assert AndRest(Truth(ctxlist, cs[0], context), more, context) == Got(Truth(ctxlist, cs[0], context), more);
      OrHolds(ctxlist, v || Truth(ctxlist, cs[0], context), cs[1..], context, rest);
    }
  }

  /** Behind a true condition the emitted test decides whether all its conditions hold. */
  lemma {:induction false} TestCorrect(ctxlist: seq<(string, nat)>, cs: seq<Ctx>, context: string)
    requires AllDefined(ctxlist, cs)
    ensures Expr([True] + EmitList(ctxlist, cs, And), context) == Got(Every(ctxlist, cs, context), [])
  {
    AndHolds(ctxlist, true, cs, context, []);
    var l := EmitList(ctxlist, cs, And);
    ConcatNothing(l);
    assert ([True] + l)[1..] == l && ([True] + l)[0] == True;
  }

  // ----- updates

  /** A part of the new context string: characters of the old one from position `start`, counted from
      1, or one character. */
  datatype Part = Sub(start: nat, len: nat) | Chr(c: char)

  /** `substring` as in section 4.2 of XPath 1.0, for whole positions. */
  function Substring(s: string, start: nat, len: nat): string
    requires start >= 1
  {
    if start - 1 >= |s| then "" else if start - 1 + len >= |s| then s[start - 1..] else s[start - 1..start - 1 + len]
  }

  function PartValue(p: Part, context: string): string {
    match p
    case Sub(start, len) => if start == 0 then "" else Substring(context, start, len)
    case Chr(c) => [c]
  }

  function Value(ps: seq<Part>, context: string): string {
    if ps == [] then "" else PartValue(ps[0], context) + Value(ps[1..], context)
  }

  /** The parts from position `i` on, the last update before having been at `prev` (-1: none yet). */
  function Parts(marks: string, i: nat, prev: int): seq<Part>
    requires i <= |marks| && -1 <= prev < i
    decreases |marks| - i
  {
    if i == |marks| then
      if |marks| > 1 && prev != |marks| - 1 then [Sub(prev + 2, |marks|)] else []
    else if marks[i] == 'x' then Parts(marks, i + 1, prev)
    else Piece(marks, i, prev) + Parts(marks, i + 1, i)
  }

  function Piece(marks: string, i: nat, prev: int): seq<Part>
    requires i < |marks| && -1 <= prev < i
  {
    if |marks| == 1 then [Chr(marks[i])]
    else if prev < 0 then if i == 0 then [Chr(marks[i])] else [Sub(1, i), Chr(marks[i])]
    else if prev == i - 1 then [Chr('t')]
    else [Sub(prev + 2, i), Chr(marks[i])]
  }

  /** The context with the marked positions changed. */
  function Updated(context: string, marks: string): string
    requires |context| == |marks|
  {
    seq(|marks|, i requires 0 <= i < |marks| && |context| == |marks| =>
          if marks[i] == 'x' then context[i] else marks[i])
  }

  /** Every update after the first follows the one before directly and sets its context. */
  predicate Adjacent(marks: string, i: nat, prev: int)
    requires i <= |marks| && -1 <= prev < i
    decreases |marks| - i
  {
    i == |marks| ||
    (if marks[i] == 'x' then Adjacent(marks, i + 1, prev)
     else (prev < 0 || (prev == i - 1 && marks[i] == 't')) && Adjacent(marks, i + 1, i))
  }

  lemma {:induction false} ValueConcat(a: seq<Part>, b: seq<Part>, context: string)
    ensures Value(a + b, context) == Value(a, context) + Value(b, context)
    decreases |a|
  {
    if a == [] {
      ConcatNothing(b);
      ConcatNothing(Value(b, context));
    } else {
      assert (a + b)[1..] == a[1..] + b && (a + b)[0] == a[0];
      ValueConcat(a[1..], b, context);
      ConcatAssoc(PartValue(a[0], context), Value(a[1..], context), Value(b, context));
    }
  }

  lemma {:induction false} PieceValue(marks: string, i: nat, prev: int, context: string)
    requires i < |marks| && -1 <= prev < i && |context| == |marks| > 1
    ensures Value(Piece(marks, i, prev), context) ==
            if prev < 0 then context[..i] + [marks[i]]
            else if prev == i - 1 then "t"
            else Substring(context, prev + 2, i) + [marks[i]]
  {
    var p := Piece(marks, i, prev);
    if |p| == 1 {
      assert p[1..] == [];
    } else {
      assert p[1..] == [p[1]] && [p[1]][1..] == [];
      ConcatNothing([marks[i]]);
      assert Value([p[1]], context) == [marks[i]];
      assert prev < 0 ==> Substring(context, 1, i) == context[..i];
    }
  }

  lemma {:induction false} Unchanged(context: string, marks: string, a: nat, b: nat)
    requires |context| == |marks| && a <= b <= |marks| && forall k :: a <= k < b ==> marks[k] == 'x'
    ensures Updated(context, marks)[a..b] == context[a..b]
  {
  }

  /** The parts' value `v` is never shorter than the update `w`, and is `w` just if `adjacent`. */
  predicate ExactTo(v: string, w: string, adjacent: bool) {
    |v| >= |w| && (v == w <==> adjacent)
  }

  lemma {:induction false} RestEnd(context: string, marks: string, prev: nat)
    requires |context| == |marks| > 1 && prev < |marks| && forall k :: prev < k < |marks| ==> marks[k] == 'x'
    ensures Value(Parts(marks, |marks|, prev), context) == Updated(context, marks)[prev + 1..]
  {
    var i := |marks|;
    var u := Updated(context, marks);
    Unchanged(context, marks, prev + 1, i);
    assert context[prev + 1..] == context[prev + 1..i] && u[prev + 1..] == u[prev + 1..i];
    if prev != |marks| - 1 {
      var p := [Sub(prev + 2, |marks|)];
      assert p[1..] == [];
      ConcatNothing(context[prev + 1..]);
    }
  }

  /** An update at `i`, the one before having been at `prev`. */
  lemma {:induction false} RestPiece(context: string, marks: string, i: nat, prev: nat, v: string)
    requires |context| == |marks| > 1 && prev < i < |marks| && marks[i] != 'x'
    requires ExactTo(v, Updated(context, marks)[i + 1..], Adjacent(marks, i + 1, i))
    ensures ExactTo(Value(Piece(marks, i, prev), context) + v, Updated(context, marks)[prev + 1..],
                    Adjacent(marks, i, prev))
  {
    var u := Updated(context, marks);
    PieceValue(marks, i, prev, context);
    if prev == i - 1 {
      assert u[prev + 1..] == [marks[i]] + u[i + 1..];
      HeadEqual('t', marks[i], v, u[i + 1..]);
    } else {
      assert |Substring(context, prev + 2, i)| > i - prev - 1;
    }
  }

  /** Behind an update the rest comes out right just when the updates follow each other directly, and
      it never comes out shorter than it should. */
  lemma {:induction false} RestExact(context: string, marks: string, i: nat, prev: nat)
    requires |context| == |marks| > 1 && prev < i <= |marks| && forall k :: prev < k < i ==> marks[k] == 'x'
    ensures ExactTo(Value(Parts(marks, i, prev), context), Updated(context, marks)[prev + 1..],
                    Adjacent(marks, i, prev))
    decreases |marks| - i
  {
    if i == |marks| {
      RestEnd(context, marks, prev);
    } else if marks[i] == 'x' {
      RestExact(context, marks, i + 1, prev);
    } else {
      RestExact(context, marks, i + 1, i);
      ValueConcat(Piece(marks, i, prev), Parts(marks, i + 1, i), context);
      RestPiece(context, marks, i, prev, Value(Parts(marks, i + 1, i), context));
    }
  }

  lemma {:induction false} HeadEqual(a: char, b: char, s: string, t: string)
    ensures [a] + s == [b] + t <==> a == b && s == t
  {
    assert ([a] + s)[0] == a && ([b] + t)[0] == b && ([a] + s)[1..] == s && ([b] + t)[1..] == t;
  }

  lemma {:induction false} StartExact(context: string, marks: string, i: nat)
    requires |context| == |marks| > 1 && i < |marks| && (forall k :: 0 <= k < i ==> marks[k] == 'x')
    requires exists k :: i <= k < |marks| && marks[k] != 'x'
    ensures Value(Parts(marks, i, -1), context) == Updated(context, marks) <==> Adjacent(marks, i, -1)
    decreases |marks| - i
  {
    var u := Updated(context, marks);
    if marks[i] == 'x' {
      StartExact(context, marks, i + 1);
    } else {
      RestExact(context, marks, i + 1, i);
      ValueConcat(Piece(marks, i, -1), Parts(marks, i + 1, i), context);
      PieceValue(marks, i, -1, context);
      FirstUpdate(context, marks, i);
      SameFront(context[..i] + [marks[i]], Value(Parts(marks, i + 1, i), context), u[i + 1..]);
    }
  }

  lemma {:induction false} FirstUpdate(context: string, marks: string, i: nat)
    requires |context| == |marks| && i < |marks| && marks[i] != 'x' && forall k :: 0 <= k < i ==> marks[k] == 'x'
    ensures var u := Updated(context, marks); u == context[..i] + [marks[i]] + u[i + 1..]
  {
    Unchanged(context, marks, 0, i);
  }

  lemma {:induction false} SameFront(a: string, s: string, t: string)
    ensures a + s == a + t <==> s == t
  {
    assert (a + s)[|a|..] == s && (a + t)[|a|..] == t;
  }

  /** The emitted expression is the updated context exactly when the updates are adjacent. */
  lemma {:induction false} UpdateExact(context: string, marks: string)
    requires |context| == |marks| && exists k :: 0 <= k < |marks| && marks[k] != 'x'
    ensures Value(Parts(marks, 0, -1), context) == Updated(context, marks) <==> Adjacent(marks, 0, -1)
  {
    if |marks| == 1 {
      var p := [Chr(marks[0])];
      assert p[1..] == [] && Parts(marks, 1, 0) == [];
      ConcatNothing(p);
      ConcatNothing([marks[0]]);
      assert Updated(context, marks) == [marks[0]];
    } else {
      StartExact(context, marks, 0);
    }
  }

  /** Without a cancel clause only the context of the template itself is set, and the expression is right. */
  lemma {:induction false} SingleUpdate(context: string, marks: string, id: nat)
    requires |context| == |marks| && id < |marks| && marks[id] == 't'
    requires forall k :: 0 <= k < |marks| && k != id ==> marks[k] == 'x'
    ensures Value(Parts(marks, 0, -1), context) == context[id := 't']
  {
    UpdateExact(context, marks);
    SingleAdjacent(marks, id, 0, -1);
    assert Updated(context, marks) == context[id := 't'];
  }

  lemma {:induction false} SingleAdjacent(marks: string, id: nat, i: nat, prev: int)
    requires i <= |marks| && -1 <= prev < i && id < |marks| && (prev < 0 || id < i)
    requires forall k :: 0 <= k < |marks| && k != id ==> marks[k] == 'x'
    ensures Adjacent(marks, i, prev)
    decreases |marks| - i
  {
    if i < |marks| {
      SingleAdjacent(marks, id, i + 1, if marks[i] == 'x' then prev else i);
    }
  }

  /** Setting the second of three contexts and cancelling the first works; setting the first and
      cancelling the third does not: the result has a character too many. Setting the first and
      cancelling the second does not either: the second is set as well. */
  lemma {:induction false} CancelExamples(context: string)
    requires |context| == 3
    ensures Value(Parts("ftx", 0, -1), context) == ['f', 't', context[2]]
    ensures Value(Parts("txf", 0, -1), context) != ['t', context[1], 'f']
    ensures Value(Parts("tfx", 0, -1), context) == ['t', 't', context[2]]
  {
    assert "ftx"[0] == 'f' && "txf"[0] == 't';
    UpdateExact(context, "ftx");
    UpdateExact(context, "txf");
    assert Updated(context, "ftx") == ['f', 't', context[2]] && Updated(context, "txf") == ['t', context[1], 'f'];
    assert Adjacent("ftx", 3, 1) && Adjacent("ftx", 2, 1) && Adjacent("ftx", 1, 0) && Adjacent("ftx", 0, -1);
    assert !Adjacent("txf", 2, 0) && !Adjacent("txf", 1, 0) && !Adjacent("txf", 0, -1);
    SecondSet(context);
  }

  lemma {:induction false} SecondSet(context: string)
    requires |context| == 3
    ensures Value(Parts("tfx", 0, -1), context) == ['t', 't', context[2]]
  {
    var m := "tfx";
    var p := [Chr('t'), Chr('t'), Sub(3, 3)];
    assert Parts(m, 3, 1) == [Sub(3, 3)] && Parts(m, 2, 1) == [Sub(3, 3)];
    assert Parts(m, 1, 0) == [Chr('t')] + Parts(m, 2, 1) && Parts(m, 0, -1) == [Chr('t')] + Parts(m, 1, 0) == p;
    assert p[1..] == [Chr('t'), Sub(3, 3)] && p[1..][1..] == [Sub(3, 3)] && p[1..][1..][1..] == [];
    assert Substring(context, 3, 3) == context[2..] == [context[2]];
    assert Value([Sub(3, 3)], context) == [context[2]] + "" == [context[2]];
  }

  method SetContextString(numContexts: nat, id: nat, cancelled: seq<nat>) returns (marks: string)
    requires id < numContexts && forall k | k in cancelled :: k < numContexts
    ensures |marks| == numContexts
    ensures forall k :: 0 <= k < numContexts ==>
              marks[k] == if k in cancelled then 'f' else if k == id then 't' else 'x'
  {
    var s := new char[numContexts](_ => 'x');
    s[id] := 't';
    var j: nat := 0;
    while j < |cancelled|
      invariant j <= |cancelled|
      invariant forall k :: 0 <= k < numContexts ==>
                  s[k] == if k in cancelled[..j] then 'f' else if k == id then 't' else 'x'
    {
      assert cancelled[j] in cancelled && cancelled[..j + 1] == cancelled[..j] + [cancelled[j]];
      s[cancelled[j]] := 'f';
      j := j + 1;
    }
    assert cancelled[..j] == cancelled;
    marks := s[..];
  }

  /** Emits the parts of the update in one pass over the marks. */
  method WriteContextParam(marks: string) returns (out: seq<Part>)
    ensures out == Parts(marks, 0, -1)
  {
    out := [];
    var prev: int := -1;
    var i: nat := 0;
    var n := |marks|;
    while i < n
      invariant i <= n && -1 <= prev < i && out + Parts(marks, i, prev) == Parts(marks, 0, -1)
    {
      if marks[i] != 'x' {
        ConcatAssoc(out, Piece(marks, i, prev), Parts(marks, i + 1, i));
        if n == 1 {
          out := out + [Chr(marks[i])];
        } else if prev < 0 {
          out := out + if i == 0 then [Chr(marks[i])] else [Sub(1, i), Chr(marks[i])];
        } else {
          out := out + if prev == i - 1 then [Chr('t')] else [Sub(prev + 2, i), Chr(marks[i])];
        }
        prev := i;
      }
      i := i + 1;
    }
    ConcatNothing(out);
    if n > 1 && prev != n - 1 {
      out := out + [Sub(prev + 2, n)];
    }
  }
}
