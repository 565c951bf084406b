/** Begin/end directives: what pairing them means, as a one-pass parser with a stack. */
module Blocks {
  import opened Wrappers
  import opened Xml

  predicate IsDirective(t: Elem) {
    t.name == "xev_pragma" || t.name == "xevdrs_line"
  }

  predicate HasClause(clauses: seq<Elem>, name: string) {
    exists c | c in clauses :: AttrValue(c.attrs, "name") == Some(name)
  }

  predicate HasTarget(t: Elem) {
    |t.kids| >= 2 && t.kids[1].name == "xev_target"
  }

  /** A directive opens a block until its block has been attached to it. */
  predicate Begins(t: Elem) {
    IsDirective(t) && !HasTarget(t) && t.kids != [] && HasClause(t.kids[0].kids, "begin")
  }

  predicate Ends(t: Elem) {
    IsDirective(t) && t.kids != [] && HasClause(t.kids[0].kids, "end")
  }

  function DropFirst(clauses: seq<Elem>, name: string): seq<Elem> {
    if clauses == [] then []
    else if AttrValue(clauses[0].attrs, "name") == Some(name) then clauses[1..]
    else [clauses[0]] + DropFirst(clauses[1..], name)
  }

  function WithoutClause(t: Elem, name: string): Elem {
    if t.kids == [] then t
    else t.(kids := [t.kids[0].(kids := DropFirst(t.kids[0].kids, name))] + t.kids[1..])
  }

  function Target(body: seq<Elem>): Elem {
    Elem("xev_target", [], body)
  }

  /** The block `head` grown by the statements up to an end directive and by what that directive holds. */
  function AddGroup(head: Elem, body: seq<Elem>, end: seq<Elem>): Elem {
    head.(kids := head.kids + [Target(body)] + end)
  }

  predicate NoDirective(t: Elem) {
    !IsDirective(t) && forall k | k in t.kids :: NoDirective(k)
  }

  /** A directive holds a clause list first; what follows, if anything, starts with a target. */
  predicate WellFormed(t: Elem)
    decreases t, 0
  {
    && (IsDirective(t) ==>
          && t.kids != [] && NoDirective(t.kids[0])
          && (|t.kids| >= 2 ==> HasTarget(t))
          && forall k | k in t.kids :: !IsDirective(k))
    && AllWellFormed(t.kids)
  }

  predicate AllWellFormed(ts: seq<Elem>)
    decreases ts, 1
  {
    ts == [] || (WellFormed(ts[0]) && AllWellFormed(ts[1..]))
  }

  // ----- the stack parser

  datatype Frames = Bottom | Open(before: seq<Elem>, head: Elem, under: Frames)

  datatype State = State(frames: Frames, cur: seq<Elem>)

  /** An end directive without the clauses that mark it as an end, and as the begin of a further group. */
  function Unmarked(t: Elem): Elem {
    if Begins(t) then WithoutClause(WithoutClause(t, "end"), "begin") else WithoutClause(t, "end")
  }

  function Shift(st: State, t: Elem): State {
    if Ends(t) && st.frames.Open? then
      var head := AddGroup(st.frames.head, st.cur, Unmarked(t).kids);
      if Begins(t)
      then State(Open(st.frames.before, head, st.frames.under), [])
      else State(st.frames.under, st.frames.before + [head])
    else if Begins(t) then State(Open(st.cur, WithoutClause(t, "begin"), st.frames), [])
    else State(st.frames, st.cur + [t])
  }

  function Step(st: State, t: Elem): Option<State>
    decreases t, 0
  {
    match Norm(t.kids)
    case None => None
    case Some(kids) => Some(Shift(st, t.(kids := kids)))
  }

  function Run(st: State, ts: seq<Elem>): Option<State>
    decreases ts, 0
  {
    if ts == [] then Some(st) else
      match Step(st, ts[0])
      case None => None
      case Some(st') => Run(st', ts[1..])
  }

  function Finish(st: Option<State>): Option<seq<Elem>> {
    if st.Some? && st.value.frames.Bottom? then Some(st.value.cur) else None
  }

  /** Fails when a begin directive is left without its end. */
  function Norm(ts: seq<Elem>): Option<seq<Elem>>
    decreases ts, 1
  {
    Finish(Run(State(Bottom, []), ts))
  }
}
