/** The directive parser, which moves through the text, makes cells and takes code expressions from a queue. */
module DirectiveReader {
  import opened Wrappers
  import opened Xml
  import opened XmlHeap
  import opened CellQueue
  import opened PragmaTree
  import opened LangStr
  import D = Directive

  lemma {:induction false} NameLenNext(t: string)
    requires t != "" && D.IsNameChar(t[0])
    ensures D.NameLen(t) == 1 + D.NameLen(t[1..])
  {
  }

  /** A cell without children. */
  method Leaf(name: string, attr: string, value: string) returns (x: XmlCell, ghost h: Forest)
    ensures fresh(x) && Rep(x, h) && Cells(h) == {x} && Trees(h) == [Elem(name, [Attr(attr, value)], [])]
  {
    x := new XmlCell(name, [Attr(attr, value)]);
    h := Node(x, name, [Attr(attr, value)], Nil, Nil);
  }

  method TakeExp(e: XmlCell?, ghost fe: Forest) returns (x: XmlCell, ghost h: Forest)
    requires Rep(e, fe)
    modifies Cells(fe)
    ensures Rep(x, h) && Trees(h) == [TermElem(D.Code(Trees(fe)))]
    ensures forall k | k in Cells(h) :: k in Cells(fe) || fresh(k)
  {
    assert allocated(Cells(fe));
    x := new XmlCell("xevparse_code_exp", []);
    h := Node(x, "xevparse_code_exp", [], Nil, Nil);
    assert Cells(h.child) == {} && Rep(e, fe);
    if e != null {
      XmlInsertChild(x, e, h, fe);
    }
    SpliceAll(fe, Nil);
    h := h.(child := fe);
  }

  lemma {:induction false} TermElemsSnoc(ts: seq<D.Term>, t: D.Term)
    ensures TermElems(ts + [t]) == TermElems(ts) + [TermElem(t)]
  {
    if ts == [] {
      ConcatNothing([t]);
      assert [t][1..] == [];
      ConcatNothing([TermElem(t)]);
    } else {
      assert (ts + [t])[1..] == ts[1..] + [t] && (ts + [t])[0] == ts[0];
      TermElemsSnoc(ts[1..], t);
      ConcatAssoc([TermElem(ts[0])], TermElems(ts[1..]), [TermElem(t)]);
    }
  }

  /** The cell is as it was but for the terms below it. */
  ghost predicate Held(x: XmlCell, hx: Forest, h: Forest, terms: seq<D.Term>)
    requires hx.Node?
    reads Cells(h)
  {
    h.Node? && h == hx.(child := h.child) && hx.next.Nil? && Rep(x, h) && Trees(h.child) == TermElems(terms)
  }

  /** Appends a term below `x`, as a pair if it has a first half. */
  method Attach(x: XmlCell, fst: XmlCell?, tx: XmlCell, ghost h: Forest, ghost hf: Forest, ghost ht: Forest,
                ghost ft: Option<D.Term>, ghost t: D.Term, ghost acc: seq<D.Term>)
    returns (ghost h': Forest)
    requires h.Node? && Held(x, h, h, acc) && Rep(fst, hf) &&
             Trees(hf) == (if ft.Some? then [TermElem(ft.value)] else [])
    requires Rep(tx, ht) && Trees(ht) == [TermElem(t)] && Cells(h) !! Cells(hf) && Cells(h) !! Cells(ht) &&
             Cells(hf) !! Cells(ht)
    modifies x, Cells(h.child), Cells(hf)
    ensures Held(x, h, h', acc + [if ft.Some? then D.Pair(ft.value, t) else t])
    ensures forall k | k in Cells(h') :: k in Cells(h) || k in Cells(hf) || k in Cells(ht) || fresh(k)
  {
    assert allocated(Cells(h)) && allocated(Cells(ht));
    var y := tx;
    ghost var hy, ty := ht, t;
    if fst != null {
      y, hy := MakePair(fst, tx, hf, ht, ft.value, t);
      ty := D.Pair(ft.value, t);
      assert Rep(x, h);
    }
    TermElemsSnoc(acc, ty);
    ConcatFacts(h.child, hy);
    XmlAppendChild(x, y, h, hy);
    h' := h.(child := Concat(h.child, hy));
  }

  method MakePair(fst: XmlCell, snd: XmlCell, ghost hf: Forest, ghost hs: Forest, ghost a: D.Term, ghost b: D.Term)
    returns (x: XmlCell, ghost h: Forest)
    requires Rep(fst, hf) && Rep(snd, hs) && Cells(hf) !! Cells(hs) && Trees(hf) == [TermElem(a)] &&
             Trees(hs) == [TermElem(b)]
    modifies Cells(hf)
    ensures fresh(x) && Rep(x, h) && Trees(h) == [TermElem(D.Pair(a, b))]
    ensures forall k | k in Cells(h) :: k in Cells(hf) || k in Cells(hs) || fresh(k)
  {
    assert allocated(Cells(hf)) && allocated(Cells(hs));
    x := new XmlCell("xev_pair", []);
    h := Node(x, "xev_pair", [], Nil, Nil);
    assert Cells(h.child) == {} && Rep(fst, hf) && Rep(snd, hs);
    XmlAppendChild(x, fst, h, hf);
    h := h.(child := hf);
    assert Rep(snd, hs);
    ConcatFacts(hf, hs);
    XmlAppendChild(x, snd, h, hs);
    h := h.(child := Concat(hf, hs));
    assert Trees(h.child) == [TermElem(a), TermElem(b)];
  }

  /** The terms below a cell so far, the first half of a pair, and the queue. */
  datatype Args = Args(held: Forest, half: Forest, fst: Option<D.Term>, queue: seq<Forest>, acc: seq<D.Term>)

  ghost function ArgCells(st: Args): set<XmlCell> {
    Cells(st.held) + Cells(st.half) + CellsOf(st.queue)
  }

  lemma {:induction false} ClauseElemsSnoc(cs: seq<D.Clause>, c: D.Clause)
    ensures ClauseElems(cs + [c]) == ClauseElems(cs) + [ClauseElem(c)]
  {
    if cs == [] {
      ConcatNothing([c]);
      assert [c][1..] == [];
      ConcatNothing([ClauseElem(c)]);
    } else {
      assert (cs + [c])[1..] == cs[1..] + [c] && (cs + [c])[0] == cs[0];
      ClauseElemsSnoc(cs[1..], c);
      ConcatAssoc([ClauseElem(cs[0])], ClauseElems(cs[1..]), [ClauseElem(c)]);
    }
  }

  class Parser {
    const text: string
    var pos: nat
    var exList: seq<XmlCell?>

    constructor (text: string, queue: seq<XmlCell?>)
      requires NulFree(text)
      ensures Valid() && Rest() == text && exList == queue
    {
      this.text, pos, exList := text, 0, queue;
    }

    ghost predicate Valid()
      reads this
    {
      pos <= |text| && NulFree(text)
    }

    ghost function Rest(): string
      requires Valid()
      reads this
    {
      text[pos..]
    }

    method SkipBlanks()
      requires Valid()
      modifies this`pos
      ensures Valid() && Rest() == D.SkipBlanks(old(Rest())) && pos >= old(pos)
    {
      while pos < |text| && IsBlank(text[pos])
        invariant Valid() && D.SkipBlanks(Rest()) == D.SkipBlanks(old(Rest())) && pos >= old(pos)
        decreases |text| - pos
      {
        assert text[pos..][1..] == text[pos + 1..];
        pos := pos + 1;
      }
    }

    /** The name at the current position, which is passed over. */
    method Name() returns (name: string)
      requires Valid()
      modifies this`pos
      ensures Valid() && pos >= old(pos) && pos - old(pos) == |name|
      ensures var t := old(Rest()); name == t[..D.NameLen(t)] && Rest() == t[D.NameLen(t)..]
    {
      var p: nat := pos;
      ghost var t := Rest();
      while p < |text| && D.IsNameChar(text[p])
        invariant pos == old(pos) <= p <= |text| && D.NameLen(t) == p - pos + D.NameLen(text[p..])
        decreases |text| - p
      {
        NameLenNext(text[p..]);
        assert text[p..][1..] == text[p + 1..];
        p := p + 1;
      }
      assert D.NameLen(text[p..]) == 0;
      assert D.NameLen(t) == p - pos;
      name := text[pos..p];
      assert name == t[..p - pos] && t[p - pos..] == text[p..];
      pos := p;
      assert Rest() == t[D.NameLen(t)..] && name == t[..D.NameLen(t)];
    }

    method Number() returns (s: string)
      requires Valid() && pos < |text|
      modifies this`pos
      ensures Valid() && pos > old(pos)
      ensures var t := old(Rest()); s == t[..1 + D.DigitsLen(t[1..])] && Rest() == t[1 + D.DigitsLen(t[1..])..]
    {
      var p: nat := pos + 1;
      assert text[pos..][1..] == text[p..];
      while p < |text| && D.IsDigit(text[p])
        invariant pos < p <= |text| && 1 + D.DigitsLen(Rest()[1..]) == p - pos + D.DigitsLen(text[p..])
        decreases |text| - p
      {
        assert text[p..][1..] == text[p + 1..];
        p := p + 1;
      }
      s := text[pos..p];
      assert text[pos..][..p - pos] == s && text[pos..][p - pos..] == text[p..];
      pos := p;
    }

    /** What the specification makes of a term, and the cell that has been made. */
    ghost predicate Found(r: D.TermGot, x: XmlCell?, h: Forest, gs: seq<Forest>)
      requires Valid()
      reads this, Cells(h), CellsOf(gs)
    {
      match r
      case TermFail => x == null
      case TermGot(t, rest, queue) =>
        && x != null && Rep(x, h) && Trees(h) == [TermElem(t)] && Rest() == rest
        && Queued(exList, gs) && Values(gs) == queue && Cells(h) !! CellsOf(gs)
    }

    /** The value of a Fortran string, which is passed over. */
    method StringValue() returns (r: Option<string>)
      requires Valid() && pos < |text| && IsQuote(text[pos])
      modifies this`pos
      ensures Valid()
      ensures match D.ParseString(old(Rest()), [])
              case TermFail => r.None?
              case TermGot(t, rest, _) => r.Some? && t == D.Str(r.value) && Rest() == rest
    {
      var t := text[pos..];
      var p := EndstrF(t);
      if p.None? {
        return None;
      }
      ClosingBound(t[1..], t[0]);
      UndoubleCut(t[1..], t[0]);
      var s1 := t[..p.value + 1];
      assert s1[1..] == t[1..][..p.value];
      r := StrF2G(s1);
      assert text[pos..][p.value + 1..] == text[pos + p.value + 1..];
      pos := pos + p.value + 1;
    }

    method StringTerm(ghost fs: seq<Forest>) returns (x: XmlCell?, ghost h: Forest)
      requires Valid() && pos < |text| && IsQuote(text[pos]) && Queued(exList, fs)
      modifies this`pos
      ensures Valid() && Found(D.ParseString(old(Rest()), Values(fs)), x, h, fs)
      ensures forall k | k in Cells(h) :: fresh(k)
    {
      assert allocated(CellsOf(fs));
      var v := StringValue();
      if v.None? {
        return null, Nil;
      }
      x, h := Leaf("xev_string", "value", v.value);
    }

    /** A code term takes the next expression of the queue below it. */
    method ParseCode(ghost fs: seq<Forest>) returns (x: XmlCell?, ghost h: Forest, ghost gs: seq<Forest>)
      requires Valid() && pos < |text| && text[pos] == '`' && Queued(exList, fs)
      modifies this, CellsOf(fs)
      ensures Valid() && Found(D.ParseCode(old(Rest()), Values(fs)), x, h, gs)
      ensures forall k | k in Cells(h) + CellsOf(gs) :: k in CellsOf(fs) || fresh(k)
    {
      h, gs := Nil, fs;
      QueuedLength(exList, fs);
      if exList == [] {
        return null, Nil, fs;
      }
      assert allocated(CellsOf(fs));
      var p := StrchrF(text[pos + 1..], '`');
      assert text[pos..][1..] == text[pos + 1..];
      if p.None? {
        return null, Nil, fs;
      }
      assert text[pos..][p.value + 2..] == text[pos + p.value + 2..];
      pos := pos + p.value + 2;
      gs := fs[1..];
      assert Queued(exList[1..], gs) && allocated(CellsOf(gs));
      x, h := TakeExp(exList[0], fs[0]);
      exList := exList[1..];
    }

    /** A term that starts with the name just read. */
    method NamedTerm(name: string, ghost fs: seq<Forest>) returns (x: XmlCell?, ghost h: Forest, ghost gs: seq<Forest>)
      requires Valid() && Queued(exList, fs)
      modifies this, CellsOf(fs)
      ensures Valid() && Found(D.ParseNamed(name, old(Rest()), Values(fs)), x, h, gs)
      ensures forall k | k in Cells(h) + CellsOf(gs) :: k in CellsOf(fs) || fresh(k)
      decreases |text| - pos, 3
    {
      h, gs := Nil, fs;
      assert allocated(CellsOf(fs));
      if name == "true" || name == "false" {
        x, h := Leaf("xev_boolean", "value", name);
        return;
      }
      SkipBlanks();
      if pos < |text| && text[pos] == '(' {
        assert text[pos..][1..] == text[pos + 1..];
        pos := pos + 1;
        x, h, gs := CallTerm(name, fs);
      } else if pos < |text| && (text[pos] == ')' || text[pos] == ',' || text[pos] == ':') {
        x, h := Leaf("xev_literal", "name", name);
      } else {
        x := null;
      }
    }

    method CallTerm(name: string, ghost fs: seq<Forest>) returns (x: XmlCell?, ghost h: Forest, ghost gs: seq<Forest>)
      requires Valid() && Queued(exList, fs)
      modifies this, CellsOf(fs)
      ensures Valid()
      ensures match D.ParseArgs(old(Rest()), Values(fs), None, [], true)
              case ArgsFail => x == null
              case ArgsGot(args, rest, queue) => Found(D.TermGot(D.Call(name, args), rest, queue), x, h, gs)
      ensures forall k | k in Cells(h) + CellsOf(gs) :: k in CellsOf(fs) || fresh(k)
      decreases |text| - pos, 8
    {
      assert allocated(CellsOf(fs));
      var c, ok;
      ghost var hc;
      c, hc := Leaf("xev_func_call", "name", name);
      ok, h, gs := ParseArgs(c, true, hc, fs);
      HeadTree(hc);
      assert h.Node? ==> Trees(h) == [Elem(h.name, h.attrs, Trees(h.child))] + Trees(h.next);
      x := if ok then c else null;
    }

    method ParseTerm(ghost fs: seq<Forest>) returns (x: XmlCell?, ghost h: Forest, ghost gs: seq<Forest>)
      requires Valid() && Queued(exList, fs)
      modifies this, CellsOf(fs)
      ensures Valid() && Found(D.ParseTerm(old(Rest()), Values(fs)), x, h, gs)
      ensures forall k | k in Cells(h) + CellsOf(gs) :: k in CellsOf(fs) || fresh(k)
      decreases |text| - pos, 4
    {
      h, gs := Nil, fs;
      assert allocated(CellsOf(fs));
      if pos == |text| {
        return null, Nil, fs;
      }
      var c := text[pos];
      if D.IsDigit(c) || c == '-' {
        var s := Number();
        x, h := Leaf("xev_integer", "value", s);
      } else if c == '"' || c == '\'' {
        x, h := StringTerm(fs);
      } else if c == '`' {
        x, h, gs := ParseCode(fs);
      } else if !D.IsNameChar(c) {
        x := null;
      } else {
        NameLenNext(Rest());
        var name := Name();
        x, h, gs := NamedTerm(name, fs);
      }
    }

    method ParseArgs(x: XmlCell, call: bool, ghost hx: Forest, ghost fs: seq<Forest>)
      returns (ok: bool, ghost h: Forest, ghost gs: seq<Forest>)
      requires Valid() && Queued(exList, fs) && Rep(x, hx) && hx.child.Nil? && hx.next.Nil? && CellsOf(fs) !! Cells(hx)
      modifies this, x, CellsOf(fs)
      ensures Valid() && (ok ==> pos >= old(pos))
      ensures FoundArgs(D.ParseArgs(old(Rest()), Values(fs), None, [], call), ok, x, hx, h, gs)
      ensures forall k | k in Cells(h) + CellsOf(gs) :: k == x || k in CellsOf(fs) || fresh(k)
      decreases |text| - pos, 7
    {
      ok, h, gs := false, hx, fs;
      var fst: XmlCell? := null;
      var more := true;
      ghost var st := Args(hx, Nil, None, fs, []);
      ghost var goal := D.ParseArgs(Rest(), Values(fs), None, [], call);
      while more
        invariant Valid() && (more || ok ==> pos >= old(pos) && Pending(x, hx, fst, st))
        invariant goal == if more then D.ParseArgs(Rest(), Values(st.queue), st.fst, st.acc, call)
                          else if ok then D.ArgsGot(st.acc, Rest(), Values(st.queue)) else D.ArgsFail
        invariant forall k | k in ArgCells(st) :: k == x || k in CellsOf(fs) || fresh(k)
        decreases if more then 1 else 0, |text| - pos
      {
        ok, more, fst, st := NextArg(x, call, fst, hx, st);
      }
      h, gs := st.held, st.queue;
    }

    /** The cell `x` holds the arguments read so far, and `fst` may be the first half of a pair. */
    ghost predicate Pending(x: XmlCell, hx: Forest, fst: XmlCell?, st: Args)
      requires hx.Node?
      reads this`exList, ArgCells(st)
    {
      && Held(x, hx, st.held, st.acc) && Rep(fst, st.half) && Queued(exList, st.queue)
      && Trees(st.half) == (if st.fst.Some? then [TermElem(st.fst.value)] else [])
      && Cells(st.held) !! Cells(st.half) && Cells(st.held) !! CellsOf(st.queue) && Cells(st.half) !! CellsOf(st.queue)
    }

    method NextArg(x: XmlCell, call: bool, fst: XmlCell?, ghost hx: Forest, ghost st: Args)
      returns (ok: bool, more: bool, fst': XmlCell?, ghost st': Args)
      requires Valid() && hx.Node? && Pending(x, hx, fst, st)
      modifies this, ArgCells(st)
      ensures Valid() && (ok || more ==> pos > old(pos) && Pending(x, hx, fst', st'))
      ensures D.ParseArgs(old(Rest()), Values(st.queue), st.fst, st.acc, call) ==
              if more then D.ParseArgs(Rest(), Values(st'.queue), st'.fst, st'.acc, call)
              else if ok then D.ArgsGot(st'.acc, Rest(), Values(st'.queue)) else D.ArgsFail
      ensures forall k | k in ArgCells(st') :: k in ArgCells(st) || fresh(k)
      decreases |text| - pos, 6
    {
      ok, more, fst', st' := false, false, fst, st;
      assert allocated(ArgCells(st));
      ghost var t, ht, gs;
      var closed, tx;
      closed, tx, t, ht, gs := Argument(call, st.queue, st.fst, st.acc);
      st' := st.(queue := gs);
      if closed {
        ok := true;
        return;
      }
      if tx != null && pos < |text| {
        assert Pending(x, hx, fst, st');
        ok, more, fst', st' := Accept(x, call, fst, tx, hx, st', t, ht);
      }
    }

    /** Puts the argument `tx` below the cell, as the second half of a pair if there is a first one. */
    method KeepArg(x: XmlCell, fst: XmlCell?, tx: XmlCell, ghost hx: Forest, ghost st: Args, ghost t: D.Term,
                   ghost ht: Forest)
      returns (ghost st': Args)
      requires hx.Node? && Pending(x, hx, fst, st)
      requires Rep(tx, ht) && Trees(ht) == [TermElem(t)] && Cells(ht) !! ArgCells(st)
      modifies ArgCells(st)
      ensures Pending(x, hx, null, st') && st'.queue == st.queue && st'.fst == None
      ensures st'.acc == st.acc + [if st.fst.Some? then D.Pair(st.fst.value, t) else t]
      ensures forall k | k in ArgCells(st') :: k in ArgCells(st) || k in Cells(ht) || fresh(k)
    {
      assert allocated(ArgCells(st)) && allocated(Cells(ht)) && allocated(CellsOf(st.queue));
      ghost var h := Attach(x, fst, tx, st.held, st.half, ht, st.fst, t, st.acc);
      st' := Args(h, Nil, None, st.queue, st.acc + [if st.fst.Some? then D.Pair(st.fst.value, t) else t]);
    }

    /** Passes over one character and the blanks behind it. */
    method Advance()
      requires Valid() && pos < |text|
      modifies this`pos
      ensures Valid() && pos > old(pos) && Rest() == D.SkipBlanks(old(Rest())[1..])
    {
      assert text[pos..][1..] == text[pos + 1..];
      pos := pos + 1;
      SkipBlanks();
    }

    /** What becomes of the argument `tx`, depending on the character behind it. */
    method Accept(x: XmlCell, call: bool, fst: XmlCell?, tx: XmlCell, ghost hx: Forest, ghost st: Args,
                  ghost t: D.Term, ghost ht: Forest)
      returns (ok: bool, more: bool, fst': XmlCell?, ghost st': Args)
      requires Valid() && hx.Node? && Pending(x, hx, fst, st) && pos < |text|
      requires Rep(tx, ht) && Trees(ht) == [TermElem(t)] && Cells(ht) !! ArgCells(st)
      modifies this`pos, ArgCells(st)
      ensures Valid() && pos >= old(pos) && (ok || more ==> Pending(x, hx, fst', st'))
      ensures D.ParseAfter(old(Rest()), Values(st.queue), st.fst, t, st.acc, call) ==
              if more then D.ParseArgs(Rest(), Values(st'.queue), st'.fst, st'.acc, call)
              else if ok then D.ArgsGot(st'.acc, Rest(), Values(st'.queue)) else D.ArgsFail
      ensures forall k | k in ArgCells(st') :: k in ArgCells(st) || k in Cells(ht) || fresh(k)
    {
      ok, more, fst', st' := false, false, fst, st;
      var c := text[pos];
      if c == ':' {
        if fst != null {
          return;
        }
        assert allocated(ArgCells(st)) && allocated(Cells(ht));
        fst', st' := tx, st.(fst := Some(t), half := ht);
        more := true;
        assert Pending(x, hx, fst', st') && allocated(ArgCells(st'));
        Advance();
        return;
      }
      st' := KeepArg(x, fst, tx, hx, st, t, ht);
      fst' := null;
      assert allocated(ArgCells(st'));
      if c == ')' {
        assert text[pos..][1..] == text[pos + 1..];
        pos := pos + 1;
        ok := true;
      } else if c == ',' {
        more := true;
        Advance();
      }
    }

    /** One argument with the blanks a call allows around it, or a call's closing parenthesis. */
    method Argument(call: bool, ghost fs: seq<Forest>, ghost ft: Option<D.Term>, ghost acc: seq<D.Term>)
      returns (closed: bool, tx: XmlCell?, ghost t: D.Term, ghost h: Forest, ghost gs: seq<Forest>)
      requires Valid() && Queued(exList, fs)
      modifies this, CellsOf(fs)
      ensures Valid() && (closed || tx != null ==> pos > old(pos))
      ensures closed ==> gs == fs && Queued(exList, gs)
      ensures tx != null ==> Rep(tx, h) && Trees(h) == [TermElem(t)] && Queued(exList, gs) && Cells(h) !! CellsOf(gs)
      ensures D.ParseArgs(old(Rest()), Values(fs), ft, acc, call) ==
              if closed then D.ArgsGot(acc, Rest(), Values(gs))
              else if tx == null then D.ArgsFail
              else D.ParseAfter(Rest(), Values(gs), ft, t, acc, call)
      ensures forall k | k in Cells(h) + CellsOf(gs) :: k in CellsOf(fs) || fresh(k)
      decreases |text| - pos, 5
    {
      closed, tx, t, h, gs := false, null, D.Boolean(true), Nil, fs;
      assert allocated(CellsOf(fs));
      if call {
        SkipBlanks();
        if pos < |text| && text[pos] == ')' {
          assert text[pos..][1..] == text[pos + 1..];
          pos := pos + 1;
          closed := true;
          return;
        }
      }
      ghost var r := D.ParseTerm(Rest(), Values(fs));
      tx, h, gs := ParseTerm(fs);
      if tx != null {
        t := r.term;
        assert allocated(Cells(h)) && allocated(CellsOf(gs));
        if call {
          SkipBlanks();
        }
      }
    }

    ghost predicate FoundArgs(r: D.ArgsGot, ok: bool, x: XmlCell, hx: Forest, h: Forest, gs: seq<Forest>)
      requires Valid() && hx.Node?
      reads this, Cells(h), CellsOf(gs)
    {
      match r
      case ArgsFail => !ok
      case ArgsGot(xs, rest, queue) =>
        && ok && h.Node? && h == hx.(child := h.child) && Rep(x, h) && Trees(h.child) == TermElems(xs) && Rest() == rest
        && Queued(exList, gs) && Values(gs) == queue && Cells(h) !! CellsOf(gs)
    }

    /** The name of a clause; braces stand for begin and end. */
    method ClauseName() returns (name: string)
      requires Valid()
      modifies this`pos
      ensures Valid() && pos >= old(pos)
      ensures var t := old(Rest());
              if t != "" && (t[0] == '{' || t[0] == '}')
              then name == (if t[0] == '{' then "begin" else "end") && Rest() == t[1..]
              else name == t[..D.NameLen(t)] && Rest() == t[D.NameLen(t)..]
    {
      if pos < |text| && (text[pos] == '{' || text[pos] == '}') {
        name := if text[pos] == '{' then "begin" else "end";
        assert text[pos..][1..] == text[pos + 1..];
        pos := pos + 1;
      } else {
        name := Name();
      }
    }

    ghost predicate FoundClause(r: D.ClauseGot, x: XmlCell?, h: Forest, gs: seq<Forest>)
      requires Valid()
      reads this, Cells(h), CellsOf(gs)
    {
      match r
      case ClauseFail => x == null
      case ClauseGot(c, rest, queue) =>
        && x != null && Rep(x, h) && Trees(h) == [ClauseElem(c)] && Rest() == rest
        && Queued(exList, gs) && Values(gs) == queue && Cells(h) !! CellsOf(gs)
    }

    /** A clause of that name, with its arguments if it has any. */
    method ClauseArgs(name: string, ghost fs: seq<Forest>) returns (x: XmlCell?, ghost h: Forest, ghost gs: seq<Forest>)
      requires Valid() && Queued(exList, fs)
      modifies this, CellsOf(fs)
      ensures Valid() && FoundClause(D.ParseClauseArgs(name, old(Rest()), Values(fs)), x, h, gs)
      ensures forall k | k in Cells(h) + CellsOf(gs) :: k in CellsOf(fs) || fresh(k)
    {
      gs := fs;
      assert allocated(CellsOf(fs));
      var s;
      ghost var hc;
      s, hc := Leaf("xev_clause", "name", name);
      h := hc;
      x := s;
      HeadTree(hc);
      if pos < |text| && text[pos] == '(' {
        assert text[pos..][1..] == text[pos + 1..];
        pos := pos + 1;
        var ok;
        ok, h, gs := ParseArgs(s, false, hc, fs);
        assert h.Node? ==> Trees(h) == [Elem(h.name, h.attrs, Trees(h.child))] + Trees(h.next);
        x := if ok then s else null;
      }
    }

    method ParseClause(ghost fs: seq<Forest>) returns (x: XmlCell?, ghost h: Forest, ghost gs: seq<Forest>)
      requires Valid() && Queued(exList, fs)
      modifies this, CellsOf(fs)
      ensures Valid() && FoundClause(D.ParseClause(old(Rest()), Values(fs)), x, h, gs)
      ensures forall k | k in Cells(h) + CellsOf(gs) :: k in CellsOf(fs) || fresh(k)
    {
      assert allocated(CellsOf(fs));
      var name := ClauseName();
      if pos < |text| && !IsBlank(text[pos]) && text[pos] != '(' {
        return null, Nil, fs;
      }
      SkipBlanks();
      x, h, gs := ClauseArgs(name, fs);
    }

    /** Passes over the blanks and the ampersand ahead of a clause. */
    method ClauseStart(ghost queue: seq<D.Exp>, ghost acc: seq<D.Clause>) returns (done: bool)
      requires Valid()
      modifies this`pos
      ensures Valid() && pos >= old(pos)
      ensures !done ==> pos > old(pos) || (Rest() != "" && !IsBlank(Rest()[0]))
      ensures D.ParsePragma(old(Rest()), queue, acc) ==
              if done then D.PragmaGot(acc, queue) else
                match D.ParseClause(Rest(), queue)
                case ClauseFail => D.PragmaFail
                case ClauseGot(c, rest, queue') => D.ParsePragma(rest, queue', acc + [c])
    {
      D.SkippedStart(Rest());
      SkipBlanks();
      done := pos == |text| || text[pos] == '!';
      if !done && text[pos] == '&' {
        assert text[pos..][1..] == text[pos + 1..];
        pos := pos + 1;
      }
    }

    /** The next clause, unless the text is at its end or at a comment. */
    method NextClause(ghost fs: seq<Forest>, ghost acc: seq<D.Clause>)
      returns (done: bool, x: XmlCell?, ghost c: D.Clause, ghost h: Forest, ghost gs: seq<Forest>)
      requires Valid() && Queued(exList, fs)
      modifies this, CellsOf(fs)
      ensures Valid() && (x != null ==> pos > old(pos))
      ensures done ==> gs == fs && Queued(exList, gs)
      ensures x != null ==> Rep(x, h) && Trees(h) == [ClauseElem(c)] && Queued(exList, gs) && Cells(h) !! CellsOf(gs)
      ensures D.ParsePragma(old(Rest()), Values(fs), acc) ==
              if done then D.PragmaGot(acc, Values(gs))
              else if x == null then D.PragmaFail
              else D.ParsePragma(Rest(), Values(gs), acc + [c])
      ensures forall k | k in Cells(h) + CellsOf(gs) :: k in CellsOf(fs) || fresh(k)
    {
      done, x, c, h, gs := false, null, D.Clause("", []), Nil, fs;
      assert allocated(CellsOf(fs));
      done := ClauseStart(Values(fs), acc);
      if done {
        return;
      }
      assert allocated(CellsOf(fs));
      ghost var r := D.ParseClause(Rest(), Values(fs));
      x, h, gs := ParseClause(fs);
      if x != null {
        c := r.clause;
      }
    }

    /** The clauses, each appended to those before. */
    method XevParsePragma(ghost fs: seq<Forest>)
      returns (ok: bool, res: XmlCell?, ghost h: Forest, ghost gs: seq<Forest>)
      requires Valid() && Queued(exList, fs)
      modifies this, CellsOf(fs)
      ensures Valid()
      ensures match D.ParsePragma(old(Rest()), Values(fs), [])
              case PragmaFail => !ok
              case PragmaGot(cs, queue) => ok && HoldsClauses(res, h, gs, cs) && Values(gs) == queue
      ensures forall k | k in Cells(h) + CellsOf(gs) :: k in CellsOf(fs) || fresh(k)
    {
      ok, res, h, gs := true, null, Nil, fs;
      var more := true;
      ghost var acc := [];
      ghost var goal := D.ParsePragma(Rest(), Values(fs), []);
      while more
        invariant Valid() && (ok ==> HoldsClauses(res, h, gs, acc)) && (more ==> ok)
        invariant goal == if more then D.ParsePragma(Rest(), Values(gs), acc)
                          else if ok then D.PragmaGot(acc, Values(gs)) else D.PragmaFail
        invariant forall k | k in Cells(h) + CellsOf(gs) :: k in CellsOf(fs) || fresh(k)
        decreases if more then 1 else 0, |text| - pos
      {
        ok, more, res, h, gs, acc := AppendClause(res, h, gs, acc);
      }
    }

    ghost predicate HoldsClauses(x: XmlCell?, h: Forest, gs: seq<Forest>, cs: seq<D.Clause>)
      reads this`exList, Cells(h), CellsOf(gs)
    {
      Rep(x, h) && Trees(h) == ClauseElems(cs) && Queued(exList, gs) && Cells(h) !! CellsOf(gs)
    }

    method AppendClause(res: XmlCell?, ghost h: Forest, ghost fs: seq<Forest>, ghost acc: seq<D.Clause>)
      returns (ok: bool, more: bool, res': XmlCell?, ghost h': Forest, ghost gs: seq<Forest>, ghost acc': seq<D.Clause>)
      requires Valid() && HoldsClauses(res, h, fs, acc)
      modifies this, Cells(h), CellsOf(fs)
      ensures Valid() && (more ==> ok && pos > old(pos)) && (ok ==> HoldsClauses(res', h', gs, acc'))
      ensures D.ParsePragma(old(Rest()), Values(fs), acc) ==
              if more then D.ParsePragma(Rest(), Values(gs), acc')
              else if ok then D.PragmaGot(acc', Values(gs)) else D.PragmaFail
      ensures forall k | k in Cells(h') + CellsOf(gs) :: k in Cells(h) || k in CellsOf(fs) || fresh(k)
    {
      res', h', acc' := res, h, acc;
      assert allocated(Cells(h)) && allocated(CellsOf(fs));
      var done, x;
      ghost var c, hx;
      done, x, c, hx, gs := NextClause(fs, acc);
      ok, more := done || x != null, x != null && !done;
      if more {
        assert Rep(res, h) && allocated(CellsOf(gs)) && allocated(Cells(hx));
        ClauseElemsSnoc(acc, c);
        ConcatFacts(h, hx);
        if res == null {
          res' := x;
        } else {
          XmlAppend(res, x, h, hx);
        }
        h', acc' := Concat(h, hx), acc + [c];
      }
    }
  }
}
