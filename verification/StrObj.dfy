/** The string table: equal strings get the same handle, whatever has been asked for before. */
module StrObj {
  import opened Wrappers

  const HASH_SIZE := 1024

  /** The value of a byte as the signed character it is read as. */
  function Signed(c: char): int {
    var v := c as int % 256;
    if v < 128 then v else v - 256
  }

  /** Sums the characters with coefficients 123, 125, ..., keeping the low ten bits. */
  function HashFrom(res: nat, coef: nat, s: string): (r: nat)
    requires res < HASH_SIZE
    ensures r < HASH_SIZE
    decreases |s|
  {
    if s == "" then res else HashFrom((res + Signed(s[0]) * coef) % HASH_SIZE, coef + 2, s[1..])
  }

  function Hash(s: string): (r: nat)
    ensures r < HASH_SIZE
  {
    HashFrom(0, 123, s)
  }

  /** Each character times 123, 125 and so on. */
  function WeightedSum(s: string): int {
    if s == "" then 0
    else
      var v := s[|s| - 1] as int % 256;
      WeightedSum(s[..|s| - 1]) + (if v < 128 then v else v - 256) * (123 + 2 * (|s| - 1))
  }

  lemma {:induction false} HashLast(res: nat, coef: nat, s: string)
    requires res < HASH_SIZE && s != ""
    ensures HashFrom(res, coef, s) ==
            (HashFrom(res, coef, s[..|s| - 1]) + Signed(s[|s| - 1]) * (coef + 2 * (|s| - 1))) % HASH_SIZE
    decreases |s|
  {
    if |s| > 1 {
      var next := (res + Signed(s[0]) * coef) % HASH_SIZE;
      HashLast(next, coef + 2, s[1..]);
      assert s[1..][..|s| - 2] == s[..|s| - 1][1..] && s[1..][|s| - 2] == s[|s| - 1];
      assert coef + 2 + 2 * (|s| - 2) == coef + 2 * (|s| - 1);
      assert HashFrom(res, coef, s[..|s| - 1]) == HashFrom(next, coef + 2, s[..|s| - 1][1..]);
    }
  }

  /** Keeping the low ten bits at every step gives the weighted sum modulo 1024; bytes from 128 on
      count as negative. */
  lemma {:induction false} HashSum(s: string)
    ensures Hash(s) == WeightedSum(s) % 1024
    decreases |s|
  {
    if s != "" {
      var n := |s| - 1;
      HashLast(0, 123, s);
      HashSum(s[..n]);
      ModSum(WeightedSum(s[..n]), Signed(s[n]) * (123 + 2 * n));
    }
  }

  lemma {:induction false} ModSum(a: int, b: int)
    ensures (a % 1024 + b) % 1024 == (a + b) % 1024
  {
    var k := a / 1024;
    assert a == 1024 * k + a % 1024;
    ModShift(a % 1024 + b, k);
  }

  lemma {:induction false} ModShift(x: int, k: int)
    ensures (x + 1024 * k) % 1024 == x % 1024
  {
  }

  method StrobjHash(s: string) returns (res: nat)
    ensures res == Hash(s) && res < HASH_SIZE
  {
    res := 0;
    var coef, i: nat := 123, 0;
    assert s[0..] == s;
    while i < |s|
      invariant i <= |s| && res < HASH_SIZE && coef == 123 + 2 * i && HashFrom(res, coef, s[i..]) == Hash(s)
    {
      assert s[i..][1..] == s[i + 1..] && s[i..][0] == s[i];
      res := (res + Signed(s[i]) * coef) % HASH_SIZE;
      coef := coef + 2;
      i := i + 1;
    }
  }

  class StrobjCell {
    const s: string
    var next: StrobjCell?

    constructor (s: string)
      ensures this.s == s && next == null
    {
      this.s, next := s, null;
    }
  }

  function Behind(l: seq<StrobjCell>, i: nat): StrobjCell? {
    if i + 1 < |l| then l[i + 1] else null
  }

  /** From `x` on the links lead through the cells `l`, one after the other, to the end. */
  ghost predicate Linked(x: StrobjCell?, l: seq<StrobjCell>)
    reads l
  {
    && x == (if l == [] then null else l[0])
    && forall i | 0 <= i < |l| :: l[i].next == Behind(l, i)
  }

  ghost predicate Distinct(l: seq<StrobjCell>) {
    forall i, j :: 0 <= i < j < |l| ==> l[i] != l[j]
  }

  /** The cells of a chain are known and hold strings of its bucket, each its own. */
  ghost predicate Filed(l: seq<StrobjCell>, b: nat, cells: set<StrobjCell>, handles: map<string, StrobjCell>) {
    && Distinct(l)
    && forall c | c in l :: c in cells && Hash(c.s) == b && c.s in handles && handles[c.s] == c
  }

  ghost predicate Got(hs: seq<StrobjCell>, ss: seq<string>, handles: map<string, StrobjCell>) {
    |hs| == |ss| && forall i | 0 <= i < |ss| :: ss[i] in handles && hs[i] == handles[ss[i]]
  }

  lemma {:induction false} GotMore(hs: seq<StrobjCell>, ss: seq<string>, handles: map<string, StrobjCell>,
                                   h: StrobjCell)
    requires ss != [] && Got(hs, ss[..|ss| - 1], handles)
    requires ss[|ss| - 1] in handles ==> handles[ss[|ss| - 1]] == h
    ensures Got(hs + [h], ss, handles[ss[|ss| - 1] := h])
  {
    var n := |ss| - 1;
    forall i | 0 <= i < |ss|
      ensures ss[i] in handles[ss[n] := h] && (hs + [h])[i] == handles[ss[n] := h][ss[i]]
    {
      if i < n {
        assert ss[..n][i] == ss[i];
      }
    }
  }

  class StringTable {
    var table: array?<StrobjCell?>
    ghost var chains: seq<seq<StrobjCell>>
    /** The handle of every string asked for so far. */
    ghost var handles: map<string, StrobjCell>
    ghost var cells: set<StrobjCell>

    constructor ()
      ensures Valid() && handles == map[]
    {
      table, handles, cells, chains := null, map[], {}, seq(HASH_SIZE, _ => []);
    }

    /** Every chain ends, and its cells hold strings of its bucket, each its own. */
    ghost predicate Valid()
      reads this, if table == null then {} else {table}, cells
    {
      && |chains| == HASH_SIZE && (table != null ==> table.Length == HASH_SIZE)
      && (forall b | 0 <= b < HASH_SIZE :: Filed(chains[b], b, cells, handles))
      && (forall s | s in handles :: handles[s].s == s && handles[s] in chains[Hash(s)])
      && (table == null ==> forall b | 0 <= b < HASH_SIZE :: chains[b] == [])
      && (table != null ==> forall b | 0 <= b < HASH_SIZE :: Linked(table[b], chains[b]))
    }

    /** Handles are equal exactly when the strings are. */
    lemma {:induction false} Canonical(s: string, t: string)
      requires Valid() && s in handles && t in handles
      ensures handles[s] == handles[t] <==> s == t
    {
    }

    method Init()
      requires Valid()
      modifies this
      ensures Valid() && table != null && handles == old(handles) && (old(table) == null ==> fresh(table)) &&
              (old(table) != null ==> table == old(table))
      ensures cells == old(cells) && chains == old(chains)
    {
      if table == null {
        table := new StrobjCell?[HASH_SIZE](_ => null);
      }
    }

    /** Looks through the chain of `s`, whose first cell holds another string, for the cell before its
        own, or else for the last one. */
    method Search(s: string, p: nat) returns (cell: StrobjCell)
      requires Valid() && p == Hash(s) && table != null && table[p] != null && table[p].s != s
      ensures cell in chains[p]
      ensures cell.next == null ==> s !in handles && cell == chains[p][|chains[p]| - 1]
      ensures cell.next != null ==> cell.next.s == s
    {
      cell := table[p];
      ghost var k, l := 0, chains[p];
      assert Linked(table[p], l);
      while cell.next != null && cell.next.s != s
        invariant Linked(table[p], l) && k < |l| && cell == l[k]
        invariant forall i :: 0 <= i <= k ==> l[i].s != s
        decreases |l| - k
      {
        assert l[k].next != null;
        cell := cell.next;
        k := k + 1;
      }
      assert l[k] == cell && cell.next == Behind(l, k);
    }

    /** The handle of `s`; all handles given before stay as they are. */
    method GetStrobj(s: string) returns (cell: StrobjCell)
      requires Valid()
      modifies this, if table == null then {} else {table}, cells
      ensures Valid() && cell.s == s && handles == old(handles)[s := cell]
      ensures s in old(handles) ==> cell == old(handles)[s] && handles == old(handles)
      ensures old(cells) <= cells && fresh(cells - old(cells)) && table != null && (table == old(table) || fresh(table))
    {
      Init();
      var p := StrobjHash(s);
      cell := Find(s, p);
    }

    method Find(s: string, p: nat) returns (cell: StrobjCell)
      requires Valid() && table != null && p == Hash(s)
      modifies this, table, cells
      ensures Valid() && cell.s == s && handles == old(handles)[s := cell]
      ensures s in old(handles) ==> cell == old(handles)[s] && handles == old(handles)
      ensures old(cells) <= cells && fresh(cells - old(cells)) && table == old(table)
    {
      assert Linked(table[p], chains[p]);
      if table[p] == null {
        assert chains[p] == [] && s !in handles;
        cell := NewFirst(s, p);
      } else if table[p].s == s {
        cell := table[p];
        assert cell in chains[p] && Filed(chains[p], p, cells, handles);
      } else {
        cell := FindBehind(s, p);
      }
    }

    /** As `Find`, where the first cell of the chain holds another string. */
    method FindBehind(s: string, p: nat) returns (cell: StrobjCell)
      requires Valid() && table != null && p == Hash(s) && table[p] != null && table[p].s != s
      modifies this, table, cells
      ensures Valid() && cell.s == s && handles == old(handles)[s := cell]
      ensures s in old(handles) ==> cell == old(handles)[s] && handles == old(handles)
      ensures old(cells) <= cells && fresh(cells - old(cells)) && table == old(table)
    {
      var before := Search(s, p);
      if before.next == null {
        cell := NewLast(s, p, before);
      } else {
        cell := Next(s, p, before);
      }
    }

    /** A new cell as the only one of its chain. */
    method NewFirst(s: string, p: nat) returns (cell: StrobjCell)
      requires Valid() && table != null && p == Hash(s) && s !in handles && chains[p] == []
      modifies this, table
      ensures Valid() && cell.s == s && handles == old(handles)[s := cell]
      ensures cells == old(cells) + {cell} && fresh(cell) && table == old(table)
    {
      cell := new StrobjCell(s);
      AddFirst(s, p, cell);
    }

    /** A new cell at the end of its chain, which has none for the string yet. */
    method NewLast(s: string, p: nat, last: StrobjCell) returns (cell: StrobjCell)
      requires Valid() && table != null && p == Hash(s) && chains[p] != [] && last == chains[p][|chains[p]| - 1]
      requires s !in handles
      modifies this, last
      ensures Valid() && cell.s == s && handles == old(handles)[s := cell]
      ensures cells == old(cells) + {cell} && last in old(cells) && fresh(cell) && table == old(table)
    {
      assert Filed(chains[p], p, cells, handles) && last in chains[p];
      cell := new StrobjCell(s);
      AddLast(s, p, cell, last);
    }

    /** The cell behind another one of its chain is the handle of its string. */
    method Next(s: string, p: nat, before: StrobjCell) returns (cell: StrobjCell)
      requires Valid() && p < HASH_SIZE && table != null && before in chains[p] && before.next != null &&
               before.next.s == s
      ensures cell == before.next && cell.s == s && s in handles && handles[s] == cell && handles == handles[s := cell]
    {
      ghost var l := chains[p];
      assert Linked(table[p], l) && Filed(l, p, cells, handles);
      ghost var k :| 0 <= k < |l| && l[k] == before;
      cell := before.next;
      assert cell == Behind(l, k) && cell in l;
    }

    ghost predicate Addable(s: string, p: nat, cell: StrobjCell)
      reads this, cell
    {
      table != null && p == Hash(s) && s !in handles && cell.s == s && cell.next == null && cell !in cells
    }

    method AddFirst(s: string, p: nat, cell: StrobjCell)
      requires Valid() && Addable(s, p, cell) && chains[p] == []
      modifies this, table
      ensures Valid() && handles == old(handles)[s := cell] && table == old(table) && cells == old(cells) + {cell}
    {
      table[p] := cell;
      assert chains[p] + [cell] == [cell];
      forall b | 0 <= b < HASH_SIZE && b != p
        ensures Linked(table[b], chains[b])
      {
      }
      File(s, p, cell);
    }

    /** Hangs a new cell at the end of its chain. */
    method AddLast(s: string, p: nat, cell: StrobjCell, last: StrobjCell)
      requires Valid() && Addable(s, p, cell) && chains[p] != [] && last == chains[p][|chains[p]| - 1]
      modifies this, last
      ensures Valid() && handles == old(handles)[s := cell] && table == old(table) && cells == old(cells) + {cell}
      ensures last.next == cell && last in chains[p]
    {
      ghost var l := chains[p];
      assert Linked(table[p], l) && last in l && Filed(l, p, cells, handles);
      forall b | 0 <= b < HASH_SIZE && b != p
        ensures last !in chains[b] && Linked(table[b], chains[b])
      {
        assert Filed(chains[b], b, cells, handles);
      }
      last.next := cell;
      assert Linked(table[p], l + [cell]);
      forall b | 0 <= b < HASH_SIZE && b != p
        ensures Linked(table[b], chains[b])
      {
      }
      File(s, p, cell);
    }

    /** Takes a cell that hangs in its chain into the books. */
    ghost method File(s: string, p: nat, cell: StrobjCell)
      requires |chains| == HASH_SIZE && table != null && table.Length == HASH_SIZE && p == Hash(s) && cell.s == s &&
               cell !in cells
      requires s !in handles && Linked(table[p], chains[p] + [cell])
      requires forall b | 0 <= b < HASH_SIZE && b != p :: Linked(table[b], chains[b])
      requires forall b | 0 <= b < HASH_SIZE :: Filed(chains[b], b, cells, handles)
      requires forall t | t in handles :: handles[t].s == t && handles[t] in chains[Hash(t)]
      modifies this`chains, this`handles, this`cells
      ensures Valid() && handles == old(handles)[s := cell] && cells == old(cells) + {cell}
    {
      chains := chains[p := chains[p] + [cell]];
      handles := handles[s := cell];
      cells := cells + {cell};
      assert cell in chains[p];
    }

    /** Strings asked for one after the other: in the end each handle is still the one of its string. */
    method GetEach(ss: seq<string>) returns (hs: seq<StrobjCell>)
      requires Valid()
      modifies this, if table == null then {} else {table}, cells
      ensures Valid() && Got(hs, ss, handles) && table != null && (table == old(table) || fresh(table))
      ensures old(cells) <= cells && fresh(cells - old(cells))
    {
      if ss == [] {
        Init();
        return [];
      }
      var n := |ss| - 1;
      hs := GetEach(ss[..n]);
      ghost var before := handles;
      var h := GetStrobj(ss[n]);
      GotMore(hs, ss, before, h);
      hs := hs + [h];
    }

    /** Two of the handles are the same exactly when the strings are. */
    method GetAll(ss: seq<string>) returns (hs: seq<StrobjCell>)
      requires Valid()
      modifies this, if table == null then {} else {table}, cells
      ensures Valid() && |hs| == |ss| && forall i | 0 <= i < |ss| :: hs[i].s == ss[i]
      ensures forall i, j | 0 <= i < |ss| && 0 <= j < |ss| :: hs[i] == hs[j] <==> ss[i] == ss[j]
    {
      hs := GetEach(ss);
    }
  }
}
