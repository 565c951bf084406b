/** The allocator of the element heap (the same for its cells, nodes and attributes): blocks that
    double in size, a free list through the cells, and marking and collecting by a flag. */
module CellPool {
  import opened Wrappers

  class PoolCell {
    var next: PoolCell?
    var gcflag: int
  }

  const FREE := -1
  const KIND_INIT := 0
  const INIT_ALLOC_SIZE := 10240

  /** `x` leads through exactly the cells `s` to the end. */
  ghost predicate Chain(x: PoolCell?, s: seq<PoolCell>)
    reads (set c | c in s)`next
  {
    if s == [] then x == null else x == s[0] && Chain(s[0].next, s[1..])
  }

  ghost predicate Distinct(s: seq<PoolCell>) {
    forall i, j :: 0 <= i < j < |s| ==> s[i] != s[j]
  }

  /** A list that ends visits no cell twice. */
  lemma {:induction false} ChainAt(x: PoolCell?, s: seq<PoolCell>, k: nat)
    requires Chain(x, s) && k <= |s|
    ensures Chain(if k == 0 then x else s[k - 1].next, s[k..])
  {
    if k > 0 {
      ChainAt(s[0].next, s[1..], k - 1);
      assert s[1..][k - 1..] == s[k..];
      if k > 1 {
        assert s[1..][k - 2] == s[k - 1];
      }
    }
  }

  lemma {:induction false} ChainUnique(x: PoolCell?, s: seq<PoolCell>, t: seq<PoolCell>)
    requires Chain(x, s) && Chain(x, t)
    ensures s == t
    decreases |s|
  {
    if s != [] {
      ChainUnique(s[0].next, s[1..], t[1..]);
      assert s == [s[0]] + s[1..] && t == [t[0]] + t[1..];
    }
  }

  lemma {:induction false} ChainAcyclic(x: PoolCell?, s: seq<PoolCell>)
    requires Chain(x, s)
    ensures Distinct(s)
  {
    forall i, j | 0 <= i < j < |s|
      ensures s[i] != s[j]
    {
      if s[i] == s[j] {
        ChainAt(x, s, i + 1);
        ChainAt(x, s, j + 1);
        ChainUnique(s[i].next, s[i + 1..], s[j + 1..]);
      }
    }
  }

  /** `t` is the end of `s`. */
  ghost predicate EndsWith<T>(s: seq<T>, t: seq<T>) {
    |s| >= |t| && s[|s| - |t|..] == t
  }

  lemma EndsWithSelf<T>(s: seq<T>)
    ensures EndsWith(s, s)
  {
  }

  lemma EndsWithCons<T>(c: T, s: seq<T>, t: seq<T>)
    requires EndsWith(s, t)
    ensures EndsWith([c] + s, t)
  {
    assert ([c] + s)[|s| + 1 - |t|..] == s[|s| - |t|..];
  }

  ghost function AllOf(blocks: seq<seq<PoolCell>>): set<PoolCell> {
    if blocks == [] then {} else (set c | c in blocks[0]) + AllOf(blocks[1..])
  }

  lemma {:induction false} AllOfBlock(blocks: seq<seq<PoolCell>>, k: nat)
    requires k < |blocks|
    ensures AllOf(blocks[k..]) == (set c | c in blocks[k]) + AllOf(blocks[k + 1..])
  {
    assert blocks[k..][0] == blocks[k] && blocks[k..][1..] == blocks[k + 1..];
  }

  class Pool {
    /** Newest block first. */
    var alloc: seq<seq<PoolCell>>
    var freelist: PoolCell?
    /** The cells on the free list, in order. */
    ghost var free: seq<PoolCell>
    /** All cells of all blocks. */
    ghost var cells: set<PoolCell>

    constructor ()
      ensures Valid() && alloc == [] && free == []
    {
      alloc, freelist, free, cells := [], null, [], {};
    }

    ghost predicate FreeOk()
      reads this, (set c | c in free)`next
    {
      Chain(freelist, free) && Distinct(free)
    }

    /** The free list is a proper list of cells flagged free, and no other cell carries that flag. */
    ghost predicate Valid()
      reads this, free, cells
    {
      && FreeOk() && cells == AllOf(alloc) && (alloc != [] ==> alloc[0] != [])
      && (forall c | c in free :: c in cells && c.gcflag == FREE)
      && (forall c | c in cells && c !in free :: c.gcflag != FREE)
    }

    ghost predicate Live(c: PoolCell)
      reads this
    {
      c in cells && c !in free
    }

    ghost function LiveCells(): set<PoolCell>
      reads this
    {
      cells - set c | c in free
    }

    /** Puts a cell on the free list. */
    method Push(c: PoolCell)
      requires FreeOk() && c !in free
      modifies this`freelist, this`free, c
      ensures FreeOk() && free == [c] + old(free) && freelist == c && c.gcflag == FREE
    {
      c.gcflag := FREE;
      c.next := freelist;
      freelist := c;
      free := [c] + free;
      assert free[1..] == old(free);
    }

    /** Frees a live cell. */
    method FreeCell(c: PoolCell)
      requires Valid() && Live(c)
      modifies this`freelist, this`free, c
      ensures Valid() && free == [c] + old(free) && LiveCells() == old(LiveCells()) - {c} && c.gcflag == -1
      ensures forall d | d in LiveCells() :: d.gcflag == old(d.gcflag)
    {
      Push(c);
      assert forall d :: d in free <==> d == c || d in old(free);
    }

    /** Adds a block, twice the size of the last, and puts its cells on the free list in order. */
    method Grow() returns (block: seq<PoolCell>)
      requires Valid() && freelist == null
      modifies this
      ensures Valid() && alloc == [block] + old(alloc) && free == block && fresh(set c | c in block)
      ensures cells == old(cells) + set c | c in block
      ensures |block| == if old(alloc) == [] then 10240 else 2 * |old(alloc)[0]|
      ensures forall c | c in old(cells) :: c.gcflag == old(c.gcflag)
    {
      assert free == [];
      var size := if alloc == [] then INIT_ALLOC_SIZE else 2 * |alloc[0]|;
      block := NewBlock(size);
      var i := size;
      while i > 0
        invariant 0 <= i <= size && FreeOk() && free == block[i..] && alloc == old(alloc) && cells == old(cells)
        invariant forall c | c in free :: c.gcflag == FREE
        invariant forall c | c in old(cells) :: c.gcflag == old(c.gcflag)
      {
        i := i - 1;
        assert block[i] !in block[i + 1..];
        assert block[i..] == [block[i]] + block[i + 1..];
        Push(block[i]);
      }
      assert block[0..] == block;
      alloc := [block] + alloc;
      cells := cells + set c | c in block;
      assert alloc[1..] == old(alloc) && alloc[0] == block;
    }

    static method NewBlock(size: nat) returns (block: seq<PoolCell>)
      ensures |block| == size && Distinct(block) && fresh(set c | c in block)
    {
      block := [];
      while |block| < size
        invariant |block| <= size && Distinct(block) && fresh(set c | c in block)
      {
        var c := new PoolCell;
        assert c !in block;
        block := block + [c];
      }
    }

    /** Hands out the first free cell, after adding a block if there is none. */
    method GetCell() returns (c: PoolCell)
      requires Valid()
      modifies this, if free == [] then {} else {free[0]}
      ensures Valid() && Live(c) && c.gcflag == 0
      ensures LiveCells() == old(LiveCells()) + {c} && c !in old(LiveCells())
      ensures forall d | d in old(LiveCells()) :: d.gcflag == old(d.gcflag)
      ensures old(free) != [] ==> alloc == old(alloc) && [c] + free == old(free)
      ensures old(free) == [] ==> alloc != [] && alloc[1..] == old(alloc) && [c] + free == alloc[0] &&
                                  fresh(set d | d in alloc[0])
    {
      if freelist == null {
        var block := Grow();
        assert alloc[1..] == old(alloc);
      }
      c := freelist;
      freelist := c.next;
      free := free[1..];
      c.gcflag := KIND_INIT;
    }

    // ----- marking and collecting

    static method InitBlock(block: seq<PoolCell>)
      modifies (set c | c in block)`gcflag
      ensures forall c | c in block :: c.gcflag == KIND_INIT
    {
      for i := 0 to |block|
        invariant forall j :: 0 <= j < i ==> block[j].gcflag == KIND_INIT
      {
        block[i].gcflag := KIND_INIT;
      }
    }

    method InitFlags()
      requires cells == AllOf(alloc)
      modifies cells`gcflag
      ensures forall c | c in cells :: c.gcflag == KIND_INIT
    {
      ghost var done := {};
      assert alloc[0..] == alloc;
      for k := 0 to |alloc|
        invariant cells == done + AllOf(alloc[k..])
        invariant forall c | c in done :: c.gcflag == KIND_INIT
      {
        AllOfBlock(alloc, k);
        InitBlock(alloc[k]);
        done := done + set c | c in alloc[k];
      }
    }

    /** Flags every cell in use as unmarked. */
    method XmlgcMark()
      requires Valid()
      modifies cells`gcflag
      ensures Valid()
      ensures forall c | c in cells :: c.gcflag == if c in free then -1 else 0
    {
      InitFlags();
      var c := freelist;
      ghost var k := 0;
      assert free[0..] == free;
      while c != null
        invariant k <= |free| && Chain(c, free[k..]) && FreeOk()
        invariant forall d | d in cells :: d.gcflag == if d in free[..k] then FREE else KIND_INIT
        decreases |free| - k
      {
        assert c == free[k] && free[k..][1..] == free[k + 1..] && free[..k + 1] == free[..k] + [c];
        c.gcflag := FREE;
        c := c.next;
        k := k + 1;
      }
      assert free[..k] == free;
    }

    /** From a free list `start` and flags `flags` on, the unmarked cells of `done` have been freed. */
    ghost predicate Swept(start: seq<PoolCell>, flags: map<PoolCell, int>, done: set<PoolCell>)
      reads this, free, cells
    {
      && Valid() && EndsWith(free, start) && flags.Keys == cells
      && (forall c | c in cells :: c in free <==> c in start || (c in done && flags[c] == KIND_INIT))
      && (forall c | c in cells && c !in free :: c.gcflag == flags[c])
    }

    /** Frees a cell if it is unmarked. */
    method CollectCell(c: PoolCell, ghost start: seq<PoolCell>, ghost flags: map<PoolCell, int>,
                       ghost done: set<PoolCell>)
      requires Swept(start, flags, done) && c in cells
      modifies this`freelist, this`free, c
      ensures Swept(start, flags, done + {c})
    {
      if c.gcflag == KIND_INIT {
        EndsWithCons(c, free, start);
        FreeCell(c);
      }
    }

    /** Frees the unmarked cells of a block. */
    method CollectBlock(block: seq<PoolCell>, ghost start: seq<PoolCell>, ghost flags: map<PoolCell, int>,
                        ghost done: set<PoolCell>)
      requires Swept(start, flags, done) && (set c | c in block) <= cells
      modifies this`freelist, this`free, set c | c in block
      ensures Swept(start, flags, done + set c | c in block)
    {
      ghost var now := done;
      for i := 0 to |block|
        invariant Swept(start, flags, now) && now == done + set c | c in block[..i]
      {
        assert block[i] in set c | c in block;
        assert block[..i + 1] == block[..i] + [block[i]];
        CollectCell(block[i], start, flags, now);
        now := now + {block[i]};
      }
      assert block[..|block|] == block;
    }

    /** Frees every unmarked cell, and no other: the free list then holds just these and those that
        were on it before, each once. */
    method XmlgcCollect()
      requires Valid()
      modifies this`freelist, this`free, cells
      ensures Valid() && |free| >= |old(free)| && free[|free| - |old(free)|..] == old(free)
      ensures forall c | c in cells :: c in free <==> c in old(free) || old(c.gcflag) == 0
      ensures cells == old(cells) && forall c | c in LiveCells() :: c.gcflag == old(c.gcflag)
    {
      EndsWithSelf(free);
      CollectBlocks(free, map c | c in cells :: c.gcflag);
    }

    method CollectBlocks(ghost start: seq<PoolCell>, ghost flags: map<PoolCell, int>)
      requires Swept(start, flags, {})
      modifies this`freelist, this`free, cells
      ensures Swept(start, flags, cells)
    {
      ghost var done := {};
      assert alloc[0..] == alloc;
      for k := 0 to |alloc|
        invariant Swept(start, flags, done) && cells == done + AllOf(alloc[k..])
      {
        AllOfBlock(alloc, k);
        CollectBlock(alloc[k], start, flags, done);
        done := done + set c | c in alloc[k];
      }
      assert done == cells;
    }

    /** Flags a cell in use, so that it survives the next collection. */
    method Keep(c: PoolCell, kind: int)
      requires Valid() && Live(c) && kind != FREE && kind != KIND_INIT
      modifies c`gcflag
      ensures Valid() && c.gcflag == kind
    {
      c.gcflag := kind;
    }

    // ----- whole runs

    /** The cells handed out so far do for the client what its own account says. */
    ghost predicate Serves(handed: seq<PoolCell>, s: Client)
      reads this, free, cells
    {
      && Valid() && |handed| == s.got && (forall h | h in s.flags :: h < s.got)
      && LiveCells() == (set h | h in s.flags :: handed[h])
      && (forall h | h in s.flags :: handed[h] in cells && handed[h].gcflag == s.flags[h])
      && (forall h, k | h in s.flags && k in s.flags && h != k :: handed[h] != handed[k])
    }

    method ServeGet(handed: seq<PoolCell>, ghost s: Client) returns (c: PoolCell)
      requires Serves(handed, s)
      modifies this, cells
      ensures Serves(handed + [c], StepOf(s, Get)) && fresh(cells - old(cells))
    {
      c := GetCell();
      ghost var t := StepOf(s, Get);
      ghost var after := handed + [c];
      assert forall h | h in s.flags :: after[h] == handed[h] && handed[h] in old(LiveCells());
      assert after[s.got] == c && forall h :: h in t.flags <==> h in s.flags || h == s.got;
      forall d | d in LiveCells()
        ensures d in set h | h in t.flags :: after[h]
      {
        if d != c {
          var h :| h in s.flags && handed[h] == d;
          assert after[h] == d && h in t.flags;
        } else {
          assert s.got in t.flags;
        }
      }
    }

    method ServeFree(handed: seq<PoolCell>, ghost s: Client, h: nat)
      requires Serves(handed, s) && h in s.flags
      modifies this, cells
      ensures Serves(handed, StepOf(s, Free(h))) && cells == old(cells)
    {
      assert handed[h] in LiveCells();
      FreeCell(handed[h]);
      ghost var t := StepOf(s, Free(h));
      assert forall k | k in t.flags :: k in s.flags && handed[k] in old(LiveCells()) && handed[k] != handed[h];
      assert (set k | k in t.flags :: handed[k]) == (set k | k in s.flags :: handed[k]) - {handed[h]};
    }

    method ServeMark(handed: seq<PoolCell>, ghost s: Client)
      requires Serves(handed, s)
      modifies cells
      ensures Serves(handed, StepOf(s, Mark)) && cells == old(cells)
    {
      XmlgcMark();
      ghost var t := StepOf(s, Mark);
      assert forall h | h in s.flags :: handed[h] in LiveCells();
      assert t.flags.Keys == s.flags.Keys;
      assert (set h | h in t.flags :: handed[h]) == (set h | h in s.flags :: handed[h]);
    }

    method ServeKeep(handed: seq<PoolCell>, ghost s: Client, h: nat, kind: int)
      requires Serves(handed, s) && Legal(s, Op.Keep(h, kind))
      modifies cells
      ensures Serves(handed, StepOf(s, Op.Keep(h, kind))) && cells == old(cells)
    {
      assert handed[h] in LiveCells();
      Keep(handed[h], kind);
      ghost var t := StepOf(s, Op.Keep(h, kind));
      assert t.flags.Keys == s.flags.Keys;
      assert (set k | k in t.flags :: handed[k]) == (set k | k in s.flags :: handed[k]);
    }

    method ServeCollect(handed: seq<PoolCell>, ghost s: Client)
      requires Serves(handed, s)
      modifies this, cells
      ensures Serves(handed, StepOf(s, Collect)) && cells == old(cells)
    {
      XmlgcCollect();
      ghost var t := StepOf(s, Collect);
      assert forall h | h in s.flags :: handed[h] in old(LiveCells());
      assert forall h | h in t.flags :: handed[h] in LiveCells();
      forall c | c in LiveCells()
        ensures c in set h | h in t.flags :: handed[h]
      {
        assert c in old(LiveCells());
        var h :| h in s.flags && handed[h] == c;
        assert h in t.flags;
      }
    }

    /** Any run from a new pool on: the pool does what an account of the client's own cells says, in
        which no two cells are ever the same. */
    method RunAll(ops: seq<Op>) returns (handed: seq<PoolCell>)
      requires Valid() && alloc == [] && free == [] && LegalRun(NEW_CLIENT, ops)
      modifies this
      ensures Serves(handed, RunOf(NEW_CLIENT, ops))
    {
      handed := [];
      ghost var s := NEW_CLIENT;
      assert ops[0..] == ops;
      for i := 0 to |ops|
        invariant Serves(handed, s) && fresh(cells)
        invariant LegalRun(s, ops[i..]) && RunOf(s, ops[i..]) == RunOf(NEW_CLIENT, ops)
      {
        assert ops[i..][0] == ops[i] && ops[i..][1..] == ops[i + 1..];
        match ops[i] {
          case Get =>
            var c := ServeGet(handed, s);
            handed := handed + [c];
          case Free(h) => ServeFree(handed, s, h);
          case Mark => ServeMark(handed, s);
          case Keep(h, kind) => ServeKeep(handed, s, h, kind);
          case Collect => ServeCollect(handed, s);
        }
        s := StepOf(s, ops[i]);
      }
    }
  }

  // ----- the client's account

  /** What a client does; it names a cell by the number of the request that got it. */
  datatype Op = Get | Free(h: nat) | Mark | Keep(h: nat, kind: int) | Collect

  /** How many cells were handed out, and the flags of those still in use. */
  datatype Client = Client(got: nat, flags: map<nat, int>)

  const NEW_CLIENT := Client(0, map[])

  /** Only cells in use are freed and kept. */
  predicate Legal(s: Client, op: Op) {
    match op
    case Free(h) => h in s.flags
    case Keep(h, kind) => h in s.flags && kind != FREE && kind != KIND_INIT
    case _ => true
  }

  function StepOf(s: Client, op: Op): Client {
    match op
    case Get => Client(s.got + 1, s.flags[s.got := KIND_INIT])
    case Free(h) => s.(flags := s.flags - {h})
    case Mark => s.(flags := map h | h in s.flags :: KIND_INIT)
    case Keep(h, kind) => s.(flags := s.flags[h := kind])
    case Collect => s.(flags := map h | h in s.flags && s.flags[h] != KIND_INIT :: s.flags[h])
  }

  function RunOf(s: Client, ops: seq<Op>): Client
    decreases |ops|
  {
    if ops == [] then s else RunOf(StepOf(s, ops[0]), ops[1..])
  }

  predicate LegalRun(s: Client, ops: seq<Op>)
    decreases |ops|
  {
    ops != [] ==> Legal(s, ops[0]) && LegalRun(StepOf(s, ops[0]), ops[1..])
  }

  function Keeps(ks: seq<(nat, int)>): seq<Op> {
    if ks == [] then [] else [Op.Keep(ks[0].0, ks[0].1)] + Keeps(ks[1..])
  }

  lemma {:induction false} RunConcat(s: Client, a: seq<Op>, b: seq<Op>)
    ensures RunOf(s, a + b) == RunOf(RunOf(s, a), b)
    ensures LegalRun(s, a + b) <==> LegalRun(s, a) && LegalRun(RunOf(s, a), b)
    decreases |a|
  {
    if a == [] {
      ConcatNothing(b);
    } else {
      assert (a + b)[1..] == a[1..] + b && (a + b)[0] == a[0];
      RunConcat(StepOf(s, a[0]), a[1..], b);
    }
  }

  lemma {:induction false} RunOne(s: Client, op: Op)
    ensures RunOf(s, [op]) == StepOf(s, op) && (LegalRun(s, [op]) <==> Legal(s, op))
  {
    assert [op][1..] == [];
  }

  lemma {:induction false} KeepsRun(s: Client, ks: seq<(nat, int)>)
    requires LegalRun(s, Keeps(ks))
    ensures RunOf(s, Keeps(ks)).flags.Keys == s.flags.Keys
    ensures forall h | h in s.flags ::
              RunOf(s, Keeps(ks)).flags[h] != KIND_INIT <==> s.flags[h] != KIND_INIT || exists k :: k in ks && k.0 == h
    ensures forall k | k in ks :: k.0 in s.flags
    decreases |ks|
  {
    if ks != [] {
      assert Keeps(ks)[0] == Op.Keep(ks[0].0, ks[0].1) && Keeps(ks)[1..] == Keeps(ks[1..]);
      var s' := StepOf(s, Op.Keep(ks[0].0, ks[0].1));
      assert s'.flags.Keys == s.flags.Keys;
      KeepsRun(s', ks[1..]);
      assert forall k :: k in ks <==> k == ks[0] || k in ks[1..];
    }
  }

  /** After marking, keeping some cells and collecting, the cells in use are just those kept. */
  lemma {:induction false} CollectedExactly(s: Client, ks: seq<(nat, int)>)
    requires LegalRun(s, [Mark] + Keeps(ks) + [Collect])
    ensures RunOf(s, [Mark] + Keeps(ks) + [Collect]).flags.Keys == set k | k in ks :: k.0
  {
    RunConcat(s, [Mark] + Keeps(ks), [Collect]);
    RunConcat(s, [Mark], Keeps(ks));
    RunOne(s, Mark);
    var m := StepOf(s, Mark);
    KeepsRun(m, ks);
    RunOne(RunOf(m, Keeps(ks)), Collect);
  }
}
