/** Queues of code expressions as the programs hold them: links to the first cells of the expressions. */
module CellQueue {
  import opened Wrappers
  import opened XmlHeap
  import opened Directive

  ghost function CellsOf(fs: seq<Forest>): set<XmlCell> {
    if fs == [] then {} else Cells(fs[0]) + CellsOf(fs[1..])
  }

  ghost function Values(fs: seq<Forest>): seq<Exp> {
    if fs == [] then [] else [Trees(fs[0])] + Values(fs[1..])
  }

  /** The links lead to these structures, which share no cell. */
  ghost predicate Queued(list: seq<XmlCell?>, fs: seq<Forest>)
    reads CellsOf(fs)
  {
    if fs == [] then list == [] else
      list != [] && Rep(list[0], fs[0]) && Cells(fs[0]) !! CellsOf(fs[1..]) && Queued(list[1..], fs[1..])
  }

  lemma {:induction false} QueuedLength(list: seq<XmlCell?>, fs: seq<Forest>)
    requires Queued(list, fs)
    ensures |list| == |fs| == |Values(fs)|
  {
    if fs != [] {
      QueuedLength(list[1..], fs[1..]);
    }
  }

  lemma {:induction false} ValuesConcat(a: seq<Forest>, b: seq<Forest>)
    ensures Values(a + b) == Values(a) + Values(b) && CellsOf(a + b) == CellsOf(a) + CellsOf(b) && |Values(a)| == |a|
  {
    if a == [] {
      ConcatNothing(b);
      ConcatNothing(Values(b));
    } else {
      assert (a + b)[1..] == a[1..] + b && (a + b)[0] == a[0];
      ValuesConcat(a[1..], b);
      ConcatAssoc([Trees(a[0])], Values(a[1..]), Values(b));
    }
  }

  lemma {:induction false} QueuedSnoc(list: seq<XmlCell?>, fs: seq<Forest>, x: XmlCell?, f: Forest)
    requires Queued(list, fs) && Rep(x, f) && Cells(f) !! CellsOf(fs)
    ensures Queued(list + [x], fs + [f])
    ensures Values(fs + [f]) == Values(fs) + [Trees(f)] && CellsOf(fs + [f]) == CellsOf(fs) + Cells(f)
  {
    ValuesConcat(fs, [f]);
    assert [f][1..] == [] && [x][1..] == [];
    assert Values([f]) == [Trees(f)] && CellsOf([f]) == Cells(f) && Queued([x], [f]);
    if fs == [] {
      ConcatNothing([x]);
      ConcatNothing([f]);
    } else {
      ValuesConcat(fs[1..], [f]);
      assert (fs + [f])[1..] == fs[1..] + [f] && (fs + [f])[0] == fs[0];
      assert (list + [x])[1..] == list[1..] + [x] && (list + [x])[0] == list[0];
      QueuedSnoc(list[1..], fs[1..], x, f);
    }
  }

  lemma {:induction false} QueuedSplit(list: seq<XmlCell?>, fs: seq<Forest>, c: nat)
    requires Queued(list, fs) && c <= |list|
    ensures c <= |fs| == |list| && Queued(list[..c], fs[..c]) && Queued(list[c..], fs[c..])
    ensures CellsOf(fs) == CellsOf(fs[..c]) + CellsOf(fs[c..]) && CellsOf(fs[..c]) !! CellsOf(fs[c..])
    ensures |Values(fs)| == |fs| && Values(fs[..c]) == Values(fs)[..c] && Values(fs[c..]) == Values(fs)[c..]
  {
    QueuedLength(list, fs);
    assert fs == fs[..c] + fs[c..];
    ValuesConcat(fs[..c], fs[c..]);
    if c == 0 {
      assert list[0..] == list && fs[0..] == fs && list[..0] == [] && fs[..0] == [];
    } else {
      QueuedSplit(list[1..], fs[1..], c - 1);
      assert list[..c][1..] == list[1..][..c - 1] && fs[..c][1..] == fs[1..][..c - 1];
      assert list[c..] == list[1..][c - 1..] && fs[c..] == fs[1..][c - 1..];
    }
  }

  lemma {:induction false} QueuedLast(list: seq<XmlCell?>, fs: seq<Forest>)
    requires Queued(list, fs) && list != []
    ensures var n := |list| - 1;
            && |fs| == n + 1 == |Values(fs)| && Queued(list[..n], fs[..n]) && Rep(list[n], fs[n])
            && Cells(fs[n]) !! CellsOf(fs[..n]) && CellsOf(fs) == CellsOf(fs[..n]) + Cells(fs[n])
            && Values(fs[..n]) == Values(fs)[..n] && Trees(fs[n]) == Values(fs)[n]
  {
    var n := |list| - 1;
    QueuedSplit(list, fs, n);
    var last, f := list[n..], fs[n..];
    assert last[0] == list[n] && f[0] == fs[n] && f[1..] == [];
    assert Values(f)[0] == Trees(f[0]);
  }
}
