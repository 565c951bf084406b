/** Elements as values: a name, attributes in order, and children in order. */
module Xml {
  import opened Wrappers

  datatype Attr = Attr(name: string, value: string)

  datatype Elem = Elem(name: string, attrs: seq<Attr>, kids: seq<Elem>)

  function AttrValue(attrs: seq<Attr>, name: string): Option<string> {
    if attrs == [] then None
    else if attrs[0].name == name then Some(attrs[0].value)
    else AttrValue(attrs[1..], name)
  }

  /** The number of elements in a list of trees. */
  function Elements(ts: seq<Elem>): nat {
    if ts == [] then 0 else 1 + Elements(ts[0].kids) + Elements(ts[1..])
  }

  lemma {:induction false} ElementsConcat(a: seq<Elem>, b: seq<Elem>)
    ensures Elements(a + b) == Elements(a) + Elements(b)
  {
    if a == [] {
      ConcatNothing(b);
    } else {
      assert (a + b)[1..] == a[1..] + b && (a + b)[0] == a[0];
      ElementsConcat(a[1..], b);
    }
  }
}
