/** The parsed document tree the inliner walks: parse5's element nodes with
    their attribute lists and child lists, and the nodes without children. */
module Html {

  datatype Option<T> = None | Some(value: T)

  datatype Attr = Attr(name: string, value: string)

  datatype Node =
    | Element(tag: string, attrs: seq<Attr>, children: seq<Node>)
      /** A text, comment or doctype node: it has no child list. */
    | Leaf(data: string)

  /** `attrs.find(a => a.name === name)`: the value of the first attribute
      with that name, if there is one. */
  function FindAttr(attrs: seq<Attr>, name: string): (r: Option<string>)
    ensures r.None? <==> forall i :: 0 <= i < |attrs| ==> attrs[i].name != name
    ensures r.Some? ==> exists i :: 0 <= i < |attrs| && attrs[i] == Attr(name, r.value)
                                    && forall j :: 0 <= j < i ==> attrs[j].name != name
  {
    if attrs == [] then None
    else if attrs[0].name == name then Some(attrs[0].value)
    else FindAttr(attrs[1..], name)
  }

  /** Number of nodes in a tree, for termination. */
  function NodeSize(n: Node): (size: nat)
    ensures size >= 1
  {
    match n
    case Leaf(_) => 1
    case Element(_, _, kids) => 1 + ForestSize(kids)
  }

  function ForestSize(ns: seq<Node>): nat {
    if ns == [] then 0 else NodeSize(ns[0]) + ForestSize(ns[1..])
  }

  lemma {:induction false} NodeSizeAt(ns: seq<Node>, k: nat)
    requires k < |ns|
    ensures NodeSize(ns[k]) <= ForestSize(ns)
  {
    if k > 0 {
      NodeSizeAt(ns[1..], k - 1);
    }
  }
}
