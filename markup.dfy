/** The parsed XML the importer reads, as a tree of element nodes, and the
    two lookups it makes in it: the `attributes` table of an element and the
    CSS descendant selector `A B`. */
module Markup {

  datatype Option<T> = None | Some(value: T)

  datatype Attr = Attr(name: string, value: string)

  /** An element: its tag name, its attributes in document order, its child
      elements in document order, and its text content (the concatenated
      text below it, as the XML library reports it). */
  datatype Node = Node(name: string, attrs: seq<Attr>, children: seq<Node>, text: string)

  datatype Document = Document(root: Node)

  // ---------------------------------------------------------------------------
  // The attribute table

  /** The attribute table the XML library builds by walking the attributes in
      order and storing each under its name: a repeated name keeps the place of
      its first occurrence and takes the value of its last. */
  function AttributeTable(attrs: seq<Attr>): (table: seq<Attr>)
    ensures forall i, j :: 0 <= i < j < |table| ==> table[i].name != table[j].name
  {
    if attrs == [] then []
    else Store(AttributeTable(attrs[..|attrs| - 1]), attrs[|attrs| - 1])
  }

  /** Stores one attribute in a table whose names are distinct. */
  function Store(table: seq<Attr>, a: Attr): (r: seq<Attr>)
    requires forall i, j :: 0 <= i < j < |table| ==> table[i].name != table[j].name
    ensures |r| == |table| || r == table + [a]
    ensures forall i, j :: 0 <= i < j < |r| ==> r[i].name != r[j].name
    ensures forall i :: 0 <= i < |table| ==> r[i].name == table[i].name
  {
    if table == [] then [a]
    else if table[0].name == a.name then [a] + table[1..]
    else [table[0]] + Store(table[1..], a)
  }

  /** The last attribute in `attrs` carrying `name`, if any. */
  function LastNamed(attrs: seq<Attr>, name: string): Option<string> {
    if attrs == [] then None
    else if attrs[|attrs| - 1].name == name then Some(attrs[|attrs| - 1].value)
    else LastNamed(attrs[..|attrs| - 1], name)
  }

  /** `attributes[name]`: the table entry for `name`. */
  function Lookup(table: seq<Attr>, name: string): Option<string> {
    if table == [] then None
    else if table[0].name == name then Some(table[0].value)
    else Lookup(table[1..], name)
  }

  /** Looking a name up in the table gives the value of the last attribute
      carrying that name, and nothing when no attribute carries it. */
  lemma {:induction false} AttributeTableLookup(attrs: seq<Attr>, name: string)
    ensures Lookup(AttributeTable(attrs), name) == LastNamed(attrs, name)
  {
    if attrs != [] {
      var init := attrs[..|attrs| - 1];
      AttributeTableLookup(init, name);
      StoreLookup(AttributeTable(init), attrs[|attrs| - 1], name);
    }
  }

  lemma {:induction false} StoreLookup(table: seq<Attr>, a: Attr, name: string)
    requires forall i, j :: 0 <= i < j < |table| ==> table[i].name != table[j].name
    ensures Lookup(Store(table, a), name) == if a.name == name then Some(a.value) else Lookup(table, name)
  {
    if table != [] && table[0].name != a.name {
      StoreLookup(table[1..], a, name);
      assert Store(table, a) == [table[0]] + Store(table[1..], a);
    }
  }

  // ---------------------------------------------------------------------------
  // The descendant selector

  /** The nodes of the forest `ns` and below, in document order, that are named
      `inner` and have an ancestor named `outer` below the point where the
      search began; `inside` says whether such an ancestor is already above
      `ns`. Searching an element's children from outside gives `A B` relative to
      that element; searching from the document's root gives `A B` on the whole
      document. */
  function Select(ns: seq<Node>, inside: bool, outer: string, inner: string): (r: seq<Node>)
    ensures forall i :: 0 <= i < |r| ==> r[i].name == inner
    decreases ns
  {
    if ns == [] then []
    else
      var n := ns[0];
      (if inside && n.name == inner then [n] else [])
      + Select(n.children, inside || n.name == outer, outer, inner)
      + Select(ns[1..], inside, outer, inner)
  }

  /** `outer` names some node of the forest. */
  predicate Mentions(ns: seq<Node>, outer: string)
    decreases ns
  {
    ns != [] && (ns[0].name == outer || Mentions(ns[0].children, outer) || Mentions(ns[1..], outer))
  }

  /** Without an `outer` ancestor above and without an `outer` node inside, the
      selector finds nothing. */
  lemma {:induction false} SelectWithoutOuter(ns: seq<Node>, outer: string, inner: string)
    requires !Mentions(ns, outer)
    ensures Select(ns, false, outer, inner) == []
    decreases ns
  {
    if ns != [] {
      SelectWithoutOuter(ns[0].children, outer, inner);
      SelectWithoutOuter(ns[1..], outer, inner);
    }
  }

  /** Once inside an `outer` node, every `inner` node is found, in document order. */
  lemma {:induction false} SelectInside(ns: seq<Node>, outer: string, inner: string)
    ensures Select(ns, true, outer, inner) == Named(ns, inner)
    decreases ns
  {
    if ns != [] {
      SelectInside(ns[0].children, outer, inner);
      SelectInside(ns[1..], outer, inner);
    }
  }

  /** Searching from outside, a node named `outer` switches the search on for
      everything below it: all its `inner` descendants are found, in document
      order, ahead of what its later siblings give. */
  lemma {:induction false} SelectEnter(n: Node, rest: seq<Node>, outer: string, inner: string)
    requires n.name == outer
    ensures Select([n] + rest, false, outer, inner) == Named(n.children, inner) + Select(rest, false, outer, inner)
  {
    var ns := [n] + rest;
    assert ns[0] == n && ns[1..] == rest;
    SelectInside(n.children, outer, inner);
    assert Select(ns, false, outer, inner) == [] + Select(n.children, true, outer, inner) + Select(rest, false, outer, inner);
  }

  /** Searching two forests one after the other finds what each finds, in
      that order. */
  lemma {:induction false} SelectAppend(a: seq<Node>, b: seq<Node>, inside: bool, outer: string, inner: string)
    ensures Select(a + b, inside, outer, inner) == Select(a, inside, outer, inner) + Select(b, inside, outer, inner)
    decreases a
  {
    if a != [] {
      var ab := a + b;
      assert ab[0] == a[0] && ab[1..] == a[1..] + b;
      SelectAppend(a[1..], b, inside, outer, inner);
    } else {
      assert a + b == b;
    }
  }

  /** Searching from outside, a node not named `outer` is passed through: it is
      not collected itself and its children are searched from outside too. */
  lemma SelectPass(n: Node, outer: string, inner: string)
    requires n.name != outer
    ensures Select([n], false, outer, inner) == Select(n.children, false, outer, inner)
  {
    assert [n][1..] == [];
  }

  /** Searching a forest from outside, where the only `outer` node is the
      `k`-th tree's root, finds exactly that node's `inner` descendants, in
      document order, wherever it stands among its siblings. */
  lemma SelectSection(ns: seq<Node>, k: nat, outer: string, inner: string)
    requires k < |ns| && ns[k].name == outer
    requires !Mentions(ns[..k], outer) && !Mentions(ns[k + 1..], outer)
    ensures Select(ns, false, outer, inner) == Named(ns[k].children, inner)
  {
    assert ns == ns[..k] + ([ns[k]] + ns[k + 1..]);
    SelectAppend(ns[..k], [ns[k]] + ns[k + 1..], false, outer, inner);
    SelectWithoutOuter(ns[..k], outer, inner);
    SelectEnter(ns[k], ns[k + 1..], outer, inner);
    SelectWithoutOuter(ns[k + 1..], outer, inner);
  }

  /** Every node of the forest named `name`, in document order. */
  function Named(ns: seq<Node>, name: string): seq<Node>
    decreases ns
  {
    if ns == [] then []
    else
      (if ns[0].name == name then [ns[0]] else [])
      + Named(ns[0].children, name)
      + Named(ns[1..], name)
  }

  /** A forest in which no node carries `name` has no node of that name. */
  lemma {:induction false} NamedWithout(ns: seq<Node>, name: string)
    requires !Mentions(ns, name)
    ensures Named(ns, name) == []
    decreases ns
  {
    if ns != [] {
      NamedWithout(ns[0].children, name);
      NamedWithout(ns[1..], name);
    }
  }

  /** The element's children searched from outside any `outer` node. */
  function SelectBelow(n: Node, outer: string, inner: string): seq<Node> {
    Select(n.children, false, outer, inner)
  }

  /** `file.css("territories territory")`. */
  function Territories(doc: Document): seq<Node> {
    Select([doc.root], false, "territories", "territory")
  }

  /** With one `territories` element among the root's children, the walk's
      territories are the `territory` elements below it, in document order. */
  lemma TerritoriesOfSection(doc: Document, k: nat)
    requires doc.root.name != "territories"
    requires k < |doc.root.children| && doc.root.children[k].name == "territories"
    requires !Mentions(doc.root.children[..k], "territories")
    requires !Mentions(doc.root.children[k + 1..], "territories")
    ensures Territories(doc) == Named(doc.root.children[k].children, "territory")
  {
    SelectPass(doc.root, "territories", "territory");
    SelectSection(doc.root.children, k, "territories", "territory");
  }

  /** The layout of the metadata file: `phoneNumberMetadata > territories >
      territory` yields that one territory, whatever its children, as long as
      none of them is itself a `territory`. */
  lemma TerritoriesExample(t: Node)
    requires t.name == "territory" && !Mentions(t.children, "territory")
    ensures Territories(Document(Node("phoneNumberMetadata", [], [Node("territories", [], [t], "")], ""))) == [t]
  {
    var doc := Document(Node("phoneNumberMetadata", [], [Node("territories", [], [t], "")], ""));
    assert doc.root.children[..0] == [] && doc.root.children[1..] == [];
    TerritoriesOfSection(doc, 0);
    NamedWithout(t.children, "territory");
    assert [t][1..] == [];
  }
}
