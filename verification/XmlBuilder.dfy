/** The request and response builders, which grow a tree of nodes in place. */
module XmlBuilder {
  import opened Common
  import opened Xml

  class XmlNode {
    const name: string
    const value: Option<string>
    var kids: seq<XmlNode>

    /** A text node has a value; an element has a name and, in time, children. */
    constructor (name: string, value: Option<string>)
      ensures this.name == name && this.value == value && kids == []
    {
      this.name, this.value, kids := name, value, [];
    }
  }

  /** The tree below a node, as far as `depth` levels of the nodes in `heap`. */
  ghost function TreeOf(n: XmlNode, depth: nat, heap: set<XmlNode>): Node
    reads heap
    decreases depth, 0
  {
    if n.value.Some? then Text(n.value.value)
    else if depth == 0 || n !in heap then Element(n.name, Nil)
    else Element(n.name, ForestOf(n.kids, depth - 1, heap))
  }

  ghost function ForestOf(ns: seq<XmlNode>, depth: nat, heap: set<XmlNode>): Forest
    reads heap
    decreases depth, |ns| + 1
  {
    if ns == [] then Nil
    else Cons(TreeOf(ns[0], depth, heap), ForestOf(ns[1..], depth, heap))
  }

  /** Appends a new element to a node, with a text inside if content is given. */
  method NewTextChild(parent: XmlNode, name: string, content: Option<string>) returns (child: XmlNode)
    modifies parent
    ensures fresh(child) && parent.kids == old(parent.kids) + [child]
    ensures child.name == name && child.value == None
    ensures match content
            case None => child.kids == []
            case Some(text) => |child.kids| == 1 && fresh(child.kids[0]) && child.kids[0].value == Some(text)
  {
    child := new XmlNode(name, None);
    if content.Some? {
      var text := new XmlNode("text", content);
      child.kids := [text];
    }
    parent.kids := parent.kids + [child];
  }

  /** The node is an element of that tag around one text. */
  ghost predicate IsLeaf(n: XmlNode, tag: string, value: string, heap: set<XmlNode>)
    reads heap
  {
    n in heap && n.name == tag && n.value == None && |n.kids| == 1 && n.kids[0].value == Some(value)
  }

  ghost predicate AreLeaves(ns: seq<XmlNode>, tag: string, values: seq<string>, heap: set<XmlNode>)
    reads heap
  {
    |ns| == |values| && forall i :: 0 <= i < |ns| ==> IsLeaf(ns[i], tag, values[i], heap)
  }

  lemma {:induction false} LeavesForest(ns: seq<XmlNode>, tag: string, values: seq<string>,
                                       depth: nat, heap: set<XmlNode>)
    requires depth >= 1 && AreLeaves(ns, tag, values, heap)
    ensures ForestOf(ns, depth, heap) == Leaves(tag, values)
    decreases |ns|
  {
    if ns == [] {
    } else {
      assert IsLeaf(ns[0], tag, values[0], heap);
      var t := ns[0].kids[0];
      assert ns[0].kids == [t];
      assert ForestOf([t], depth - 1, heap) == Cons(Text(values[0]), Nil) by {
        assert [t][1..] == [];
      }
      LeavesForest(ns[1..], tag, values[1..], depth, heap);
    }
  }

  /** Nodes linked each to the next as its only child. */
  ghost predicate Linked(ns: seq<XmlNode>, path: seq<string>, heap: set<XmlNode>)
    reads heap
  {
    && |ns| == |path|
    && (forall i :: 0 <= i < |ns| ==> ns[i] in heap && ns[i].value == None && ns[i].name == path[i])
    && (forall i :: 0 <= i < |ns| - 1 ==> ns[i].kids == [ns[i + 1]])
  }

  lemma {:induction false} LinkedForest(ns: seq<XmlNode>, path: seq<string>, inside: Forest,
                                       depth: nat, heap: set<XmlNode>)
    requires ns != [] && Linked(ns, path, heap)
    requires ForestOf(ns[|ns| - 1].kids, depth, heap) == inside
    ensures ForestOf([ns[0]], depth + |ns|, heap) == Chain(path, inside)
    decreases |ns|
  {
    assert [ns[0]][1..] == [];
    if |ns| == 1 {
      assert Chain(path[1..], inside) == inside;
    } else {
      LinkedForest(ns[1..], path[1..], inside, depth, heap);
      assert ns[0].kids == [ns[1..][0]];
    }
  }

  /** No element in `heap` has an element outside it as a child. */
  ghost predicate Closed(heap: set<XmlNode>)
    reads heap
  {
    forall n :: n in heap ==> forall k :: k in n.kids && k.value == None ==> k in heap
  }

  /** Seen down to any depth from some depth on, the nodes below `root` are the document, and all are in `heap`. */
  ghost predicate IsDocument(root: XmlNode, doc: Forest, heap: set<XmlNode>)
    reads heap
  {
    root in heap && Closed(heap) && exists least: nat :: IsDocumentFrom(root, doc, least, heap)
  }

  ghost predicate IsDocumentFrom(root: XmlNode, doc: Forest, least: nat, heap: set<XmlNode>)
    reads heap
  {
    forall depth: nat :: least <= depth ==> ForestOf([root], depth, heap) == doc
  }

  lemma DocumentBuilt(ns: seq<XmlNode>, path: seq<string>, tag: string, values: seq<string>, heap: set<XmlNode>)
    requires ns != [] && Linked(ns, path, heap)
    requires AreLeaves(ns[|ns| - 1].kids, tag, values, heap) && Closed(heap)
    ensures IsDocument(ns[0], Chain(path, Leaves(tag, values)), heap)
  {
    var least := 1 + |ns|;
    forall depth: nat | least <= depth
      ensures ForestOf([ns[0]], depth, heap) == Chain(path, Leaves(tag, values))
    {
      LeavesForest(ns[|ns| - 1].kids, tag, values, depth - |ns|, heap);
      LinkedForest(ns, path, Leaves(tag, values), depth - |ns|, heap);
    }
    assert IsDocumentFrom(ns[0], Chain(path, Leaves(tag, values)), least, heap);
  }

  /** What a builder has made so far: the chain of elements along the start of `path`, and all nodes. */
  datatype Growing = Growing(ns: seq<XmlNode>, path: seq<string>, heap: set<XmlNode>)

  ghost predicate EndsIn(g: Growing, n: XmlNode)
    reads g.heap
  {
    && 0 < |g.ns| <= |g.path| && g.ns[|g.ns| - 1] == n && n in g.heap && n !in n.kids
    && (forall i :: 0 <= i < |g.ns| - 1 ==> g.ns[i] != n)
    && Linked(g.ns, g.path[..|g.ns|], g.heap) && Closed(g.heap)
  }

  method NewRoot(name: string, ghost path: seq<string>) returns (root: XmlNode, ghost g: Growing)
    requires path != [] && path[0] == name
    ensures fresh(root) && fresh(g.heap) && g.ns == [root] && g.path == path
    ensures EndsIn(g, root) && root.kids == []
  {
    root := new XmlNode(name, None);
    g := Growing([root], path, {root});
  }

  /** One more element inside the innermost one, which has no children yet. */
  method Nest(parent: XmlNode, name: string, ghost g: Growing) returns (child: XmlNode, ghost g': Growing)
    requires EndsIn(g, parent) && parent.kids == []
    requires |g.ns| < |g.path| && g.path[|g.ns|] == name
    modifies parent
    ensures fresh(child) && fresh(g'.heap - g.heap) && g.heap <= g'.heap
    ensures g'.path == g.path && g'.ns == g.ns + [child]
    ensures EndsIn(g', child) && child.kids == []
  {
    child := NewTextChild(parent, name, None);
    g' := Growing(g.ns + [child], g.path, g.heap + {child});
  }

  /** One more value inside the innermost element. */
  method AppendValue(parent: XmlNode, tag: string, value: string, ghost present: seq<string>, ghost g: Growing)
    returns (ghost g': Growing)
    requires EndsIn(g, parent) && AreLeaves(parent.kids, tag, present, g.heap)
    modifies parent
    ensures fresh(g'.heap - g.heap) && g.heap <= g'.heap
    ensures g'.path == g.path && g'.ns == g.ns
    ensures EndsIn(g', parent) && AreLeaves(parent.kids, tag, present + [value], g'.heap)
  {
    var child := NewTextChild(parent, tag, Some(value));
    g' := g.(heap := g.heap + {child});
  }

  lemma NoLeaves(tag: string, heap: set<XmlNode>)
    ensures AreLeaves([], tag, [], heap)
  {
  }

  /** A chain grown along its whole path, with the values inside, is the document. */
  lemma Grown(g: Growing, innermost: XmlNode, tag: string, values: seq<string>)
    requires EndsIn(g, innermost) && |g.ns| == |g.path|
    requires AreLeaves(innermost.kids, tag, values, g.heap)
    ensures IsDocument(g.ns[0], Chain(g.path, Leaves(tag, values)), g.heap)
  {
    assert g.path[..|g.ns|] == g.path;
    DocumentBuilt(g.ns, g.path, tag, values, g.heap);
  }

  /** The part of a request that both builders share. */
  method VariableChain(parent: XmlNode, ghost g0: Growing) returns (domainSpecific: XmlNode, ghost g: Growing)
    requires EndsIn(g0, parent) && parent.kids == []
    requires |g0.ns| == 3 && |g0.path| == 9 && g0.path[3..] == VARIABLE_PATH + [TARGET]
    modifies parent
    ensures fresh(domainSpecific) && fresh(g.heap - g0.heap) && g0.heap <= g.heap
    ensures g.path == g0.path && |g.ns| == 9 && g.ns[0] == g0.ns[0]
    ensures EndsIn(g, domainSpecific) && domainSpecific.kids == []
  {
    hide EndsIn;
    g := g0;
    forall i | 3 <= i < 9
      ensures g.path[i] == (VARIABLE_PATH + [TARGET])[i - 3]
    {
    }
    var access, list, sequence, variable, name;
    access, g := Nest(parent, "VARIABLEACCESSSPECIFICATN", g);
    list, g := Nest(access, "LISTOFVARIABLE", g);
    sequence, g := Nest(list, "SEQUENCE", g);
    variable, g := Nest(sequence, "VARIABLESPECIFICATION", g);
    name, g := Nest(variable, "NAME", g);
    domainSpecific, g := Nest(name, "DOMAIN-SPECIFIC", g);
  }

  method GetChain() returns (root: XmlNode, domainSpecific: XmlNode, ghost g: Growing)
    ensures fresh(root) && fresh(domainSpecific) && fresh(g.heap)
    ensures g.path == RequestPath(Get) + [TARGET] && |g.ns| == |g.path| && g.ns[0] == root
    ensures EndsIn(g, domainSpecific) && domainSpecific.kids == []
  {
    hide EndsIn;
    root, g := NewRoot("DDS_request", RequestPath(Get) + [TARGET]);
    var pdu, read;
    pdu, g := Nest(root, "confirmed-RequestPDU", g);
    read, g := Nest(pdu, "Read", g);
    domainSpecific, g := VariableChain(read, g);
  }

  method GetDataValue(itemIds: seq<string>) returns (root: XmlNode, ghost heap: set<XmlNode>)
    ensures fresh(heap) && IsDocument(root, RequestDoc(Get, itemIds), heap)
  {
    hide EndsIn, AreLeaves, IsDocument, Chain, Leaves, RequestPath;
    var domainSpecific;
    ghost var g;
    root, domainSpecific, g := GetChain();
    ghost var path := g.path;
    NoLeaves(ITEM, g.heap);
    g := AppendValue(domainSpecific, ITEM, DOMAIN, [], g);
    assert [] + [DOMAIN] == [DOMAIN] + itemIds[..0];
    for u := 0 to |itemIds|
      invariant fresh(g.heap) && g.path == path
      invariant |g.ns| == |path| && g.ns[0] == root && EndsIn(g, domainSpecific)
      invariant AreLeaves(domainSpecific.kids, ITEM, [DOMAIN] + itemIds[..u], g.heap)
    {
      g := AppendValue(domainSpecific, ITEM, itemIds[u], [DOMAIN] + itemIds[..u], g);
      assert [DOMAIN] + itemIds[..u] + [itemIds[u]] == [DOMAIN] + itemIds[..u + 1];
    }
    assert itemIds[..|itemIds|] == itemIds;
    Grown(g, domainSpecific, ITEM, [DOMAIN] + itemIds);
    heap := g.heap;
  }

  method SetChain() returns (root: XmlNode, domainSpecific: XmlNode, ghost g: Growing)
    ensures fresh(root) && fresh(domainSpecific) && fresh(g.heap)
    ensures g.path == RequestPath(Set) + [TARGET] && |g.ns| == |g.path| && g.ns[0] == root
    ensures EndsIn(g, domainSpecific) && domainSpecific.kids == []
  {
    hide EndsIn;
    root, g := NewRoot("DDS_Setresponse", RequestPath(Set) + [TARGET]);
    var pdu, write;
    pdu, g := Nest(root, "confirmed-RequestPDU", g);
    write, g := Nest(pdu, "Write", g);
    domainSpecific, g := VariableChain(write, g);
  }

  method SetDataValue(itemIds: seq<string>) returns (root: XmlNode, ghost heap: set<XmlNode>)
    ensures fresh(heap) && IsDocument(root, RequestDoc(Set, itemIds), heap)
  {
    hide EndsIn, AreLeaves, IsDocument, Chain, Leaves, RequestPath;
    var domainSpecific;
    ghost var g;
    root, domainSpecific, g := SetChain();
    ghost var path := g.path;
    NoLeaves(ITEM, g.heap);
    g := AppendValue(domainSpecific, ITEM, DOMAIN, [], g);
    assert [] + [DOMAIN] == [DOMAIN] + itemIds[..0];
    for u := 0 to |itemIds|
      invariant fresh(g.heap) && g.path == path
      invariant |g.ns| == |path| && g.ns[0] == root && EndsIn(g, domainSpecific)
      invariant AreLeaves(domainSpecific.kids, ITEM, [DOMAIN] + itemIds[..u], g.heap)
    {
      g := AppendValue(domainSpecific, ITEM, itemIds[u], [DOMAIN] + itemIds[..u], g);
      assert [DOMAIN] + itemIds[..u] + [itemIds[u]] == [DOMAIN] + itemIds[..u + 1];
    }
    assert itemIds[..|itemIds|] == itemIds;
    Grown(g, domainSpecific, ITEM, [DOMAIN] + itemIds);
    heap := g.heap;
  }

  method ResponseChain() returns (root: XmlNode, success: XmlNode, ghost g: Growing)
    ensures fresh(root) && fresh(success) && fresh(g.heap)
    ensures g.path == RESPONSE_PATH + ["success"] && |g.ns| == |g.path| && g.ns[0] == root
    ensures EndsIn(g, success) && success.kids == []
  {
    hide EndsIn;
    root, g := NewRoot("DDS_response", RESPONSE_PATH + ["success"]);
    var pdu, service, read, list;
    pdu, g := Nest(root, "confirmed-ResponsePDU", g);
    service, g := Nest(pdu, "ConfirmedServiceResponse", g);
    read, g := Nest(service, "Read", g);
    list, g := Nest(read, "listOfAccessResult", g);
    success, g := Nest(list, "success", g);
  }

  method GetDataValueResp(items: seq<string>) returns (root: XmlNode, ghost heap: set<XmlNode>)
    ensures fresh(heap) && IsDocument(root, ResponseDoc(items), heap)
  {
    hide EndsIn, AreLeaves, IsDocument, Chain, Leaves;
    var success;
    ghost var g;
    root, success, g := ResponseChain();
    ghost var path := g.path;
    NoLeaves("float", g.heap);
    for u := 0 to |items|
      invariant fresh(g.heap) && g.path == path
      invariant |g.ns| == |path| && g.ns[0] == root && EndsIn(g, success)
      invariant AreLeaves(success.kids, "float", items[..u], g.heap)
    {
      g := AppendValue(success, "float", items[u], items[..u], g);
      assert items[..u] + [items[u]] == items[..u + 1];
    }
    assert items[..|items|] == items;
    Grown(g, success, "float", items);
    heap := g.heap;
  }
}
