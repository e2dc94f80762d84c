/**
 * XML documents as first-child / next-sibling trees, the search the gateway uses, and the
 * request and response documents. A node pointer is the node together with its following
 * siblings, so `Forest` is the type of pointers and `Nil` is the null pointer.
 */
module Xml {
  import opened Common

  datatype Node = Element(tag: string, children: Forest) | Text(value: string)

  datatype Forest = Nil | Cons(head: Node, next: Forest)

  function Name(n: Node): string {
    match n
    case Element(tag, _) => tag
    case Text(_) => "text"
  }

  function Children(n: Node): Forest {
    match n
    case Element(_, children) => children
    case Text(_) => Nil
  }

  /** The text of a node and everything below it, in order. */
  function Content(n: Node): string
    decreases n
  {
    match n
    case Element(_, children) => ContentOf(children)
    case Text(value) => value
  }

  function ContentOf(f: Forest): string
    decreases f
  {
    match f
    case Nil => ""
    case Cons(n, next) => Content(n) + ContentOf(next)
  }

  // ---------------------------------------------------------------- search

  /** Every pointer into a forest, in document order. */
  function Pointers(f: Forest): seq<Forest>
    decreases f
  {
    match f
    case Nil => []
    case Cons(n, next) =>
      [f] + (if n.Element? then Pointers(n.children) else []) + Pointers(next)
  }

  ghost predicate Named(p: Forest, name: string) {
    p.Cons? && Name(p.head) == name
  }

  /** `r` is the first pointer in document order to a node of that name, or null if there is none. */
  ghost predicate IsFirst(r: Forest, f: Forest, name: string) {
    var ps := Pointers(f);
    if r == Nil then forall i :: 0 <= i < |ps| ==> !Named(ps[i], name)
    else exists i :: 0 <= i < |ps| && ps[i] == r && Named(r, name) && NoneBefore(ps, i, name)
  }

  ghost predicate NoneBefore(ps: seq<Forest>, i: nat, name: string)
    requires i <= |ps|
  {
    forall j :: 0 <= j < i ==> !Named(ps[j], name)
  }

  /** The search as a function: the node itself, then what is below it, then its next sibling. */
  function Find(f: Forest, name: string): Forest
    decreases f
  {
    match f
    case Nil => Nil
    case Cons(n, next) =>
      if Name(n) == name then f else
      var inner := if n.Element? then Find(n.children, name) else Nil;
      if inner != Nil then inner else Find(next, name)
  }

  lemma {:induction false} FindIndex(f: Forest, name: string) returns (i: nat)
    ensures i <= |Pointers(f)| && NoneBefore(Pointers(f), i, name)
    ensures if i < |Pointers(f)| then Find(f, name) == Pointers(f)[i] && Named(Pointers(f)[i], name)
            else Find(f, name) == Nil
    decreases f
  {
    hide NoneBefore, Find, Pointers;
    i := 0;
    NoneBeforeStart(Pointers(f), name);
    match f
    case Nil =>
      NilSearch(name);
    case Cons(n, next) =>
      ConsSearch(n, next, name);
      if Name(n) != name {
        NilSearch(name);
        NoneBeforeStart([], name);
        var inner := 0;
        if n.Element? {
          inner := FindIndex(n.children, name);
        }
        var after := FindIndex(next, name);
        var below := Pointers(Children(n));
        i := 1 + if inner < |below| then inner else inner + after;
        NoneBeforeParts(f, below, inner, Pointers(next), after, name);
      }
  }

  lemma NilSearch(name: string)
    ensures Pointers(Nil) == [] && Find(Nil, name) == Nil
  {
  }

  /** Document order and the search, one node at a time. */
  lemma ConsSearch(n: Node, next: Forest, name: string)
    ensures var f := Cons(n, next); var inner := Find(Children(n), name);
            && Pointers(f) == [f] + Pointers(Children(n)) + Pointers(next)
            && Find(f, name) == if Name(n) == name then f else if inner != Nil then inner else Find(next, name)
  {
  }

  lemma NoneBeforeStart(ps: seq<Forest>, name: string)
    ensures NoneBefore(ps, 0, name)
  {
  }

  /** Nothing of that name at the start, before `i` in the middle and, if the middle has none, before `j` at the end. */
  lemma NoneBeforeParts(p: Forest, a: seq<Forest>, i: nat, b: seq<Forest>, j: nat, name: string)
    requires !Named(p, name)
    requires i <= |a| && NoneBefore(a, i, name) && j <= |b| && NoneBefore(b, j, name)
    ensures i < |a| ==> ([p] + a + b)[1 + i] == a[i] && NoneBefore([p] + a + b, 1 + i, name)
    ensures i == |a| ==> NoneBefore([p] + a + b, 1 + i + j, name)
    ensures i == |a| && j < |b| ==> ([p] + a + b)[1 + i + j] == b[j]
  {
  }

  lemma FindIsFirst(f: Forest, name: string)
    ensures IsFirst(Find(f, name), f, name)
  {
    var i := FindIndex(f, name);
  }

  /** The search loop: along the siblings, recursing into the children of each. */
  method FindNodeByName(root: Forest, name: string) returns (r: Forest)
    ensures r == Find(root, name) && IsFirst(r, root, name)
    decreases root
  {
    FindIsFirst(root, name);
    var node := root;
    while node != Nil
      invariant Find(root, name) == Find(node, name)
      invariant node == root || node < root
      decreases node
    {
      if Name(node.head) == name {
        return node;
      } else if Children(node.head) != Nil {
        var inner := FindNodeByName(Children(node.head), name);
        if inner != Nil {
          return inner;
        }
      }
      node := node.next;
    }
    r := Nil;
  }

  // ----------------------------------------------- formatted printing

  ghost predicate IsBlank(n: Node) {
    n.Text? && forall i :: 0 <= i < |n.value| ==> n.value[i] in " \t\r\n"
  }

  predicate HasText(f: Forest) {
    match f
    case Nil => false
    case Cons(n, next) => n.Text? || HasText(next)
  }

  const EMPTY_TEXT := Cons(Text(""), Nil)

  /**
   * `g` is `f` after formatted printing and parsing: blank text nodes may appear anywhere
   * among element siblings; where there is text already nothing is added, but an empty
   * text node may vanish.
   */
  ghost predicate Padded(f: Forest, g: Forest)
    decreases g
  {
    match g
    case Nil => f == Nil
    case Cons(b, rest) =>
      || (IsBlank(b) && Padded(f, rest))
      || (f.Cons? && PaddedNode(f.head, b) && Padded(f.next, rest))
  }

  ghost predicate PaddedNode(a: Node, b: Node)
    decreases b
  {
    match b
    case Text(_) => a == b
    case Element(tag, inside) =>
      && a.Element? && a.tag == tag
      && if HasText(a.children)
         then inside == a.children || (a.children == EMPTY_TEXT && inside == Nil)
         else Padded(a.children, inside)
  }

  lemma {:induction false} PaddedRefl(f: Forest)
    ensures Padded(f, f)
    decreases f
  {
    match f
    case Nil =>
    case Cons(n, next) =>
      PaddedNodeRefl(n);
      PaddedRefl(next);
  }

  lemma {:induction false} PaddedNodeRefl(n: Node)
    ensures PaddedNode(n, n)
    decreases n
  {
    if n.Element? {
      PaddedRefl(n.children);
    }
  }

  /** The search finds the same node, whitespace or not. */
  lemma {:induction false} FindPadded(f: Forest, g: Forest, name: string)
    requires Padded(f, g) && name != "text"
    ensures Find(f, name) == Nil <==> Find(g, name) == Nil
    ensures Find(f, name) != Nil ==> PaddedNode(Find(f, name).head, Find(g, name).head)
    decreases g
  {
    match g
    case Nil =>
    case Cons(b, rest) =>
      if IsBlank(b) && Padded(f, rest) {
        assert Find(g, name) == Find(rest, name);
        FindPadded(f, rest, name);
      } else {
        FindPaddedBelow(f.head, b, name);
        FindPadded(f.next, rest, name);
      }
  }

  lemma {:induction false} FindPaddedBelow(a: Node, b: Node, name: string)
    requires PaddedNode(a, b) && name != "text"
    ensures Find(Children(a), name) == Nil <==> Find(Children(b), name) == Nil
    ensures Find(Children(a), name) != Nil
        ==> PaddedNode(Find(Children(a), name).head, Find(Children(b), name).head)
    decreases b
  {
    if b.Element? {
      if HasText(a.children) {
        if Find(Children(a), name) != Nil {
          PaddedNodeRefl(Find(Children(a), name).head);
        }
        assert Find(EMPTY_TEXT, name) == Nil;
      } else {
        FindPadded(a.children, b.children, name);
      }
    }
  }

  // ----------------------------------------------------- lists of values

  /** The contents of the siblings with a given tag, in order. */
  function Contents(f: Forest, tag: string): seq<string> {
    match f
    case Nil => []
    case Cons(n, next) => (if Name(n) == tag then [Content(n)] else []) + Contents(next, tag)
  }

  /** One element for each value, with the value as its text. */
  function Leaves(tag: string, values: seq<string>): Forest {
    if values == [] then Nil
    else Cons(Leaf(tag, values[0]), Leaves(tag, values[1..]))
  }

  function Leaf(tag: string, value: string): Node {
    Element(tag, Cons(Text(value), Nil))
  }

  lemma LeafPadded(tag: string, value: string, b: Node)
    requires PaddedNode(Leaf(tag, value), b)
    ensures Name(b) == tag && Content(b) == value
  {
    assert HasText(Cons(Text(value), Nil));
    assert ContentOf(Cons(Text(value), Nil)) == value + ContentOf(Nil);
  }

  /** Values are read back from padded leaves unchanged. */
  lemma {:induction false} LeavesReadBack(tag: string, values: seq<string>, g: Forest)
    requires Padded(Leaves(tag, values), g) && tag != "text"
    ensures Contents(g, tag) == values
    decreases g
  {
    var f := Leaves(tag, values);
    match g
    case Nil =>
    case Cons(b, rest) =>
      if IsBlank(b) && Padded(f, rest) {
        LeavesReadBack(tag, values, rest);
      } else {
        LeafPadded(tag, values[0], b);
        LeavesReadBack(tag, values[1..], rest);
      }
  }

  // ------------------------------------------------------------ documents

  /** Elements nested along a path, around the given innermost siblings. */
  function Chain(path: seq<string>, inside: Forest): Forest {
    if path == [] then inside else Cons(Element(path[0], Chain(path[1..], inside)), Nil)
  }

  lemma {:induction false} FindInChain(path: seq<string>, target: string, inside: Forest)
    requires target !in path
    ensures Find(Chain(path + [target], inside), target) == Cons(Element(target, inside), Nil)
    decreases |path|
  {
    var whole := path + [target];
    if path == [] {
      assert Chain(whole, inside) == Cons(Element(target, Chain([], inside)), Nil) by {
        assert whole[1..] == [];
      }
    } else {
      assert whole[1..] == path[1..] + [target];
      FindInChain(path[1..], target, inside);
    }
  }

  /** Searching a padded document and listing what is inside the found node gives the values back. */
  lemma ChainRoundTrip(path: seq<string>, target: string, tag: string, values: seq<string>, g: Forest)
    requires target !in path && target != "text" && tag != "text"
    requires Padded(Chain(path + [target], Leaves(tag, values)), g)
    ensures Find(g, target) != Nil
    ensures Contents(Children(Find(g, target).head), tag) == values
  {
    FindInChain(path, target, Leaves(tag, values));
    FindPadded(Chain(path + [target], Leaves(tag, values)), g, target);
    var found := Find(g, target).head;
    assert PaddedNode(Element(target, Leaves(tag, values)), found);
    LeavesHaveNoText(tag, values);
    LeavesReadBack(tag, values, Children(found));
  }

  lemma {:induction false} LeavesHaveNoText(tag: string, values: seq<string>)
    ensures !HasText(Leaves(tag, values))
    decreases |values|
  {
    if values == [] {
    } else {
      LeavesHaveNoText(tag, values[1..]);
    }
  }

  const TARGET := "DOMAIN-SPECIFIC"
  const ITEM := "DOMAINID"
  const DOMAIN := "SOLAR01"

  datatype Service = Get | Set

  const VARIABLE_PATH := ["VARIABLEACCESSSPECIFICATN", "LISTOFVARIABLE", "SEQUENCE",
                          "VARIABLESPECIFICATION", "NAME"]

  function ServicePath(service: Service): seq<string> {
    match service
    case Get => ["DDS_request", "confirmed-RequestPDU", "Read"]
    case Set => ["DDS_Setresponse", "confirmed-RequestPDU", "Write"]
  }

  function RequestPath(service: Service): seq<string> {
    ServicePath(service) + VARIABLE_PATH
  }

  const RESPONSE_PATH := ["DDS_response", "confirmed-ResponsePDU", "ConfirmedServiceResponse",
                          "Read", "listOfAccessResult"]

  function RequestDoc(service: Service, itemIds: seq<string>): Forest {
    Chain(RequestPath(service) + [TARGET], Leaves(ITEM, [DOMAIN] + itemIds))
  }

  function ResponseDoc(items: seq<string>): Forest {
    Chain(RESPONSE_PATH + ["success"], Leaves("float", items))
  }

  // ------------------------------------------ the elements of a document

  /** Follows elements that have no siblings down a path of tags: what is inside the last one. */
  function Below(doc: Forest, path: seq<string>): Option<Forest> {
    if path == [] then Some(doc)
    else if doc.Cons? && doc.next == Nil && doc.head.Element? && doc.head.tag == path[0]
      then Below(doc.head.children, path[1..])
    else None
  }

  lemma {:induction false} BelowChain(path: seq<string>, inside: Forest)
    ensures Below(Chain(path, inside), path) == Some(inside)
    decreases |path|
  {
    if path == [] {
    } else {
      BelowChain(path[1..], inside);
    }
  }

  /** The get request, element by element. */
  lemma GetRequestElements(itemIds: seq<string>)
    ensures Below(RequestDoc(Get, itemIds),
                  ["DDS_request", "confirmed-RequestPDU", "Read", "VARIABLEACCESSSPECIFICATN", "LISTOFVARIABLE",
                   "SEQUENCE", "VARIABLESPECIFICATION", "NAME", "DOMAIN-SPECIFIC"])
         == Some(Leaves("DOMAINID", ["SOLAR01"] + itemIds))
  {
    hide Below, Chain, Leaves;
    BelowChain(RequestPath(Get) + [TARGET], Leaves(ITEM, [DOMAIN] + itemIds));
    assert RequestPath(Get) + [TARGET]
        == ["DDS_request", "confirmed-RequestPDU", "Read", "VARIABLEACCESSSPECIFICATN", "LISTOFVARIABLE",
            "SEQUENCE", "VARIABLESPECIFICATION", "NAME", "DOMAIN-SPECIFIC"];
  }

  /** The set request, element by element; its root element is called a response. */
  lemma SetRequestElements(itemIds: seq<string>)
    ensures Below(RequestDoc(Set, itemIds),
                  ["DDS_Setresponse", "confirmed-RequestPDU", "Write", "VARIABLEACCESSSPECIFICATN",
                   "LISTOFVARIABLE", "SEQUENCE", "VARIABLESPECIFICATION", "NAME", "DOMAIN-SPECIFIC"])
         == Some(Leaves("DOMAINID", ["SOLAR01"] + itemIds))
  {
    hide Below, Chain, Leaves;
    BelowChain(RequestPath(Set) + [TARGET], Leaves(ITEM, [DOMAIN] + itemIds));
    assert RequestPath(Set) + [TARGET]
        == ["DDS_Setresponse", "confirmed-RequestPDU", "Write", "VARIABLEACCESSSPECIFICATN", "LISTOFVARIABLE",
            "SEQUENCE", "VARIABLESPECIFICATION", "NAME", "DOMAIN-SPECIFIC"];
  }

  lemma ResponseElements(items: seq<string>)
    ensures Below(ResponseDoc(items),
                  ["DDS_response", "confirmed-ResponsePDU", "ConfirmedServiceResponse", "Read",
                   "listOfAccessResult", "success"])
         == Some(Leaves("float", items))
  {
    hide Below, Chain, Leaves;
    BelowChain(RESPONSE_PATH + ["success"], Leaves("float", items));
    assert RESPONSE_PATH + ["success"]
        == ["DDS_response", "confirmed-ResponsePDU", "ConfirmedServiceResponse", "Read", "listOfAccessResult",
            "success"];
  }

  /** A search of a chain finds something exactly for the tags on its path and of its leaves. */
  lemma {:induction false} FoundInChain(path: seq<string>, tag: string, values: seq<string>, name: string)
    requires name != "text"
    ensures Find(Chain(path, Leaves(tag, values)), name) != Nil
       <==> name in path || (name == tag && values != [])
    decreases |path|
  {
    if path == [] {
      FoundInLeaves(tag, values, name);
    } else {
      FoundInChain(path[1..], tag, values, name);
      assert name in path <==> name == path[0] || name in path[1..];
    }
  }

  lemma {:induction false} FoundInLeaves(tag: string, values: seq<string>, name: string)
    requires name != "text"
    ensures Find(Leaves(tag, values), name) != Nil <==> name == tag && values != []
    decreases |values|
  {
    if values == [] {
    } else {
      FoundInLeaves(tag, values[1..], name);
      assert Find(Cons(Text(values[0]), Nil), name) == Nil;
    }
  }

  /** Which elements a parsed request has tells the two services apart. */
  lemma ServiceTold(service: Service, itemIds: seq<string>, parsed: Forest)
    requires Padded(RequestDoc(service, itemIds), parsed)
    ensures Find(parsed, "DDS_request") != Nil <==> service == Get
    ensures Find(parsed, "Read") != Nil <==> service == Get
    ensures Find(parsed, "DDS_Setresponse") != Nil <==> service == Set
    ensures Find(parsed, "Write") != Nil <==> service == Set
  {
    hide Chain, Leaves, Find, Padded;
    var path, values := RequestPath(service) + [TARGET], [DOMAIN] + itemIds;
    var doc := RequestDoc(service, itemIds);
    ServiceOnPath(service);
    FindPadded(doc, parsed, "DDS_request");
    FoundInChain(path, ITEM, values, "DDS_request");
    FindPadded(doc, parsed, "Read");
    FoundInChain(path, ITEM, values, "Read");
    FindPadded(doc, parsed, "DDS_Setresponse");
    FoundInChain(path, ITEM, values, "DDS_Setresponse");
    FindPadded(doc, parsed, "Write");
    FoundInChain(path, ITEM, values, "Write");
  }

  lemma ServiceOnPath(service: Service)
    ensures var path := RequestPath(service) + [TARGET];
            && ("DDS_request" in path <==> service == Get) && ("Read" in path <==> service == Get)
            && ("DDS_Setresponse" in path <==> service == Set) && ("Write" in path <==> service == Set)
  {
    var path := RequestPath(service) + [TARGET];
    assert path[0] == ServicePath(service)[0] && path[2] == ServicePath(service)[2];
  }

  /** What the server extracts from a parsed document, if it has the element searched for. */
  function Requested(doc: Forest): Option<seq<string>> {
    var found := Find(doc, TARGET);
    if found == Nil then None else Some(Contents(Children(found.head), ITEM))
  }

  /** Build, print, parse, search, extract: the item ids come back in order behind the domain. */
  lemma RequestRoundTrip(service: Service, itemIds: seq<string>, parsed: Forest)
    requires Padded(RequestDoc(service, itemIds), parsed)
    ensures Requested(parsed) == Some([DOMAIN] + itemIds)
  {
    hide Chain, Leaves, Find, Padded, Contents;
    ChainRoundTrip(RequestPath(service), TARGET, ITEM, [DOMAIN] + itemIds, parsed);
  }

  lemma ResponseRoundTrip(items: seq<string>, parsed: Forest)
    requires Padded(ResponseDoc(items), parsed)
    ensures Find(parsed, "success") != Nil
    ensures Contents(Children(Find(parsed, "success").head), "float") == items
  {
    hide Chain, Leaves, Find, Padded, Contents;
    ChainRoundTrip(RESPONSE_PATH, "success", "float", items, parsed);
  }
}
