/**
 * The concrete syntax tree the Rust grammar produces for one source file, and the
 * child scans the declaration extractor builds on. The parser itself is not part of
 * the model: a tree is given. `next_sibling` of a child is the element after it in
 * its parent's `children`.
 */
module SyntaxTree {
  import opened Wrappers

  /** A (row, column) position; rows count lines from 0. */
  datatype Point = Point(row: nat, column: nat)

  /** A syntax node: its grammar kind (`type` in the parser's API), the source text it
      spans, its children in source order (named and anonymous tokens alike), its
      start and end positions and its start and end offsets. */
  datatype Node = Node(
    kind: string,
    text: string,
    children: seq<Node>,
    startPoint: Point,
    endPoint: Point,
    startByte: nat,
    endByte: nat)

  // ---------------------------------------------------------------------------
  // First-match scans over the direct children of a node
  // ---------------------------------------------------------------------------

  /** `cs[i]` is the first node of kind `kind` in `cs`. */
  predicate IsFirst(cs: seq<Node>, kind: string, i: int)
  {
    0 <= i < |cs| && cs[i].kind == kind && forall j :: 0 <= j < i ==> cs[j].kind != kind
  }

  /** `cs[i]` is the first node of kind `kind` in `cs` that has a node after it. */
  predicate IsFirstFollowed(cs: seq<Node>, kind: string, i: int)
  {
    0 <= i < |cs| - 1 && cs[i].kind == kind && forall j :: 0 <= j < i ==> cs[j].kind != kind
  }

  function FirstFrom(cs: seq<Node>, kind: string, k: nat): (r: Option<nat>)
    requires k <= |cs|
    ensures r.Some? ==> k <= r.value < |cs| && cs[r.value].kind == kind
    ensures r.Some? ==> forall j :: k <= j < r.value ==> cs[j].kind != kind
    ensures r.None? ==> forall j :: k <= j < |cs| ==> cs[j].kind != kind
    decreases |cs| - k
  {
    if k == |cs| then None
    else if cs[k].kind == kind then Some(k)
    else FirstFrom(cs, kind, k + 1)
  }

  /** The index of the first node of kind `kind`, scanning in order and stopping
      at the first match. */
  function FirstOfKind(cs: seq<Node>, kind: string): (r: Option<nat>)
    ensures r.Some? ==> IsFirst(cs, kind, r.value)
    ensures r.None? <==> forall j :: 0 <= j < |cs| ==> cs[j].kind != kind
  {
    FirstFrom(cs, kind, 0)
  }

  /** The text of the first node of kind `kind`, or `""` when there is none. */
  function FirstText(cs: seq<Node>, kind: string): (r: string)
    ensures forall i :: IsFirst(cs, kind, i) ==> r == cs[i].text
    ensures (forall j :: 0 <= j < |cs| ==> cs[j].kind != kind) ==> r == ""
  {
    match FirstOfKind(cs, kind)
    case Some(i) => cs[i].text
    case None => ""
  }

  /** The text of the node right after the first node of kind `kind` that has one,
      or `default` when no node of that kind has a successor. A node of that kind in
      last place is passed over, and the scan goes on (there is nothing after it). */
  function TextAfterFirst(cs: seq<Node>, kind: string, default: string): (r: string)
    ensures forall i :: IsFirstFollowed(cs, kind, i) ==> r == cs[i + 1].text
    ensures (forall j :: 0 <= j < |cs| - 1 ==> cs[j].kind != kind) ==> r == default
  {
    if |cs| == 0 then default
    else
      match FirstOfKind(cs[..|cs| - 1], kind)
      case Some(i) => cs[i + 1].text
      case None => default
  }

  /** The text of the node right before the first node of kind `kind` that has a
      successor, or `default` when there is no such node or it comes first. */
  function TextBeforeFirst(cs: seq<Node>, kind: string, default: string): (r: string)
    ensures forall i :: IsFirstFollowed(cs, kind, i) ==> r == if i == 0 then default else cs[i - 1].text
    ensures (forall j :: 0 <= j < |cs| - 1 ==> cs[j].kind != kind) ==> r == default
  {
    if |cs| == 0 then default
    else
      match FirstOfKind(cs[..|cs| - 1], kind)
      case Some(i) => if i == 0 then default else cs[i - 1].text
      case None => default
  }

  // ---------------------------------------------------------------------------
  // Filtering children by kind
  // ---------------------------------------------------------------------------

  /** The nodes of `cs` of kind `kind`, in their order in `cs`. */
  function OfKind(cs: seq<Node>, kind: string): (r: seq<Node>)
    ensures |r| <= |cs|
    ensures forall i :: 0 <= i < |r| ==> r[i].kind == kind && r[i] in cs
    ensures forall c :: c in cs && c.kind == kind ==> c in r
  {
    if cs == [] then []
    else (if cs[0].kind == kind then [cs[0]] else []) + OfKind(cs[1..], kind)
  }

  /** Filtering a list with one more node at its end. */
  lemma {:induction false} OfKindSnoc(cs: seq<Node>, c: Node, kind: string)
    ensures OfKind(cs + [c], kind) == OfKind(cs, kind) + (if c.kind == kind then [c] else [])
  {
    if cs == [] {
      assert [] + [c] == [c];
    } else {
      assert (cs + [c])[0] == cs[0];
      assert (cs + [c])[1..] == cs[1..] + [c];
      OfKindSnoc(cs[1..], c, kind);
    }
  }

  /** The children of kind `itemKind` of the nodes of kind `listKind` in `cs`, list by
      list and each list in order: the items of a `parameters` or a
      `field_declaration_list` child, say. */
  function Items(cs: seq<Node>, listKind: string, itemKind: string): (r: seq<Node>)
    ensures forall i :: 0 <= i < |r| ==> r[i].kind == itemKind
  {
    if cs == [] then []
    else
      var own := if cs[0].kind == listKind then OfKind(cs[0].children, itemKind) else [];
      own + Items(cs[1..], listKind, itemKind)
  }

  lemma {:induction false} ItemsSnoc(cs: seq<Node>, c: Node, listKind: string, itemKind: string)
    ensures Items(cs + [c], listKind, itemKind)
         == Items(cs, listKind, itemKind) + (if c.kind == listKind then OfKind(c.children, itemKind) else [])
  {
    if cs == [] {
      assert [] + [c] == [c];
    } else {
      assert (cs + [c])[0] == cs[0];
      assert (cs + [c])[1..] == cs[1..] + [c];
      ItemsSnoc(cs[1..], c, listKind, itemKind);
    }
  }

  // ---------------------------------------------------------------------------
  // Pre-order
  // ---------------------------------------------------------------------------

  /** Every node of the tree rooted at `n`, each before its children, children in
      source order. */
  function PreOrder(n: Node): (r: seq<Node>)
    ensures |r| >= 1 && r[0] == n
  {
    [n] + PreOrderAll(n.children)
  }

  /** The pre-orders of the trees in `ns`, one after the other. */
  function PreOrderAll(ns: seq<Node>): seq<Node>
  {
    if ns == [] then [] else PreOrder(ns[0]) + PreOrderAll(ns[1..])
  }

  /** The pre-order of a list of trees splits at any point of the list. */
  lemma {:induction false} PreOrderAllAppend(a: seq<Node>, b: seq<Node>)
    ensures PreOrderAll(a + b) == PreOrderAll(a) + PreOrderAll(b)
  {
    if a == [] {
      assert a + b == b;
    } else {
      assert (a + b)[0] == a[0];
      assert (a + b)[1..] == a[1..] + b;
      PreOrderAllAppend(a[1..], b);
    }
  }

  /** Every node of every tree in `ns` is in their pre-order. */
  lemma {:induction false} PreOrderAllHasTrees(ns: seq<Node>, k: nat, m: Node)
    requires k < |ns|
    requires m in PreOrder(ns[k])
    ensures m in PreOrderAll(ns)
  {
    if k > 0 {
      PreOrderAllHasTrees(ns[1..], k - 1, m);
    }
  }

  /** The descendants of a node's children are in the node's pre-order, after it. */
  lemma DescendantInPreOrder(n: Node, k: nat, m: Node)
    requires k < |n.children|
    requires m in PreOrder(n.children[k])
    ensures m in PreOrder(n)[1..]
  {
    PreOrderAllHasTrees(n.children, k, m);
    assert PreOrder(n)[1..] == PreOrderAll(n.children);
  }
}
