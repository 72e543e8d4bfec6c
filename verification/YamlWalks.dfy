/** The two walks after the scan, over the composed nodes and over the constructed
    document, and what the scan guarantees about them. */
module YamlWalks {
  import opened Options
  import opened YamlScan
  import opened Stacks

  const MAX_DIAGNOSTICS := 50

  // ---------------------------------------------------------------------
  // Limits on the composed nodes
  // ---------------------------------------------------------------------

  /** The nodes that the node walk visits: mapping keys are not among them. */
  function ValueNodes(n: Node): nat {
    match n
    case Scalar(_, _, _, _) => 1
    case Sequence(items, _, _) => 1 + ItemNodes(items)
    case Mapping(pairs, _, _) => 1 + PairNodes(pairs)
  }

  function ItemNodes(items: seq<Node>): nat {
    if items == [] then 0 else ValueNodes(items[0]) + ItemNodes(items[1..])
  }

  function PairNodes(pairs: seq<Pair>): nat {
    if pairs == [] then 0 else PairNode(pairs[0]) + PairNodes(pairs[1..])
  }

  function PairNode(p: Pair): nat {
    ValueNodes(p.value)
  }

  function Values(pairs: seq<Pair>): (vs: seq<Node>)
    ensures |vs| == |pairs| && forall i :: 0 <= i < |pairs| ==> vs[i] == pairs[i].value
  {
    seq(|pairs|, i requires 0 <= i < |pairs| => pairs[i].value)
  }

  function Children(n: Node): seq<Node> {
    match n
    case Scalar(_, _, _, _) => []
    case Sequence(items, _, _) => items
    case Mapping(pairs, _, _) => Values(pairs)
  }

  lemma {:induction false} PairNodesAre(pairs: seq<Pair>)
    ensures PairNodes(pairs) == ItemNodes(Values(pairs))
  {
    if pairs != [] {
      PairNodesAre(pairs[1..]);
      assert Values(pairs)[1..] == Values(pairs[1..]);
    }
  }

  lemma ValueNodesAre(n: Node)
    ensures ValueNodes(n) == 1 + ItemNodes(Children(n))
  {
    if n.Mapping? { PairNodesAre(n.pairs); }
  }

  predicate DepthFits(n: Node, depth: nat)
    decreases n
  {
    && depth <= MAX_CONFIG_DEPTH
    && match n
       case Scalar(_, _, _, _) => true
       case Sequence(items, _, _) => forall i :: 0 <= i < |items| ==> DepthFits(items[i], depth + 1)
       case Mapping(pairs, _, _) => forall i :: 0 <= i < |pairs| ==> DepthFits(pairs[i].value, depth + 1)
  }

  ghost predicate AllDepthFit(ns: seq<Node>, depth: nat) {
    forall i :: 0 <= i < |ns| ==> DepthFits(ns[i], depth)
  }

  lemma DepthByNode(n: Node, depth: nat)
    ensures DepthFits(n, depth) <==> depth <= MAX_CONFIG_DEPTH && AllDepthFit(Children(n), depth + 1)
  {
    if n.Mapping? {
      if DepthFits(n, depth) {
        forall i | 0 <= i < |n.pairs| ensures DepthFits(Children(n)[i], depth + 1) {
          assert DepthFits(n.pairs[i].value, depth + 1);
        }
      }
      if depth <= MAX_CONFIG_DEPTH && AllDepthFit(Children(n), depth + 1) {
        forall i | 0 <= i < |n.pairs| ensures DepthFits(n.pairs[i].value, depth + 1) {
          assert DepthFits(Children(n)[i], depth + 1);
        }
      }
    }
  }

  predicate WithinLimits(n: Node) {
    ValueNodes(n) <= MAX_CONFIG_NODES && DepthFits(n, 1)
  }

  // ---------------------------------------------------------------------
  // What the scan guarantees
  // ---------------------------------------------------------------------

  ghost predicate Shallow(walk: seq<Visit>) {
    forall i :: 0 <= i < |walk| ==> walk[i].depth <= MAX_CONFIG_DEPTH
  }

  lemma ShallowSplit(a: seq<Visit>, b: seq<Visit>)
    ensures Shallow(a + b) <==> Shallow(a) && Shallow(b)
  {
    if Shallow(a + b) {
      forall i | 0 <= i < |a| ensures a[i].depth <= MAX_CONFIG_DEPTH { assert (a + b)[i] == a[i]; }
      forall i | 0 <= i < |b| ensures b[i].depth <= MAX_CONFIG_DEPTH { assert (a + b)[|a| + i] == b[i]; }
    }
  }

  lemma {:induction false} WalkBounds(n: Node, path: Path, depth: nat, isKey: bool)
    ensures |Walk(n, path, depth, isKey)| >= ValueNodes(n)
    ensures Shallow(Walk(n, path, depth, isKey)) ==> DepthFits(n, depth)
    decreases n
  {
    var first := [Visit(Head(n), path, depth, isKey)];
    match n
    case Scalar(_, _, _, _) => assert Walk(n, path, depth, isKey)[0].depth == depth;
    case Sequence(items, _, _) =>
      WalkItemsBounds(items, 0, path, depth + 1);
      ShallowSplit(first, WalkItems(items, 0, path, depth + 1));
      assert first[0].depth == depth;
    case Mapping(pairs, _, _) =>
      WalkPairsBounds(pairs, path, depth + 1);
      ShallowSplit(first, WalkPairs(pairs, path, depth + 1));
      assert first[0].depth == depth;
  }

  lemma {:induction false} WalkItemsBounds(items: seq<Node>, index: nat, path: Path, depth: nat)
    ensures |WalkItems(items, index, path, depth)| >= ItemNodes(items)
    ensures Shallow(WalkItems(items, index, path, depth)) ==> AllDepthFit(items, depth)
    decreases items
  {
    if items != [] {
      var at := path + [Index(index)];
      WalkBounds(items[0], at, depth, false);
      WalkItemsBounds(items[1..], index + 1, path, depth);
      ShallowSplit(Walk(items[0], at, depth, false), WalkItems(items[1..], index + 1, path, depth));
      if Shallow(WalkItems(items, index, path, depth)) {
        forall i | 0 <= i < |items| ensures DepthFits(items[i], depth) {
          if i > 0 { assert items[i] == items[1..][i - 1]; }
        }
      }
    }
  }

  lemma {:induction false} WalkPairsBounds(pairs: seq<Pair>, path: Path, depth: nat)
    ensures |WalkPairs(pairs, path, depth)| >= PairNodes(pairs)
    ensures Shallow(WalkPairs(pairs, path, depth)) ==> forall i :: 0 <= i < |pairs| ==> DepthFits(pairs[i].value, depth)
    decreases pairs
  {
    if pairs != [] {
      WalkPairBounds(pairs[0], path, depth);
      WalkPairsBounds(pairs[1..], path, depth);
      ShallowSplit(WalkPair(pairs[0], path, depth), WalkPairs(pairs[1..], path, depth));
      if Shallow(WalkPairs(pairs, path, depth)) {
        forall i | 0 <= i < |pairs| ensures DepthFits(pairs[i].value, depth) {
          if i > 0 { assert pairs[i] == pairs[1..][i - 1]; }
        }
      }
    }
  }

  lemma {:induction false} WalkPairBounds(p: Pair, path: Path, depth: nat)
    ensures |WalkPair(p, path, depth)| >= PairNode(p)
    ensures Shallow(WalkPair(p, path, depth)) ==> DepthFits(p.value, depth)
    decreases p
  {
    var at := path + [Key(EventKey(Head(p.key)))];
    WalkBounds(p.value, at, depth, false);
    ShallowSplit(Walk(p.key, at, depth, true), Walk(p.value, at, depth, false));
  }

  /** A document that the scan accepts cannot exceed the node or depth limit of the node walk. */
  lemma ScanBoundsNodeWalk(root: Node)
    requires Diagnose(Visits([], Events(root)), 0) == None
    ensures WithinLimits(root)
  {
    ScanAcceptsIff(root);
    WalkBounds(root, [], 1, false);
  }

  // ---------------------------------------------------------------------
  // The node walk
  // ---------------------------------------------------------------------

  predicate StringKey(n: Node) {
    n.Scalar? && n.tag == StrTag
  }

  /** Keys are strings, none is the merge key, and none repeats. */
  predicate KeysClean(pairs: seq<Pair>) {
    && (forall i :: 0 <= i < |pairs| ==> StringKey(pairs[i].key) && pairs[i].key.text != MERGE_KEY)
    && (forall i, j :: 0 <= i < j < |pairs| && pairs[i].key.Scalar? && pairs[j].key.Scalar? ==>
          pairs[i].key.text != pairs[j].key.text)
  }

  predicate NodeClean(n: Node) {
    TagFits(Head(n)) && (n.Mapping? ==> KeysClean(n.pairs))
  }

  /** No value node of the tree deserves a structural diagnostic. */
  predicate TreeClean(n: Node) {
    && NodeClean(n)
    && match n
       case Scalar(_, _, _, _) => true
       case Sequence(items, _, _) => forall i :: 0 <= i < |items| ==> TreeClean(items[i])
       case Mapping(pairs, _, _) => forall i :: 0 <= i < |pairs| ==> TreeClean(pairs[i].value)
  }

  datatype Item = Item(node: Node, path: Path, depth: nat)

  function Add(ds: seq<Diagnostic>, d: Diagnostic): (r: seq<Diagnostic>)
    ensures r != []
  {
    if |ds| < MAX_DIAGNOSTICS then ds + [d] else ds
  }

  predicate IsLimit(d: Diagnostic) {
    d.code == NodeLimit || d.code == DepthLimit
  }

  predicate NoLimits(ds: seq<Diagnostic>) {
    forall i :: 0 <= i < |ds| ==> !IsLimit(ds[i])
  }

  // ---------------------------------------------------------------------
  // What the node walk has to say
  // ---------------------------------------------------------------------

  /** The value nodes of a tree in the order of the document, each with its path and depth. */
  function Preorder(n: Node, path: Path, depth: nat): seq<Item> {
    [Item(n, path, depth)] +
    match n
    case Scalar(_, _, _, _) => []
    case Sequence(items, _, _) => PreorderItems(items, 0, path, depth + 1)
    case Mapping(pairs, _, _) => PreorderPairs(pairs, path, depth + 1)
  }

  function PreorderItems(items: seq<Node>, index: nat, path: Path, depth: nat): seq<Item> {
    if items == [] then []
    else Preorder(items[0], path + [Index(index)], depth) + PreorderItems(items[1..], index + 1, path, depth)
  }

  function PreorderPairs(pairs: seq<Pair>, path: Path, depth: nat): seq<Item> {
    if pairs == [] then [] else PreorderPair(pairs[0], path, depth) + PreorderPairs(pairs[1..], path, depth)
  }

  function PreorderPair(p: Pair, path: Path, depth: nat): seq<Item> {
    Preorder(p.value, if StringKey(p.key) then path + [Key(p.key.text)] else path, depth)
  }

  /** What is wrong with the last key of a mapping, in view of the others. */
  function LastKeyComplaint(pairs: seq<Pair>, path: Path): seq<Diagnostic>
    requires pairs != []
  {
    var i := |pairs| - 1;
    var key := pairs[i].key;
    if !StringKey(key) then [Diagnostic(NonStringKey, path)]
    else if key.text == MERGE_KEY then [Diagnostic(MergeKeyUsed, path + [Key(key.text)])]
    else if exists j :: 0 <= j < i && StringKey(pairs[j].key) && pairs[j].key.text == key.text then
      [Diagnostic(DuplicateKey, path + [Key(key.text)])]
    else []
  }

  function KeyComplaints(pairs: seq<Pair>, path: Path): seq<Diagnostic> {
    if pairs == [] then [] else KeyComplaints(pairs[..|pairs| - 1], path) + LastKeyComplaint(pairs, path)
  }

  function Complaints(item: Item): seq<Diagnostic> {
    (if TagFits(Head(item.node)) then [] else [Diagnostic(BadTag, item.path)]) +
    (if item.node.Mapping? then KeyComplaints(item.node.pairs, item.path) else [])
  }

  function AllComplaints(items: seq<Item>): seq<Diagnostic> {
    if items == [] then [] else AllComplaints(items[..|items| - 1]) + Complaints(items[|items| - 1])
  }

  /** The first fifty. */
  function Capped(ds: seq<Diagnostic>): seq<Diagnostic> {
    if |ds| <= 50 then ds else ds[..50]
  }

  lemma CappedTwice(a: seq<Diagnostic>, b: seq<Diagnostic>)
    ensures Capped(Capped(a) + b) == Capped(a + b)
  {
  }

  lemma KeysCleanLast(pairs: seq<Pair>, path: Path)
    requires pairs != []
    ensures KeysClean(pairs) <==> KeysClean(pairs[..|pairs| - 1]) && LastKeyComplaint(pairs, path) == []
  {
    var n := |pairs| - 1;
    var front := pairs[..n];
    assert forall i :: 0 <= i < n ==> front[i] == pairs[i];
    if KeysClean(pairs) {
      forall j | 0 <= j < n ensures pairs[j].key.text != pairs[n].key.text {
        assert StringKey(pairs[j].key) && StringKey(pairs[n].key);
      }
    }
  }

  lemma {:induction false} KeysCleanIff(pairs: seq<Pair>, path: Path)
    ensures KeyComplaints(pairs, path) == [] <==> KeysClean(pairs)
  {
    if pairs != [] {
      KeysCleanIff(pairs[..|pairs| - 1], path);
      KeysCleanLast(pairs, path);
    }
  }

  predicate CleanAt(item: Item) {
    NodeClean(item.node)
  }

  predicate DepthAt(item: Item) {
    item.depth <= MAX_CONFIG_DEPTH
  }

  lemma ComplaintsClean(item: Item)
    ensures Complaints(item) == [] <==> CleanAt(item)
  {
    if item.node.Mapping? { KeysCleanIff(item.node.pairs, item.path); }
  }

  lemma {:induction false} NoComplaints(items: seq<Item>)
    ensures AllComplaints(items) == [] <==> All(CleanAt, items)
  {
    if items != [] {
      var front, last := items[..|items| - 1], items[|items| - 1];
      NoComplaints(front);
      ComplaintsClean(last);
      assert All(CleanAt, items) <==> All(CleanAt, front) && CleanAt(last) by {
        assert items == front + [last] && [last][0] == last;
        AllAppend(CleanAt, front, [last]);
      }
    }
  }

  /** The walk in document order meets every value node once, at its depth. */
  lemma {:induction false} PreorderMeets(n: Node, path: Path, depth: nat)
    ensures var p := Preorder(n, path, depth);
      |p| == ValueNodes(n) && (All(DepthAt, p) <==> DepthFits(n, depth)) && (All(CleanAt, p) <==> TreeClean(n))
  {
    var item := Item(n, path, depth);
    match n
    case Scalar(_, _, _, _) =>
      AllFirst(DepthAt, item, []);
      AllFirst(CleanAt, item, []);
    case Sequence(items, _, _) =>
      PreorderItemsMeet(items, 0, path, depth + 1);
      AllFirst(DepthAt, item, PreorderItems(items, 0, path, depth + 1));
      AllFirst(CleanAt, item, PreorderItems(items, 0, path, depth + 1));
    case Mapping(pairs, _, _) =>
      PreorderPairsMeet(pairs, path, depth + 1);
      AllFirst(DepthAt, item, PreorderPairs(pairs, path, depth + 1));
      AllFirst(CleanAt, item, PreorderPairs(pairs, path, depth + 1));
  }

  lemma {:induction false} PreorderItemsMeet(items: seq<Node>, index: nat, path: Path, depth: nat)
    ensures var p := PreorderItems(items, index, path, depth);
      && |p| == ItemNodes(items)
      && (All(DepthAt, p) <==> forall i :: 0 <= i < |items| ==> DepthFits(items[i], depth))
      && (All(CleanAt, p) <==> forall i :: 0 <= i < |items| ==> TreeClean(items[i]))
  {
    if items != [] {
      var at := path + [Index(index)];
      PreorderMeets(items[0], at, depth);
      PreorderItemsMeet(items[1..], index + 1, path, depth);
      AllAppend(DepthAt, Preorder(items[0], at, depth), PreorderItems(items[1..], index + 1, path, depth));
      AllAppend(CleanAt, Preorder(items[0], at, depth), PreorderItems(items[1..], index + 1, path, depth));
      assert forall i :: 0 < i < |items| ==> items[i] == items[1..][i - 1];
      assert forall i :: 0 <= i < |items[1..]| ==> items[1..][i] == items[i + 1];
    }
  }

  lemma {:induction false} PreorderPairsMeet(pairs: seq<Pair>, path: Path, depth: nat)
    ensures var p := PreorderPairs(pairs, path, depth);
      && |p| == PairNodes(pairs)
      && (All(DepthAt, p) <==> forall i :: 0 <= i < |pairs| ==> DepthFits(pairs[i].value, depth))
      && (All(CleanAt, p) <==> forall i :: 0 <= i < |pairs| ==> TreeClean(pairs[i].value))
  {
    if pairs != [] {
      var first, rest := PreorderPair(pairs[0], path, depth), PreorderPairs(pairs[1..], path, depth);
      PreorderPairMeets(pairs[0], path, depth);
      PreorderPairsMeet(pairs[1..], path, depth);
      AllAppend(DepthAt, first, rest);
      AllAppend(CleanAt, first, rest);
      assert forall i :: 0 < i < |pairs| ==> pairs[i] == pairs[1..][i - 1];
      assert forall i :: 0 <= i < |pairs[1..]| ==> pairs[1..][i] == pairs[i + 1];
    }
  }

  lemma {:induction false} PreorderPairMeets(p: Pair, path: Path, depth: nat)
    ensures |PreorderPair(p, path, depth)| == PairNode(p)
    ensures All(DepthAt, PreorderPair(p, path, depth)) <==> DepthFits(p.value, depth)
    ensures All(CleanAt, PreorderPair(p, path, depth)) <==> TreeClean(p.value)
  {
    PreorderMeets(p.value, if StringKey(p.key) then path + [Key(p.key.text)] else path, depth);
  }

  // ---------------------------------------------------------------------
  // The walk itself
  // ---------------------------------------------------------------------

  /** The loop over the pairs of one mapping. */
  method CheckPairs(pairs: seq<Pair>, path: Path, depth: nat, before: seq<Diagnostic>)
    returns (children: seq<Item>, diagnostics: seq<Diagnostic>)
    requires |before| <= 50
    ensures |children| == |pairs|
    ensures forall i :: 0 <= i < |pairs| ==> IsValueOf(pairs[i], path, depth, children[i])
    ensures diagnostics == Capped(before + KeyComplaints(pairs, path))
  {
    var seen: set<string> := {};
    children, diagnostics := [], before;
    for n := 0 to |pairs|
      invariant |children| == n
      invariant forall i :: 0 <= i < n ==> IsValueOf(pairs[i], path, depth, children[i])
      invariant seen == PlainKeys(pairs[..n])
      invariant diagnostics == Capped(before + KeyComplaints(pairs[..n], path))
    {
      var key, value := pairs[n].key, pairs[n].value;
      PairStep(pairs, n, path, before);
      if !StringKey(key) {
        diagnostics := Add(diagnostics, Diagnostic(NonStringKey, path));
        children := children + [Item(value, path, depth)];
      } else if key.text == MERGE_KEY {
        diagnostics := Add(diagnostics, Diagnostic(MergeKeyUsed, path + [Key(key.text)]));
        children := children + [Item(value, path + [Key(key.text)], depth)];
      } else if key.text in seen {
        diagnostics := Add(diagnostics, Diagnostic(DuplicateKey, path + [Key(key.text)]));
        children := children + [Item(value, path + [Key(key.text)], depth)];
      } else {
        seen := seen + {key.text};
        children := children + [Item(value, path + [Key(key.text)], depth)];
      }
    }
    assert pairs[..|pairs|] == pairs;
  }

  predicate IsValueOf(p: Pair, path: Path, depth: nat, item: Item) {
    item == Item(p.value, if StringKey(p.key) then path + [Key(p.key.text)] else path, depth)
  }

  /** The keys that a mapping has so far put to use. */
  ghost function PlainKeys(pairs: seq<Pair>): set<string> {
    set i | 0 <= i < |pairs| && StringKey(pairs[i].key) && pairs[i].key.text != MERGE_KEY :: pairs[i].key.text
  }

  predicate IsPlain(p: Pair) {
    StringKey(p.key) && p.key.text != MERGE_KEY
  }

  lemma PlainKeysStep(pairs: seq<Pair>, n: nat)
    requires n < |pairs|
    ensures PlainKeys(pairs[..n + 1]) ==
      PlainKeys(pairs[..n]) + if IsPlain(pairs[n]) then {pairs[n].key.text} else {}
  {
    var few, more := pairs[..n], pairs[..n + 1];
    assert more[n] == pairs[n] && forall i :: 0 <= i < n ==> more[i] == few[i];
  }

  /** A plain key is a duplicate exactly if it is among the keys before it. */
  lemma DuplicateIff(pairs: seq<Pair>, n: nat, path: Path)
    requires n < |pairs| && IsPlain(pairs[n])
    ensures LastKeyComplaint(pairs[..n + 1], path) ==
      if pairs[n].key.text in PlainKeys(pairs[..n])
      then [Diagnostic(DuplicateKey, path + [Key(pairs[n].key.text)])] else []
  {
    var few, more := pairs[..n], pairs[..n + 1];
    assert more[n] == pairs[n] && forall i :: 0 <= i < n ==> more[i] == few[i];
  }

  lemma PairStep(pairs: seq<Pair>, n: nat, path: Path, before: seq<Diagnostic>)
    requires n < |pairs|
    ensures PlainKeys(pairs[..n + 1]) ==
      PlainKeys(pairs[..n]) + if IsPlain(pairs[n]) then {pairs[n].key.text} else {}
    ensures var now := Capped(before + KeyComplaints(pairs[..n], path));
      Capped(before + KeyComplaints(pairs[..n + 1], path)) ==
        if !StringKey(pairs[n].key) then Add(now, Diagnostic(NonStringKey, path))
        else if pairs[n].key.text == MERGE_KEY then Add(now, Diagnostic(MergeKeyUsed, path + [Key(pairs[n].key.text)]))
        else if pairs[n].key.text in PlainKeys(pairs[..n]) then
          Add(now, Diagnostic(DuplicateKey, path + [Key(pairs[n].key.text)]))
        else now
  {
    var few, more := pairs[..n], pairs[..n + 1];
    var last := LastKeyComplaint(more, path);
    assert more[..n] == few && more[n] == pairs[n];
    PlainKeysStep(pairs, n);
    if IsPlain(pairs[n]) { DuplicateIff(pairs, n, path); }
    CappedTwice(before + KeyComplaints(few, path), last);
    assert before + KeyComplaints(more, path) == before + KeyComplaints(few, path) + last;
    CappedAdd(Capped(before + KeyComplaints(few, path)), last);
  }

  lemma CappedAdd(ds: seq<Diagnostic>, last: seq<Diagnostic>)
    requires |ds| <= 50 && |last| <= 1
    ensures Capped(ds + last) == if last == [] then ds else Add(ds, last[0])
  {
  }

  function NodesBelow(item: Item): nat {
    ValueNodes(item.node)
  }

  predicate DepthBelow(item: Item) {
    DepthFits(item.node, item.depth)
  }

  function Reverse(items: seq<Item>): (r: seq<Item>)
    ensures |r| == |items| && forall i :: 0 <= i < |items| ==> r[i] == items[|items| - 1 - i]
  {
    if items == [] then [] else Reverse(items[1..]) + [items[0]]
  }

  /** Popping a node and pushing its children, in whatever order, leaves what is said of the whole as it was. */
  lemma PopPush(rest: seq<Item>, item: Item, pushed: seq<Item>)
    requires Total(NodesBelow, pushed) == ItemNodes(Children(item.node))
    requires All(DepthBelow, pushed) <==> AllDepthFit(Children(item.node), item.depth + 1)
    ensures Total(NodesBelow, rest + [item]) == 1 + Total(NodesBelow, rest + pushed)
    ensures All(DepthBelow, rest + [item]) <==> item.depth <= MAX_CONFIG_DEPTH && All(DepthBelow, rest + pushed)
  {
    OneEntry(NodesBelow, item);
    TotalAppend(NodesBelow, rest, [item]);
    TotalAppend(NodesBelow, rest, pushed);
    AllAppend(DepthBelow, rest, [item]);
    AllAppend(DepthBelow, rest, pushed);
    assert [item][0] == item;
    ValueNodesAre(item.node);
    DepthByNode(item.node, item.depth);
  }

  function Enumerate(items: seq<Node>, path: Path, depth: nat): (r: seq<Item>)
    ensures |r| == |items| && forall i :: 0 <= i < |items| ==> r[i] == Item(items[i], path + [Index(i)], depth)
  {
    seq(|items|, i requires 0 <= i < |items| => Item(items[i], path + [Index(i)], depth))
  }

  /** `kids` are the value nodes right below `item`, with their paths. */
  predicate AreKids(item: Item, kids: seq<Item>) {
    match item.node
    case Scalar(_, _, _, _) => kids == []
    case Sequence(items, _, _) => kids == Enumerate(items, item.path, item.depth + 1)
    case Mapping(pairs, _, _) =>
      |kids| == |pairs| && forall i :: 0 <= i < |pairs| ==> IsValueOf(pairs[i], item.path, item.depth + 1, kids[i])
  }

  /** What a stack still has to visit, from the top down. */
  ghost function Ahead(stack: seq<Item>): (r: seq<Item>)
    ensures stack != [] ==> r != []
  {
    if stack == [] then []
    else
      var top := stack[|stack| - 1];
      Preorder(top.node, top.path, top.depth) + Ahead(stack[..|stack| - 1])
  }

  ghost function Below(kids: seq<Item>): seq<Item> {
    if kids == [] then [] else Preorder(kids[0].node, kids[0].path, kids[0].depth) + Below(kids[1..])
  }

  lemma {:induction false} AheadReverse(rest: seq<Item>, kids: seq<Item>)
    ensures Ahead(rest + Reverse(kids)) == Below(kids) + Ahead(rest)
  {
    if kids == [] {
      assert rest + Reverse(kids) == rest;
    } else {
      var stack := rest + Reverse(kids);
      assert stack == (rest + Reverse(kids[1..])) + [kids[0]];
      assert stack[..|stack| - 1] == rest + Reverse(kids[1..]);
      AheadReverse(rest, kids[1..]);
    }
  }

  lemma {:induction false} BelowItems(items: seq<Node>, index: nat, path: Path, depth: nat, kids: seq<Item>)
    requires |kids| == |items|
    requires forall i :: 0 <= i < |items| ==> kids[i] == Item(items[i], path + [Index(index + i)], depth)
    ensures Below(kids) == PreorderItems(items, index, path, depth)
  {
    if items != [] {
      BelowItems(items[1..], index + 1, path, depth, kids[1..]);
    }
  }

  lemma {:induction false} BelowPairs(pairs: seq<Pair>, path: Path, depth: nat, kids: seq<Item>)
    requires |kids| == |pairs|
    requires forall i :: 0 <= i < |pairs| ==> IsValueOf(pairs[i], path, depth, kids[i])
    ensures Below(kids) == PreorderPairs(pairs, path, depth)
  {
    if pairs != [] {
      assert IsValueOf(pairs[0], path, depth, kids[0]);
      BelowPairs(pairs[1..], path, depth, kids[1..]);
    }
  }

  lemma PreorderBelow(item: Item, kids: seq<Item>)
    requires AreKids(item, kids)
    ensures Preorder(item.node, item.path, item.depth) == [item] + Below(kids)
  {
    match item.node
    case Scalar(_, _, _, _) =>
    case Sequence(items, _, _) => BelowItems(items, 0, item.path, item.depth + 1, kids);
    case Mapping(pairs, _, _) => BelowPairs(pairs, item.path, item.depth + 1, kids);
  }

  lemma AheadTop(rest: seq<Item>, item: Item)
    ensures Ahead(rest + [item]) == Preorder(item.node, item.path, item.depth) + Ahead(rest)
  {
    assert (rest + [item])[..|rest|] == rest;
  }

  lemma Regroup(a: seq<Item>, b: seq<Item>, c: seq<Item>)
    ensures (a + b) + c == a + (b + c)
  {
  }

  /** Popping a node and pushing its children in reverse leaves what is ahead, but for that node. */
  lemma AheadStep(rest: seq<Item>, item: Item, kids: seq<Item>)
    requires AreKids(item, kids)
    ensures Ahead(rest + [item]) == [item] + Ahead(rest + Reverse(kids))
  {
    AheadTop(rest, item);
    AheadReverse(rest, kids);
    PreorderBelow(item, kids);
    Regroup([item], Below(kids), Ahead(rest));
  }

  lemma NodeStep(item: Item, before: seq<Diagnostic>)
    requires |before| <= 50
    ensures var tagged := if TagFits(Head(item.node)) then before else Add(before, Diagnostic(BadTag, item.path));
      Capped(before + Complaints(item)) ==
        if item.node.Mapping? then Capped(tagged + KeyComplaints(item.node.pairs, item.path)) else tagged
  {
    var tags := if TagFits(Head(item.node)) then [] else [Diagnostic(BadTag, item.path)];
    CappedAdd(before, tags);
    if item.node.Mapping? {
      CappedTwice(before + tags, KeyComplaints(item.node.pairs, item.path));
      assert before + Complaints(item) == before + tags + KeyComplaints(item.node.pairs, item.path);
    } else {
      assert Complaints(item) == tags;
    }
  }

  /** The diagnostics of one node and the children to go on with. */
  method CheckNode(item: Item, before: seq<Diagnostic>) returns (kids: seq<Item>, diagnostics: seq<Diagnostic>)
    requires |before| <= 50
    ensures AreKids(item, kids)
    ensures diagnostics == Capped(before + Complaints(item))
  {
    diagnostics := before;
    if !TagFits(Head(item.node)) {
      diagnostics := Add(diagnostics, Diagnostic(BadTag, item.path));
    }
    NodeStep(item, before);
    match item.node {
      case Scalar(_, _, _, _) => kids := [];
      case Sequence(items, _, _) => kids := Enumerate(items, item.path, item.depth + 1);
      case Mapping(pairs, _, _) =>
        kids, diagnostics := CheckPairs(pairs, item.path, item.depth + 1, diagnostics);
    }
  }

  /** Within the first nodes that the walk counts, one lies too deep. */
  ghost predicate TooDeep(p: seq<Item>) {
    exists i :: 0 <= i < |p| && i < MAX_CONFIG_NODES && p[i].depth > MAX_CONFIG_DEPTH
  }

  ghost predicate Reports(p: seq<Item>, r: seq<Diagnostic>) {
    if TooDeep(p) then r == [Diagnostic(DepthLimit, [])]
    else if |p| > MAX_CONFIG_NODES then r == [Diagnostic(NodeLimit, [])]
    else r == Capped(AllComplaints(p))
  }

  lemma ComplaintsStep(p: seq<Item>, n: nat)
    requires n < |p|
    ensures Capped(AllComplaints(p[..n + 1])) == Capped(Capped(AllComplaints(p[..n])) + Complaints(p[n]))
  {
    assert p[..n + 1][..n] == p[..n];
    CappedTwice(AllComplaints(p[..n]), Complaints(p[n]));
  }

  /** The walk has met the first `n` nodes, none of them too deep, and has reported on them. */
  ghost predicate Met(p: seq<Item>, n: nat, stack: seq<Item>, r: seq<Diagnostic>) {
    && n <= MAX_CONFIG_NODES && n <= |p|
    && p[n..] == Ahead(stack)
    && (forall i :: 0 <= i < n ==> p[i].depth <= MAX_CONFIG_DEPTH)
    && r == Capped(AllComplaints(p[..n]))
  }

  lemma TopIsNext(p: seq<Item>, n: nat, rest: seq<Item>, item: Item, r: seq<Diagnostic>)
    requires Met(p, n, rest + [item], r)
    ensures n < |p| && p[n] == item
  {
    AheadTop(rest, item);
    assert p[n..][0] == item;
  }

  lemma MetStep(p: seq<Item>, n: nat, rest: seq<Item>, item: Item, r: seq<Diagnostic>, kids: seq<Item>)
    requires Met(p, n, rest + [item], r) && AreKids(item, kids)
    requires n < MAX_CONFIG_NODES && item.depth <= MAX_CONFIG_DEPTH
    ensures Met(p, n + 1, rest + Reverse(kids), Capped(r + Complaints(item)))
  {
    TopIsNext(p, n, rest, item, r);
    AheadStep(rest, item, kids);
    ComplaintsStep(p, n);
    assert p[n + 1..] == p[n..][1..];
  }

  /** Where the walk ends, its report is the one due. */
  lemma MetAll(p: seq<Item>, n: nat, r: seq<Diagnostic>)
    requires Met(p, n, [], r)
    ensures Reports(p, r)
  {
    assert p[n..] == [];
    assert p[..n] == p;
  }

  /** `_validate_yaml_nodes`: a limit exactly on a tree beyond it, the depth limit if the walk meets a node too deep
      among those that it may count; else the first fifty complaints in document order. */
  method ValidateNodes(root: Node) returns (r: seq<Diagnostic>)
    ensures Reports(Preorder(root, [], 1), r)
    ensures r == [] <==> TreeClean(root) && WithinLimits(root)
    ensures NoLimits(r) <==> WithinLimits(root)
  {
    ghost var p := Preorder(root, [], 1);
    var stack := [Item(root, [], 1)];
    var count := 0;
    r := [];
    AheadTop([], stack[0]);
    assert [] + stack == stack && p[0..] == p;
    while stack != []
      invariant Met(p, count, stack, r)
      decreases |p| - count
    {
      var item := stack[|stack| - 1];
      var rest := stack[..|stack| - 1];
      assert stack == rest + [item];
      TopIsNext(p, count, rest, item, r);
      count := count + 1;
      if count > MAX_CONFIG_NODES {
        r := [Diagnostic(NodeLimit, [])];
        NodeWalkMeaning(root, r);
        return;
      }
      if item.depth > MAX_CONFIG_DEPTH {
        r := [Diagnostic(DepthLimit, [])];
        NodeWalkMeaning(root, r);
        return;
      }
      var kids, diagnostics := CheckNode(item, r);
      MetStep(p, count - 1, rest, item, r, kids);
      r := diagnostics;
      stack := rest + Reverse(kids);
    }
    MetAll(p, count, r);
    NodeWalkMeaning(root, r);
  }

  /** The walk reports nothing exactly on a clean tree within the limits, and a limit exactly on a tree beyond them. */
  lemma NodeWalkMeaning(root: Node, r: seq<Diagnostic>)
    requires Reports(Preorder(root, [], 1), r)
    ensures r == [] <==> TreeClean(root) && WithinLimits(root)
    ensures NoLimits(r) <==> WithinLimits(root)
  {
    var p := Preorder(root, [], 1);
    PreorderMeets(root, [], 1);
    NoComplaints(p);
    NoLimitComplaints(p);
    if TooDeep(p) {
      var i :| 0 <= i < |p| && i < MAX_CONFIG_NODES && p[i].depth > MAX_CONFIG_DEPTH;
      assert !DepthAt(p[i]) && IsLimit(r[0]);
    } else if |p| > MAX_CONFIG_NODES {
      assert IsLimit(r[0]);
    }
  }

  lemma {:induction false} NoLimitKeys(pairs: seq<Pair>, path: Path)
    ensures NoLimits(KeyComplaints(pairs, path))
  {
    if pairs != [] { NoLimitKeys(pairs[..|pairs| - 1], path); }
  }

  lemma {:induction false} NoLimitComplaints(items: seq<Item>)
    ensures NoLimits(AllComplaints(items))
  {
    if items != [] {
      var last := items[|items| - 1];
      NoLimitComplaints(items[..|items| - 1]);
      if last.node.Mapping? { NoLimitKeys(last.node.pairs, last.path); }
    }
  }

  // ---------------------------------------------------------------------
  // Construction
  // ---------------------------------------------------------------------

  /** `result[key] = value`: an earlier entry of the same key keeps its place and loses its value. */
  function Put(pairs: seq<Pair>, key: Node, value: Node): seq<Pair> {
    if pairs == [] then [Pair(key, value)]
    else if pairs[0].key.Scalar? && key.Scalar? && pairs[0].key.text == key.text then
      [Pair(pairs[0].key, value)] + pairs[1..]
    else [pairs[0]] + Put(pairs[1..], key, value)
  }

  /** `_construct_json_document`. The document is written as a tree of the same kind: a dictionary is a mapping
      whose keys are distinct strings, a leaf keeps the tag that gives it its type. */
  function Construct(n: Node): Node {
    match n
    case Scalar(_, _, _, _) => n
    case Sequence(items, tag, anchored) =>
      Sequence(seq(|items|, i requires 0 <= i < |items| => Construct(items[i])), tag, anchored)
    case Mapping(pairs, tag, anchored) => Mapping(ConstructPairs(pairs), tag, anchored)
  }

  function ConstructPairs(pairs: seq<Pair>): seq<Pair> {
    if pairs == [] then []
    else Put(ConstructPairs(pairs[..|pairs| - 1]), pairs[|pairs| - 1].key, ConstructPair(pairs[|pairs| - 1]))
  }

  function ConstructPair(p: Pair): Node {
    Construct(p.value)
  }

  lemma {:induction false} PutNew(pairs: seq<Pair>, key: Node, value: Node)
    requires key.Scalar? && forall i :: 0 <= i < |pairs| ==> pairs[i].key.Scalar? && pairs[i].key.text != key.text
    ensures Put(pairs, key, value) == pairs + [Pair(key, value)]
  {
    if pairs != [] {
      PutNew(pairs[1..], key, value);
      assert pairs == [pairs[0]] + pairs[1..];
    }
  }

  /** Where the node walk reports nothing, construction drops no entry: every pair is there, in order, with its
      value. */
  lemma {:induction false} NoEntryDropped(pairs: seq<Pair>)
    requires KeysClean(pairs)
    ensures |ConstructPairs(pairs)| == |pairs|
    ensures forall i :: 0 <= i < |pairs| ==> ConstructPairs(pairs)[i] == Pair(pairs[i].key, Construct(pairs[i].value))
  {
    if pairs != [] {
      var front, last := pairs[..|pairs| - 1], pairs[|pairs| - 1];
      NoEntryDropped(front);
      forall i | 0 <= i < |front|
        ensures ConstructPairs(front)[i].key.Scalar? && ConstructPairs(front)[i].key.text != last.key.text
      {
        assert ConstructPairs(front)[i].key == pairs[i].key;
      }
      PutNew(ConstructPairs(front), last.key, ConstructPair(last));
    }
  }

  /** Construction reproduces a clean tree whole: nothing is dropped, reordered or merged at any level. */
  lemma {:induction false} ConstructKeeps(n: Node)
    requires TreeClean(n)
    ensures Construct(n) == n
  {
    match n
    case Scalar(_, _, _, _) =>
    case Sequence(items, _, _) =>
      forall i | 0 <= i < |items| ensures Construct(items[i]) == items[i] { ConstructKeeps(items[i]); }
      assert Construct(n).items == items;
    case Mapping(pairs, _, _) =>
      NoEntryDropped(pairs);
      forall i | 0 <= i < |pairs| ensures ConstructPairs(pairs)[i] == pairs[i] { ConstructKeeps(pairs[i].value); }
      assert ConstructPairs(pairs) == pairs;
  }

  // ---------------------------------------------------------------------
  // The walk over the document
  // ---------------------------------------------------------------------

  function Level(ns: seq<Node>, depth: nat): (r: seq<Item>)
    ensures |r| == |ns| && forall i :: 0 <= i < |ns| ==> r[i] == Item(ns[i], [], depth)
  {
    seq(|ns|, i requires 0 <= i < |ns| => Item(ns[i], [], depth))
  }

  lemma {:induction false} LevelNodes(ns: seq<Node>, depth: nat)
    ensures Total(NodesBelow, Level(ns, depth)) == ItemNodes(ns)
  {
    if ns != [] {
      var rest := Level(ns[1..], depth);
      LevelNodes(ns[1..], depth);
      OneEntry(NodesBelow, Item(ns[0], [], depth));
      TotalAppend(NodesBelow, [Item(ns[0], [], depth)], rest);
      assert Level(ns, depth) == [Item(ns[0], [], depth)] + rest;
    }
  }

  lemma LevelDepth(ns: seq<Node>, depth: nat)
    ensures All(DepthBelow, Level(ns, depth)) <==> AllDepthFit(ns, depth)
  {
    if All(DepthBelow, Level(ns, depth)) {
      forall i | 0 <= i < |ns| ensures DepthFits(ns[i], depth) { assert Level(ns, depth)[i].node == ns[i]; }
    }
  }

  lemma PopPushLevel(rest: seq<Item>, item: Item)
    ensures var pushed := Level(Children(item.node), item.depth + 1);
      && Total(NodesBelow, rest + [item]) == 1 + Total(NodesBelow, rest + pushed)
      && (All(DepthBelow, rest + [item]) <==> item.depth <= MAX_CONFIG_DEPTH && All(DepthBelow, rest + pushed))
  {
    LevelNodes(Children(item.node), item.depth + 1);
    LevelDepth(Children(item.node), item.depth + 1);
    PopPush(rest, item, Level(Children(item.node), item.depth + 1));
  }

  /** `resource_limit_diagnostic` on a document; true means no diagnostic. */
  method ResourcesFit(document: Node) returns (ok: bool)
    ensures ok <==> WithinLimits(document)
  {
    var stack := [Item(document, [], 1)];
    var count := 0;
    OneEntry(NodesBelow, stack[0]);
    while stack != []
      invariant count <= MAX_CONFIG_NODES
      invariant WithinLimits(document) <==>
        count + Total(NodesBelow, stack) <= MAX_CONFIG_NODES && All(DepthBelow, stack)
      decreases Total(NodesBelow, stack)
    {
      var item := stack[|stack| - 1];
      var rest := stack[..|stack| - 1];
      var pushed := Level(Children(item.node), item.depth + 1);
      assert stack == rest + [item];
      PopPushLevel(rest, item);
      count := count + 1;
      if count > MAX_CONFIG_NODES {
        return false;
      }
      if item.depth > MAX_CONFIG_DEPTH {
        return false;
      }
      stack := rest + pushed;
    }
    return true;
  }

  /** A document that the scan accepts stays within the limits of both later walks: over its composed nodes, and,
      where the node walk found it clean, over what is constructed from it. */
  lemma ScanBoundsLaterWalks(root: Node)
    requires Diagnose(Visits([], Events(root)), 0) == None
    ensures WithinLimits(root)
    ensures TreeClean(root) ==> WithinLimits(Construct(root))
  {
    ScanBoundsNodeWalk(root);
    if TreeClean(root) { ConstructKeeps(root); }
  }
}
