/** The bounded scan of YAML parser events: its stack of frames against the tree
    that the events come from. */
module YamlScan {
  import opened Options

  datatype Tag = StrTag | IntTag | BoolTag | NullTag | FloatTag | TimestampTag | MapTag | SeqTag | OtherTag

  /** A composed document without aliases. `lexical` says whether a scalar's text matches its tag. */
  datatype Node =
    | Scalar(text: string, tag: Tag, lexical: bool, anchored: bool)
    | Sequence(items: seq<Node>, tag: Tag, anchored: bool)
    | Mapping(pairs: seq<Pair>, tag: Tag, anchored: bool)

  datatype Pair = Pair(key: Node, value: Node)

  datatype Event =
    | ScalarEvent(text: string, tag: Tag, lexical: bool, anchored: bool)
    | SequenceStart(tag: Tag, anchored: bool)
    | MappingStart(tag: Tag, anchored: bool)
    | End

  datatype Part = Key(text: string) | Index(position: nat)

  type Path = seq<Part>

  const MAX_CONFIG_NODES := 100_000
  const MAX_CONFIG_DEPTH := 64
  const MAX_PATH_PART_LENGTH := 128
  const INVALID_KEY := "<invalid-key>"
  const MERGE_KEY := "<<"

  predicate IsControl(c: char) {
    (c as int) < 32 || c as int == 127
  }

  predicate ContainsControl(s: string) {
    exists i :: 0 <= i < |s| && IsControl(s[i])
  }

  /** `_event_key`: the text of a string scalar that is short and printable, or a placeholder. */
  function EventKey(e: Event): string {
    if e.ScalarEvent? && e.tag == StrTag && |e.text| <= MAX_PATH_PART_LENGTH && !ContainsControl(e.text)
    then e.text else INVALID_KEY
  }

  // ---------------------------------------------------------------------
  // The tree and its events
  // ---------------------------------------------------------------------

  function Head(n: Node): Event {
    match n
    case Scalar(text, tag, lexical, anchored) => ScalarEvent(text, tag, lexical, anchored)
    case Sequence(_, tag, anchored) => SequenceStart(tag, anchored)
    case Mapping(_, tag, anchored) => MappingStart(tag, anchored)
  }

  function Events(n: Node): seq<Event> {
    match n
    case Scalar(_, _, _, _) => [Head(n)]
    case Sequence(items, _, _) => [Head(n)] + ItemEvents(items) + [End]
    case Mapping(pairs, _, _) => [Head(n)] + PairsEvents(pairs) + [End]
  }

  function ItemEvents(items: seq<Node>): seq<Event> {
    if items == [] then [] else Events(items[0]) + ItemEvents(items[1..])
  }

  function PairsEvents(pairs: seq<Pair>): seq<Event> {
    if pairs == [] then [] else PairEvents(pairs[0]) + PairsEvents(pairs[1..])
  }

  function PairEvents(p: Pair): seq<Event> {
    Events(p.key) + Events(p.value)
  }

  /** What there is to know about one node: what it is, where it is, how deep, and whether it is a mapping key. */
  datatype Visit = Visit(event: Event, path: Path, depth: nat, isKey: bool)

  /** Every node of the tree in document order with its true depth and path. */
  function Walk(n: Node, path: Path, depth: nat, isKey: bool): seq<Visit>
    decreases n
  {
    [Visit(Head(n), path, depth, isKey)] +
    match n
    case Scalar(_, _, _, _) => []
    case Sequence(items, _, _) => WalkItems(items, 0, path, depth + 1)
    case Mapping(pairs, _, _) => WalkPairs(pairs, path, depth + 1)
  }

  function WalkItems(items: seq<Node>, index: nat, path: Path, depth: nat): seq<Visit>
    decreases items
  {
    if items == [] then []
    else Walk(items[0], path + [Index(index)], depth, false) + WalkItems(items[1..], index + 1, path, depth)
  }

  function WalkPairs(pairs: seq<Pair>, path: Path, depth: nat): seq<Visit>
    decreases pairs
  {
    if pairs == [] then [] else WalkPair(pairs[0], path, depth) + WalkPairs(pairs[1..], path, depth)
  }

  function WalkPair(p: Pair, path: Path, depth: nat): seq<Visit>
    decreases p
  {
    var at := path + [Key(EventKey(Head(p.key)))];
    Walk(p.key, at, depth, true) + Walk(p.value, at, depth, false)
  }

  // ---------------------------------------------------------------------
  // The stack of frames
  // ---------------------------------------------------------------------

  datatype Frame =
    | InSequence(path: Path, nextIndex: nat)
    | InMapping(path: Path, expectingKey: bool, pendingKey: string)

  datatype Consumed = Consumed(frames: seq<Frame>, path: Path, isKey: bool)

  /** `_consume_event_node`: the path of the next node, and the parent frame moved on. */
  function Consume(frames: seq<Frame>, e: Event): (c: Consumed)
    ensures |c.frames| == |frames|
  {
    if frames == [] then Consumed(frames, [], false)
    else
      var last := |frames| - 1;
      match frames[last]
      case InSequence(path, i) => Consumed(frames[last := InSequence(path, i + 1)], path + [Index(i)], false)
      case InMapping(path, true, _) =>
        Consumed(frames[last := InMapping(path, false, EventKey(e))], path + [Key(EventKey(e))], true)
      case InMapping(path, false, pending) =>
        Consumed(frames[last := InMapping(path, true, INVALID_KEY)], path + [Key(pending)], false)
  }

  function Push(frames: seq<Frame>, e: Event, path: Path): seq<Frame> {
    match e
    case SequenceStart(_, _) => frames + [InSequence(path, 0)]
    case MappingStart(_, _) => frames + [InMapping(path, true, INVALID_KEY)]
    case _ => frames
  }

  function Pop(frames: seq<Frame>): seq<Frame> {
    if frames == [] then frames else frames[..|frames| - 1]
  }

  /** The depth and path that the frames give to every node of an event sequence. */
  function Visits(frames: seq<Frame>, events: seq<Event>): seq<Visit>
    decreases |events|
  {
    if events == [] then []
    else if events[0] == End then Visits(Pop(frames), events[1..])
    else
      var c := Consume(frames, events[0]);
      [Visit(events[0], c.path, |frames| + 1, c.isKey)] + Visits(Push(c.frames, events[0], c.path), events[1..])
  }

  lemma VisitsEnd(frames: seq<Frame>, rest: seq<Event>)
    ensures Visits(frames, [End] + rest) == Visits(Pop(frames), rest)
  {
    assert ([End] + rest)[1..] == rest;
  }

  lemma VisitsHead(frames: seq<Frame>, e: Event, rest: seq<Event>)
    requires e != End
    ensures var c := Consume(frames, e);
      Visits(frames, [e] + rest) ==
        [Visit(e, c.path, |frames| + 1, c.isKey)] + Visits(Push(c.frames, e, c.path), rest)
  {
    assert ([e] + rest)[1..] == rest;
  }

  /** The frames give the nodes below one node exactly the depths and paths of the tree, and are then as
      if one node had been consumed. */
  lemma {:induction false} VisitsNode(n: Node, frames: seq<Frame>, rest: seq<Event>)
    ensures var c := Consume(frames, Head(n));
      Visits(frames, Events(n) + rest) == Walk(n, c.path, |frames| + 1, c.isKey) + Visits(c.frames, rest)
    decreases n
  {
    match n
    case Scalar(_, _, _, _) => VisitsHead(frames, Head(n), rest);
    case Sequence(_, _, _) => VisitsSequence(n, frames, rest);
    case Mapping(_, _, _) => VisitsMapping(n, frames, rest);
  }

  lemma Assoc<T>(a: seq<T>, b: seq<T>, c: seq<T>)
    ensures (a + b) + c == a + (b + c)
  {
  }

  lemma SequenceEvents(n: Node, rest: seq<Event>)
    requires n.Sequence?
    ensures Events(n) + rest == [Head(n)] + (ItemEvents(n.items) + ([End] + rest))
  {
    var body := ItemEvents(n.items);
    Assoc([Head(n)] + body, [End], rest);
    Assoc([Head(n)], body, [End] + rest);
  }

  lemma MappingEvents(n: Node, rest: seq<Event>)
    requires n.Mapping?
    ensures Events(n) + rest == [Head(n)] + (PairsEvents(n.pairs) + ([End] + rest))
  {
    var body := PairsEvents(n.pairs);
    Assoc([Head(n)] + body, [End], rest);
    Assoc([Head(n)], body, [End] + rest);
  }

  lemma {:induction false} VisitsSequence(n: Node, frames: seq<Frame>, rest: seq<Event>)
    requires n.Sequence?
    ensures var c := Consume(frames, Head(n));
      Visits(frames, Events(n) + rest) == Walk(n, c.path, |frames| + 1, c.isKey) + Visits(c.frames, rest)
    decreases n, 0
  {
    var c := Consume(frames, Head(n));
    SequenceEvents(n, rest);
    VisitsHead(frames, Head(n), ItemEvents(n.items) + ([End] + rest));
    VisitsItems(n.items, 0, c.frames, c.path, rest);
    Assoc([Visit(Head(n), c.path, |frames| + 1, c.isKey)], WalkItems(n.items, 0, c.path, |frames| + 2),
          Visits(c.frames, rest));
  }

  lemma {:induction false} VisitsMapping(n: Node, frames: seq<Frame>, rest: seq<Event>)
    requires n.Mapping?
    ensures var c := Consume(frames, Head(n));
      Visits(frames, Events(n) + rest) == Walk(n, c.path, |frames| + 1, c.isKey) + Visits(c.frames, rest)
    decreases n, 0
  {
    var c := Consume(frames, Head(n));
    MappingEvents(n, rest);
    VisitsHead(frames, Head(n), PairsEvents(n.pairs) + ([End] + rest));
    VisitsPairs(n.pairs, c.frames, c.path, rest);
    Assoc([Visit(Head(n), c.path, |frames| + 1, c.isKey)], WalkPairs(n.pairs, c.path, |frames| + 2),
          Visits(c.frames, rest));
  }

  lemma PopLast(below: seq<Frame>, f: Frame)
    ensures Pop(below + [f]) == below
  {
  }

  lemma ConsumeItem(below: seq<Frame>, path: Path, index: nat, e: Event)
    ensures Consume(below + [InSequence(path, index)], e)
         == Consumed(below + [InSequence(path, index + 1)], path + [Index(index)], false)
  {
  }

  lemma ConsumePair(below: seq<Frame>, path: Path, e: Event, f: Event)
    ensures var frames, middle :=
        below + [InMapping(path, true, INVALID_KEY)], below + [InMapping(path, false, EventKey(e))];
      && Consume(frames, e) == Consumed(middle, path + [Key(EventKey(e))], true)
      && Consume(middle, f) == Consumed(frames, path + [Key(EventKey(e))], false)
  {
  }

  lemma {:induction false} VisitsItems(items: seq<Node>, index: nat, below: seq<Frame>, path: Path, rest: seq<Event>)
    ensures Visits(below + [InSequence(path, index)], ItemEvents(items) + ([End] + rest))
         == WalkItems(items, index, path, |below| + 2) + Visits(below, rest)
    decreases items
  {
    var frames, tail := below + [InSequence(path, index)], [End] + rest;
    if items == [] {
      assert ItemEvents(items) + tail == tail;
      VisitsEnd(frames, rest);
      PopLast(below, InSequence(path, index));
    } else {
      var more := ItemEvents(items[1..]) + tail;
      Assoc(Events(items[0]), ItemEvents(items[1..]), tail);
      ConsumeItem(below, path, index, Head(items[0]));
      VisitsNode(items[0], frames, more);
      VisitsItems(items[1..], index + 1, below, path, rest);
      Assoc(Walk(items[0], path + [Index(index)], |below| + 2, false),
            WalkItems(items[1..], index + 1, path, |below| + 2), Visits(below, rest));
    }
  }

  lemma {:induction false} VisitsPairs(pairs: seq<Pair>, below: seq<Frame>, path: Path, rest: seq<Event>)
    ensures Visits(below + [InMapping(path, true, INVALID_KEY)], PairsEvents(pairs) + ([End] + rest))
         == WalkPairs(pairs, path, |below| + 2) + Visits(below, rest)
    decreases pairs
  {
    var frames, tail := below + [InMapping(path, true, INVALID_KEY)], [End] + rest;
    if pairs == [] {
      assert PairsEvents(pairs) + tail == tail;
      VisitsEnd(frames, rest);
      PopLast(below, InMapping(path, true, INVALID_KEY));
    } else {
      Assoc(PairEvents(pairs[0]), PairsEvents(pairs[1..]), tail);
      VisitsPair(pairs[0], below, path, PairsEvents(pairs[1..]) + tail);
      VisitsPairs(pairs[1..], below, path, rest);
      Assoc(WalkPair(pairs[0], path, |below| + 2), WalkPairs(pairs[1..], path, |below| + 2), Visits(below, rest));
    }
  }

  lemma {:induction false} VisitsPair(p: Pair, below: seq<Frame>, path: Path, rest: seq<Event>)
    ensures var frames := below + [InMapping(path, true, INVALID_KEY)];
      Visits(frames, PairEvents(p) + rest) == WalkPair(p, path, |below| + 2) + Visits(frames, rest)
    decreases p
  {
    var frames := below + [InMapping(path, true, INVALID_KEY)];
    var middle := below + [InMapping(path, false, EventKey(Head(p.key)))];
    var at := path + [Key(EventKey(Head(p.key)))];
    ConsumePair(below, path, Head(p.key), Head(p.value));
    Assoc(Events(p.key), Events(p.value), rest);
    VisitsNode(p.key, frames, Events(p.value) + rest);
    VisitsNode(p.value, middle, rest);
    Assoc(Walk(p.key, at, |below| + 2, true), Walk(p.value, at, |below| + 2, false), Visits(frames, rest));
  }

  /** Over a whole document the frames give every node its true depth and path. */
  lemma FramesFollowTree(root: Node)
    ensures Visits([], Events(root)) == Walk(root, [], 1, false)
  {
    VisitsNode(root, [], []);
    assert Events(root) + [] == Events(root);
    assert Visits([], []) == [];
  }

  // ---------------------------------------------------------------------
  // The scan
  // ---------------------------------------------------------------------

  datatype Code = NodeLimit | DepthLimit | AnchorUsed | MergeKeyUsed | BadTag | NonStringKey | DuplicateKey

  /** A limit is reported for the document as a whole. */
  datatype Diagnostic = Diagnostic(code: Code, path: Path)

  function Report(code: Code, path: Path): Diagnostic {
    Diagnostic(code, if code == NodeLimit || code == DepthLimit then [] else path)
  }

  predicate TagFits(e: Event) {
    match e
    case ScalarEvent(_, tag, lexical, _) => tag in {StrTag, NullTag, BoolTag, IntTag} && lexical
    case SequenceStart(tag, _) => tag == SeqTag
    case MappingStart(tag, _) => tag == MapTag
    case End => true
  }

  predicate IsMergeKey(v: Visit) {
    v.isKey && v.event.ScalarEvent? && v.event.text == MERGE_KEY
  }

  predicate IsAnchored(e: Event) {
    e != End && e.anchored
  }

  /** The first objection to a node that is the `count`-th of the document. */
  function Problem(v: Visit, count: nat): Option<Code> {
    if count > MAX_CONFIG_NODES then Some(NodeLimit)
    else if v.depth > MAX_CONFIG_DEPTH then Some(DepthLimit)
    else if IsAnchored(v.event) then Some(AnchorUsed)
    else if IsMergeKey(v) then Some(MergeKeyUsed)
    else if !TagFits(v.event) then Some(BadTag)
    else None
  }

  function Diagnose(visits: seq<Visit>, count: nat): Option<Diagnostic> {
    if visits == [] then None
    else
      var problem := Problem(visits[0], count + 1);
      if problem.Some? then Some(Report(problem.value, visits[0].path)) else Diagnose(visits[1..], count + 1)
  }

  /** `_scan_yaml` over the events of a document without aliases; none means accepted. */
  method Scan(events: seq<Event>) returns (r: Option<Diagnostic>)
    ensures r == Diagnose(Visits([], events), 0)
  {
    var frames: seq<Frame> := [];
    var count := 0;
    for i := 0 to |events|
      invariant Diagnose(Visits([], events), 0) == Diagnose(Visits(frames, events[i..]), count)
    {
      var e := events[i];
      assert events[i..][0] == e && events[i..][1..] == events[i + 1..];
      if e == End {
        frames := Pop(frames);
      } else {
        count := count + 1;
        var c := Consume(frames, e);
        ghost var visit := Visit(e, c.path, |frames| + 1, c.isKey);
        assert Visits(frames, events[i..]) == [visit] + Visits(Push(c.frames, e, c.path), events[i + 1..]);
        assert Visits(frames, events[i..])[1..] == Visits(Push(c.frames, e, c.path), events[i + 1..]);
        if count > MAX_CONFIG_NODES {
          return Some(Diagnostic(NodeLimit, []));
        }
        if |frames| + 1 > MAX_CONFIG_DEPTH {
          return Some(Diagnostic(DepthLimit, []));
        }
        if e.anchored {
          return Some(Diagnostic(AnchorUsed, c.path));
        }
        if c.isKey && e.ScalarEvent? && e.text == MERGE_KEY {
          return Some(Diagnostic(MergeKeyUsed, c.path));
        }
        if !TagFits(e) {
          return Some(Diagnostic(BadTag, c.path));
        }
        frames := Push(c.frames, e, c.path);
      }
    }
    return None;
  }

  /** What every node of an accepted document satisfies. */
  predicate Unobjectionable(v: Visit) {
    v.depth <= MAX_CONFIG_DEPTH && !IsAnchored(v.event) && !IsMergeKey(v) && TagFits(v.event)
  }

  lemma {:induction false} DiagnoseNone(visits: seq<Visit>, count: nat)
    ensures Diagnose(visits, count) == None <==>
      && (visits == [] || count + |visits| <= MAX_CONFIG_NODES)
      && forall i :: 0 <= i < |visits| ==> Unobjectionable(visits[i])
  {
    if visits != [] {
      DiagnoseNone(visits[1..], count + 1);
      assert forall i :: 0 < i < |visits| ==> visits[i] == visits[1..][i - 1];
      assert Problem(visits[0], count + 1) == None <==>
        count + 1 <= MAX_CONFIG_NODES && Unobjectionable(visits[0]);
      if forall i :: 0 <= i < |visits| ==> Unobjectionable(visits[i]) {
        forall i | 0 <= i < |visits[1..]| ensures Unobjectionable(visits[1..][i]) {
          assert visits[1..][i] == visits[i + 1];
        }
      }
    }
  }

  /** The scan accepts a document exactly if it has few enough nodes and no node, at its true depth, is
      objectionable. */
  lemma ScanAcceptsIff(root: Node)
    ensures Diagnose(Visits([], Events(root)), 0) == None <==>
      var walk := Walk(root, [], 1, false);
      |walk| <= MAX_CONFIG_NODES && forall i :: 0 <= i < |walk| ==> Unobjectionable(walk[i])
  {
    FramesFollowTree(root);
    DiagnoseNone(Walk(root, [], 1, false), 0);
  }
}
