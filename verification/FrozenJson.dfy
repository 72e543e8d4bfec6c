/** The bounded canonical JSON profile: the check with an explicit stack, deep
    freezing, and thawing. */
module FrozenJson {
  import opened Options
  import opened Text
  import opened Stacks

  datatype Key = Name(text: Chars) | NotText

  /** A Python value. `Tuple` is any tuple that is not a frozen array, `Other` any value outside the profile. */
  datatype Value =
    | Null
    | Bool(flag: bool)
    | Int(number: int)
    | Str(text: Chars)
    | List(items: seq<Value>)
    | FrozenArray(items: seq<Value>)
    | Tuple(items: seq<Value>)
    | Dict(entries: seq<Entry>)
    | FrozenDict(entries: seq<Entry>)
    | Other

  datatype Entry = Entry(key: Key, value: Value)

  const MAX_SAFE_INTEGER := 0x1F_FFFF_FFFF_FFFF
  const MAX_STRING_LENGTH := 4096
  const MAX_ITEMS := 1000
  const MAX_KEY_LENGTH := 256
  const MAX_DEPTH := 64
  const MAX_NODES := 100_000

  predicate KeyFits(k: Key) {
    k.Name? && |k.text| <= MAX_KEY_LENGTH
  }

  /** The profile, said recursively: depth, ranges, sizes and kinds. */
  predicate Within(v: Value, depth: nat)
    decreases v
  {
    depth <= MAX_DEPTH &&
    match v
    case Null => true
    case Bool(_) => true
    case Int(n) => -MAX_SAFE_INTEGER <= n <= MAX_SAFE_INTEGER
    case Str(s) => |s| <= MAX_STRING_LENGTH
    case List(items) => |items| <= MAX_ITEMS && forall i :: 0 <= i < |items| ==> Within(items[i], depth + 1)
    case FrozenArray(items) => forall i :: 0 <= i < |items| ==> Within(items[i], depth + 1)
    case Dict(es) =>
      |es| <= MAX_ITEMS && forall i :: 0 <= i < |es| ==> KeyFits(es[i].key) && Within(es[i].value, depth + 1)
    case FrozenDict(es) =>
      |es| <= MAX_ITEMS && forall i :: 0 <= i < |es| ==> KeyFits(es[i].key) && Within(es[i].value, depth + 1)
    case _ => false
  }

  /** The nodes below and including `v` that the profile counts. */
  function Nodes(v: Value): nat {
    match v
    case List(items) => 1 + ItemNodes(items)
    case FrozenArray(items) => 1 + ItemNodes(items)
    case Dict(es) => 1 + EntryNodes(es)
    case FrozenDict(es) => 1 + EntryNodes(es)
    case _ => 1
  }

  function ItemNodes(items: seq<Value>): nat {
    if items == [] then 0 else Nodes(items[0]) + ItemNodes(items[1..])
  }

  function EntryNodes(es: seq<Entry>): nat {
    if es == [] then 0 else EntryNode(es[0]) + EntryNodes(es[1..])
  }

  function EntryNode(e: Entry): nat {
    Nodes(e.value)
  }

  predicate Accepts(v: Value) {
    Within(v, 1) && Nodes(v) <= MAX_NODES
  }

  // ---------------------------------------------------------------------
  // The explicit stack
  // ---------------------------------------------------------------------

  datatype Frame = Frame(value: Value, depth: nat)

  function FrameNodes(f: Frame): nat {
    Nodes(f.value)
  }

  predicate FrameWithin(f: Frame) {
    Within(f.value, f.depth)
  }

  /** The children in reverse, so that the first is popped first. */
  function Reversed(items: seq<Value>, depth: nat): (r: seq<Frame>)
    ensures forall f :: f in r <==> exists x :: x in items && f == Frame(x, depth)
  {
    if items == [] then [] else Reversed(items[1..], depth) + [Frame(items[0], depth)]
  }

  function EntryValues(es: seq<Entry>): (vs: seq<Value>)
    ensures |vs| == |es| && forall i :: 0 <= i < |es| ==> vs[i] == es[i].value
  {
    seq(|es|, i requires 0 <= i < |es| => es[i].value)
  }

  lemma {:induction false} ReversedNodes(items: seq<Value>, depth: nat)
    ensures Total(FrameNodes, Reversed(items, depth)) == ItemNodes(items)
  {
    if items != [] {
      ReversedNodes(items[1..], depth);
      var r := Reversed(items[1..], depth);
      assert (r + [Frame(items[0], depth)])[..|r|] == r;
    }
  }

  lemma {:induction false} EntryNodesAre(es: seq<Entry>)
    ensures EntryNodes(es) == ItemNodes(EntryValues(es))
  {
    if es != [] {
      EntryNodesAre(es[1..]);
      assert EntryValues(es)[1..] == EntryValues(es[1..]);
    }
  }

  /** The values below a node that the loop pushes. */
  function Children(v: Value): seq<Value> {
    match v
    case List(items) => items
    case FrozenArray(items) => items
    case Dict(es) => EntryValues(es)
    case FrozenDict(es) => EntryValues(es)
    case _ => []
  }

  /** What the loop checks of one node before it goes on to the children. */
  predicate NodeFits(v: Value, depth: nat) {
    depth <= MAX_DEPTH &&
    match v
    case Null => true
    case Bool(_) => true
    case Int(n) => -MAX_SAFE_INTEGER <= n <= MAX_SAFE_INTEGER
    case Str(s) => |s| <= MAX_STRING_LENGTH
    case List(items) => |items| <= MAX_ITEMS
    case FrozenArray(_) => true
    case Dict(es) => |es| <= MAX_ITEMS && forall i :: 0 <= i < |es| ==> KeyFits(es[i].key)
    case FrozenDict(es) => |es| <= MAX_ITEMS && forall i :: 0 <= i < |es| ==> KeyFits(es[i].key)
    case _ => false
  }

  ghost predicate AllWithin(vs: seq<Value>, depth: nat) {
    forall i :: 0 <= i < |vs| ==> Within(vs[i], depth)
  }

  lemma EntriesWithin(v: Value, depth: nat)
    requires v.Dict? || v.FrozenDict?
    ensures Within(v, depth) <==> NodeFits(v, depth) && AllWithin(EntryValues(v.entries), depth + 1)
  {
    var es, vs := v.entries, EntryValues(v.entries);
    if Within(v, depth) {
      forall i | 0 <= i < |vs| ensures Within(vs[i], depth + 1) {
        assert Within(es[i].value, depth + 1);
      }
    }
    if NodeFits(v, depth) && AllWithin(vs, depth + 1) {
      forall i | 0 <= i < |es| ensures KeyFits(es[i].key) && Within(es[i].value, depth + 1) {
        assert Within(vs[i], depth + 1);
      }
    }
  }

  lemma WithinByNode(v: Value, depth: nat)
    ensures Within(v, depth) <==> NodeFits(v, depth) && AllWithin(Children(v), depth + 1)
    ensures NodeFits(v, depth) ==> Nodes(v) == 1 + ItemNodes(Children(v))
  {
    if v.Dict? || v.FrozenDict? {
      EntryNodesAre(v.entries);
      EntriesWithin(v, depth);
    }
  }

  /** Popping one node that fits and pushing its children leaves the verdict on the whole as it was. */
  lemma PopPush(rest: seq<Frame>, v: Value, depth: nat)
    requires NodeFits(v, depth)
    ensures var stack, pushed := rest + [Frame(v, depth)], rest + Reversed(Children(v), depth + 1);
      && Total(FrameNodes, stack) == 1 + Total(FrameNodes, pushed)
      && (All(FrameWithin, stack) <==> All(FrameWithin, pushed))
  {
    var top, below := [Frame(v, depth)], Reversed(Children(v), depth + 1);
    WithinByNode(v, depth);
    TotalAppend(FrameNodes, rest, top);
    TotalAppend(FrameNodes, rest, below);
    OneEntry(FrameNodes, top[0]);
    ReversedNodes(Children(v), depth + 1);
    ChildrenWithin(v, depth);
    AllAppend(FrameWithin, rest, top);
    AllAppend(FrameWithin, rest, below);
  }

  lemma ChildrenWithin(v: Value, depth: nat)
    ensures All(FrameWithin, Reversed(Children(v), depth + 1)) <==> AllWithin(Children(v), depth + 1)
  {
    var r := Reversed(Children(v), depth + 1);
    if All(FrameWithin, r) {
      forall i | 0 <= i < |Children(v)| ensures Within(Children(v)[i], depth + 1) {
        assert Frame(Children(v)[i], depth + 1) in r;
      }
    }
    if AllWithin(Children(v), depth + 1) {
      forall j | 0 <= j < |r| ensures Within(r[j].value, r[j].depth) {
        assert r[j] in r;
      }
    }
  }

  lemma StackTop(stack: seq<Frame>)
    requires stack != []
    ensures Total(FrameNodes, stack) >= 1
    ensures All(FrameWithin, stack) ==> NodeFits(stack[|stack| - 1].value, stack[|stack| - 1].depth)
  {
    WithinByNode(stack[|stack| - 1].value, stack[|stack| - 1].depth);
  }

  // ---------------------------------------------------------------------
  // Freezing and thawing
  // ---------------------------------------------------------------------

  /** `_freeze_validated_json` */
  function Frozen(v: Value): Value {
    match v
    case List(items) => FrozenArray(seq(|items|, i requires 0 <= i < |items| => Frozen(items[i])))
    case FrozenArray(items) => FrozenArray(seq(|items|, i requires 0 <= i < |items| => Frozen(items[i])))
    case Dict(es) => FrozenDict(seq(|es|, i requires 0 <= i < |es| => Entry(es[i].key, Frozen(es[i].value))))
    case FrozenDict(es) => FrozenDict(seq(|es|, i requires 0 <= i < |es| => Entry(es[i].key, Frozen(es[i].value))))
    case _ => v
  }

  /** `thaw_canonical_json` */
  function Thawed(v: Value): Value {
    match v
    case FrozenArray(items) => List(seq(|items|, i requires 0 <= i < |items| => Thawed(items[i])))
    case Tuple(items) => List(seq(|items|, i requires 0 <= i < |items| => Thawed(items[i])))
    case FrozenDict(es) => Dict(seq(|es|, i requires 0 <= i < |es| => Entry(es[i].key, Thawed(es[i].value))))
    case _ => v
  }

  /** `freeze_canonical_json`; none is the raised error. The loop accepts exactly the recursive profile. */
  method Freeze(v: Value) returns (r: Option<Value>)
    ensures r == if Accepts(v) then Some(Frozen(v)) else None
    ensures r.Some? ==> IsFrozen(r.value) && SameContent(v, r.value)
  {
    var stack := [Frame(v, 1)];
    var nodes := 0;
    OneEntry(FrameNodes, stack[0]);
    while stack != []
      invariant nodes <= MAX_NODES
      invariant Accepts(v) <==> nodes + Total(FrameNodes, stack) <= MAX_NODES && All(FrameWithin, stack)
      decreases Total(FrameNodes, stack)
    {
      var Frame(current, depth) := stack[|stack| - 1];
      ghost var rest := stack[..|stack| - 1];
      assert stack == rest + [Frame(current, depth)];
      StackTop(stack);
      stack, nodes := stack[..|stack| - 1], nodes + 1;
      if nodes > MAX_NODES {
        return None;
      }
      if !NodeFits(current, depth) {
        return None;
      }
      PopPush(rest, current, depth);
      stack := stack + Reversed(Children(current), depth + 1);
    }
    FrozenIff(v, Frozen(v));
    return Some(Frozen(v));
  }

  /** Nested lists and dictionaries only. */
  predicate Plain(v: Value) {
    match v
    case List(items) => forall i :: 0 <= i < |items| ==> Plain(items[i])
    case Dict(es) => forall i :: 0 <= i < |es| ==> Plain(es[i].value)
    case FrozenArray(_) => false
    case Tuple(_) => false
    case FrozenDict(_) => false
    case _ => true
  }

  // ---------------------------------------------------------------------
  // What freezing and thawing mean
  // ---------------------------------------------------------------------

  /** Every array at or below the value is a frozen array and every object a frozen dictionary. */
  predicate IsFrozen(v: Value) {
    match v
    case FrozenArray(items) => forall i :: 0 <= i < |items| ==> IsFrozen(items[i])
    case FrozenDict(es) => forall i :: 0 <= i < |es| ==> IsFrozen(es[i].value)
    case List(_) => false
    case Tuple(_) => false
    case Dict(_) => false
    case _ => true
  }

  predicate IsArray(v: Value) {
    v.List? || v.FrozenArray? || v.Tuple?
  }

  predicate IsObject(v: Value) {
    v.Dict? || v.FrozenDict?
  }

  /** The same scalars, items in the same order and entries with the same keys in the same order, whatever the arrays
      and objects are made of. */
  predicate SameContent(a: Value, b: Value) {
    if IsArray(a) then
      IsArray(b) && |a.items| == |b.items| && forall i :: 0 <= i < |a.items| ==> SameContent(a.items[i], b.items[i])
    else if IsObject(a) then
      IsObject(b) && |a.entries| == |b.entries|
      && forall i :: 0 <= i < |a.entries| ==>
           a.entries[i].key == b.entries[i].key && SameContent(a.entries[i].value, b.entries[i].value)
    else b == a
  }

  /** Made of what freezing accepts: no other tuple, nothing outside the profile. */
  predicate Freezable(v: Value) {
    match v
    case List(items) => forall i :: 0 <= i < |items| ==> Freezable(items[i])
    case FrozenArray(items) => forall i :: 0 <= i < |items| ==> Freezable(items[i])
    case Dict(es) => forall i :: 0 <= i < |es| ==> Freezable(es[i].value)
    case FrozenDict(es) => forall i :: 0 <= i < |es| ==> Freezable(es[i].value)
    case Tuple(_) => false
    case Other => false
    case _ => true
  }

  lemma {:induction false} WithinFreezable(v: Value, depth: nat)
    requires Within(v, depth)
    ensures Freezable(v)
    decreases v
  {
    match v
    case List(items) =>
      forall i | 0 <= i < |items| ensures Freezable(items[i]) { WithinFreezable(items[i], depth + 1); }
    case FrozenArray(items) =>
      forall i | 0 <= i < |items| ensures Freezable(items[i]) { WithinFreezable(items[i], depth + 1); }
    case Dict(es) =>
      forall i | 0 <= i < |es| ensures Freezable(es[i].value) { WithinFreezable(es[i].value, depth + 1); }
    case FrozenDict(es) =>
      forall i | 0 <= i < |es| ensures Freezable(es[i].value) { WithinFreezable(es[i].value, depth + 1); }
    case _ =>
  }

  lemma {:induction false} FrozenIs(v: Value)
    requires Freezable(v)
    ensures IsFrozen(Frozen(v)) && SameContent(v, Frozen(v))
  {
    match v
    case List(items) =>
      forall i | 0 <= i < |items| ensures IsFrozen(Frozen(items[i])) && SameContent(items[i], Frozen(items[i])) {
        FrozenIs(items[i]);
      }
    case FrozenArray(items) =>
      forall i | 0 <= i < |items| ensures IsFrozen(Frozen(items[i])) && SameContent(items[i], Frozen(items[i])) {
        FrozenIs(items[i]);
      }
    case Dict(es) =>
      forall i | 0 <= i < |es| ensures IsFrozen(Frozen(es[i].value)) && SameContent(es[i].value, Frozen(es[i].value)) {
        FrozenIs(es[i].value);
      }
    case FrozenDict(es) =>
      forall i | 0 <= i < |es| ensures IsFrozen(Frozen(es[i].value)) && SameContent(es[i].value, Frozen(es[i].value)) {
        FrozenIs(es[i].value);
      }
    case _ =>
  }

  /** Content and frozenness leave nothing open. */
  lemma {:induction false} FrozenUnique(v: Value, a: Value, b: Value)
    requires SameContent(v, a) && SameContent(v, b) && IsFrozen(a) && IsFrozen(b)
    ensures a == b
    decreases v
  {
    if IsArray(v) {
      forall i | 0 <= i < |v.items| ensures a.items[i] == b.items[i] {
        FrozenUnique(v.items[i], a.items[i], b.items[i]);
      }
      assert a.items == b.items;
    } else if IsObject(v) {
      forall i | 0 <= i < |v.entries| ensures a.entries[i] == b.entries[i] {
        FrozenUnique(v.entries[i].value, a.entries[i].value, b.entries[i].value);
      }
      assert a.entries == b.entries;
    }
  }

  /** The result of freezing an accepted value is the only frozen value of the same content. */
  lemma FrozenIff(v: Value, w: Value)
    requires Accepts(v)
    ensures w == Frozen(v) <==> IsFrozen(w) && SameContent(v, w)
  {
    WithinFreezable(v, 1);
    FrozenIs(v);
    if IsFrozen(w) && SameContent(v, w) { FrozenUnique(v, w, Frozen(v)); }
  }

  lemma {:induction false} ThawedIs(v: Value)
    requires IsFrozen(v)
    ensures Plain(Thawed(v)) && SameContent(v, Thawed(v))
  {
    match v
    case FrozenArray(items) =>
      forall i | 0 <= i < |items| ensures Plain(Thawed(items[i])) && SameContent(items[i], Thawed(items[i])) {
        ThawedIs(items[i]);
      }
    case FrozenDict(es) =>
      forall i | 0 <= i < |es| ensures Plain(Thawed(es[i].value)) && SameContent(es[i].value, Thawed(es[i].value)) {
        ThawedIs(es[i].value);
      }
    case _ =>
  }

  lemma {:induction false} PlainUnique(v: Value, a: Value, b: Value)
    requires SameContent(v, a) && SameContent(v, b) && Plain(a) && Plain(b)
    ensures a == b
    decreases v
  {
    if IsArray(v) {
      forall i | 0 <= i < |v.items| ensures a.items[i] == b.items[i] {
        PlainUnique(v.items[i], a.items[i], b.items[i]);
      }
      assert a.items == b.items;
    } else if IsObject(v) {
      forall i | 0 <= i < |v.entries| ensures a.entries[i] == b.entries[i] {
        PlainUnique(v.entries[i].value, a.entries[i].value, b.entries[i].value);
      }
      assert a.entries == b.entries;
    }
  }

  /** The result of thawing a frozen value is the only plain value of the same content. */
  lemma ThawedIff(v: Value, w: Value)
    requires IsFrozen(v)
    ensures w == Thawed(v) <==> Plain(w) && SameContent(v, w)
  {
    ThawedIs(v);
    if Plain(w) && SameContent(v, w) { PlainUnique(v, w, Thawed(v)); }
  }

  /** Thawing what was frozen gives a plain value back. */
  lemma {:induction false} ThawFreeze(v: Value)
    requires Plain(v)
    ensures Thawed(Frozen(v)) == v
  {
    match v
    case List(items) =>
      forall i | 0 <= i < |items| ensures Thawed(Frozen(items[i])) == items[i] {
        ThawFreeze(items[i]);
      }
      assert Thawed(Frozen(v)).items == items;
    case Dict(es) =>
      forall i | 0 <= i < |es| ensures Entry(es[i].key, Thawed(Frozen(es[i].value))) == es[i] {
        ThawFreeze(es[i].value);
      }
      assert Thawed(Frozen(v)).entries == es;
    case _ =>
  }

  /** Freezing keeps every count that the profile bounds, and forgets only the bound on the length of lists. */
  lemma {:induction false} FrozenWithin(v: Value, depth: nat)
    requires Within(v, depth)
    ensures Within(Frozen(v), depth)
    decreases v
  {
    match v
    case List(items) =>
      forall i | 0 <= i < |items| ensures Within(Frozen(items[i]), depth + 1) { FrozenWithin(items[i], depth + 1); }
    case FrozenArray(items) =>
      forall i | 0 <= i < |items| ensures Within(Frozen(items[i]), depth + 1) { FrozenWithin(items[i], depth + 1); }
    case Dict(es) =>
      forall i | 0 <= i < |es| ensures Within(Frozen(es[i].value), depth + 1) { FrozenWithin(es[i].value, depth + 1); }
    case FrozenDict(es) =>
      forall i | 0 <= i < |es| ensures Within(Frozen(es[i].value), depth + 1) { FrozenWithin(es[i].value, depth + 1); }
    case _ =>
  }

  lemma {:induction false} SameNodes(xs: seq<Value>, ys: seq<Value>)
    requires |xs| == |ys| && forall i :: 0 <= i < |xs| ==> Nodes(xs[i]) == Nodes(ys[i])
    ensures ItemNodes(xs) == ItemNodes(ys)
  {
    if xs != [] { SameNodes(xs[1..], ys[1..]); }
  }

  lemma {:induction false} FrozenNodes(v: Value)
    ensures Nodes(Frozen(v)) == Nodes(v)
  {
    match v
    case List(items) =>
      forall i | 0 <= i < |items| ensures Nodes(Frozen(items[i])) == Nodes(items[i]) { FrozenNodes(items[i]); }
      SameNodes(items, Frozen(v).items);
    case FrozenArray(items) =>
      forall i | 0 <= i < |items| ensures Nodes(Frozen(items[i])) == Nodes(items[i]) { FrozenNodes(items[i]); }
      SameNodes(items, Frozen(v).items);
    case Dict(es) => FrozenEntryNodes(v);
    case FrozenDict(es) => FrozenEntryNodes(v);
    case _ =>
  }

  lemma {:induction false} FrozenEntryNodes(v: Value)
    requires v.Dict? || v.FrozenDict?
    ensures EntryNodes(Frozen(v).entries) == EntryNodes(v.entries)
    decreases v, 0
  {
    var es, fs := v.entries, Frozen(v).entries;
    forall i | 0 <= i < |es| ensures Nodes(EntryValues(fs)[i]) == Nodes(EntryValues(es)[i]) {
      FrozenNodes(es[i].value);
    }
    SameNodes(EntryValues(fs), EntryValues(es));
    EntryNodesAre(es);
    EntryNodesAre(fs);
  }

  lemma {:induction false} FrozenTwice(v: Value)
    ensures Frozen(Frozen(v)) == Frozen(v)
  {
    match v
    case List(items) =>
      forall i | 0 <= i < |items| ensures Frozen(Frozen(items[i])) == Frozen(items[i]) { FrozenTwice(items[i]); }
      assert Frozen(Frozen(v)).items == Frozen(v).items;
    case FrozenArray(items) =>
      forall i | 0 <= i < |items| ensures Frozen(Frozen(items[i])) == Frozen(items[i]) { FrozenTwice(items[i]); }
      assert Frozen(Frozen(v)).items == Frozen(v).items;
    case Dict(es) =>
      forall i | 0 <= i < |es| ensures Frozen(Frozen(es[i].value)) == Frozen(es[i].value) { FrozenTwice(es[i].value); }
      assert Frozen(Frozen(v)).entries == Frozen(v).entries;
    case FrozenDict(es) =>
      forall i | 0 <= i < |es| ensures Frozen(Frozen(es[i].value)) == Frozen(es[i].value) { FrozenTwice(es[i].value); }
      assert Frozen(Frozen(v)).entries == Frozen(v).entries;
    case _ =>
  }

  /** What was frozen is accepted again, and freezing it again changes nothing. */
  lemma FreezeIdempotent(v: Value)
    requires Accepts(v)
    ensures Accepts(Frozen(v)) && Frozen(Frozen(v)) == Frozen(v)
  {
    FrozenWithin(v, 1);
    FrozenNodes(v);
    FrozenTwice(v);
  }
}
