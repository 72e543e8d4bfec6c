/** The canonical printer whose output identifies a manifest, and the proof that it is
    blind to the order of object members. */
module CanonicalJson {
  import opened Options
  import opened Text
  import opened Codecs

  /** A parsed document. An object keeps its members in insertion order; `Foreign` is any value
      that is not JSON or is a float. */
  datatype Json =
    | Null
    | Bool(flag: bool)
    | Int(number: int)
    | Str(text: Chars)
    | Arr(items: seq<Json>)
    | Obj(members: seq<Member>)
    | Foreign

  datatype Member = Member(key: Chars, value: Json)

  const MAX_IJSON := 0x1F_FFFF_FFFF_FFFF

  predicate UniqueKeys(ms: seq<Member>) {
    forall i, j :: 0 <= i < j < |ms| ==> ms[i].key != ms[j].key
  }

  /** The values the printer does not raise on. */
  predicate Accepted(v: Json) {
    match v
    case Int(n) => -MAX_IJSON <= n <= MAX_IJSON
    case Str(s) => IsScalarText(s)
    case Arr(items) => forall i :: 0 <= i < |items| ==> Accepted(items[i])
    case Obj(ms) =>
      UniqueKeys(ms) && forall i :: 0 <= i < |ms| ==> IsScalarText(ms[i].key) && Accepted(ms[i].value)
    case Foreign => false
    case _ => true
  }

  // ---------------------------------------------------------------------
  // The printer
  // ---------------------------------------------------------------------

  const QUOTE := 34
  const COMMA := 44
  const COLON := 58

  /** One character of a JSON string literal. */
  function Escape(c: nat): Chars {
    if c == 34 then [92, 34]
    else if c == 92 then [92, 92]
    else if c == 8 then [92, 98]
    else if c == 9 then [92, 116]
    else if c == 10 then [92, 110]
    else if c == 12 then [92, 102]
    else if c == 13 then [92, 114]
    else if c < 32 then [92, 117, 48, 48, HexDigit(c / 16), HexDigit(c % 16)]
    else [c]
  }

  function Quoted(s: Chars): Chars {
    [QUOTE] + Spell(Escape, s) + [QUOTE]
  }

  function Number(n: int): Chars {
    if n < 0 then [45] + Decimal(-n) else Decimal(n)
  }

  /** Byte strings in lexicographic order. */
  predicate Before(a: Bytes, b: Bytes) {
    if a == [] then true
    else if b == [] then false
    else a[0] < b[0] || (a[0] == b[0] && Before(a[1..], b[1..]))
  }

  /** Keys are ordered by their UTF-16 code units. */
  predicate KeyBefore(a: Chars, b: Chars) {
    Before(Utf16Be(a), Utf16Be(b))
  }

  function Insert(m: Member, ms: seq<Member>): (r: seq<Member>)
    ensures multiset(r) == multiset(ms) + multiset{m}
  {
    if ms == [] then [m]
    else if KeyBefore(m.key, ms[0].key) then [m] + ms
    else
      assert ms == [ms[0]] + ms[1..];
      [ms[0]] + Insert(m, ms[1..])
  }

  function Sort(ms: seq<Member>): (r: seq<Member>)
    ensures multiset(r) == multiset(ms)
  {
    if ms == [] then []
    else
      assert ms == [ms[0]] + ms[1..];
      Insert(ms[0], Sort(ms[1..]))
  }

  function Print(v: Json): Chars
    decreases v, 1, 0
  {
    match v
    case Null => [110, 117, 108, 108]
    case Bool(true) => [116, 114, 117, 101]
    case Bool(false) => [102, 97, 108, 115, 101]
    case Int(n) => Number(n)
    case Str(s) => Quoted(s)
    case Arr(items) => [91] + PrintItems(v, items) + [93]
    case Obj(ms) => SortedWithin(v); [123] + PrintMembers(v, Sort(ms)) + [125]
    case Foreign => []
  }

  lemma SortedWithin(v: Json)
    requires v.Obj?
    ensures forall m :: m in Sort(v.members) ==> m in v.members
  {
    forall m | m in Sort(v.members) ensures m in v.members {
      assert m in multiset(Sort(v.members));
    }
  }

  function PrintItems(v: Json, items: seq<Json>): Chars
    requires v.Arr? && forall x :: x in items ==> x in v.items
    decreases v, 0, |items|
  {
    if items == [] then []
    else
      assert items[0] in items;
      if |items| == 1 then Print(items[0])
      else Print(items[0]) + [COMMA] + PrintItems(v, items[1..])
  }

  function PrintMember(v: Json, m: Member): Chars
    requires v.Obj? && m in v.members
    decreases v, 0, 0
  {
    Quoted(m.key) + [COLON] + Print(m.value)
  }

  function PrintMembers(v: Json, ms: seq<Member>): Chars
    requires v.Obj? && forall m :: m in ms ==> m in v.members
    decreases v, 0, |ms|
  {
    if ms == [] then []
    else if |ms| == 1 then PrintMember(v, ms[0])
    else PrintMember(v, ms[0]) + [COMMA] + PrintMembers(v, ms[1..])
  }

  /** `canonical_json_bytes`; none is the raised error. */
  function CanonicalBytes(v: Json): Option<Bytes> {
    if Accepted(v) then Some(Utf8(Print(v))) else None
  }

  // ---------------------------------------------------------------------
  // Equality up to the order of members
  // ---------------------------------------------------------------------

  function KeySet(ms: seq<Member>): set<Chars> {
    set m | m in ms :: m.key
  }

  predicate SameValue(a: Json, b: Json) {
    match (a, b)
    case (Arr(xs), Arr(ys)) => |xs| == |ys| && forall i :: 0 <= i < |xs| ==> SameValue(xs[i], ys[i])
    case (Obj(ms), Obj(ns)) =>
      KeySet(ms) == KeySet(ns) && forall m, n | m in ms && n in ns && m.key == n.key :: SameValue(m.value, n.value)
    case _ => a == b
  }

  // ---------------------------------------------------------------------
  // Sorting
  // ---------------------------------------------------------------------

  lemma {:induction false} BeforeTotal(a: Bytes, b: Bytes)
    ensures Before(a, b) || Before(b, a)
    ensures Before(a, b) && Before(b, a) ==> a == b
  {
    if a != [] && b != [] && a[0] == b[0] {
      BeforeTotal(a[1..], b[1..]);
    }
  }

  lemma {:induction false} BeforeTransitive(a: Bytes, b: Bytes, c: Bytes)
    requires Before(a, b) && Before(b, c)
    ensures Before(a, c)
  {
    if a != [] && a[0] == b[0] == c[0] {
      BeforeTransitive(a[1..], b[1..], c[1..]);
    }
  }

  /** UTF-16 code units. */
  function Units(s: Chars): seq<nat> {
    if s == [] then []
    else (if s[0] < 0x10000 then [s[0]] else [0xD800 + (s[0] - 0x10000) / 0x400, 0xDC00 + (s[0] - 0x10000) % 0x400])
         + Units(s[1..])
  }

  function BigEndian(units: seq<nat>): Bytes {
    if units == [] then [] else [units[0] / 0x100, units[0] % 0x100] + BigEndian(units[1..])
  }

  lemma {:induction false} UnitsSpelled(s: Chars)
    ensures BigEndian(Units(s)) == Utf16Be(s)
  {
    if s != [] {
      UnitsSpelled(s[1..]);
      var u := Units(s);
      if s[0] < 0x10000 {
        assert u[1..] == Units(s[1..]);
      } else {
        assert u[1..][1..] == Units(s[1..]);
      }
    }
  }

  lemma {:induction false} BigEndianOrder(a: seq<nat>, b: seq<nat>)
    ensures Before(BigEndian(a), BigEndian(b)) <==> Before(a, b)
  {
    var u, v := BigEndian(a), BigEndian(b);
    if a != [] && b != [] {
      BigEndianOrder(a[1..], b[1..]);
      assert u[1..][1..] == BigEndian(a[1..]) && v[1..][1..] == BigEndian(b[1..]);
      assert Before(u, v) <==> u[0] < v[0] || (u[0] == v[0] && Before(u[1..], v[1..]));
    }
  }

  /** The byte order used for keys is the code unit order of section 3.2.3 of RFC 8785. */
  lemma KeysInUnitOrder(a: Chars, b: Chars)
    ensures KeyBefore(a, b) <==> Before(Units(a), Units(b))
  {
    UnitsSpelled(a);
    UnitsSpelled(b);
    BigEndianOrder(Units(a), Units(b));
  }

  predicate Sorted(ms: seq<Member>) {
    forall i, j :: 0 <= i < j < |ms| ==> KeyBefore(ms[i].key, ms[j].key)
  }

  /** `m` may stand before every member of `ms`. */
  predicate Leads(m: Member, ms: seq<Member>) {
    forall x :: x in ms ==> KeyBefore(m.key, x.key)
  }

  lemma SortedCons(m: Member, ms: seq<Member>)
    requires Sorted(ms) && Leads(m, ms)
    ensures Sorted([m] + ms)
  {
  }

  lemma {:induction false} InsertSorted(m: Member, ms: seq<Member>)
    requires Sorted(ms)
    ensures Sorted(Insert(m, ms))
  {
    if ms != [] {
      var h, t := ms[0], ms[1..];
      BeforeTotal(Utf16Be(m.key), Utf16Be(h.key));
      if KeyBefore(m.key, h.key) {
        forall x | x in ms ensures KeyBefore(m.key, x.key) {
          if x != h { BeforeTransitive(Utf16Be(m.key), Utf16Be(h.key), Utf16Be(x.key)); }
        }
        SortedCons(m, ms);
      } else {
        InsertSorted(m, t);
        forall x | x in Insert(m, t) ensures KeyBefore(h.key, x.key) {
          assert x in multiset(Insert(m, t));
          assert x == m || x in t;
        }
        SortedCons(h, Insert(m, t));
      }
    }
  }

  lemma {:induction false} SortSorted(ms: seq<Member>)
    ensures Sorted(Sort(ms))
  {
    if ms != [] {
      SortSorted(ms[1..]);
      InsertSorted(ms[0], Sort(ms[1..]));
    }
  }

  predicate ScalarKeys(ms: seq<Member>) {
    forall m :: m in ms ==> IsScalarText(m.key)
  }

  lemma SortSame(ms: seq<Member>)
    requires UniqueKeys(ms)
    ensures UniqueKeys(Sort(ms)) && KeySet(Sort(ms)) == KeySet(ms) && |Sort(ms)| == |ms|
    ensures forall m :: m in ms <==> m in Sort(ms)
  {
    assert forall m :: m in ms <==> m in multiset(ms);
    assert forall m :: m in Sort(ms) <==> m in multiset(Sort(ms));
    assert |multiset(ms)| == |ms| && |multiset(Sort(ms))| == |Sort(ms)|;
    SortUnique(ms);
  }

  lemma UniqueCons(m: Member, ms: seq<Member>)
    requires UniqueKeys(ms) && forall x :: x in ms ==> x.key != m.key
    ensures UniqueKeys([m] + ms)
  {
  }

  lemma {:induction false} InsertUnique(m: Member, ms: seq<Member>)
    requires UniqueKeys(ms) && forall x :: x in ms ==> x.key != m.key
    ensures UniqueKeys(Insert(m, ms))
  {
    if ms == [] || KeyBefore(m.key, ms[0].key) {
      UniqueCons(m, ms);
    } else {
      assert ms == [ms[0]] + ms[1..];
      InsertUnique(m, ms[1..]);
      forall x | x in Insert(m, ms[1..]) ensures x.key != ms[0].key {
        assert x in multiset(Insert(m, ms[1..]));
        assert x == m || x in ms[1..];
      }
      UniqueCons(ms[0], Insert(m, ms[1..]));
    }
  }

  lemma {:induction false} SortUnique(ms: seq<Member>)
    requires UniqueKeys(ms)
    ensures UniqueKeys(Sort(ms))
  {
    if ms != [] {
      SortUnique(ms[1..]);
      forall x | x in Sort(ms[1..]) ensures x.key != ms[0].key {
        assert x in multiset(Sort(ms[1..]));
        assert x in ms[1..];
      }
      InsertUnique(ms[0], Sort(ms[1..]));
    }
  }

  /** Two sorted lists of members with the same keys list them in the same order. */
  lemma {:induction false} SortedKeysAgree(ms: seq<Member>, ns: seq<Member>)
    requires Sorted(ms) && Sorted(ns) && UniqueKeys(ms) && UniqueKeys(ns) && ScalarKeys(ms) && ScalarKeys(ns)
    requires KeySet(ms) == KeySet(ns)
    ensures |ms| == |ns| && forall i :: 0 <= i < |ms| ==> ms[i].key == ns[i].key
  {
    assert ms != [] ==> ms[0] in ms && ms[0].key in KeySet(ms);
    assert ns != [] ==> ns[0] in ns && ns[0].key in KeySet(ns);
    if ms != [] {
      LeastKey(ms, ns);
      TailKeys(ms);
      TailKeys(ns);
      SortedKeysAgree(ms[1..], ns[1..]);
    }
  }

  lemma LeastKey(ms: seq<Member>, ns: seq<Member>)
    requires Sorted(ms) && Sorted(ns) && ScalarKeys(ms) && ScalarKeys(ns) && KeySet(ms) == KeySet(ns)
    requires ms != [] && ns != []
    ensures ms[0].key == ns[0].key
  {
    assert ms[0] in ms && ns[0] in ns;
    assert ms[0].key in KeySet(ns) && ns[0].key in KeySet(ms);
    var i :| 0 <= i < |ns| && ns[i].key == ms[0].key;
    var j :| 0 <= j < |ms| && ms[j].key == ns[0].key;
    BeforeTotal(Utf16Be(ms[0].key), Utf16Be(ns[0].key));
    assert Utf16Be(ms[0].key) == Utf16Be(ns[0].key);
    Utf16Injective(ms[0].key, ns[0].key);
  }

  lemma TailKeys(ms: seq<Member>)
    requires ms != [] && UniqueKeys(ms)
    ensures KeySet(ms[1..]) == KeySet(ms) - {ms[0].key}
  {
    forall k ensures k in KeySet(ms[1..]) <==> k in KeySet(ms) - {ms[0].key} {
      if k in KeySet(ms[1..]) {
        var m :| m in ms[1..] && m.key == k;
        assert m in ms;
      }
      if k in KeySet(ms) - {ms[0].key} {
        var m :| m in ms && m.key == k;
        assert m in ms[1..];
      }
    }
  }

  // ---------------------------------------------------------------------
  // Equal values print the same text
  // ---------------------------------------------------------------------

  lemma {:induction false} SameItemsPrint(v: Json, w: Json, xs: seq<Json>, ys: seq<Json>)
    requires v.Arr? && w.Arr? && (forall x :: x in xs ==> x in v.items) && (forall y :: y in ys ==> y in w.items)
    requires |xs| == |ys| && forall i :: 0 <= i < |xs| ==> Print(xs[i]) == Print(ys[i])
    ensures PrintItems(v, xs) == PrintItems(w, ys)
  {
    if xs != [] {
      SameItemsPrint(v, w, xs[1..], ys[1..]);
    }
  }

  lemma {:induction false} SameMembersPrint(v: Json, w: Json, ms: seq<Member>, ns: seq<Member>)
    requires v.Obj? && w.Obj? && (forall m :: m in ms ==> m in v.members) && (forall n :: n in ns ==> n in w.members)
    requires |ms| == |ns|
    requires forall i :: 0 <= i < |ms| ==> ms[i].key == ns[i].key && Print(ms[i].value) == Print(ns[i].value)
    ensures PrintMembers(v, ms) == PrintMembers(w, ns)
  {
    if ms != [] {
      assert PrintMember(v, ms[0]) == PrintMember(w, ns[0]);
      SameMembersPrint(v, w, ms[1..], ns[1..]);
    }
  }

  lemma SortedAccepted(v: Json)
    requires v.Obj? && Accepted(v)
    ensures var ms := Sort(v.members);
      && Sorted(ms) && UniqueKeys(ms) && ScalarKeys(ms) && KeySet(ms) == KeySet(v.members)
      && (forall m :: m in ms <==> m in v.members)
      && (forall m :: m in ms ==> Accepted(m.value))
  {
    SortSorted(v.members);
    SortSame(v.members);
  }

  lemma {:induction false} SameValuePrints(a: Json, b: Json)
    requires Accepted(a) && Accepted(b) && SameValue(a, b)
    ensures Print(a) == Print(b)
  {
    match (a, b)
    case (Arr(xs), Arr(ys)) =>
      forall i | 0 <= i < |xs| ensures Print(xs[i]) == Print(ys[i]) {
        SameValuePrints(xs[i], ys[i]);
      }
      SameItemsPrint(a, b, xs, ys);
    case (Obj(_), Obj(_)) =>
      SortedAccepted(a);
      SortedAccepted(b);
      var ms, ns := Sort(a.members), Sort(b.members);
      SortedKeysAgree(ms, ns);
      forall i | 0 <= i < |ms| ensures Print(ms[i].value) == Print(ns[i].value) {
        assert ms[i] in a.members && ns[i] in b.members;
        SameValuePrints(ms[i].value, ns[i].value);
      }
      SameMembersPrint(a, b, ms, ns);
    case _ =>
  }

  // ---------------------------------------------------------------------
  // Printed text is Unicode scalar text
  // ---------------------------------------------------------------------

  lemma {:induction false} SpellScalar(s: Chars)
    requires IsScalarText(s)
    ensures IsScalarText(Spell(Escape, s))
  {
    if s != [] {
      SpellScalar(s[1..]);
    }
  }

  lemma {:induction false} ItemsScalar(v: Json, items: seq<Json>)
    requires v.Arr? && (forall x :: x in items ==> x in v.items && IsScalarText(Print(x)))
    ensures IsScalarText(PrintItems(v, items))
  {
    if items != [] {
      assert items[0] in items;
      ItemsScalar(v, items[1..]);
    }
  }

  lemma {:induction false} MembersScalar(v: Json, ms: seq<Member>)
    requires v.Obj? && (forall m :: m in ms ==> m in v.members && IsScalarText(m.key) && IsScalarText(Print(m.value)))
    ensures IsScalarText(PrintMembers(v, ms))
  {
    if ms != [] {
      SpellScalar(ms[0].key);
      MembersScalar(v, ms[1..]);
    }
  }

  lemma {:induction false} PrintScalar(v: Json)
    requires Accepted(v)
    ensures IsScalarText(Print(v))
  {
    match v
    case Str(s) => SpellScalar(s);
    case Arr(items) =>
      forall x | x in items ensures IsScalarText(Print(x)) {
        PrintScalar(x);
      }
      ItemsScalar(v, items);
    case Obj(ms) =>
      forall m | m in ms ensures IsScalarText(Print(m.value)) {
        PrintScalar(m.value);
      }
      ObjectScalar(v);
    case _ =>
  }

  lemma ObjectScalar(v: Json)
    requires v.Obj? && Accepted(v) && forall m :: m in v.members ==> IsScalarText(Print(m.value))
    ensures IsScalarText(Print(v))
  {
    SortedAccepted(v);
    MembersScalar(v, Sort(v.members));
  }
}
