/** A reader of JSON texts after RFC 8259, and the proof that it reads back what the canonical printer
    prints. The texts are those without white space, as section 3.2.1 of RFC 8785 asks, and the numbers are
    integers. */
module JsonReader {
  import opened Options
  import opened Text
  import opened Codecs
  import opened CanonicalJson

  // ---------------------------------------------------------------------
  // Strings
  // ---------------------------------------------------------------------

  predicate StartsWith(u: seq<nat>, c: char) {
    u != [] && u[0] == c as nat
  }

  /** What may follow a value: nothing, a comma or a closing bracket. */
  predicate Stops(x: seq<nat>) {
    x == [] || StartsWith(x, ',') || StartsWith(x, ']') || StartsWith(x, '}')
  }

  datatype Read = Read(text: Chars, rest: seq<nat>) | Malformed

  /** The character that a two-character escape stands for, as section 7 of RFC 8259 lists them. */
  function ShortEscape(c: nat): int {
    if c == '"' as nat || c == '\\' as nat || c == '/' as nat then c
    else if c == 'b' as nat then 8 else if c == 'f' as nat then 12 else if c == 'n' as nat then 10
    else if c == 'r' as nat then 13 else if c == 't' as nat then 9 else -1
  }

  function Prepend(c: nat, r: Read): Read {
    if r.Read? then Read([c] + r.text, r.rest) else r
  }

  /** A reader of JSON string bodies, up to and including the closing quote. Each escape stands for one code
      point: a pair of surrogate escapes, which the printer never writes, is not joined. */
  function ReadString(u: seq<nat>): (r: Read)
    ensures r.Read? ==> |r.rest| < |u|
  {
    if u == [] || u[0] < 32 then Malformed
    else if u[0] == '"' as nat then Read([], u[1..])
    else if u[0] != '\\' as nat then Prepend(u[0], ReadString(u[1..]))
    else if |u| >= 2 && ShortEscape(u[1]) >= 0 then Prepend(ShortEscape(u[1]), ReadString(u[2..]))
    else if |u| >= 6 && u[1] == 'u' as nat && HexValue(u[2]) < 16 && HexValue(u[3]) < 16
            && HexValue(u[4]) < 16 && HexValue(u[5]) < 16 then
      Prepend(((HexValue(u[2]) * 16 + HexValue(u[3])) * 16 + HexValue(u[4])) * 16 + HexValue(u[5]), ReadString(u[6..]))
    else Malformed
  }

  lemma ReadControl(c: nat, u: seq<nat>)
    requires c < 32
    ensures ReadString([92, 117, 48, 48, HexDigit(c / 16), HexDigit(c % 16)] + u) == Prepend(c, ReadString(u))
  {
    var w := [92, 117, 48, 48, HexDigit(c / 16), HexDigit(c % 16)] + u;
    assert w[6..] == u;
    assert HexValue(w[4]) == c / 16 && HexValue(w[5]) == c % 16;
  }

  lemma ReadShort(c: nat, d: nat, u: seq<nat>)
    requires ShortEscape(c) == d
    ensures ReadString([92, c] + u) == Prepend(d, ReadString(u))
  {
    assert ([92, c] + u)[2..] == u;
  }

  /** The reader takes one escaped character off the front. */
  lemma ReadEscape(c: nat, u: seq<nat>)
    ensures ReadString(Escape(c) + u) == Prepend(c, ReadString(u))
  {
    if |Escape(c)| == 2 {
      ReadShort(Escape(c)[1], c, u);
    } else if c < 32 {
      ReadControl(c, u);
    } else {
      assert ([c] + u)[1..] == u;
    }
  }

  /** Reading a printed string gives it back, whatever follows it. */
  lemma {:induction false} StringRoundTrip(s: Chars, x: seq<nat>)
    ensures ReadString(Spell(Escape, s) + [QUOTE] + x) == Read(s, x)
  {
    var e := Spell(Escape, s) + [QUOTE] + x;
    if s == [] {
      assert e[1..] == x;
    } else {
      var r := Spell(Escape, s[1..]) + [QUOTE] + x;
      assert e == Escape(s[0]) + r;
      ReadEscape(s[0], r);
      StringRoundTrip(s[1..], x);
    }
  }

  predicate IsLowerHex(u: nat) {
    '0' as nat <= u <= '9' as nat || 'a' as nat <= u <= 'f' as nat
  }

  /** No character is escaped that need not be, the short escapes are used where there are any, and the others are
      written with lowercase digits, as section 3.2.2.2 of RFC 8785 asks. */
  lemma EscapesAreShort(c: nat)
    ensures c >= 32 && c != '"' as nat && c != '\\' as nat ==> Escape(c) == [c]
    ensures (exists d :: ShortEscape(d) == c && d != '/' as nat) <==> |Escape(c)| == 2
    ensures |Escape(c)| > 2 ==>
      Escape(c)[..4] == Ascii("\\u00") && |Escape(c)| == 6 && forall i :: 4 <= i < 6 ==> IsLowerHex(Escape(c)[i])
  {
    if d :| ShortEscape(d) == c && d != '/' as nat {
      assert |Escape(c)| == 2;
    }
    if |Escape(c)| == 2 {
      assert ShortEscape(Escape(c)[1]) == c && Escape(c)[1] != '/' as nat;
    }
    assert Ascii("\\u00") == [92, 117, 48, 48];
  }

  // ---------------------------------------------------------------------
  // Values
  // ---------------------------------------------------------------------

  datatype Parsed = Parsed(value: Json, rest: seq<nat>) | NoValue

  datatype ParsedItems = ParsedItems(items: seq<Json>, rest: seq<nat>) | NoItems

  datatype ParsedMembers = ParsedMembers(members: seq<Member>, rest: seq<nat>) | NoMembers

  /** An integer, without fraction or exponent and without needless zeros. */
  function ReadNumber(u: seq<nat>): (r: Parsed)
    ensures r.Parsed? ==> |r.rest| < |u|
  {
    if StartsWith(u, '-') then ReadDigits(u[1..], -1) else ReadDigits(u, 1)
  }

  function ReadDigits(u: seq<nat>, sign: int): (r: Parsed)
    ensures r.Parsed? ==> |r.rest| < |u|
  {
    var n := DigitRun(u);
    var rest := u[n..];
    if n == 0 || (StartsWith(u, '0') && n > 1) then NoValue
    else if StartsWith(rest, '.') || StartsWith(rest, 'e') || StartsWith(rest, 'E') then NoValue
    else Parsed(Int(sign * DecimalValue(u[..n])), rest)
  }

  function ReadValue(u: seq<nat>): (r: Parsed)
    ensures r.Parsed? ==> |r.rest| < |u|
    decreases |u|, 0
  {
    if Ascii("null") <= u then Parsed(Null, u[4..])
    else if Ascii("true") <= u then Parsed(Bool(true), u[4..])
    else if Ascii("false") <= u then Parsed(Bool(false), u[5..])
    else if StartsWith(u, '"') then
      var r := ReadString(u[1..]);
      if r.Read? then Parsed(Str(r.text), r.rest) else NoValue
    else if StartsWith(u, '[') then
      if StartsWith(u[1..], ']') then Parsed(Arr([]), u[2..])
      else
        var r := ReadItems(u[1..]);
        if r.ParsedItems? then Parsed(Arr(r.items), r.rest) else NoValue
    else if StartsWith(u, '{') then
      if StartsWith(u[1..], '}') then Parsed(Obj([]), u[2..])
      else
        var r := ReadMembers(u[1..]);
        if r.ParsedMembers? then Parsed(Obj(r.members), r.rest) else NoValue
    else ReadNumber(u)
  }

  /** One or more values with commas between them, up to and including the bracket. */
  function ReadItems(u: seq<nat>): (r: ParsedItems)
    ensures r.ParsedItems? ==> |r.rest| < |u|
    decreases |u|, 1
  {
    var first := ReadValue(u);
    if first == NoValue then NoItems
    else if StartsWith(first.rest, ']') then ParsedItems([first.value], first.rest[1..])
    else if !StartsWith(first.rest, ',') then NoItems
    else
      var more := ReadItems(first.rest[1..]);
      if more == NoItems then NoItems else ParsedItems([first.value] + more.items, more.rest)
  }

  /** A string, a colon and a value. */
  function ReadMember(u: seq<nat>): (r: ParsedMembers)
    ensures r.ParsedMembers? ==> |r.rest| < |u| && |r.members| == 1
    decreases |u|, 1
  {
    if !StartsWith(u, '"') then NoMembers
    else
      var key := ReadString(u[1..]);
      if key == Malformed || !StartsWith(key.rest, ':') then NoMembers
      else
        var value := ReadValue(key.rest[1..]);
        if value == NoValue then NoMembers else ParsedMembers([Member(key.text, value.value)], value.rest)
  }

  /** One or more members with commas between them, up to and including the brace. */
  function ReadMembers(u: seq<nat>): (r: ParsedMembers)
    ensures r.ParsedMembers? ==> |r.rest| < |u|
    decreases |u|, 2
  {
    var first := ReadMember(u);
    if first == NoMembers then NoMembers
    else if StartsWith(first.rest, '}') then ParsedMembers(first.members, first.rest[1..])
    else if !StartsWith(first.rest, ',') then NoMembers
    else
      var more := ReadMembers(first.rest[1..]);
      if more == NoMembers then NoMembers else ParsedMembers(first.members + more.members, more.rest)
  }

  /** The members of every object are in ascending order of their keys' UTF-16 code units. */
  predicate Ordered(v: Json) {
    match v
    case Arr(items) => forall i :: 0 <= i < |items| ==> Ordered(items[i])
    case Obj(ms) =>
      && (forall i, j :: 0 <= i < j < |ms| ==> ms[i].key != ms[j].key && Before(Units(ms[i].key), Units(ms[j].key)))
      && forall i :: 0 <= i < |ms| ==> Ordered(ms[i].value)
    case _ => true
  }

  // ---------------------------------------------------------------------
  // Reading printed text
  // ---------------------------------------------------------------------

  /** No literal begins with another character. */
  lemma NoLiteral(u: seq<nat>)
    requires u == [] || (u[0] != 'n' as nat && u[0] != 't' as nat && u[0] != 'f' as nat)
    ensures !(Ascii("null") <= u) && !(Ascii("true") <= u) && !(Ascii("false") <= u)
  {
    assert Ascii("null")[0] == 'n' as nat && Ascii("true")[0] == 't' as nat && Ascii("false")[0] == 'f' as nat;
  }

  lemma LiteralTexts()
    ensures Ascii("null") == [110, 117, 108, 108] && Ascii("true") == [116, 114, 117, 101]
    ensures Ascii("false") == [102, 97, 108, 115, 101]
  {
  }

  lemma PrefixThen(p: seq<nat>, x: seq<nat>)
    ensures p <= p + x && (p + x)[|p|..] == x
  {
  }

  lemma ReadLiteral(v: Json, x: seq<nat>)
    requires v.Null? || v.Bool?
    ensures ReadValue(Print(v) + x) == Parsed(v, x)
  {
    LiteralTexts();
    var u := Print(v) + x;
    PrefixThen(Print(v), x);
    assert u[0] == Print(v)[0];
    assert Ascii("null")[0] == 110 && Ascii("true")[0] == 116 && Ascii("false")[0] == 102;
    assert v.Null? ==> Ascii("null") <= u;
    assert v == Bool(true) ==> Ascii("true") <= u && !(Ascii("null") <= u);
    assert v == Bool(false) ==> Ascii("false") <= u && !(Ascii("null") <= u) && !(Ascii("true") <= u);
  }

  lemma ReadDecimal(n: nat, x: seq<nat>, sign: int)
    requires Stops(x)
    ensures ReadDigits(Decimal(n) + x, sign) == Parsed(Int(sign * n), x) && IsDigit((Decimal(n) + x)[0])
  {
    var u := Decimal(n) + x;
    DigitRunOf(Decimal(n), x);
    DecimalRoundTrip(n);
    assert IsDigit(Decimal(n)[0]) && u[0] == Decimal(n)[0];
    assert u[..|Decimal(n)|] == Decimal(n) && u[|Decimal(n)|..] == x;
  }

  lemma ReadSigned(u: seq<nat>, t: seq<nat>)
    requires u == ['-' as nat] + t
    ensures ReadNumber(u) == ReadDigits(t, -1)
  {
    assert u[1..] == t;
  }

  lemma ReadUnsigned(u: seq<nat>)
    requires u != [] && IsDigit(u[0])
    ensures ReadNumber(u) == ReadDigits(u, 1)
  {
  }

  lemma ReadPrintedNumber(n: int, x: seq<nat>)
    requires Stops(x)
    ensures ReadNumber(Number(n) + x) == Parsed(Int(n), x)
    ensures (Number(n) + x)[0] == '-' as nat || IsDigit((Number(n) + x)[0])
  {
    var m: nat := if n < 0 then -n else n;
    ReadDecimal(m, x, if n < 0 then -1 else 1);
    if n < 0 {
      assert Number(n) + x == [45] + (Decimal(m) + x);
      ReadSigned(Number(n) + x, Decimal(m) + x);
    } else {
      ReadUnsigned(Decimal(m) + x);
    }
  }

  lemma ReadQuoted(s: Chars, x: seq<nat>)
    ensures StartsWith(Quoted(s) + x, '"') && ReadString((Quoted(s) + x)[1..]) == Read(s, x)
  {
    assert (Quoted(s) + x)[1..] == Spell(Escape, s) + [QUOTE] + x;
    StringRoundTrip(s, x);
  }

  /** The text of a list of items after the first one. */
  function ItemsTail(v: Json, items: seq<Json>): Chars
    requires v.Arr? && forall x :: x in items ==> x in v.items
  {
    if items == [] then [] else [COMMA] + PrintItems(v, items)
  }

  lemma ItemsSplit(v: Json, items: seq<Json>, x: seq<nat>)
    requires v.Arr? && (forall i :: i in items ==> i in v.items) && items != []
    ensures PrintItems(v, items) + [93] + x == Print(items[0]) + (ItemsTail(v, items[1..]) + [93] + x)
  {
  }

  function MembersTail(v: Json, ms: seq<Member>): Chars
    requires v.Obj? && forall m :: m in ms ==> m in v.members
  {
    if ms == [] then [] else [COMMA] + PrintMembers(v, ms)
  }

  lemma MembersSplit(v: Json, ms: seq<Member>, x: seq<nat>)
    requires v.Obj? && (forall m :: m in ms ==> m in v.members) && ms != []
    ensures PrintMembers(v, ms) + [125] + x
         == Quoted(ms[0].key) + ([COLON] + (Print(ms[0].value) + (MembersTail(v, ms[1..]) + [125] + x)))
  {
    var q, p, t := Quoted(ms[0].key), Print(ms[0].value), MembersTail(v, ms[1..]);
    assert PrintMembers(v, ms) == q + [COLON] + p + t;
    Regroup(q, [COLON], p, t, [125], x);
  }

  lemma Regroup(a: Chars, b: Chars, c: Chars, d: Chars, e: Chars, x: Chars)
    ensures a + b + c + d + e + x == a + (b + (c + (d + e + x)))
  {
  }

  lemma ItemsTailFacts(v: Json, items: seq<Json>, x: seq<nat>)
    requires v.Arr? && forall i :: i in items ==> i in v.items
    ensures var r := ItemsTail(v, items) + [93] + x;
      && Stops(r) && (items == [] <==> r[0] == 93)
      && r[1..] == if items == [] then x else PrintItems(v, items) + [93] + x
  {
  }

  lemma MembersTailFacts(v: Json, ms: seq<Member>, x: seq<nat>)
    requires v.Obj? && forall m :: m in ms ==> m in v.members
    ensures var r := MembersTail(v, ms) + [125] + x;
      && Stops(r) && (ms == [] <==> r[0] == 125)
      && r[1..] == if ms == [] then x else PrintMembers(v, ms) + [125] + x
  {
  }

  predicate MembersAgree(ms: seq<Member>, ns: seq<Member>) {
    |ms| == |ns| && forall i :: 0 <= i < |ms| ==> ms[i].key == ns[i].key && SameValue(ms[i].value, ns[i].value)
  }

  lemma MembersAgreeCons(ms: seq<Member>, ns: seq<Member>)
    requires ms != [] && ns != [] && ms[0].key == ns[0].key && SameValue(ms[0].value, ns[0].value)
    requires MembersAgree(ms[1..], ns[1..])
    ensures MembersAgree(ms, ns)
  {
    forall i | 0 <= i < |ms| ensures ms[i].key == ns[i].key && SameValue(ms[i].value, ns[i].value) {
      if i > 0 { assert ms[i] == ms[1..][i - 1] && ns[i] == ns[1..][i - 1]; }
    }
  }

  lemma SameKeysInOrder(ms: seq<Member>, ns: seq<Member>)
    requires |ms| == |ns| && forall i :: 0 <= i < |ms| ==> ms[i].key == ns[i].key
    ensures KeySet(ms) == KeySet(ns)
  {
    forall k ensures k in KeySet(ms) <==> k in KeySet(ns) {
      if k in KeySet(ms) {
        var i :| 0 <= i < |ms| && ms[i].key == k;
        assert ns[i] in ns;
      }
      if k in KeySet(ns) {
        var i :| 0 <= i < |ns| && ns[i].key == k;
        assert ms[i] in ms;
      }
    }
  }

  lemma SameKeySameValue(ms: seq<Member>, ns: seq<Member>, m: Member, n: Member)
    requires MembersAgree(ms, ns) && UniqueKeys(ms) && m in ms && n in ns && m.key == n.key
    ensures SameValue(m.value, n.value)
  {
    var i :| 0 <= i < |ms| && ms[i] == m;
    var j :| 0 <= j < |ns| && ns[j] == n;
    assert ms[i].key == ms[j].key;
  }

  lemma SortedValues(v: Json)
    requires v.Obj? && Accepted(v)
    ensures forall m :: m in Sort(v.members) ==> Accepted(m.value)
  {
    SortedAccepted(v);
  }

  /** Members read in the order of the sorted ones make an object that is equal up to order. */
  lemma SortedAgree(v: Json, ws: seq<Member>)
    requires v.Obj? && Accepted(v) && MembersAgree(Sort(v.members), ws)
    ensures SameValue(v, Obj(ws))
  {
    SortSame(v.members);
    SameKeysInOrder(Sort(v.members), ws);
    forall m, n | m in v.members && n in ws && m.key == n.key ensures SameValue(m.value, n.value) {
      SameKeySameValue(Sort(v.members), ws, m, n);
    }
  }

  lemma SortedOrdered(v: Json, ws: seq<Member>)
    requires v.Obj? && Accepted(v) && MembersAgree(Sort(v.members), ws)
    requires forall i :: 0 <= i < |ws| ==> Ordered(ws[i].value)
    ensures Ordered(Obj(ws))
  {
    var ms := Sort(v.members);
    SortedAccepted(v);
    forall i, j | 0 <= i < j < |ws|
      ensures ws[i].key != ws[j].key && Before(Units(ws[i].key), Units(ws[j].key))
    {
      assert KeyBefore(ms[i].key, ms[j].key);
      KeysInUnitOrder(ms[i].key, ms[j].key);
    }
  }

  /** The reader gives back every printed value, whatever may follow it, with the members of objects in order. */
  lemma {:induction false} ReadPrinted(v: Json, x: seq<nat>) returns (w: Json)
    requires Accepted(v) && Stops(x)
    ensures ReadValue(Print(v) + x) == Parsed(w, x) && SameValue(v, w) && Ordered(w)
    decreases v, 2, 0
  {
    match v
    case Null => ReadLiteral(v, x); w := v;
    case Bool(_) => ReadLiteral(v, x); w := v;
    case Int(n) =>
      ReadPrintedNumber(n, x);
      NoLiteral(Print(v) + x);
      w := v;
    case Str(s) =>
      ReadQuoted(s, x);
      NoLiteral(Print(v) + x);
      w := v;
    case Arr(_) => w := ReadArray(v, x);
    case Obj(_) => w := ReadObject(v, x);
  }

  lemma ArrayText(v: Json, x: seq<nat>)
    requires v.Arr?
    ensures StartsWith(Print(v) + x, '[') && (Print(v) + x)[1..] == PrintItems(v, v.items) + [93] + x
  {
    Bracketed(91, PrintItems(v, v.items), 93, x);
  }

  lemma ObjectText(v: Json, x: seq<nat>)
    requires v.Obj?
    ensures forall m :: m in Sort(v.members) ==> m in v.members
    ensures StartsWith(Print(v) + x, '{') && (Print(v) + x)[1..] == PrintMembers(v, Sort(v.members)) + [125] + x
  {
    SortedWithin(v);
    Bracketed(123, PrintMembers(v, Sort(v.members)), 125, x);
  }

  lemma Bracketed(a: nat, t: seq<nat>, b: nat, x: seq<nat>)
    ensures var u := [a] + t + [b] + x; u[0] == a && u[1..] == t + [b] + x
  {
  }

  lemma {:induction false} ReadArray(v: Json, x: seq<nat>) returns (w: Json)
    requires v.Arr? && Accepted(v)
    ensures ReadValue(Print(v) + x) == Parsed(w, x) && SameValue(v, w) && Ordered(w)
    decreases v, 1, 0
  {
    var u, t := Print(v) + x, PrintItems(v, v.items) + [93] + x;
    ArrayText(v, x);
    NoLiteral(u);
    if v.items == [] {
      assert t == [93] + x && u[2..] == u[1..][1..] == x;
      w := Arr([]);
    } else {
      var ws := ReadPrintedItems(v, v.items, x);
      w := Arr(ws);
    }
  }

  /** What is printed of an item does not begin with a bracket. */
  lemma HeadCharacter(v: Json)
    requires Accepted(v)
    ensures Print(v) != [] && Print(v)[0] != ']' as nat
  {
    match v
    case Int(n) => ReadPrintedNumber(n, []); assert Number(n) + [] == Number(n);
    case Obj(ms) => ObjectText(v, []); assert Print(v) + [] == Print(v);
    case _ =>
  }

  lemma {:induction false} ReadPrintedItems(v: Json, items: seq<Json>, x: seq<nat>) returns (ws: seq<Json>)
    requires v.Arr? && items != [] && forall i :: i in items ==> i in v.items && Accepted(i)
    ensures var t := PrintItems(v, items) + [93] + x; !StartsWith(t, ']') && ReadItems(t) == ParsedItems(ws, x)
    ensures |ws| == |items| && forall i :: 0 <= i < |ws| ==> SameValue(items[i], ws[i]) && Ordered(ws[i])
    decreases v, 0, |items|
  {
    var r := ItemsTail(v, items[1..]) + [93] + x;
    assert items[0] in items;
    ItemsSplit(v, items, x);
    ItemsTailFacts(v, items[1..], x);
    HeadCharacter(items[0]);
    var first := ReadPrinted(items[0], r);
    if items[1..] == [] {
      ws := [first];
    } else {
      var more := ReadPrintedItems(v, items[1..], x);
      ws := [first] + more;
    }
  }

  lemma {:induction false} ReadObject(v: Json, x: seq<nat>) returns (w: Json)
    requires v.Obj? && Accepted(v)
    ensures ReadValue(Print(v) + x) == Parsed(w, x) && SameValue(v, w) && Ordered(w)
    decreases v, 1, 0
  {
    var ms := Sort(v.members);
    var ws := [];
    ObjectText(v, x);
    SortedValues(v);
    if ms != [] {
      ws := ReadPrintedMembers(v, ms, x);
    }
    ReadBraces(v, x, ws);
    SortedAgree(v, ws);
    SortedOrdered(v, ws);
    w := Obj(ws);
  }

  lemma ReadBraces(v: Json, x: seq<nat>, ws: seq<Member>)
    requires v.Obj? && (forall m :: m in Sort(v.members) ==> m in v.members)
    requires var t := PrintMembers(v, Sort(v.members)) + [125] + x;
      if Sort(v.members) == [] then ws == [] else !StartsWith(t, '}') && ReadMembers(t) == ParsedMembers(ws, x)
    ensures ReadValue(Print(v) + x) == Parsed(Obj(ws), x)
  {
    var u := Print(v) + x;
    ObjectText(v, x);
    NoLiteral(u);
    if Sort(v.members) == [] {
      assert u[1..] == [125] + x && u[2..] == u[1..][1..] == x;
    }
  }

  lemma {:induction false} ReadPrintedMember(v: Json, m: Member, r: seq<nat>) returns (w: Json)
    requires v.Obj? && m in v.members && Accepted(m.value) && Stops(r)
    ensures ReadMember(Quoted(m.key) + ([COLON] + (Print(m.value) + r))) == ParsedMembers([Member(m.key, w)], r)
    ensures SameValue(m.value, w) && Ordered(w)
    decreases v, 0, 0
  {
    var t := Print(m.value) + r;
    ReadQuoted(m.key, [COLON] + t);
    assert ([COLON] + t)[1..] == t && StartsWith([COLON] + t, ':');
    w := ReadPrinted(m.value, r);
  }

  lemma {:induction false} ReadPrintedMembers(v: Json, ms: seq<Member>, x: seq<nat>) returns (ws: seq<Member>)
    requires v.Obj? && ms != [] && forall m :: m in ms ==> m in v.members && Accepted(m.value)
    ensures var t := PrintMembers(v, ms) + [125] + x; !StartsWith(t, '}') && ReadMembers(t) == ParsedMembers(ws, x)
    ensures MembersAgree(ms, ws) && forall i :: 0 <= i < |ws| ==> Ordered(ws[i].value)
    decreases v, 0, |ms|
  {
    var r := MembersTail(v, ms[1..]) + [125] + x;
    MembersSplit(v, ms, x);
    MembersTailFacts(v, ms[1..], x);
    var value := ReadPrintedMember(v, ms[0], r);
    var first := Member(ms[0].key, value);
    if ms[1..] == [] {
      ws := [first];
    } else {
      var more := ReadPrintedMembers(v, ms[1..], x);
      ws := [first] + more;
      assert ws[1..] == more;
      MembersAgreeCons(ms, ws);
    }
  }

  // ---------------------------------------------------------------------
  // The same text comes only from equal values
  // ---------------------------------------------------------------------

  lemma {:induction false} SameValueSymmetric(a: Json, b: Json)
    requires SameValue(a, b)
    ensures SameValue(b, a)
  {
    match (a, b)
    case (Arr(xs), Arr(ys)) =>
      forall i | 0 <= i < |xs| ensures SameValue(ys[i], xs[i]) { SameValueSymmetric(xs[i], ys[i]); }
    case (Obj(ms), Obj(ns)) =>
      forall n, m | n in ns && m in ms && n.key == m.key ensures SameValue(n.value, m.value) {
        SameValueSymmetric(m.value, n.value);
      }
    case _ =>
  }

  lemma {:induction false} SameValueTransitive(a: Json, b: Json, c: Json)
    requires SameValue(a, b) && SameValue(b, c)
    ensures SameValue(a, c)
  {
    match a
    case Arr(xs) =>
      forall i | 0 <= i < |xs| ensures SameValue(xs[i], c.items[i]) {
        SameValueTransitive(xs[i], b.items[i], c.items[i]);
      }
    case Obj(ms) =>
      forall m, n | m in ms && n in c.members && m.key == n.key ensures SameValue(m.value, n.value) {
        assert m.key in KeySet(ms);
        var k :| k in b.members && k.key == m.key;
        SameValueTransitive(m.value, k.value, n.value);
      }
    case _ =>
  }

  /** Two accepted values whose texts agree, up to where either could end, are the same value. */
  lemma Unambiguous(a: Json, b: Json, x: seq<nat>, y: seq<nat>)
    requires Accepted(a) && Accepted(b) && Print(a) + x == Print(b) + y && Stops(x) && Stops(y)
    ensures SameValue(a, b) && x == y
  {
    var v := ReadPrinted(a, x);
    var w := ReadPrinted(b, y);
    SameValueSymmetric(b, w);
    SameValueTransitive(a, v, b);
  }

  /** The canonical bytes of two accepted values agree if and only if the values are equal up to
      the order of object members. */
  lemma CanonicalIffSame(a: Json, b: Json)
    requires Accepted(a) && Accepted(b)
    ensures CanonicalBytes(a) == CanonicalBytes(b) <==> SameValue(a, b)
  {
    if SameValue(a, b) {
      SameValuePrints(a, b);
    }
    if Utf8(Print(a)) == Utf8(Print(b)) {
      PrintScalar(a);
      PrintScalar(b);
      Utf8Injective(Print(a), Print(b));
      assert Print(a) + [] == Print(b) + [];
      Unambiguous(a, b, [], []);
    }
  }
}
