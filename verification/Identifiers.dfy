/** Crockford base 32 payloads and the prefixed identifiers built from them. */
module Identifiers {
  import opened Options
  import opened Text
  import opened Digits

  const ULID_LENGTH := 26
  const ULID_BYTES := 16
  const ULID_LIMIT := 0x1_0000_0000_0000_0000_0000_0000_0000_0000

  /** The digit `d` in "0123456789ABCDEFGHJKMNPQRSTVWXYZ". */
  function Symbol(d: nat): nat {
    if d < 10 then 48 + d
    else if d < 18 then 55 + d
    else if d < 20 then 56 + d
    else if d < 22 then 57 + d
    else if d < 27 then 58 + d
    else 59 + d
  }

  /** The value of a digit; 32 for any other character. */
  function SymbolValue(c: nat): nat {
    if 48 <= c <= 57 then c - 48
    else if 65 <= c <= 72 then c - 55
    else if 74 <= c <= 75 then c - 56
    else if 77 <= c <= 78 then c - 57
    else if 80 <= c <= 84 then c - 58
    else if 86 <= c <= 90 then c - 59
    else 32
  }

  lemma SymbolRoundTrip(d: nat)
    requires d < 32
    ensures SymbolValue(Symbol(d)) == d
  {
  }

  lemma ValueRoundTrip(c: nat)
    requires SymbolValue(c) < 32
    ensures Symbol(SymbolValue(c)) == c
  {
  }

  lemma Alphabet(d: nat)
    requires d < 32
    ensures Symbol(d) == Ascii("0123456789ABCDEFGHJKMNPQRSTVWXYZ")[d]
  {
  }

  function Symbols(ds: seq<nat>): (s: Chars)
    ensures |s| == |ds| && forall i :: 0 <= i < |ds| ==> s[i] == Symbol(ds[i])
  {
    seq(|ds|, i requires 0 <= i < |ds| => Symbol(ds[i]))
  }

  function SymbolValues(s: Chars): (ds: seq<nat>)
    ensures |ds| == |s| && forall i :: 0 <= i < |s| ==> ds[i] == SymbolValue(s[i])
  {
    seq(|s|, i requires 0 <= i < |s| => SymbolValue(s[i]))
  }

  predicate IsPayload(bs: Bytes) {
    |bs| == ULID_BYTES && AllBelow(bs, 256)
  }

  /** The 26 base 32 digits of the 128-bit number that the bytes spell. */
  function Ulid(bs: Bytes): Chars {
    Symbols(Encode(Decode(bs, 256), 32, ULID_LENGTH))
  }

  /** `encode_crockford_ulid`: digits are written from the last place to the first. */
  method EncodeUlid(bs: Bytes) returns (r: Option<Chars>)
    ensures r == if |bs| == ULID_BYTES then Some(Ulid(bs)) else None
  {
    if |bs| != ULID_BYTES {
      return None;
    }
    var integer := Decode(bs, 256);
    ghost var digits := Encode(integer, 32, ULID_LENGTH);
    var encoded := new nat[ULID_LENGTH](i => 48);
    var index: nat := ULID_LENGTH;
    while index > 0
      invariant 0 <= index <= ULID_LENGTH
      invariant Encode(integer, 32, index) == digits[..index]
      invariant forall i :: index <= i < ULID_LENGTH ==> encoded[i] == Symbol(digits[i])
    {
      index := index - 1;
      assert Encode(integer, 32, index + 1)[index] == integer % 32;
      assert Encode(integer, 32, index + 1)[..index] == Encode(integer / 32, 32, index);
      assert digits[..index + 1][..index] == digits[..index];
      encoded[index] := Symbol(integer % 32);
      integer := integer / 32;
    }
    assert encoded[..] == Ulid(bs);
    return Some(encoded[..]);
  }

  /** What a payload text stands for; none is the raised error. */
  function FromUlid(s: Chars): Option<Bytes> {
    var ds := SymbolValues(s);
    if |s| == ULID_LENGTH && AllBelow(ds, 32) && Decode(ds, 32) < ULID_LIMIT
    then Some(Encode(Decode(ds, 32), 256, ULID_BYTES)) else None
  }

  /** `decode_crockford_ulid` */
  method DecodeUlid(s: Chars) returns (r: Option<Bytes>)
    ensures r == FromUlid(s)
  {
    if |s| != ULID_LENGTH {
      return None;
    }
    var integer := 0;
    ghost var ds := SymbolValues(s);
    for i := 0 to |s|
      invariant AllBelow(ds[..i], 32) && integer == Decode(ds[..i], 32)
    {
      var value := SymbolValue(s[i]);
      if value == 32 {
        assert ds[i] == 32;
        return None;
      }
      assert ds[..i + 1][..i] == ds[..i];
      integer := integer * 32 + value;
    }
    assert ds[..|s|] == ds;
    if integer >= ULID_LIMIT {
      return None;
    }
    return Some(Encode(integer, 256, ULID_BYTES));
  }

  // ---------------------------------------------------------------------
  // A bijection
  // ---------------------------------------------------------------------

  lemma {:induction false} PowAdd(base: nat, m: nat, n: nat)
    ensures Pow(base, m + n) == Pow(base, m) * Pow(base, n)
  {
    if n > 0 {
      PowAdd(base, m, n - 1);
      assert Pow(base, m) * Pow(base, n - 1) * base == Pow(base, m) * (Pow(base, n - 1) * base);
    }
  }

  lemma Limits()
    ensures Pow(256, ULID_BYTES) == ULID_LIMIT <= Pow(32, ULID_LENGTH)
  {
    assert Pow(256, 2) == Pow(256, 1) * 256 == 0x1_0000;
    PowAdd(256, 2, 2);
    PowAdd(256, 4, 4);
    PowAdd(256, 8, 8);
    assert Pow(32, 2) == Pow(32, 1) * 32 == 0x400;
    PowAdd(32, 2, 2);
    PowAdd(32, 4, 4);
    PowAdd(32, 8, 8);
    PowAdd(32, 16, 8);
    PowAdd(32, 24, 2);
  }

  lemma SymbolsInvert(ds: seq<nat>)
    requires AllBelow(ds, 32)
    ensures SymbolValues(Symbols(ds)) == ds
  {
    forall i | 0 <= i < |ds| ensures SymbolValues(Symbols(ds))[i] == ds[i] {
      SymbolRoundTrip(ds[i]);
    }
  }

  lemma ValuesInvert(s: Chars)
    requires AllBelow(SymbolValues(s), 32)
    ensures Symbols(SymbolValues(s)) == s
  {
    forall i | 0 <= i < |s| ensures Symbols(SymbolValues(s))[i] == s[i] {
      assert SymbolValues(s)[i] < 32;
      ValueRoundTrip(s[i]);
    }
  }

  /** Every 16-byte payload is read back from its text. */
  lemma UlidRoundTrip(bs: Bytes)
    requires IsPayload(bs)
    ensures FromUlid(Ulid(bs)) == Some(bs)
  {
    var n := Decode(bs, 256);
    Limits();
    EncodeDecode(bs, 256);
    SymbolsInvert(Encode(n, 32, ULID_LENGTH));
    DecodeEncode(n, 32, ULID_LENGTH);
  }

  /** Every accepted text is the text of the payload it is read as. */
  lemma TextRoundTrip(s: Chars)
    requires FromUlid(s).Some?
    ensures IsPayload(FromUlid(s).value) && Ulid(FromUlid(s).value) == s
  {
    var ds := SymbolValues(s);
    Limits();
    DecodeEncode(Decode(ds, 32), 256, ULID_BYTES);
    EncodeDecode(ds, 32);
    ValuesInvert(s);
  }

  // ---------------------------------------------------------------------
  // Prefixed identifiers
  // ---------------------------------------------------------------------

  datatype PlannedKind = Scenario | Event | DeliveryKind | AttemptPlan | Observation | Assertion

  datatype FreshKind = Attempt | Sample | Evaluation | Record

  /** The kind and an underscore. */
  function PlannedPrefix(k: PlannedKind): Chars {
    match k
    case Scenario => [115, 99, 101, 110, 97, 114, 105, 111, 95]
    case Event => [101, 118, 101, 110, 116, 95]
    case DeliveryKind => [100, 101, 108, 105, 118, 101, 114, 121, 95]
    case AttemptPlan => [97, 116, 116, 101, 109, 112, 116, 95, 112, 108, 97, 110, 95]
    case Observation => [111, 98, 115, 101, 114, 118, 97, 116, 105, 111, 110, 95]
    case Assertion => [97, 115, 115, 101, 114, 116, 105, 111, 110, 95]
  }

  function FreshPrefix(k: FreshKind): Chars {
    match k
    case Attempt => [97, 116, 116, 101, 109, 112, 116, 95]
    case Sample => [115, 97, 109, 112, 108, 101, 95]
    case Evaluation => [101, 118, 97, 108, 117, 97, 116, 105, 111, 110, 95]
    case Record => [114, 101, 99, 111, 114, 100, 95]
  }

  const PLANNED_KINDS: seq<PlannedKind> := [Scenario, Event, DeliveryKind, AttemptPlan, Observation, Assertion]

  const FRESH_KINDS: seq<FreshKind> := [Attempt, Sample, Evaluation, Record]

  datatype Parsed<K> = Parsed(kind: K, payload: Bytes) | Malformed

  function Payload<K>(kind: K, rest: Chars): Parsed<K> {
    if FromUlid(rest).Some? then Parsed(kind, FromUlid(rest).value) else Malformed
  }

  /** The first kind of the list whose prefix the text begins with decides. */
  function ParsePlannedAs(kinds: seq<PlannedKind>, s: Chars): Parsed<PlannedKind> {
    if kinds == [] then Malformed
    else if PlannedPrefix(kinds[0]) <= s then Payload(kinds[0], s[|PlannedPrefix(kinds[0])|..])
    else ParsePlannedAs(kinds[1..], s)
  }

  function ParseFreshAs(kinds: seq<FreshKind>, s: Chars): Parsed<FreshKind> {
    if kinds == [] then Malformed
    else if FreshPrefix(kinds[0]) <= s then Payload(kinds[0], s[|FreshPrefix(kinds[0])|..])
    else ParseFreshAs(kinds[1..], s)
  }

  function ParsePlanned(s: Chars): Parsed<PlannedKind> {
    ParsePlannedAs(PLANNED_KINDS, s)
  }

  predicate UsesPlannedPrefix(s: Chars) {
    exists k: PlannedKind :: PlannedPrefix(k) <= s
  }

  function ParseFresh(s: Chars): Parsed<FreshKind> {
    if UsesPlannedPrefix(s) then Malformed else ParseFreshAs(FRESH_KINDS, s)
  }

  lemma PrefixTexts()
    ensures PlannedPrefix(Scenario) == Ascii("scenario_") && PlannedPrefix(Event) == Ascii("event_")
    ensures PlannedPrefix(DeliveryKind) == Ascii("delivery_") && PlannedPrefix(AttemptPlan) == Ascii("attempt_plan_")
    ensures PlannedPrefix(Observation) == Ascii("observation_") && PlannedPrefix(Assertion) == Ascii("assertion_")
    ensures FreshPrefix(Attempt) == Ascii("attempt_") && FreshPrefix(Sample) == Ascii("sample_")
    ensures FreshPrefix(Evaluation) == Ascii("evaluation_") && FreshPrefix(Record) == Ascii("record_")
  {
  }

  lemma PlannedPrefixDecides(j: PlannedKind, k: PlannedKind, s: Chars)
    requires PlannedPrefix(j) <= s && PlannedPrefix(k) <= s
    ensures j == k
  {
    assert PlannedPrefix(j)[0] == s[0] == PlannedPrefix(k)[0];
    assert PlannedPrefix(j)[1] == s[1] == PlannedPrefix(k)[1];
  }

  lemma FreshPrefixDecides(j: FreshKind, k: FreshKind, s: Chars)
    requires FreshPrefix(j) <= s && FreshPrefix(k) <= s
    ensures j == k
  {
    assert FreshPrefix(j)[0] == s[0] == FreshPrefix(k)[0];
  }

  lemma {:induction false} PlannedAs(kinds: seq<PlannedKind>, s: Chars, k: PlannedKind)
    requires k in kinds && PlannedPrefix(k) <= s
    ensures ParsePlannedAs(kinds, s) == Payload(k, s[|PlannedPrefix(k)|..])
  {
    if PlannedPrefix(kinds[0]) <= s {
      PlannedPrefixDecides(kinds[0], k, s);
    } else {
      PlannedAs(kinds[1..], s, k);
    }
  }

  lemma {:induction false} FreshAs(kinds: seq<FreshKind>, s: Chars, k: FreshKind)
    requires k in kinds && FreshPrefix(k) <= s
    ensures ParseFreshAs(kinds, s) == Payload(k, s[|FreshPrefix(k)|..])
  {
    if FreshPrefix(kinds[0]) <= s {
      FreshPrefixDecides(kinds[0], k, s);
    } else {
      FreshAs(kinds[1..], s, k);
    }
  }

  /** Parsing a generated planned identifier recovers its kind and payload. */
  lemma PlannedRoundTrip(k: PlannedKind, bs: Bytes)
    requires IsPayload(bs)
    ensures ParsePlanned(PlannedPrefix(k) + Ulid(bs)) == Parsed(k, bs)
  {
    var s := PlannedPrefix(k) + Ulid(bs);
    assert s[|PlannedPrefix(k)|..] == Ulid(bs);
    AllPlannedKinds(k);
    PlannedAs(PLANNED_KINDS, s, k);
    UlidRoundTrip(bs);
  }

  lemma AllPlannedKinds(k: PlannedKind)
    ensures k in PLANNED_KINDS
  {
    match k
    case Scenario => assert PLANNED_KINDS[0] == k;
    case Event => assert PLANNED_KINDS[1] == k;
    case DeliveryKind => assert PLANNED_KINDS[2] == k;
    case AttemptPlan => assert PLANNED_KINDS[3] == k;
    case Observation => assert PLANNED_KINDS[4] == k;
    case Assertion => assert PLANNED_KINDS[5] == k;
  }

  lemma AllFreshKinds(k: FreshKind)
    ensures k in FRESH_KINDS
  {
    match k
    case Attempt => assert FRESH_KINDS[0] == k;
    case Sample => assert FRESH_KINDS[1] == k;
    case Evaluation => assert FRESH_KINDS[2] == k;
    case Record => assert FRESH_KINDS[3] == k;
  }

  lemma {:induction false} PlannedTextAs(kinds: seq<PlannedKind>, s: Chars)
    requires ParsePlannedAs(kinds, s).Parsed?
    ensures IsPayload(ParsePlannedAs(kinds, s).payload)
    ensures s == PlannedPrefix(ParsePlannedAs(kinds, s).kind) + Ulid(ParsePlannedAs(kinds, s).payload)
  {
    if PlannedPrefix(kinds[0]) <= s {
      TextRoundTrip(s[|PlannedPrefix(kinds[0])|..]);
    } else {
      PlannedTextAs(kinds[1..], s);
    }
  }

  /** Every text that parses as planned is the one generated for the kind and payload it parses to. */
  lemma PlannedText(s: Chars)
    requires ParsePlanned(s).Parsed?
    ensures IsPayload(ParsePlanned(s).payload)
    ensures s == PlannedPrefix(ParsePlanned(s).kind) + Ulid(ParsePlanned(s).payload)
  {
    PlannedTextAs(PLANNED_KINDS, s);
  }

  lemma {:induction false} FreshTextAs(kinds: seq<FreshKind>, s: Chars)
    requires ParseFreshAs(kinds, s).Parsed?
    ensures IsPayload(ParseFreshAs(kinds, s).payload)
    ensures s == FreshPrefix(ParseFreshAs(kinds, s).kind) + Ulid(ParseFreshAs(kinds, s).payload)
  {
    if FreshPrefix(kinds[0]) <= s {
      TextRoundTrip(s[|FreshPrefix(kinds[0])|..]);
    } else {
      FreshTextAs(kinds[1..], s);
    }
  }

  /** Every text that parses as fresh is the one generated for the kind and payload it parses to. */
  lemma FreshText(s: Chars)
    requires ParseFresh(s).Parsed?
    ensures IsPayload(ParseFresh(s).payload)
    ensures s == FreshPrefix(ParseFresh(s).kind) + Ulid(ParseFresh(s).payload)
  {
    FreshTextAs(FRESH_KINDS, s);
  }

  /** A payload never begins with the letter that continues `attempt_` to `attempt_plan_`. */
  lemma UlidHead(bs: Bytes)
    ensures Ulid(bs)[0] <= 90
  {
    assert Encode(Decode(bs, 256), 32, ULID_LENGTH)[0] < 32;
  }

  /** The two kinds that share a stem differ where the payload begins. */
  lemma AttemptAvoids(bs: Bytes)
    ensures !(PlannedPrefix(AttemptPlan) <= FreshPrefix(Attempt) + Ulid(bs))
  {
    UlidHead(bs);
    var s := FreshPrefix(Attempt) + Ulid(bs);
    assert s[8] == Ulid(bs)[0];
    Differ(PlannedPrefix(AttemptPlan), s, 8);
  }

  lemma StemsDiffer(k: FreshKind, p: PlannedKind)
    ensures || PlannedPrefix(p)[0] != FreshPrefix(k)[0] || PlannedPrefix(p)[1] != FreshPrefix(k)[1]
            || PlannedPrefix(p)[2] != FreshPrefix(k)[2] || (k == Attempt && p == AttemptPlan)
  {
  }

  lemma FreshAvoidsOne(k: FreshKind, bs: Bytes, p: PlannedKind)
    ensures !(PlannedPrefix(p) <= FreshPrefix(k) + Ulid(bs))
  {
    var f := FreshPrefix(k);
    var q, s := PlannedPrefix(p), f + Ulid(bs);
    StemsDiffer(k, p);
    assert |q| >= 3 && |f| >= 3;
    assert s[0] == f[0] && s[1] == f[1] && s[2] == f[2];
    if q[0] != f[0] {
      Differ(q, s, 0);
    } else if q[1] != f[1] {
      Differ(q, s, 1);
    } else if q[2] != f[2] {
      Differ(q, s, 2);
    } else {
      AttemptAvoids(bs);
    }
  }

  lemma FreshAvoidsPlanned(k: FreshKind, bs: Bytes)
    ensures !UsesPlannedPrefix(FreshPrefix(k) + Ulid(bs))
  {
    forall p: PlannedKind ensures !(PlannedPrefix(p) <= FreshPrefix(k) + Ulid(bs)) {
      FreshAvoidsOne(k, bs, p);
    }
  }

  lemma Differ(p: Chars, s: Chars, i: nat)
    requires i < |p| && i < |s| && p[i] != s[i]
    ensures !(p <= s)
  {
  }

  /** Parsing a generated fresh identifier recovers its kind and payload, the shared `attempt` stem notwithstanding. */
  lemma FreshRoundTrip(k: FreshKind, bs: Bytes)
    requires IsPayload(bs)
    ensures ParseFresh(FreshPrefix(k) + Ulid(bs)) == Parsed(k, bs)
  {
    var s := FreshPrefix(k) + Ulid(bs);
    assert s[|FreshPrefix(k)|..] == Ulid(bs);
    FreshAvoidsPlanned(k, bs);
    AllFreshKinds(k);
    FreshAs(FRESH_KINDS, s, k);
    UlidRoundTrip(bs);
  }

  /** No text parses as both planned and fresh. */
  lemma NeverBoth(s: Chars)
    ensures ParsePlanned(s) == Malformed || ParseFresh(s) == Malformed
  {
    if ParsePlanned(s).Parsed? {
      PlannedText(s);
      assert PlannedPrefix(ParsePlanned(s).kind) <= s;
    }
  }
}
