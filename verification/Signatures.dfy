/** Signing and verifying reference requests under the three profiles. HMAC-SHA256
    is any function to 32 bytes and case folding any function that leaves the
    lowercase header names alone. */
module Signatures {
  import opened Options
  import opened Text
  import opened Codecs
  import opened ReceiverTables

  datatype Header = Header(name: string, value: Chars)

  datatype SigningKey = SigningKey(id: Chars, secret: Bytes, activeFrom: int, activeUntil: Option<int>) {
    predicate ActiveAt(t: int) {
      activeFrom <= t && (activeUntil == None || t <= activeUntil.value)
    }
  }

  datatype Configuration = Configuration(profile: Profile, keys: seq<SigningKey>, window: int)

  datatype Request = Request(profile: Profile, body: Bytes, headers: seq<Header>)

  /** `Raises` is an exception that leaves the verifier. */
  datatype Verdict = Verified(timestamp: nat, eventId: Option<Chars>) | Refused | Raises

  datatype Stamped = Stamped(timestamp: nat, digests: seq<Bytes>)

  /** "application/json" */
  const JSON_MEDIA_TYPE: Chars := [97, 112, 112, 108, 105, 99, 97, 116, 105, 111, 110, 47, 106, 115, 111, 110]
  const DOT := 46
  const COMMA := 44
  const EQUALS := 61
  const SPACE := 32

  ghost predicate IsMac(mac: (Bytes, Bytes) -> Bytes) {
    forall k, m :: IsDigest(mac(k, m))
  }

  predicate KeepsNames(fold: string -> string) {
    && fold("content-type") == "content-type"
    && fold("x-webhook-id") == "x-webhook-id" && fold("x-webhook-timestamp") == "x-webhook-timestamp"
    && fold("x-webhook-key-id") == "x-webhook-key-id" && fold("x-webhook-signature") == "x-webhook-signature"
    && fold("stripe-signature") == "stripe-signature"
    && fold("webhook-id") == "webhook-id" && fold("webhook-timestamp") == "webhook-timestamp"
    && fold("webhook-signature") == "webhook-signature"
  }

  predicate IsAscii(s: Chars) {
    forall i :: 0 <= i < |s| ==> s[i] < 128
  }

  predicate IdentifierStart(c: nat) {
    IsDigit(c) || 65 <= c <= 90 || 97 <= c <= 122
  }

  predicate IdentifierChar(c: nat) {
    IdentifierStart(c) || c == 95 || c == DOT || c == 58 || c == 45
  }

  /** `[A-Za-z0-9][A-Za-z0-9_.:-]{0,255}` */
  predicate SafeIdentifier(s: Chars) {
    1 <= |s| <= 256 && IdentifierStart(s[0]) && forall i :: 0 <= i < |s| ==> IdentifierChar(s[i])
  }

  // ---------------------------------------------------------------------
  // Canonical messages
  // ---------------------------------------------------------------------

  function GenericMessage(timestamp: nat, eventId: Chars, body: Bytes): Bytes {
    Decimal(timestamp) + [DOT] + eventId + [DOT] + body
  }

  function StripeMessage(timestamp: nat, body: Bytes): Bytes {
    Decimal(timestamp) + [DOT] + body
  }

  function StandardMessage(timestamp: nat, eventId: Chars, body: Bytes): Bytes {
    eventId + [DOT] + Decimal(timestamp) + [DOT] + body
  }

  // ---------------------------------------------------------------------
  // Signing
  // ---------------------------------------------------------------------

  /** `sign_reference_request`; none is the raised error. */
  function Sign(mac: (Bytes, Bytes) -> Bytes, profile: Profile, key: SigningKey, body: Bytes,
                eventId: Chars, timestamp: int): Option<seq<Header>>
  {
    if !SafeIdentifier(eventId) || timestamp < 0 then None
    else
      match profile
      case GenericHmac =>
        Some([
          Header("content-type", JSON_MEDIA_TYPE),
          Header("x-webhook-id", eventId),
          Header("x-webhook-timestamp", Decimal(timestamp)),
          Header("x-webhook-key-id", key.id),
          Header("x-webhook-signature", ToHex(mac(key.secret, GenericMessage(timestamp, eventId, body))))])
      case StripeV1 =>
        Some([
          Header("content-type", JSON_MEDIA_TYPE),
          Header("stripe-signature",
            [116, EQUALS] + Decimal(timestamp) + [COMMA]
            + [118, 49, EQUALS] + ToHex(mac(key.secret, StripeMessage(timestamp, body))))])
      case StandardWebhooks =>
        Some([
          Header("content-type", JSON_MEDIA_TYPE),
          Header("webhook-id", eventId),
          Header("webhook-timestamp", Decimal(timestamp)),
          Header("webhook-signature",
            [118, 49, COMMA] + ToBase64(mac(key.secret, StandardMessage(timestamp, eventId, body))))])
  }

  // ---------------------------------------------------------------------
  // Reading headers
  // ---------------------------------------------------------------------

  function Values(fold: string -> string, headers: seq<Header>, name: string): seq<Chars> {
    if headers == [] then []
    else if fold(headers[0].name) == fold(name) then [headers[0].value] + Values(fold, headers[1..], name)
    else Values(fold, headers[1..], name)
  }

  /** `_one_header`: the value of the only header of that name. */
  function OneHeader(fold: string -> string, headers: seq<Header>, name: string): Option<Chars> {
    var values := Values(fold, headers, name);
    if |values| == 1 then Some(values[0]) else None
  }

  lemma {:induction false} ValuesIndex(fold: string -> string, headers: seq<Header>, name: string)
    ensures Values(fold, headers, name) == [] <==>
      forall i :: 0 <= i < |headers| ==> fold(headers[i].name) != fold(name)
  {
    if headers != [] {
      ValuesIndex(fold, headers[1..], name);
      assert forall i :: 0 < i < |headers| ==> headers[i] == headers[1..][i - 1];
      if forall i :: 0 <= i < |headers| ==> fold(headers[i].name) != fold(name) {
        forall i | 0 <= i < |headers[1..]| ensures fold(headers[1..][i].name) != fold(name) {
          assert headers[1..][i] == headers[i + 1];
        }
      }
    }
  }

  /** Header `i` has the name, up to case folding, and no other one does. */
  predicate OnlyAt(fold: string -> string, headers: seq<Header>, name: string, i: int) {
    && 0 <= i < |headers| && fold(headers[i].name) == fold(name)
    && forall j :: 0 <= j < |headers| && j != i ==> fold(headers[j].name) != fold(name)
  }

  lemma OnlyAtTail(fold: string -> string, headers: seq<Header>, name: string, i: int)
    requires headers != [] && fold(headers[0].name) != fold(name)
    ensures OnlyAt(fold, headers, name, i) <==> OnlyAt(fold, headers[1..], name, i - 1)
  {
    assert forall j :: 0 < j < |headers| ==> headers[j] == headers[1..][j - 1];
    if OnlyAt(fold, headers, name, i) {
      forall j | 0 <= j < |headers[1..]| && j != i - 1 ensures fold(headers[1..][j].name) != fold(name) {
        assert headers[1..][j] == headers[j + 1];
      }
    }
  }

  /** A header is found exactly if it is the only one of its name. */
  lemma {:induction false} OneHeaderIff(fold: string -> string, headers: seq<Header>, name: string, value: Chars)
    ensures OneHeader(fold, headers, name) == Some(value) <==>
      exists i :: OnlyAt(fold, headers, name, i) && headers[i].value == value
  {
    if headers != [] {
      var rest := headers[1..];
      if fold(headers[0].name) == fold(name) {
        ValuesIndex(fold, rest, name);
        FirstOnly(fold, headers, name);
      } else {
        OneHeaderIff(fold, rest, name, value);
        forall i ensures OnlyAt(fold, headers, name, i) <==> OnlyAt(fold, rest, name, i - 1) {
          OnlyAtTail(fold, headers, name, i);
        }
        if i :| OnlyAt(fold, rest, name, i) && rest[i].value == value {
          assert OnlyAt(fold, headers, name, i + 1) && headers[i + 1] == rest[i];
        }
        if i :| OnlyAt(fold, headers, name, i) && headers[i].value == value {
          assert OnlyAt(fold, rest, name, i - 1) && rest[i - 1] == headers[i];
        }
      }
    }
  }

  lemma FirstOnly(fold: string -> string, headers: seq<Header>, name: string)
    requires headers != [] && fold(headers[0].name) == fold(name)
    ensures forall i :: OnlyAt(fold, headers, name, i) ==> i == 0
    ensures OnlyAt(fold, headers, name, 0) <==>
      forall j :: 0 <= j < |headers[1..]| ==> fold(headers[1..][j].name) != fold(name)
  {
    assert forall j :: 0 < j < |headers| ==> headers[j] == headers[1..][j - 1];
    if OnlyAt(fold, headers, name, 0) {
      forall j | 0 <= j < |headers[1..]| ensures fold(headers[1..][j].name) != fold(name) {
        assert headers[1..][j] == headers[j + 1];
      }
    }
  }

  function HexDigest(s: Chars): Option<Bytes> {
    if |s| == 2 * DIGEST_SIZE then FromHex(s) else None
  }

  /** Exactly the 64 lowercase hexadecimal digits of a digest are read, as that digest. */
  lemma HexDigestIff(s: Chars, digest: Bytes)
    ensures HexDigest(s) == Some(digest) <==> IsDigest(digest) && s == ToHex(digest)
  {
    HexReads(s, digest);
  }

  /** Every text read by `read`; none if one cannot be read. */
  function AllRead(read: Chars -> Option<Bytes>, texts: seq<Chars>): (r: Option<seq<Bytes>>)
    ensures r.Some? <==> forall i :: 0 <= i < |texts| ==> read(texts[i]).Some?
    ensures r.Some? ==> |r.value| == |texts| && forall i :: 0 <= i < |texts| ==> r.value[i] == read(texts[i]).value
  {
    if texts == [] then Some([])
    else
      var front := AllRead(read, texts[..|texts| - 1]);
      var last := read(texts[|texts| - 1]);
      if front == None || last == None then None else Some(front.value + [last.value])
  }

  function Named(parts: seq<Partition>, name: Chars): seq<Chars> {
    if parts == [] then []
    else
      var front, last := Named(parts[..|parts| - 1], name), parts[|parts| - 1];
      if last.name == name then front + [last.value] else front
  }

  function Parts(components: seq<Chars>): (ps: seq<Partition>)
    ensures |ps| == |components|
    ensures forall i :: 0 <= i < |ps| ==> ps[i] == PartitionAt(components[i], EQUALS)
  {
    seq(|components|, i requires 0 <= i < |components| => PartitionAt(components[i], EQUALS))
  }

  /** What a Stripe header says: between 2 and 32 parts that all name a value, one timestamp, and
      between one and eight `v1` digests, in order. Parts with other names are ignored. */
  function StripeHeader(value: Chars): Option<Stamped> {
    var parts := Parts(Split(value, COMMA));
    var times, digests := Named(parts, [116]), AllRead(HexDigest, Named(parts, [118, 49]));
    if 2 <= |parts| <= 32 && (forall i :: 0 <= i < |parts| ==> parts[i].found)
       && |times| == 1 && Timestamp(times[0]).Some? && digests.Some? && 1 <= |digests.value| <= 8
    then Some(Stamped(Timestamp(times[0]).value, digests.value))
    else None
  }

  /** What the loop has found in the first `i` parts. */
  ghost predicate SoFar(parts: seq<Partition>, i: nat, timestamp: Option<nat>, signatures: seq<Bytes>)
    requires i <= |parts|
  {
    && (forall j :: 0 <= j < i ==> parts[j].found)
    && AllRead(HexDigest, Named(parts[..i], [118, 49])) == Some(signatures)
    && (if timestamp == None then Named(parts[..i], [116]) == []
        else |Named(parts[..i], [116])| == 1 && Timestamp(Named(parts[..i], [116])[0]) == timestamp)
  }

  /** One more part leaves the parse as it was, adds to it, or decides that the header is refused. */
  function StepTime(part: Partition, timestamp: Option<nat>): Option<nat> {
    if part.name == [116] then Timestamp(part.value) else timestamp
  }

  function StepDigests(part: Partition, signatures: seq<Bytes>): seq<Bytes> {
    if part.name == [118, 49] && HexDigest(part.value).Some? then signatures + [HexDigest(part.value).value]
    else signatures
  }

  predicate Fatal(part: Partition, timestamp: Option<nat>) {
    || !part.found
    || (part.name == [116] && (timestamp.Some? || Timestamp(part.value) == None))
    || (part.name == [118, 49] && HexDigest(part.value) == None)
  }

  lemma SoFarStep(parts: seq<Partition>, i: nat, timestamp: Option<nat>, signatures: seq<Bytes>)
    requires i < |parts| && SoFar(parts, i, timestamp, signatures) && !Fatal(parts[i], timestamp)
    ensures SoFar(parts, i + 1, StepTime(parts[i], timestamp), StepDigests(parts[i], signatures))
  {
    NamedStep(parts, i, [116]);
    NamedStep(parts, i, [118, 49]);
    AllReadStep(HexDigest, Named(parts[..i], [118, 49]), parts[i].value);
  }

  lemma FatalTime(value: Chars, i: nat, timestamp: Option<nat>, signatures: seq<Bytes>)
    requires i < |Parts(Split(value, COMMA))| && SoFar(Parts(Split(value, COMMA)), i, timestamp, signatures)
    requires var part := Parts(Split(value, COMMA))[i];
      part.name == [116] && (timestamp.Some? || Timestamp(part.value) == None)
    ensures StripeHeader(value) == None
  {
    FatalTimes(Parts(Split(value, COMMA)), i, timestamp);
  }

  /** A second timestamp, or one that cannot be read, spoils the list of timestamps. */
  lemma FatalTimes(parts: seq<Partition>, i: nat, timestamp: Option<nat>)
    requires i < |parts| && parts[i].name == [116] && (timestamp.Some? || Timestamp(parts[i].value) == None)
    requires |Named(parts[..i], [116])| == if timestamp == None then 0 else 1
    ensures var times := Named(parts, [116]); |times| != 1 || Timestamp(times[0]) == None
  {
    NamedStep(parts, i, [116]);
    NamedMore(parts, i + 1, [116]);
    var few, all := Named(parts[..i + 1], [116]), Named(parts, [116]);
    assert few <= all && few[|few| - 1] == parts[i].value;
  }

  lemma FatalDigest(value: Chars, i: nat)
    requires i < |Parts(Split(value, COMMA))|
    requires var part := Parts(Split(value, COMMA))[i]; part.name == [118, 49] && HexDigest(part.value) == None
    ensures StripeHeader(value) == None
  {
    var parts := Parts(Split(value, COMMA));
    NamedStep(parts, i, [118, 49]);
    NamedMore(parts, i + 1, [118, 49]);
    var few, all := Named(parts[..i + 1], [118, 49]), Named(parts, [118, 49]);
    assert all[|few| - 1] == few[|few| - 1] == parts[i].value;
  }

  lemma SoFarFatal(value: Chars, i: nat, timestamp: Option<nat>, signatures: seq<Bytes>)
    requires i < |Parts(Split(value, COMMA))| && SoFar(Parts(Split(value, COMMA)), i, timestamp, signatures)
    requires Fatal(Parts(Split(value, COMMA))[i], timestamp)
    ensures StripeHeader(value) == None
  {
    var part := Parts(Split(value, COMMA))[i];
    if part.found {
      if part.name == [116] {
        FatalTime(value, i, timestamp, signatures);
      } else {
        FatalDigest(value, i);
      }
    }
  }

  lemma SoFarEnd(value: Chars, timestamp: Option<nat>, signatures: seq<Bytes>)
    requires var parts := Parts(Split(value, COMMA));
      2 <= |parts| <= 32 && SoFar(parts, |parts|, timestamp, signatures)
    ensures StripeHeader(value) ==
      if timestamp == None || signatures == [] || |signatures| > 8 then None
      else Some(Stamped(timestamp.value, signatures))
  {
    var parts := Parts(Split(value, COMMA));
    assert parts[..|parts|] == parts;
  }

  /** `_parse_stripe_header` */
  method ParseStripeHeader(value: Chars) returns (r: Option<Stamped>)
    ensures r == StripeHeader(value)
  {
    var components := Split(value, COMMA);
    if !(2 <= |components| <= 32) {
      return None;
    }
    var timestamp: Option<nat> := None;
    var signatures: seq<Bytes> := [];
    for i := 0 to |components|
      invariant SoFar(Parts(components), i, timestamp, signatures)
    {
      var part := PartitionAt(components[i], EQUALS);
      if Fatal(part, timestamp) {
        SoFarFatal(value, i, timestamp, signatures);
      } else {
        SoFarStep(Parts(components), i, timestamp, signatures);
      }
      if !part.found {
        return None;
      }
      if part.name == [116] {
        if timestamp.Some? {
          return None;
        }
        timestamp := Timestamp(part.value);
        if timestamp == None {
          return None;
        }
      } else if part.name == [118, 49] {
        var digest := HexDigest(part.value);
        if digest == None {
          return None;
        }
        signatures := signatures + [digest.value];
      }
    }
    SoFarEnd(value, timestamp, signatures);
    if timestamp == None || signatures == [] || |signatures| > 8 {
      return None;
    }
    return Some(Stamped(timestamp.value, signatures));
  }

  lemma NamedStep(parts: seq<Partition>, i: nat, name: Chars)
    requires i < |parts|
    ensures Named(parts[..i + 1], name) ==
      if parts[i].name == name then Named(parts[..i], name) + [parts[i].value] else Named(parts[..i], name)
  {
    assert parts[..i + 1][..i] == parts[..i];
  }

  lemma AllReadStep(read: Chars -> Option<Bytes>, texts: seq<Chars>, text: Chars)
    ensures AllRead(read, texts + [text]) ==
      if AllRead(read, texts).Some? && read(text).Some? then Some(AllRead(read, texts).value + [read(text).value])
      else None
  {
    assert (texts + [text])[..|texts|] == texts;
  }

  /** What was named so far stays named. */
  lemma {:induction false} NamedMore(parts: seq<Partition>, i: nat, name: Chars)
    requires i <= |parts|
    ensures Named(parts[..i], name) <= Named(parts, name)
    decreases |parts| - i
  {
    if i < |parts| {
      NamedStep(parts, i, name);
      NamedMore(parts, i + 1, name);
    } else {
      assert parts[..i] == parts;
    }
  }

  /** One `v1,` signature of 43 base 64 digits and one padding character. */
  function StandardSignature(c: Chars): Option<Bytes> {
    if |c| == 47 && c[..3] == [118, 49, COMMA] && OnePad(c[3..])
       && FromBase64(c[3..]).Some? && |FromBase64(c[3..]).value| == DIGEST_SIZE
    then FromBase64(c[3..]) else None
  }

  /** 43 base 64 digits and one padding character that spell a digest. */
  predicate SpellsDigest(text: Chars, digest: Bytes) {
    && |text| == 44 && text[43] == Ascii("=")[0] && (forall i :: 0 <= i < 43 ==> SextetValue(text[i]) < 64)
    && FromBase64(text) == Some(digest) && |digest| == 32
  }

  /** Exactly the texts `v1,` with such a spelling are read, as the bytes they spell. */
  lemma StandardSignatureIff(c: Chars, digest: Bytes)
    ensures StandardSignature(c) == Some(digest) <==>
      exists text :: c == Ascii("v1,") + text && SpellsDigest(text, digest)
  {
    assert Ascii("v1,") == [118, 49, COMMA] && Ascii("=")[0] == PAD;
    if StandardSignature(c) == Some(digest) {
      assert c == Ascii("v1,") + c[3..] && SpellsDigest(c[3..], digest);
    }
    if text :| c == Ascii("v1,") + text && SpellsDigest(text, digest) {
      assert c[3..] == text && c[..3] == [118, 49, COMMA];
    }
  }

  function StandardSignatures(value: Chars): Option<seq<Bytes>> {
    var components := Split(value, SPACE);
    if |components| <= 8 then AllRead(StandardSignature, components) else None
  }

  /** `_parse_standard_signatures` */
  method ParseStandardSignatures(value: Chars) returns (r: Option<seq<Bytes>>)
    ensures r == StandardSignatures(value)
  {
    var components := Split(value, SPACE);
    if !(1 <= |components| <= 8) {
      return None;
    }
    var result: seq<Bytes> := [];
    for i := 0 to |components|
      invariant AllRead(StandardSignature, components[..i]) == Some(result)
    {
      var decoded := StandardSignature(components[i]);
      assert components[..i + 1] == components[..i] + [components[i]];
      AllReadStep(StandardSignature, components[..i], components[i]);
      if decoded == None {
        return None;
      }
      result := result + [decoded.value];
    }
    assert components[..|components|] == components;
    return Some(result);
  }

  // ---------------------------------------------------------------------
  // Verifying
  // ---------------------------------------------------------------------

  ghost predicate Matches(mac: (Bytes, Bytes) -> Bytes, message: Bytes, supplied: seq<Bytes>, keys: seq<SigningKey>) {
    exists key :: key in keys && mac(key.secret, message) in supplied
  }

  /** `_matches_any`: every key is tried against every digest. */
  method MatchesAny(mac: (Bytes, Bytes) -> Bytes, message: Bytes, supplied: seq<Bytes>, keys: seq<SigningKey>)
    returns (matched: bool)
    ensures matched <==> Matches(mac, message, supplied, keys)
  {
    matched := false;
    for i := 0 to |keys|
      invariant matched <==> Matches(mac, message, supplied, keys[..i])
    {
      var expected := mac(keys[i].secret, message);
      ghost var before := matched;
      for j := 0 to |supplied|
        invariant matched <==> before || expected in supplied[..j]
      {
        matched := expected == supplied[j] || matched;
        assert supplied[..j + 1] == supplied[..j] + [supplied[j]];
      }
      assert supplied[..|supplied|] == supplied;
      assert keys[..i + 1] == keys[..i] + [keys[i]];
    }
    assert keys[..|keys|] == keys;
  }

  function Abs(n: int): nat {
    if n < 0 then -n else n
  }

  predicate Fresh(timestamp: int, now: int, window: int) {
    Abs(now - timestamp) <= window
  }

  function KeysWhere(keys: seq<SigningKey>, p: SigningKey -> bool): (r: seq<SigningKey>)
    ensures forall k :: k in r <==> k in keys && p(k)
  {
    if keys == [] then []
    else if p(keys[0]) then [keys[0]] + KeysWhere(keys[1..], p)
    else KeysWhere(keys[1..], p)
  }

  /** The last steps that the three profiles share: some candidate key, an encodable message, a match. */
  ghost function Decide(mac: (Bytes, Bytes) -> Bytes, keys: seq<SigningKey>, encodable: bool, message: Bytes,
                        supplied: seq<Bytes>, verified: Verdict): Verdict
  {
    if keys == [] then Refused
    else if !encodable then Raises
    else if Matches(mac, message, supplied, keys) then verified
    else Refused
  }

  ghost function VerifyGeneric(mac: (Bytes, Bytes) -> Bytes, fold: string -> string, request: Request,
                               configuration: Configuration, now: int): Verdict
  {
    var id := OneHeader(fold, request.headers, "x-webhook-id");
    var time := OneHeader(fold, request.headers, "x-webhook-timestamp");
    var keyId := OneHeader(fold, request.headers, "x-webhook-key-id");
    var signature := OneHeader(fold, request.headers, "x-webhook-signature");
    if id == None || keyId == None || time == None || signature == None then Refused
    else
      var timestamp, supplied := Timestamp(time.value), HexDigest(signature.value);
      if timestamp == None || supplied == None || !Fresh(timestamp.value, now, configuration.window) then Refused
      else
        Decide(mac, KeysWhere(configuration.keys, (k: SigningKey) => k.id == keyId.value && k.ActiveAt(now)),
               IsAscii(id.value), GenericMessage(timestamp.value, id.value, request.body), [supplied.value],
               Verified(timestamp.value, id))
  }

  ghost function VerifyStripe(mac: (Bytes, Bytes) -> Bytes, fold: string -> string, request: Request,
                              configuration: Configuration, now: int): Verdict
  {
    var header := OneHeader(fold, request.headers, "stripe-signature");
    var stamped := if header == None then None else StripeHeader(header.value);
    if stamped == None || !Fresh(stamped.value.timestamp, now, configuration.window) then Refused
    else
      Decide(mac, KeysWhere(configuration.keys, (k: SigningKey) => k.ActiveAt(now)), true,
             StripeMessage(stamped.value.timestamp, request.body), stamped.value.digests,
             Verified(stamped.value.timestamp, None))
  }

  ghost function VerifyStandard(mac: (Bytes, Bytes) -> Bytes, fold: string -> string, request: Request,
                                configuration: Configuration, now: int): Verdict
  {
    var id := OneHeader(fold, request.headers, "webhook-id");
    var time := OneHeader(fold, request.headers, "webhook-timestamp");
    var signature := OneHeader(fold, request.headers, "webhook-signature");
    if id == None || time == None || signature == None then Refused
    else
      JudgeStandard(mac, configuration, now, request.body, id.value,
                    Timestamp(time.value), StandardSignatures(signature.value))
  }

  ghost function JudgeStandard(mac: (Bytes, Bytes) -> Bytes, configuration: Configuration, now: int, body: Bytes,
                               id: Chars, timestamp: Option<nat>, supplied: Option<seq<Bytes>>): Verdict
  {
    if timestamp == None || supplied == None || !Fresh(timestamp.value, now, configuration.window) then Refused
    else
      Decide(mac, KeysWhere(configuration.keys, (k: SigningKey) => k.ActiveAt(now)),
             IsAscii(id), StandardMessage(timestamp.value, id, body), supplied.value,
             Verified(timestamp.value, Some(id)))
  }

  /** `_verify_request_signature` */
  ghost function Verify(mac: (Bytes, Bytes) -> Bytes, fold: string -> string, request: Request,
                        configuration: Configuration, now: int): Verdict
  {
    if now < 0 || request.profile != configuration.profile then Refused
    else
      match request.profile
      case GenericHmac => VerifyGeneric(mac, fold, request, configuration, now)
      case StripeV1 => VerifyStripe(mac, fold, request, configuration, now)
      case StandardWebhooks => VerifyStandard(mac, fold, request, configuration, now)
  }

  // ---------------------------------------------------------------------
  // What was signed is accepted
  // ---------------------------------------------------------------------

  lemma {:induction false} NoValues(fold: string -> string, headers: seq<Header>, name: string)
    requires forall i :: 0 <= i < |headers| ==> fold(headers[i].name) != fold(name)
    ensures Values(fold, headers, name) == []
  {
    if headers != [] { NoValues(fold, headers[1..], name); }
  }

  lemma {:induction false} OnlyHeader(fold: string -> string, headers: seq<Header>, name: string, i: nat)
    requires i < |headers| && fold(headers[i].name) == fold(name)
    requires forall j :: 0 <= j < |headers| && j != i ==> fold(headers[j].name) != fold(name)
    ensures Values(fold, headers, name) == [headers[i].value]
    ensures OneHeader(fold, headers, name) == Some(headers[i].value)
  {
    if i == 0 {
      NoValues(fold, headers[1..], name);
    } else {
      OnlyHeader(fold, headers[1..], name, i - 1);
    }
  }

  lemma SafeIsAscii(s: Chars)
    requires SafeIdentifier(s)
    ensures IsAscii(s)
  {
  }

  lemma DecideAccepts(mac: (Bytes, Bytes) -> Bytes, keys: seq<SigningKey>, key: SigningKey, message: Bytes,
                      verified: Verdict)
    requires key in keys
    ensures Decide(mac, keys, true, message, [mac(key.secret, message)], verified) == verified
  {
    assert mac(key.secret, message) in [mac(key.secret, message)];
  }

  lemma HexDigestRoundTrip(digest: Bytes)
    requires IsDigest(digest)
    ensures HexDigest(ToHex(digest)) == Some(digest)
  {
    HexRoundTrip(digest);
  }

  lemma AllReadOne(read: Chars -> Option<Bytes>, text: Chars)
    ensures AllRead(read, [text]) == if read(text).Some? then Some([read(text).value]) else None
  {
    var r := AllRead(read, [text]);
    assert [text][0] == text;
    if r.Some? {
      assert r.value == [r.value[0]];
    }
  }

  lemma SignatureText(text: Chars, digest: Bytes)
    requires |text| == 44 && OnePad(text) && FromBase64(text) == Some(digest) && |digest| == DIGEST_SIZE
    ensures StandardSignatures([118, 49, COMMA] + text) == Some([digest])
  {
    var c := [118, 49, COMMA] + text;
    assert c[..3] == [118, 49, COMMA] && c[3..] == text;
    forall i | 0 <= i < |c| ensures c[i] != SPACE {
      if i >= 3 { assert c[i] == text[i - 3]; }
    }
    SplitFirst(c, SPACE, []);
    AllReadOne(StandardSignature, c);
  }

  lemma StandardRoundTripText(digest: Bytes)
    requires IsDigest(digest)
    ensures StandardSignatures([118, 49, COMMA] + ToBase64(digest)) == Some([digest])
  {
    Base64Shape(digest);
    Base64RoundTrip(digest);
    SignatureText(ToBase64(digest), digest);
  }

  lemma SplitTwo(a: Chars, b: Chars)
    requires COMMA !in a && COMMA !in b
    ensures Split(a + [COMMA] + b, COMMA) == [a, b]
  {
    SplitFirst(a, COMMA, b);
    SplitFirst(b, COMMA, []);
  }

  lemma StripeParts(time: Chars, hex: Chars)
    requires COMMA !in time && COMMA !in hex
    ensures Parts(Split([116, EQUALS] + time + [COMMA] + [118, 49, EQUALS] + hex, COMMA))
         == [Partition([116], true, time), Partition([118, 49], true, hex)]
  {
    var a, b := [116] + [EQUALS] + time, [118, 49] + [EQUALS] + hex;
    assert [116, EQUALS] + time + [COMMA] + [118, 49, EQUALS] + hex == a + [COMMA] + b;
    SplitTwo(a, b);
    PartitionFirst([116], EQUALS, time);
    PartitionFirst([118, 49], EQUALS, hex);
  }

  lemma NamedPair(p: Partition, q: Partition, name: Chars)
    ensures Named([p, q], name) ==
      (if p.name == name then [p.value] else []) + (if q.name == name then [q.value] else [])
  {
    assert [p, q][..1] == [p] && [p, q][..0] == [] && [p, q][..2] == [p, q];
    NamedStep([p, q], 0, name);
    NamedStep([p, q], 1, name);
  }

  lemma StripeText(time: Chars, hex: Chars, timestamp: nat, digest: Bytes)
    requires COMMA !in time && COMMA !in hex && Timestamp(time) == Some(timestamp) && HexDigest(hex) == Some(digest)
    ensures StripeHeader([116, EQUALS] + time + [COMMA] + [118, 49, EQUALS] + hex) == Some(Stamped(timestamp, [digest]))
  {
    var p, q := Partition([116], true, time), Partition([118, 49], true, hex);
    StripeParts(time, hex);
    NamedPair(p, q, [116]);
    NamedPair(p, q, [118, 49]);
    assert Named([p, q], [116]) == [time] && Named([p, q], [118, 49]) == [hex];
    AllReadOne(HexDigest, hex);
  }

  lemma StripeRoundTripText(timestamp: nat, digest: Bytes)
    requires IsDigest(digest) && timestamp < TIMESTAMP_LIMIT
    ensures StripeHeader([116, EQUALS] + Decimal(timestamp) + [COMMA] + [118, 49, EQUALS] + ToHex(digest))
         == Some(Stamped(timestamp, [digest]))
  {
    TimestampRoundTrip(timestamp);
    HexRoundTrip(digest);
    assert forall i :: 0 <= i < |ToHex(digest)| ==> ToHex(digest)[i] != COMMA;
    StripeText(Decimal(timestamp), ToHex(digest), timestamp, digest);
  }

  // The three profiles, one by one.

  lemma GenericHeaders(fold: string -> string, a: Chars, b: Chars, c: Chars, d: Chars, e: Chars)
    requires KeepsNames(fold)
    ensures var headers := [Header("content-type", a), Header("x-webhook-id", b), Header("x-webhook-timestamp", c),
                            Header("x-webhook-key-id", d), Header("x-webhook-signature", e)];
      && OneHeader(fold, headers, "x-webhook-id") == Some(b)
      && OneHeader(fold, headers, "x-webhook-timestamp") == Some(c)
      && OneHeader(fold, headers, "x-webhook-key-id") == Some(d)
      && OneHeader(fold, headers, "x-webhook-signature") == Some(e)
  {
    var headers := [Header("content-type", a), Header("x-webhook-id", b), Header("x-webhook-timestamp", c),
                    Header("x-webhook-key-id", d), Header("x-webhook-signature", e)];
    assert "content-type"[0] != "x-webhook-id"[0];
    assert "x-webhook-timestamp"[10] != "x-webhook-signature"[10];
    OnlyHeader(fold, headers, "x-webhook-id", 1);
    OnlyHeader(fold, headers, "x-webhook-timestamp", 2);
    OnlyHeader(fold, headers, "x-webhook-key-id", 3);
    OnlyHeader(fold, headers, "x-webhook-signature", 4);
  }

  lemma StandardHeaders(fold: string -> string, a: Chars, b: Chars, c: Chars, d: Chars)
    requires KeepsNames(fold)
    ensures var headers := [Header("content-type", a), Header("webhook-id", b), Header("webhook-timestamp", c),
                            Header("webhook-signature", d)];
      && OneHeader(fold, headers, "webhook-id") == Some(b)
      && OneHeader(fold, headers, "webhook-timestamp") == Some(c)
      && OneHeader(fold, headers, "webhook-signature") == Some(d)
  {
    var headers := [Header("content-type", a), Header("webhook-id", b), Header("webhook-timestamp", c),
                    Header("webhook-signature", d)];
    assert "webhook-timestamp"[8] != "webhook-signature"[8];
    OnlyHeader(fold, headers, "webhook-id", 1);
    OnlyHeader(fold, headers, "webhook-timestamp", 2);
    OnlyHeader(fold, headers, "webhook-signature", 3);
  }

  lemma StripeHeaders(fold: string -> string, a: Chars, b: Chars)
    requires KeepsNames(fold)
    ensures OneHeader(fold, [Header("content-type", a), Header("stripe-signature", b)], "stripe-signature") == Some(b)
  {
    OnlyHeader(fold, [Header("content-type", a), Header("stripe-signature", b)], "stripe-signature", 1);
  }

  /** A configured key that is active now, and a timestamp that has at most nineteen digits and is fresh. */
  predicate Signable(key: SigningKey, eventId: Chars, timestamp: nat, configuration: Configuration, now: nat) {
    && SafeIdentifier(eventId) && key in configuration.keys
    && key.activeFrom <= now && (key.activeUntil.Some? ==> now <= key.activeUntil.value)
    && timestamp < TIMESTAMP_LIMIT && now - configuration.window <= timestamp <= now + configuration.window
  }

  lemma GenericRoundTrip(mac: (Bytes, Bytes) -> Bytes, fold: string -> string, key: SigningKey, body: Bytes,
                         eventId: Chars, timestamp: nat, configuration: Configuration, now: nat)
    requires IsMac(mac) && KeepsNames(fold) && Signable(key, eventId, timestamp, configuration, now)
    ensures var headers := Sign(mac, GenericHmac, key, body, eventId, timestamp).value;
      VerifyGeneric(mac, fold, Request(GenericHmac, body, headers), configuration, now)
      == Verified(timestamp, Some(eventId))
  {
    var message := GenericMessage(timestamp, eventId, body);
    var digest := mac(key.secret, message);
    GenericHeaders(fold, JSON_MEDIA_TYPE, eventId, Decimal(timestamp), key.id, ToHex(digest));
    TimestampRoundTrip(timestamp);
    HexDigestRoundTrip(digest);
    SafeIsAscii(eventId);
    GenericAccepts(mac, fold, Request(GenericHmac, body, Sign(mac, GenericHmac, key, body, eventId, timestamp).value),
                   configuration, now, key, eventId, Decimal(timestamp), ToHex(digest), timestamp);
  }

  lemma GenericAccepts(mac: (Bytes, Bytes) -> Bytes, fold: string -> string, request: Request,
                       configuration: Configuration, now: int, key: SigningKey, eventId: Chars, time: Chars,
                       text: Chars, timestamp: nat)
    requires OneHeader(fold, request.headers, "x-webhook-id") == Some(eventId) && IsAscii(eventId)
    requires OneHeader(fold, request.headers, "x-webhook-timestamp") == Some(time) && Timestamp(time) == Some(timestamp)
    requires OneHeader(fold, request.headers, "x-webhook-key-id") == Some(key.id)
    requires OneHeader(fold, request.headers, "x-webhook-signature") == Some(text)
    requires HexDigest(text) == Some(mac(key.secret, GenericMessage(timestamp, eventId, request.body)))
    requires Fresh(timestamp, now, configuration.window) && key in configuration.keys && key.ActiveAt(now)
    ensures VerifyGeneric(mac, fold, request, configuration, now) == Verified(timestamp, Some(eventId))
  {
    DecideAccepts(mac, KeysWhere(configuration.keys, (k: SigningKey) => k.id == key.id && k.ActiveAt(now)), key,
                  GenericMessage(timestamp, eventId, request.body), Verified(timestamp, Some(eventId)));
  }

  lemma StripeRoundTrip(mac: (Bytes, Bytes) -> Bytes, fold: string -> string, key: SigningKey, body: Bytes,
                        eventId: Chars, timestamp: nat, configuration: Configuration, now: nat)
    requires IsMac(mac) && KeepsNames(fold) && Signable(key, eventId, timestamp, configuration, now)
    ensures VerifyStripe(mac, fold, Request(StripeV1, body, Sign(mac, StripeV1, key, body, eventId, timestamp).value),
                         configuration, now) == Verified(timestamp, None)
  {
    var message := StripeMessage(timestamp, body);
    var digest := mac(key.secret, message);
    StripeHeaders(fold, JSON_MEDIA_TYPE,
                  [116, EQUALS] + Decimal(timestamp) + [COMMA] + [118, 49, EQUALS] + ToHex(digest));
    StripeRoundTripText(timestamp, digest);
    StripeAccepts(mac, fold, Request(StripeV1, body, Sign(mac, StripeV1, key, body, eventId, timestamp).value),
                  configuration, now, key,
                  [116, EQUALS] + Decimal(timestamp) + [COMMA] + [118, 49, EQUALS] + ToHex(digest), timestamp);
  }

  lemma StripeAccepts(mac: (Bytes, Bytes) -> Bytes, fold: string -> string, request: Request,
                      configuration: Configuration, now: int, key: SigningKey, text: Chars, timestamp: nat)
    requires OneHeader(fold, request.headers, "stripe-signature") == Some(text)
    requires StripeHeader(text) == Some(Stamped(timestamp, [mac(key.secret, StripeMessage(timestamp, request.body))]))
    requires Fresh(timestamp, now, configuration.window) && key in configuration.keys && key.ActiveAt(now)
    ensures VerifyStripe(mac, fold, request, configuration, now) == Verified(timestamp, None)
  {
    DecideAccepts(mac, KeysWhere(configuration.keys, (k: SigningKey) => k.ActiveAt(now)), key,
                  StripeMessage(timestamp, request.body), Verified(timestamp, None));
  }

  lemma StandardAccepts(mac: (Bytes, Bytes) -> Bytes, fold: string -> string, request: Request,
                        configuration: Configuration, now: int, key: SigningKey, eventId: Chars, time: Chars,
                        text: Chars, timestamp: nat)
    requires OneHeader(fold, request.headers, "webhook-id") == Some(eventId) && IsAscii(eventId)
    requires OneHeader(fold, request.headers, "webhook-timestamp") == Some(time) && Timestamp(time) == Some(timestamp)
    requires OneHeader(fold, request.headers, "webhook-signature") == Some(text)
    requires StandardSignatures(text) == Some([mac(key.secret, StandardMessage(timestamp, eventId, request.body))])
    requires Fresh(timestamp, now, configuration.window) && key in configuration.keys && key.ActiveAt(now)
    ensures VerifyStandard(mac, fold, request, configuration, now) == Verified(timestamp, Some(eventId))
  {
    JudgeAccepts(mac, configuration, now, request.body, key, eventId, timestamp);
  }

  lemma JudgeAccepts(mac: (Bytes, Bytes) -> Bytes, configuration: Configuration, now: int, body: Bytes,
                     key: SigningKey, id: Chars, timestamp: nat)
    requires IsAscii(id)
    requires Fresh(timestamp, now, configuration.window) && key in configuration.keys && key.ActiveAt(now)
    ensures JudgeStandard(mac, configuration, now, body, id, Some(timestamp),
                          Some([mac(key.secret, StandardMessage(timestamp, id, body))]))
         == Verified(timestamp, Some(id))
  {
    DecideAccepts(mac, KeysWhere(configuration.keys, (k: SigningKey) => k.ActiveAt(now)), key,
                  StandardMessage(timestamp, id, body), Verified(timestamp, Some(id)));
  }

  lemma SignedStandard(mac: (Bytes, Bytes) -> Bytes, fold: string -> string, key: SigningKey, body: Bytes,
                       eventId: Chars, timestamp: nat) returns (headers: seq<Header>)
    requires KeepsNames(fold) && SafeIdentifier(eventId)
    ensures Sign(mac, StandardWebhooks, key, body, eventId, timestamp) == Some(headers)
    ensures OneHeader(fold, headers, "webhook-id") == Some(eventId)
    ensures OneHeader(fold, headers, "webhook-timestamp") == Some(Decimal(timestamp))
    ensures OneHeader(fold, headers, "webhook-signature") ==
      Some([118, 49, COMMA] + ToBase64(mac(key.secret, StandardMessage(timestamp, eventId, body))))
  {
    headers := Sign(mac, StandardWebhooks, key, body, eventId, timestamp).value;
    StandardHeaders(fold, JSON_MEDIA_TYPE, eventId, Decimal(timestamp),
                    [118, 49, COMMA] + ToBase64(mac(key.secret, StandardMessage(timestamp, eventId, body))));
  }

  lemma StandardRoundTrip(mac: (Bytes, Bytes) -> Bytes, fold: string -> string, key: SigningKey, body: Bytes,
                          eventId: Chars, timestamp: nat, configuration: Configuration, now: nat)
    requires IsMac(mac) && KeepsNames(fold) && Signable(key, eventId, timestamp, configuration, now)
    ensures var headers := Sign(mac, StandardWebhooks, key, body, eventId, timestamp).value;
      VerifyStandard(mac, fold, Request(StandardWebhooks, body, headers), configuration, now)
      == Verified(timestamp, Some(eventId))
  {
    var message := StandardMessage(timestamp, eventId, body);
    var digest := mac(key.secret, message);
    TimestampRoundTrip(timestamp);
    StandardRoundTripText(digest);
    SafeIsAscii(eventId);
    var headers := SignedStandard(mac, fold, key, body, eventId, timestamp);
    StandardAccepts(mac, fold, Request(StandardWebhooks, body, headers), configuration, now, key, eventId,
                    Decimal(timestamp), [118, 49, COMMA] + ToBase64(digest), timestamp);
  }

  /** What any party signs with a configured key that is active now is accepted, whatever the body: the
      verdict carries the signed timestamp and, where the profile carries one, the event id. */
  lemma RoundTrip(mac: (Bytes, Bytes) -> Bytes, fold: string -> string, key: SigningKey, body: Bytes,
                  eventId: Chars, timestamp: nat, configuration: Configuration, now: nat)
    requires IsMac(mac) && KeepsNames(fold) && Signable(key, eventId, timestamp, configuration, now)
    ensures var profile := configuration.profile;
      var signed := Sign(mac, profile, key, body, eventId, timestamp);
      && signed.Some?
      && Verify(mac, fold, Request(profile, body, signed.value), configuration, now)
         == Verified(timestamp, if profile == StripeV1 then None else Some(eventId))
  {
    match configuration.profile
    case GenericHmac => GenericRoundTrip(mac, fold, key, body, eventId, timestamp, configuration, now);
    case StripeV1 => StripeRoundTrip(mac, fold, key, body, eventId, timestamp, configuration, now);
    case StandardWebhooks => StandardRoundTrip(mac, fold, key, body, eventId, timestamp, configuration, now);
  }

  // ---------------------------------------------------------------------
  // What is accepted
  // ---------------------------------------------------------------------

  /** The digests that the headers of a request supply under its profile. */
  function Supplied(fold: string -> string, request: Request): seq<Bytes> {
    match request.profile
    case GenericHmac =>
      var text := OneHeader(fold, request.headers, "x-webhook-signature");
      if text.Some? && HexDigest(text.value).Some? then [HexDigest(text.value).value] else []
    case StripeV1 =>
      var text := OneHeader(fold, request.headers, "stripe-signature");
      if text.Some? && StripeHeader(text.value).Some? then StripeHeader(text.value).value.digests else []
    case StandardWebhooks =>
      var text := OneHeader(fold, request.headers, "webhook-signature");
      if text.Some? && StandardSignatures(text.value).Some? then StandardSignatures(text.value).value else []
  }

  function MessageOf(profile: Profile, timestamp: nat, eventId: Option<Chars>, body: Bytes): Bytes {
    var id := if eventId.Some? then eventId.value else [];
    match profile
    case GenericHmac => GenericMessage(timestamp, id, body)
    case StripeV1 => StripeMessage(timestamp, body)
    case StandardWebhooks => StandardMessage(timestamp, id, body)
  }

  function IdHeader(fold: string -> string, request: Request): Option<Chars> {
    OneHeader(fold, request.headers, if request.profile == GenericHmac then "x-webhook-id" else "webhook-id")
  }

  function TimeHeader(fold: string -> string, request: Request): Option<Chars> {
    OneHeader(fold, request.headers,
              if request.profile == GenericHmac then "x-webhook-timestamp" else "webhook-timestamp")
  }

  /** A key the profile would try: active now and, under the generic profile, the one the request names. */
  predicate Tried(fold: string -> string, request: Request, key: SigningKey, now: int) {
    && key.activeFrom <= now && (key.activeUntil.Some? ==> now <= key.activeUntil.value)
    && (request.profile == GenericHmac ==> OneHeader(fold, request.headers, "x-webhook-key-id") == Some(key.id))
  }

  /** The timestamp that the headers of a request state under its profile. */
  function StatedTime(fold: string -> string, request: Request): Option<nat> {
    if request.profile == StripeV1 then
      var text := OneHeader(fold, request.headers, "stripe-signature");
      if text.Some? && StripeHeader(text.value).Some? then Some(StripeHeader(text.value).value.timestamp) else None
    else if TimeHeader(fold, request).Some? then Timestamp(TimeHeader(fold, request).value)
    else None
  }

  /** The event id that a request states; the Stripe profile has none. */
  function StatedId(fold: string -> string, request: Request): Option<Chars> {
    if request.profile == StripeV1 then None else IdHeader(fold, request)
  }

  predicate IdFits(profile: Profile, id: Option<Chars>) {
    profile == StripeV1 || (id.Some? && IsAscii(id.value))
  }

  /** Some key the profile would try has its digest of the message over these among the supplied ones. */
  ghost predicate SignedBySome(mac: (Bytes, Bytes) -> Bytes, fold: string -> string, request: Request,
                               keys: seq<SigningKey>, now: int, timestamp: nat, id: Option<Chars>)
  {
    exists key :: key in keys && Tried(fold, request, key, now)
      && mac(key.secret, MessageOf(request.profile, timestamp, id, request.body)) in Supplied(fold, request)
  }

  /** A request is accepted, with this timestamp and event id, exactly if it states them, the timestamp is at most the
      replay window away from now, and the digest that a configured key gives the message over them is supplied.
      What the message says about event id and body is another matter: see the module on signed messages. */
  lemma AcceptedIff(mac: (Bytes, Bytes) -> Bytes, fold: string -> string, request: Request,
                    configuration: Configuration, now: int, timestamp: nat, id: Option<Chars>)
    ensures Verify(mac, fold, request, configuration, now) == Verified(timestamp, id) <==>
      && now >= 0 && request.profile == configuration.profile
      && StatedTime(fold, request) == Some(timestamp) && StatedId(fold, request) == id
      && IdFits(request.profile, id) && now - configuration.window <= timestamp <= now + configuration.window
      && SignedBySome(mac, fold, request, configuration.keys, now, timestamp, id)
  {
    match request.profile
    case GenericHmac => GenericAcceptedIff(mac, fold, request, configuration, now, timestamp, id);
    case StripeV1 => StripeAcceptedIff(mac, fold, request, configuration, now, timestamp, id);
    case StandardWebhooks => StandardAcceptedIff(mac, fold, request, configuration, now, timestamp, id);
  }

  lemma DecideIff(mac: (Bytes, Bytes) -> Bytes, keys: seq<SigningKey>, p: SigningKey -> bool, encodable: bool,
                  message: Bytes, supplied: seq<Bytes>, verified: Verdict)
    requires verified.Verified?
    ensures Decide(mac, KeysWhere(keys, p), encodable, message, supplied, verified) in {verified, Refused, Raises}
    ensures Decide(mac, KeysWhere(keys, p), encodable, message, supplied, verified) == verified <==>
      encodable && exists key :: key in keys && p(key) && mac(key.secret, message) in supplied
    ensures Decide(mac, KeysWhere(keys, p), encodable, message, supplied, verified) == Raises <==>
      !encodable && exists key :: key in keys && p(key)
  {
    SomeKeyWhere(keys, p);
  }

  lemma StripeAcceptedIff(mac: (Bytes, Bytes) -> Bytes, fold: string -> string, request: Request,
                          configuration: Configuration, now: int, timestamp: nat, id: Option<Chars>)
    requires request.profile == StripeV1
    ensures VerifyStripe(mac, fold, request, configuration, now) == Verified(timestamp, id) <==>
      && StatedTime(fold, request) == Some(timestamp) && StatedId(fold, request) == id
      && IdFits(request.profile, id) && now - configuration.window <= timestamp <= now + configuration.window
      && SignedBySome(mac, fold, request, configuration.keys, now, timestamp, id)
  {
    SomeKeyWhere(configuration.keys, (k: SigningKey) => k.ActiveAt(now));
  }

  lemma JudgeStandardIff(mac: (Bytes, Bytes) -> Bytes, configuration: Configuration, now: int, body: Bytes,
                         id: Chars, time: Option<nat>, supplied: Option<seq<Bytes>>)
    ensures var verdict := JudgeStandard(mac, configuration, now, body, id, time, supplied);
      var window := configuration.window;
      var timely := time.Some? && supplied.Some? && now - window <= time.value <= now + window;
      && verdict in {Refused, Raises, Verified(if time.Some? then time.value else 0, Some(id))}
      && (verdict.Verified? <==> timely && IsAscii(id) && exists key ::
            key in configuration.keys && key.ActiveAt(now)
            && mac(key.secret, StandardMessage(time.value, id, body)) in supplied.value)
      && (verdict == Raises <==> timely && !IsAscii(id) && exists key ::
            key in configuration.keys && key.ActiveAt(now))
  {
    if time.Some? && supplied.Some? {
      DecideIff(mac, configuration.keys, (k: SigningKey) => k.ActiveAt(now), IsAscii(id),
                StandardMessage(time.value, id, body), supplied.value, Verified(time.value, Some(id)));
    }
  }

  lemma StandardAcceptedIff(mac: (Bytes, Bytes) -> Bytes, fold: string -> string, request: Request,
                            configuration: Configuration, now: int, timestamp: nat, id: Option<Chars>)
    requires request.profile == StandardWebhooks
    ensures VerifyStandard(mac, fold, request, configuration, now) == Verified(timestamp, id) <==>
      && StatedTime(fold, request) == Some(timestamp) && StatedId(fold, request) == id
      && IdFits(request.profile, id) && now - configuration.window <= timestamp <= now + configuration.window
      && SignedBySome(mac, fold, request, configuration.keys, now, timestamp, id)
  {
    var time := OneHeader(fold, request.headers, "webhook-timestamp");
    var signature := OneHeader(fold, request.headers, "webhook-signature");
    var name := OneHeader(fold, request.headers, "webhook-id");
    assert forall k: SigningKey :: Tried(fold, request, k, now) <==> k.ActiveAt(now);
    if time.Some? && signature.Some? && name.Some? {
      JudgeStandardIff(mac, configuration, now, request.body, name.value,
                       Timestamp(time.value), StandardSignatures(signature.value));
    }
  }

  lemma GenericAcceptedIff(mac: (Bytes, Bytes) -> Bytes, fold: string -> string, request: Request,
                           configuration: Configuration, now: int, timestamp: nat, id: Option<Chars>)
    requires request.profile == GenericHmac
    ensures VerifyGeneric(mac, fold, request, configuration, now) == Verified(timestamp, id) <==>
      && StatedTime(fold, request) == Some(timestamp) && StatedId(fold, request) == id
      && IdFits(request.profile, id) && now - configuration.window <= timestamp <= now + configuration.window
      && SignedBySome(mac, fold, request, configuration.keys, now, timestamp, id)
  {
    var keyId := OneHeader(fold, request.headers, "x-webhook-key-id");
    if keyId.Some? {
      SomeKeyWhere(configuration.keys, (k: SigningKey) => k.id == keyId.value && k.ActiveAt(now));
    }
  }

  /** What a request cannot be accepted with: no time, a time outside the replay window, or no key to try. */
  lemma RefusedWhen(mac: (Bytes, Bytes) -> Bytes, fold: string -> string, request: Request,
                    configuration: Configuration, now: int)
    ensures StatedTime(fold, request) == None ==> Verify(mac, fold, request, configuration, now) == Refused
    ensures StatedTime(fold, request).Some?
            && (StatedTime(fold, request).value < now - configuration.window
                || StatedTime(fold, request).value > now + configuration.window) ==>
      Verify(mac, fold, request, configuration, now) == Refused
    ensures (forall key :: key in configuration.keys ==> !Tried(fold, request, key, now)) ==>
      Verify(mac, fold, request, configuration, now) == Refused
  {
    var verdict := Verify(mac, fold, request, configuration, now);
    RaisesIff(mac, fold, request, configuration, now);
    if verdict.Verified? {
      AcceptedIff(mac, fold, request, configuration, now, verdict.timestamp, verdict.eventId);
    }
  }

  /** Verification is not total: it raises, where it could refuse, exactly on a request of a profile with an event
      id whose id header is not ASCII although its timestamp is fresh, a digest can be read and a key can be tried. */
  lemma RaisesIff(mac: (Bytes, Bytes) -> Bytes, fold: string -> string, request: Request,
                  configuration: Configuration, now: int)
    ensures Verify(mac, fold, request, configuration, now) == Raises <==>
      && now >= 0 && request.profile == configuration.profile && request.profile != StripeV1
      && IdHeader(fold, request).Some? && !IsAscii(IdHeader(fold, request).value)
      && StatedTime(fold, request).Some?
      && now - configuration.window <= StatedTime(fold, request).value <= now + configuration.window
      && Supplied(fold, request) != []
      && exists key :: key in configuration.keys && Tried(fold, request, key, now)
  {
    match request.profile
    case GenericHmac => GenericRaisesIff(mac, fold, request, configuration, now);
    case StripeV1 =>
    case StandardWebhooks => StandardRaisesIff(mac, fold, request, configuration, now);
  }

  /** What the verifier needs before it looks at the event id. */
  ghost predicate Readable(fold: string -> string, request: Request, configuration: Configuration, now: int) {
    && StatedTime(fold, request).Some?
    && now - configuration.window <= StatedTime(fold, request).value <= now + configuration.window
    && Supplied(fold, request) != []
    && exists key :: key in configuration.keys && Tried(fold, request, key, now)
  }

  lemma GenericRaisesIff(mac: (Bytes, Bytes) -> Bytes, fold: string -> string, request: Request,
                         configuration: Configuration, now: int)
    requires request.profile == GenericHmac
    ensures VerifyGeneric(mac, fold, request, configuration, now) == Raises <==>
      && IdHeader(fold, request).Some? && !IsAscii(IdHeader(fold, request).value)
      && Readable(fold, request, configuration, now)
  {
    var keyId := OneHeader(fold, request.headers, "x-webhook-key-id");
    if keyId.Some? {
      SomeKeyWhere(configuration.keys, (k: SigningKey) => k.id == keyId.value && k.ActiveAt(now));
    }
  }

  lemma StandardRaisesIff(mac: (Bytes, Bytes) -> Bytes, fold: string -> string, request: Request,
                          configuration: Configuration, now: int)
    requires request.profile == StandardWebhooks
    ensures VerifyStandard(mac, fold, request, configuration, now) == Raises <==>
      && IdHeader(fold, request).Some? && !IsAscii(IdHeader(fold, request).value)
      && Readable(fold, request, configuration, now)
  {
    var time := OneHeader(fold, request.headers, "webhook-timestamp");
    var signature := OneHeader(fold, request.headers, "webhook-signature");
    var name := OneHeader(fold, request.headers, "webhook-id");
    assert forall k: SigningKey :: Tried(fold, request, k, now) <==> k.ActiveAt(now);
    SplitNonempty(fold, request);
    if time.Some? && signature.Some? && name.Some? {
      JudgeStandardIff(mac, configuration, now, request.body, name.value,
                       Timestamp(time.value), StandardSignatures(signature.value));
    }
  }

  /** A signature header that can be read supplies at least one digest. */
  lemma SplitNonempty(fold: string -> string, request: Request)
    requires request.profile == StandardWebhooks
    ensures var text := OneHeader(fold, request.headers, "webhook-signature");
      text.Some? && StandardSignatures(text.value).Some? ==> StandardSignatures(text.value).value != []
  {
  }

  lemma SomeKeyWhere(keys: seq<SigningKey>, p: SigningKey -> bool)
    ensures KeysWhere(keys, p) != [] <==> exists key :: key in keys && p(key)
  {
    if KeysWhere(keys, p) != [] {
      assert KeysWhere(keys, p)[0] in KeysWhere(keys, p);
    }
  }

  /** Such a request: the event id is one accented letter. */
  lemma RaisesExample(mac: (Bytes, Bytes) -> Bytes, fold: string -> string, key: SigningKey, now: nat, digest: Bytes)
    requires KeepsNames(fold) && key.ActiveAt(now) && now < TIMESTAMP_LIMIT && IsDigest(digest)
    ensures Verify(mac, fold,
      Request(GenericHmac, [],
              [Header("content-type", JSON_MEDIA_TYPE), Header("x-webhook-id", [233]),
               Header("x-webhook-timestamp", Decimal(now)), Header("x-webhook-key-id", key.id),
               Header("x-webhook-signature", ToHex(digest))]),
      Configuration(GenericHmac, [key], 300), now) == Raises
  {
    GenericHeaders(fold, JSON_MEDIA_TYPE, [233], Decimal(now), key.id, ToHex(digest));
    TimestampRoundTrip(now);
    HexDigestRoundTrip(digest);
    var request := Request(GenericHmac, [],
              [Header("content-type", JSON_MEDIA_TYPE), Header("x-webhook-id", [233]),
               Header("x-webhook-timestamp", Decimal(now)), Header("x-webhook-key-id", key.id),
               Header("x-webhook-signature", ToHex(digest))]);
    assert key in Configuration(GenericHmac, [key], 300).keys && Tried(fold, request, key, now);
    assert !IsAscii([233]) by { assert [233][0] >= 128; }
    RaisesIff(mac, fold, request, Configuration(GenericHmac, [key], 300), now);
  }
}
