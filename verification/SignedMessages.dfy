/** What a signed message says: which timestamp, event id and body it can be read as. */
module SignedMessages {
  import opened Options
  import opened Text
  import opened Codecs
  import opened ReceiverTables
  import opened Signatures

  /** Text of identifier characters followed by something that no identifier character begins. */
  predicate Framed(body: Bytes) {
    body == [] || !IdentifierChar(body[0])
  }

  predicate AllIdentifier(s: Chars) {
    forall i :: 0 <= i < |s| ==> IdentifierChar(s[i])
  }

  // ---------------------------------------------------------------------
  // Framed bodies
  // ---------------------------------------------------------------------

  lemma NextCharacter(a: Bytes, x: Bytes, b: Bytes, y: Bytes)
    requires a + x == b + y
    ensures |a| < |b| ==> x != [] && x[0] == b[|a|]
  {
    assert |a| < |b| ==> (a + x)[|a|] == (b + y)[|a|];
  }

  /** A framed body begins where the identifier characters end. */
  lemma FrameEnds(a: Bytes, x: Bytes, b: Bytes, y: Bytes)
    requires AllIdentifier(a) && AllIdentifier(b) && Framed(x) && Framed(y) && a + x == b + y
    ensures a == b && x == y
  {
    NextCharacter(a, x, b, y);
    NextCharacter(b, y, a, x);
    assert (a + x)[..|a|] == a && (b + y)[..|b|] == b;
    assert (a + x)[|a|..] == x && (b + y)[|b|..] == y;
  }

  lemma DotEnds(a: Bytes, b: Bytes)
    requires a + [DOT] == b + [DOT]
    ensures a == b
  {
    assert (a + [DOT])[..|a|] == a && (b + [DOT])[..|b|] == b;
  }

  lemma DigitsIdentify(n: nat)
    ensures AllIdentifier(Decimal(n)) && DOT !in Decimal(n)
  {
    assert AllDigits(Decimal(n));
    forall i | 0 <= i < |Decimal(n)| ensures IdentifierChar(Decimal(n)[i]) && Decimal(n)[i] != DOT {
      assert IsDigit(Decimal(n)[i]);
    }
  }

  /** The Stripe message determines timestamp and body outright. */
  lemma StripeFraming(t: nat, body: Bytes, t': nat, body': Bytes)
    requires StripeMessage(t, body) == StripeMessage(t', body')
    ensures t == t' && body == body'
  {
    assert Decimal(t) + ([DOT] + body) == StripeMessage(t, body);
    assert Decimal(t') + ([DOT] + body') == StripeMessage(t', body');
    DecimalTerminated(t, t', [DOT] + body, [DOT] + body');
    assert ([DOT] + body)[1..] == body && ([DOT] + body')[1..] == body';
  }

  /** The generic message determines the timestamp, and what follows it. */
  lemma GenericTime(t: nat, id: Chars, body: Bytes, t': nat, id': Chars, body': Bytes)
    requires GenericMessage(t, id, body) == GenericMessage(t', id', body')
    ensures t == t' && id + [DOT] + body == id' + [DOT] + body'
  {
    var x, y := id + [DOT] + body, id' + [DOT] + body';
    assert GenericMessage(t, id, body) == StripeMessage(t, x);
    assert GenericMessage(t', id', body') == StripeMessage(t', y);
    StripeFraming(t, x, t', y);
  }

  lemma GenericFraming(t: nat, id: Chars, body: Bytes, t': nat, id': Chars, body': Bytes)
    requires AllIdentifier(id) && AllIdentifier(id') && Framed(body) && Framed(body')
    requires GenericMessage(t, id, body) == GenericMessage(t', id', body')
    ensures t == t' && id == id' && body == body'
  {
    GenericTime(t, id, body, t', id', body');
    FrameEnds(id + [DOT], body, id' + [DOT], body');
    DotEnds(id, id');
  }

  lemma StandardFraming(t: nat, id: Chars, body: Bytes, t': nat, id': Chars, body': Bytes)
    requires AllIdentifier(id) && AllIdentifier(id') && Framed(body) && Framed(body')
    requires StandardMessage(t, id, body) == StandardMessage(t', id', body')
    ensures t == t' && id == id' && body == body'
  {
    var a, b := id + [DOT] + Decimal(t), id' + [DOT] + Decimal(t');
    DigitsIdentify(t);
    DigitsIdentify(t');
    FrameEnds(a + [DOT], body, b + [DOT], body');
    DotEnds(a, b);
    LastDot(id, Decimal(t), id', Decimal(t'));
    DecimalRoundTrip(t);
    DecimalRoundTrip(t');
  }

  lemma LastDot(a: Bytes, x: Bytes, b: Bytes, y: Bytes)
    requires a + [DOT] + x == b + [DOT] + y && DOT !in x && DOT !in y
    ensures a == b && x == y
  {
    TwoReadings(a, x, b, y);
    TwoReadings(b, y, a, x);
  }

  /** Under every profile, two messages over framed bodies and event ids of identifier characters are equal only if
      timestamp, body and, where the profile has one, event id are. The body of an event is a JSON object. */
  lemma MessageFraming(profile: Profile, t: nat, id: Chars, body: Bytes, t': nat, id': Chars, body': Bytes)
    requires AllIdentifier(id) && AllIdentifier(id') && Framed(body) && Framed(body')
    requires MessageOf(profile, t, Some(id), body) == MessageOf(profile, t', Some(id'), body')
    ensures t == t' && body == body' && (profile != StripeV1 ==> id == id')
  {
    match profile
    case GenericHmac => GenericFraming(t, id, body, t', id', body');
    case StripeV1 => StripeFraming(t, body, t', body');
    case StandardWebhooks => StandardFraming(t, id, body, t', id', body');
  }

  // ---------------------------------------------------------------------
  // Any bodies
  // ---------------------------------------------------------------------

  /** A message over an identifier and a body, read as another safe identifier and body. */
  ghost predicate GenericAmbiguous(t: nat, id: Chars, body: Bytes) {
    exists t': nat, id', body' :: SafeIdentifier(id') && (t', id', body') != (t, id, body)
      && GenericMessage(t', id', body') == GenericMessage(t, id, body)
  }

  /** What a signer can check: a dot in the event id, or one in the body up to which the body continues it. */
  ghost predicate DotSplits(id: Chars, body: Bytes) {
    DOT in id || exists j :: 0 <= j < |body| && body[j] == DOT && SafeIdentifier(id + [DOT] + body[..j])
  }

  lemma DotMoves(t: nat, id: Chars, part: Chars, rest: Bytes)
    ensures GenericMessage(t, id + [DOT] + part, rest) == GenericMessage(t, id, part + [DOT] + rest)
  {
    var a := Decimal(t) + [DOT];
    assert a + (id + [DOT] + part) + [DOT] + rest == a + id + [DOT] + (part + [DOT] + rest);
  }

  /** Where two readings of one text differ: the shorter identifier ends at a dot of the longer. */
  lemma TwoReadings(id: Chars, body: Bytes, id': Chars, body': Bytes)
    requires id + [DOT] + body == id' + [DOT] + body'
    ensures |id| == |id'| ==> id == id' && body == body'
    ensures |id| < |id'| ==> |id'| - |id| - 1 < |body| && body[|id'| - |id| - 1] == DOT
                             && id' == id + [DOT] + body[..|id'| - |id| - 1]
  {
    var s, u := id + [DOT] + body, id' + [DOT] + body';
    assert u[..|id'|] == id' && u[|id'|] == DOT && u[|id'| + 1..] == body';
    assert s[..|id|] == id && s[|id| + 1..] == body;
    if |id| < |id'| {
      var j := |id'| - |id| - 1;
      assert s[|id'|] == body[j];
      assert s[..|id'|] == id + [DOT] + body[..j];
    }
  }

  /** The message over a safe event id can be read as another one if and only if a dot splits it. */
  lemma GenericAmbiguousIff(t: nat, id: Chars, body: Bytes)
    requires SafeIdentifier(id)
    ensures GenericAmbiguous(t, id, body) <==> DotSplits(id, body)
  {
    if GenericAmbiguous(t, id, body) {
      var t': nat, id', body' :| SafeIdentifier(id') && (t', id', body') != (t, id, body)
                                 && GenericMessage(t', id', body') == GenericMessage(t, id, body);
      GenericTime(t, id, body, t', id', body');
      TwoReadings(id, body, id', body');
      TwoReadings(id', body', id, body);
      if |id'| < |id| { assert id[|id'|] == DOT; }
    }
    if DOT in id {
      var k :| 0 <= k < |id| && id[k] == DOT;
      assert id == id[..k] + [DOT] + id[k + 1..];
      DotMoves(t, id[..k], id[k + 1..], body);
      assert SafeIdentifier(id[..k]);
      assert (t, id[..k], id[k + 1..] + [DOT] + body) != (t, id, body);
    } else if DotSplits(id, body) {
      var j :| 0 <= j < |body| && body[j] == DOT && SafeIdentifier(id + [DOT] + body[..j]);
      assert body == body[..j] + [DOT] + body[j + 1..];
      DotMoves(t, id, body[..j], body[j + 1..]);
      assert (t, id + [DOT] + body[..j], body[j + 1..]) != (t, id, body);
    }
  }

  /** "a" with "b.c" is signed as "a.b" with "c". */
  lemma GenericExample(t: nat)
    ensures GenericMessage(t, [97], [98, DOT, 99]) == GenericMessage(t, [97, DOT, 98], [99])
    ensures SafeIdentifier([97]) && SafeIdentifier([97, DOT, 98])
  {
    DotMoves(t, [97], [98], [99]);
  }

  ghost predicate StandardAmbiguous(t: nat, id: Chars, body: Bytes) {
    exists t': nat, id', body' :: SafeIdentifier(id') && (t', id', body') != (t, id, body)
      && StandardMessage(t', id', body') == StandardMessage(t, id, body)
  }

  /** The text goes on with a number and a dot. */
  ghost predicate Numbered(s: Bytes) {
    exists n: nat :: Decimal(n) + [DOT] <= s
  }

  /** What a signer can check: a number between two dots follows a dot of the event id, or follows a dot up to which
      timestamp and body continue it. */
  ghost predicate NumberSplits(t: nat, id: Chars, body: Bytes) {
    var rest := Decimal(t) + [DOT] + body;
    || (exists k :: 0 <= k < |id| && id[k] == DOT && Numbered(id[k + 1..] + [DOT] + rest))
    || (exists m :: 0 <= m < |rest| && rest[m] == DOT
                    && SafeIdentifier(id + [DOT] + rest[..m]) && Numbered(rest[m + 1..]))
  }

  lemma StandardIs(t: nat, id: Chars, body: Bytes)
    ensures StandardMessage(t, id, body) == id + [DOT] + (Decimal(t) + [DOT] + body)
  {
  }

  lemma NumberedRest(t: nat, body: Bytes)
    ensures Numbered(Decimal(t) + [DOT] + body)
  {
    assert Decimal(t) + [DOT] <= Decimal(t) + [DOT] + body;
  }

  lemma ReadNumbered(s: Bytes) returns (t: nat, body: Bytes)
    requires Numbered(s)
    ensures s == Decimal(t) + [DOT] + body
  {
    t :| Decimal(t) + [DOT] <= s;
    body := s[|Decimal(t)| + 1..];
  }

  /** The longer identifier ends inside what follows the shorter, or the shorter inside the longer. */
  lemma RestsOverlap(id: Chars, x: Bytes, id': Chars, y: Bytes)
    requires id + [DOT] + x == id' + [DOT] + y
    ensures |id| < |id'| ==> |id'| - |id| - 1 < |x| && x[|id'| - |id|..] == y
    ensures |id'| < |id| ==> id[|id'|] == DOT && id[|id'| + 1..] + [DOT] + x == y
  {
    var s, u := id + [DOT] + x, id' + [DOT] + y;
    TwoReadings(id, x, id', y);
    assert u[|id'|] == DOT && u[|id'| + 1..] == y;
    assert |id| < |id'| ==> s[|id'| + 1..] == x[|id'| - |id|..];
    assert |id'| < |id| ==> s[|id'| + 1..] == id[|id'| + 1..] + [DOT] + x;
  }

  lemma StandardTwoReadings(t: nat, id: Chars, body: Bytes, t': nat, id': Chars, body': Bytes)
    requires SafeIdentifier(id') && (t', id', body') != (t, id, body)
    requires StandardMessage(t', id', body') == StandardMessage(t, id, body)
    ensures NumberSplits(t, id, body)
  {
    StandardIs(t, id, body);
    StandardIs(t', id', body');
    NumberedRest(t', body');
    if |id| == |id'| {
      SameLength(t, id, body, t', id', body');
    } else {
      OtherLength(t, id, body, id', Decimal(t') + [DOT] + body');
    }
  }

  lemma SameLength(t: nat, id: Chars, body: Bytes, t': nat, id': Chars, body': Bytes)
    requires |id| == |id'| && id + [DOT] + (Decimal(t) + [DOT] + body) == id' + [DOT] + (Decimal(t') + [DOT] + body')
    ensures t == t' && id == id' && body == body'
  {
    TwoReadings(id, StripeMessage(t, body), id', StripeMessage(t', body'));
    StripeFraming(t, body, t', body');
  }

  lemma OtherLength(t: nat, id: Chars, body: Bytes, id': Chars, y: Bytes)
    requires |id| != |id'| && SafeIdentifier(id') && Numbered(y)
    requires id + [DOT] + (Decimal(t) + [DOT] + body) == id' + [DOT] + y
    ensures NumberSplits(t, id, body)
  {
    var x := Decimal(t) + [DOT] + body;
    TwoReadings(id, x, id', y);
    RestsOverlap(id, x, id', y);
    if |id| < |id'| {
      assert Numbered(x[|id'| - |id| - 1 + 1..]);
    }
  }

  lemma SplitsInId(t: nat, id: Chars, body: Bytes, k: nat)
    requires SafeIdentifier(id) && k < |id| && id[k] == DOT
    requires Numbered(id[k + 1..] + [DOT] + (Decimal(t) + [DOT] + body))
    ensures StandardAmbiguous(t, id, body)
  {
    var x := Decimal(t) + [DOT] + body;
    var t', body' := ReadNumbered(id[k + 1..] + [DOT] + x);
    RejoinId(id, k, x);
    SafeBeginning(id, k);
    OtherReading(t, id, body, t', id[..k], body');
  }

  lemma OtherReading(t: nat, id: Chars, body: Bytes, t': nat, id': Chars, body': Bytes)
    requires SafeIdentifier(id') && |id| != |id'|
    requires id' + [DOT] + (Decimal(t') + [DOT] + body') == id + [DOT] + (Decimal(t) + [DOT] + body)
    ensures StandardAmbiguous(t, id, body)
  {
    StandardIs(t', id', body');
    StandardIs(t, id, body);
    assert (t', id', body') != (t, id, body);
  }

  lemma SafeBeginning(id: Chars, k: nat)
    requires SafeIdentifier(id) && k < |id| && id[k] == DOT
    ensures SafeIdentifier(id[..k])
  {
    assert k > 0;
  }

  lemma RejoinRest(id: Chars, rest: Bytes, m: nat)
    requires m < |rest| && rest[m] == DOT
    ensures id + [DOT] + rest[..m] + [DOT] + rest[m + 1..] == id + [DOT] + rest
  {
    assert rest == rest[..m] + [DOT] + rest[m + 1..];
  }

  lemma RejoinId(id: Chars, k: nat, x: Bytes)
    requires k < |id| && id[k] == DOT
    ensures id[..k] + [DOT] + (id[k + 1..] + [DOT] + x) == id + [DOT] + x
  {
    assert id == id[..k] + [DOT] + id[k + 1..];
  }

  lemma SplitsAfterId(t: nat, id: Chars, body: Bytes, m: nat)
    requires var rest := Decimal(t) + [DOT] + body;
      m < |rest| && rest[m] == DOT && SafeIdentifier(id + [DOT] + rest[..m]) && Numbered(rest[m + 1..])
    ensures StandardAmbiguous(t, id, body)
  {
    var rest := Decimal(t) + [DOT] + body;
    var t', body' := ReadNumbered(rest[m + 1..]);
    var id' := id + [DOT] + rest[..m];
    RejoinRest(id, rest, m);
    OtherReading(t, id, body, t', id', body');
  }

  /** The standard message over a safe event id can be read as another one if and only if a number splits it. */
  lemma StandardAmbiguousIff(t: nat, id: Chars, body: Bytes)
    requires SafeIdentifier(id)
    ensures StandardAmbiguous(t, id, body) <==> NumberSplits(t, id, body)
  {
    if StandardAmbiguous(t, id, body) {
      var t': nat, id', body' :| SafeIdentifier(id') && (t', id', body') != (t, id, body)
                                 && StandardMessage(t', id', body') == StandardMessage(t, id, body);
      StandardTwoReadings(t, id, body, t', id', body');
    }
    if NumberSplits(t, id, body) {
      var rest := Decimal(t) + [DOT] + body;
      if k :| 0 <= k < |id| && id[k] == DOT && Numbered(id[k + 1..] + [DOT] + rest) {
        SplitsInId(t, id, body, k);
      } else {
        var m :| 0 <= m < |rest| && rest[m] == DOT && SafeIdentifier(id + [DOT] + rest[..m]) && Numbered(rest[m + 1..]);
        SplitsAfterId(t, id, body, m);
      }
    }
  }

  /** Time 1 and "a" with "2.b" are signed as time 2 and "a.1" with "b". */
  lemma StandardExample()
    ensures StandardMessage(1, [97], [50, DOT, 98]) == StandardMessage(2, [97, DOT, 49], [98])
    ensures SafeIdentifier([97]) && SafeIdentifier([97, DOT, 49])
  {
    assert Decimal(1) == [49] && Decimal(2) == [50];
  }

  // ---------------------------------------------------------------------
  // What is accepted was signed
  // ---------------------------------------------------------------------

  function IdText(id: Option<Chars>): Chars {
    if id.Some? then id.value else []
  }

  /** If every digest that a request supplies was made for one message over a framed body, and no key of the
      configuration gives the accepted message that digest unless they are the same message, then an accepted request
      with a framed body has the timestamp, the body and the event id that were signed. */
  lemma AcceptedWasSigned(mac: (Bytes, Bytes) -> Bytes, fold: string -> string, request: Request,
                          configuration: Configuration, now: int, t: nat, id: Option<Chars>,
                          secret: Bytes, t': nat, id': Chars, body': Bytes)
    requires Verify(mac, fold, request, configuration, now) == Verified(t, id)
    requires AllIdentifier(IdText(id)) && AllIdentifier(id') && Framed(request.body) && Framed(body')
    requires var signed := MessageOf(request.profile, t', Some(id'), body');
      && (forall digest :: digest in Supplied(fold, request) ==> digest == mac(secret, signed))
      && var accepted := MessageOf(request.profile, t, id, request.body);
         forall key :: key in configuration.keys && mac(key.secret, accepted) == mac(secret, signed) ==>
           accepted == signed
    ensures t == t' && request.body == body' && (request.profile != StripeV1 ==> id == Some(id'))
  {
    AcceptedIff(mac, fold, request, configuration, now, t, id);
    assert MessageOf(request.profile, t, id, request.body)
        == MessageOf(request.profile, t, Some(IdText(id)), request.body);
    MessageFraming(request.profile, t, IdText(id), request.body, t', id', body');
  }
}
