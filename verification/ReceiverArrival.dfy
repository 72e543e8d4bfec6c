/** When an order's whole row, and all four tables, do not depend on the order and times of arrival. */
module ReceiverArrival {
  import opened Options
  import opened ReceiverTables
  import opened ReceiverSequence
  import opened ReceiverSteps
  import opened ReceiverRuns
  import opened ReceiverConfluence
  import opened ReceiverParked
  import opened ReceiverHistory

  // ---------------------------------------------------------------------
  // When the whole row does not depend on the order of arrival
  // ---------------------------------------------------------------------

  /** What a caller can check: never paid, never refunded, or paid once, with a refund of that profile and account. */
  ghost predicate RowBlind(ds: seq<Delivery>, o: string) {
    !HasPayment(ds, o) || !HasRefund(ds, o) || (SharedTenant(ds, o) && PaymentCount(ds, o) == 1)
  }

  lemma {:induction false} CountAppend(a: seq<Delivery>, b: seq<Delivery>, o: string)
    ensures PaymentCount(a + b, o) == PaymentCount(a, o) + PaymentCount(b, o)
  {
    if b == [] {
      assert a + b == a;
    } else {
      assert (a + b)[..|a + b| - 1] == a + b[..|b| - 1];
      CountAppend(a, b[..|b| - 1], o);
    }
  }

  lemma {:induction false} CountReordered(ds: seq<Delivery>, es: seq<Delivery>, o: string)
    requires Reordered(ds, es)
    ensures PaymentCount(ds, o) == PaymentCount(es, o)
    decreases |ds|
  {
    if ds == [] {
      assert |es| == |multiset(es)|;
    } else {
      var i := RemoveLast(ds, es);
      var front, d, a, b := ds[..|ds| - 1], ds[|ds| - 1], es[..i], es[i + 1..];
      CountReordered(front, a + b, o);
      CountAppend(a + [d], b, o);
      CountAppend(a, [d], o);
      CountAppend(a, b, o);
      CountAppend(front, [d], o);
      assert ds == front + [d] && es == a + [d] + b;
    }
  }

  lemma {:induction false} CountTimeless(ds: seq<Delivery>, o: string)
    ensures PaymentCount(Timeless(ds), o) == PaymentCount(ds, o)
  {
    if ds != [] {
      CountTimeless(ds[..|ds| - 1], o);
      assert Timeless(ds)[..|ds| - 1] == Timeless(ds[..|ds| - 1]);
    }
  }

  lemma CountSame(ds: seq<Delivery>, es: seq<Delivery>, o: string)
    requires SameEvents(ds, es)
    ensures PaymentCount(ds, o) == PaymentCount(es, o)
  {
    CountTimeless(ds, o);
    CountTimeless(es, o);
    CountReordered(Timeless(ds), Timeless(es), o);
  }

  lemma CountPrefix(es: seq<Delivery>, m: nat, n: nat, o: string)
    requires m <= n <= |es|
    ensures PaymentCount(es[..m], o) <= PaymentCount(es[..n], o)
  {
    assert es[..n] == es[..m] + es[m..n];
    CountAppend(es[..m], es[m..n], o);
  }

  /** The payments up to the flip, when a beginning of length `n` flips the order. */
  lemma FlipCount(es: seq<Delivery>, n: nat, o: string)
    requires n <= |es| && Flips(es[..n], o)
    ensures Flips(es, o) && 1 <= PaymentCount(es[..FlipLength(es, o)], o) <= PaymentCount(es[..n], o)
  {
    FlipLengthLeast(es, n, o);
    var m := FlipLength(es, o);
    CountPrefix(es, m, n, o);
    FlipNeedsPayment(es[..m], o);
    NoPaymentCount(es[..m], o);
  }

  lemma PaidOnceRow(es: seq<Delivery>, n: nat, o: string)
    requires n <= |es| && Flips(es[..n], o) && PaymentCount(es[..n], o) == 1
    ensures ExpectedRow(es, o) == Some(OrderRow(PaidBack, 2))
  {
    FlipCount(es, n, o);
    FlipNeedsPayment(es, o);
  }

  /** The row where it is blind to the order. */
  lemma BlindRow(ds: seq<Delivery>, o: string)
    requires RowBlind(ds, o)
    ensures ExpectedRow(ds, o) ==
      if !HasPayment(ds, o) then None
      else if HasRefund(ds, o) then Some(OrderRow(PaidBack, 2))
      else Some(OrderRow(Paid, PaymentCount(ds, o)))
  {
    BlindFlips(ds, o);
    if HasPayment(ds, o) && HasRefund(ds, o) {
      assert ds[..|ds|] == ds;
      PaidOnceRow(ds, |ds|, o);
    }
  }

  lemma RowBlindSame(ds: seq<Delivery>, es: seq<Delivery>, o: string)
    requires SameEvents(ds, es) && RowBlind(ds, o)
    ensures RowBlind(es, o)
  {
    SameEventsCarry(ds, es, o);
    SameEventsCarry(es, ds, o);
    CountSame(ds, es, o);
  }

  lemma RowBlindKeeps(ds: seq<Delivery>, es: seq<Delivery>, o: string)
    requires DistinctKeys(ds) && SameEvents(ds, es) && RowBlind(ds, o)
    ensures RowOf(Sequential(es), o) == RowOf(Sequential(ds), o)
  {
    SameEventsDistinct(ds, es);
    FinalRow(ds, o);
    FinalRow(es, o);
    RowBlindSame(ds, es, o);
    BlindRow(ds, o);
    BlindRow(es, o);
    SameEventsPredicates(ds, es, o);
    CountSame(ds, es, o);
  }

  /** A refund right after the first payment flips the order at version 2. */
  lemma EarlyFlip(ds: seq<Delivery>, o: string) returns (es: seq<Delivery>)
    requires DistinctKeys(ds) && HasPayment(ds, o) && HasRefund(ds, o)
    ensures Reordered(ds, es) && RowOf(Sequential(es), o) == Some(OrderRow(PaidBack, 2))
  {
    var p :| p in ds && Pays(p, o);
    var r :| r in ds && Refunds(r, o);
    var rest := Rest(ds, p);
    var others := Rest(rest, r);
    es := [p, r] + others;
    assert [p, r] == [p] + [r];
    ReorderedDistinct(ds, es);
    FinalRow(es, o);
    FlipAtTwo(p, r, others, o);
  }

  lemma FlipAtTwo(p: Delivery, r: Delivery, others: seq<Delivery>, o: string)
    requires Pays(p, o) && Refunds(r, o)
    ensures ExpectedRow([p, r] + others, o) == Some(OrderRow(PaidBack, 2))
  {
    var es := [p, r] + others;
    assert es[..2] == [p, r];
    assert FlipsAt(es[..2], 0, 1, o);
    assert [p, r][..1] == [p] && [p][..0] == [];
    assert PaymentCount([p, r], o) == PaymentCount([p], o) == 1;
    PaidOnceRow(es, 2, o);
  }

  /** All payments before everything else: the flip counts every payment. */
  lemma LateFlip(ds: seq<Delivery>, o: string)
    requires DistinctKeys(ds) && HasPayment(ds, o) && HasRefund(ds, o)
    ensures var es := Part(ds, o, true) + Part(ds, o, false);
      Reordered(ds, es) && RowOf(Sequential(es), o).Some?
      && RowOf(Sequential(es), o).value.version > PaymentCount(ds, o)
  {
    var a, b := Part(ds, o, true), Part(ds, o, false);
    var es := a + b;
    PartsReordered(ds, o, true);
    CountReordered(ds, es, o);
    var p :| p in ds && Pays(p, o);
    var r :| r in ds && Refunds(r, o);
    FlipsAcross(a, b, p, r, o);
    FinalRow(es, o);
    NoPaymentCount(b, o);
    CountAppend(a, b, o);
    LateLength(a, b, o);
  }

  lemma LateLength(a: seq<Delivery>, b: seq<Delivery>, o: string)
    requires Flips(a + b, o) && forall d :: d in a ==> Pays(d, o)
    ensures PaymentCount((a + b)[..FlipLength(a + b, o)], o) >= PaymentCount(a, o)
  {
    var n := FlipLength(a + b, o);
    var es := (a + b)[..n];
    if n <= |a| {
      forall i | 0 <= i < n ensures !Refunds(es[i], o) { assert es[i] == a[i] && a[i] in a; }
      assert false;
    }
    assert es == a + es[|a|..];
    CountAppend(a, es[|a|..], o);
  }

  /** An order's whole row, version included, is the same for every order and all times of arrival if and only if the
      order was never paid, never refunded, or paid once with a refund of that profile and account. */
  lemma RowIff(ds: seq<Delivery>, o: string)
    requires DistinctKeys(ds)
    ensures RowBlind(ds, o) <==>
      forall es :: SameEvents(ds, es) ==> RowOf(Sequential(es), o) == RowOf(Sequential(ds), o)
  {
    var first, last := Part(ds, o, true) + Part(ds, o, false), Part(ds, o, false) + Part(ds, o, true);
    if RowBlind(ds, o) {
      forall es | SameEvents(ds, es) ensures RowOf(Sequential(es), o) == RowOf(Sequential(ds), o) {
        RowBlindKeeps(ds, es, o);
      }
    } else if !SharedTenant(ds, o) {
      PaymentsFirst(ds, o);
      PaymentsLast(ds, o);
      ReorderedSame(ds, first);
      ReorderedSame(ds, last);
    } else {
      var early := EarlyFlip(ds, o);
      LateFlip(ds, o);
      NoPaymentCount(ds, o);
      ReorderedSame(ds, early);
      ReorderedSame(ds, first);
      assert RowOf(Sequential(early), o) != RowOf(Sequential(first), o);
    }
  }

  // ---------------------------------------------------------------------
  // When the tables do not depend on the order of arrival
  // ---------------------------------------------------------------------

  function UntimedInbox(inbox: map<Key, InboxRow>): map<Key, InboxRow> {
    map k | k in inbox :: inbox[k].(receivedAt := 0)
  }

  function UntimedEffects(effects: map<Key, EffectRow>): map<Key, EffectRow> {
    map k | k in effects :: effects[k].(createdAt := 0)
  }

  function UntimedOutbox(outbox: map<Key, OutboxRow>): map<Key, OutboxRow> {
    map k | k in outbox :: outbox[k].(createdAt := 0)
  }

  /** The tables apart from the times of receipt and creation. */
  function UntimedTables(t: Tables): Tables {
    Tables(UntimedInbox(t.inbox), t.orders, UntimedEffects(t.effects), UntimedOutbox(t.outbox))
  }

  /** The place of an event that is in the inbox. */
  lemma PlaceOf(ds: seq<Delivery>, k: Key) returns (j: nat)
    requires DistinctKeys(ds) && k in Sequential(ds).inbox
    ensures j < |ds| && ds[j].key == k && RecordedAs(Sequential(ds), ds[j], AppliedAt(ds, j))
  {
    SequentialKeys(ds, k);
    j :| 0 <= j < |ds| && ds[j].key == k;
    EventRows(ds, j);
  }

  lemma SamePlace(ds: seq<Delivery>, es: seq<Delivery>, i: nat, j: nat)
    requires DistinctKeys(es) && SameEvents(ds, es) && i < |ds| && j < |es| && ds[i].key == es[j].key
    ensures Untimed(ds[i]) == Untimed(es[j])
  {
    var e := Counterpart(ds, es, ds[i]);
    var m :| 0 <= m < |es| && es[m] == e;
    assert es[m].key == es[j].key;
  }

  /** Where the same events are processed, the rows of every key agree apart from their times. */
  lemma UntimedRowsAgree(ds: seq<Delivery>, es: seq<Delivery>, k: Key)
    requires DistinctKeys(ds) && SameEvents(ds, es) && SameKeys(Sequential(es), Sequential(ds))
    ensures var t, u := Sequential(es), Sequential(ds);
      && AgreeAt(UntimedInbox(t.inbox), UntimedInbox(u.inbox), k)
      && AgreeAt(UntimedEffects(t.effects), UntimedEffects(u.effects), k)
      && AgreeAt(UntimedOutbox(t.outbox), UntimedOutbox(u.outbox), k)
  {
    var t, u := Sequential(es), Sequential(ds);
    SameEventsDistinct(ds, es);
    InboxKeys(ds, es, k);
    SequentialInv(ds);
    SequentialInv(es);
    if k in u.inbox {
      var i := PlaceOf(ds, k);
      var j := PlaceOf(es, k);
      SamePlace(ds, es, i, j);
      assert k in ProcessedKeys(u) <==> k in ProcessedKeys(t);
    }
  }

  lemma UntimedAgree(ds: seq<Delivery>, es: seq<Delivery>)
    requires DistinctKeys(ds) && SameEvents(ds, es) && AllSettled(ds) && forall o :: RowBlind(ds, o)
    ensures UntimedTables(Sequential(es)) == UntimedTables(Sequential(ds))
  {
    var t, u := Sequential(es), Sequential(ds);
    SettledKeys(ds, es);
    forall k ensures AgreeAt(UntimedInbox(t.inbox), UntimedInbox(u.inbox), k) { UntimedRowsAgree(ds, es, k); }
    forall k ensures AgreeAt(UntimedEffects(t.effects), UntimedEffects(u.effects), k) { UntimedRowsAgree(ds, es, k); }
    forall k ensures AgreeAt(UntimedOutbox(t.outbox), UntimedOutbox(u.outbox), k) { UntimedRowsAgree(ds, es, k); }
    forall o ensures AgreeAt(t.orders, u.orders, o) { RowBlindKeeps(ds, es, o); }
    AgreeEverywhere(UntimedInbox(t.inbox), UntimedInbox(u.inbox));
    AgreeEverywhere(UntimedEffects(t.effects), UntimedEffects(u.effects));
    AgreeEverywhere(UntimedOutbox(t.outbox), UntimedOutbox(u.outbox));
    AgreeEverywhere(t.orders, u.orders);
  }

  /** What the untimed tables still show. */
  lemma UntimedShows(t: Tables, u: Tables)
    requires UntimedTables(t) == UntimedTables(u)
    ensures forall k :: Parked(t, k) <==> Parked(u, k)
    ensures forall o :: RowOf(t, o) == RowOf(u, o)
  {
    forall k ensures Parked(t, k) <==> Parked(u, k) {
      assert k in t.inbox <==> k in UntimedInbox(t.inbox);
      assert k in u.inbox <==> k in UntimedInbox(u.inbox);
      assert k in t.inbox ==> UntimedInbox(t.inbox)[k].state == t.inbox[k].state;
      assert k in u.inbox ==> UntimedInbox(u.inbox)[k].state == u.inbox[k].state;
    }
  }

  /** All four tables, apart from the times in them, are the same for every order and all times of arrival if and only
      if every refund is settled and every order's row is blind to the order. */
  lemma TablesIff(ds: seq<Delivery>)
    requires DistinctKeys(ds)
    ensures AllSettled(ds) && (forall o :: RowBlind(ds, o)) <==>
      forall es :: SameEvents(ds, es) ==> UntimedTables(Sequential(es)) == UntimedTables(Sequential(ds))
  {
    if AllSettled(ds) && (forall o :: RowBlind(ds, o)) {
      forall es | SameEvents(ds, es) ensures UntimedTables(Sequential(es)) == UntimedTables(Sequential(ds)) {
        UntimedAgree(ds, es);
      }
    }
    if forall es :: SameEvents(ds, es) ==> UntimedTables(Sequential(es)) == UntimedTables(Sequential(ds)) {
      TablesSettled(ds);
    }
  }

  lemma TablesSettled(ds: seq<Delivery>)
    requires DistinctKeys(ds)
    requires forall es :: SameEvents(ds, es) ==> UntimedTables(Sequential(es)) == UntimedTables(Sequential(ds))
    ensures AllSettled(ds) && forall o :: RowBlind(ds, o)
  {
    forall es | SameEvents(ds, es)
      ensures forall k :: Parked(Sequential(es), k) <==> Parked(Sequential(ds), k)
      ensures forall o :: RowOf(Sequential(es), o) == RowOf(Sequential(ds), o)
    {
      UntimedShows(Sequential(es), Sequential(ds));
    }
    forall r | r in ds && r.eventType == Refunded ensures Settled(ds, r) { ParkedIff(ds, r); }
    forall o ensures RowBlind(ds, o) { RowIff(ds, o); }
  }

  /** Two whole runs whose first commits are the same events, in any order and at any times, leave the same tables apart
      from the times in them. */
  lemma RunsAgreeOnTables(s: System, s': System)
    requires Reachable(s) && Reachable(s')
    requires SameEvents(Firsts(Deliveries(s.log)), Firsts(Deliveries(s'.log)))
    requires AllSettled(Firsts(Deliveries(s.log))) && forall o :: RowBlind(Firsts(Deliveries(s.log)), o)
    ensures UntimedTables(s.db) == UntimedTables(s'.db)
  {
    ExactlyOnce(s);
    ExactlyOnce(s');
    UntimedAgree(Firsts(Deliveries(s.log)), Firsts(Deliveries(s'.log)));
  }
}
