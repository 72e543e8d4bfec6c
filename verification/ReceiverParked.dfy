/** Which refunds stay parked, and when that does not depend on the order of arrival. */
module ReceiverParked {
  import opened ReceiverTables
  import opened ReceiverSequence
  import opened ReceiverSteps
  import opened ReceiverRuns
  import opened ReceiverConfluence

  // ---------------------------------------------------------------------
  // Which refunds stay parked
  // ---------------------------------------------------------------------

  ghost predicate LaterPayment(ds: seq<Delivery>, j: nat)
    requires j < |ds|
  {
    exists i :: j < i < |ds| && Pays(ds[i], ds[j].orderId) && SameTenant(ds[i], ds[j])
  }

  /** The order was paid and not yet refunded when event `j` arrived. */
  ghost predicate PaidOnArrival(ds: seq<Delivery>, j: nat)
    requires j < |ds|
  {
    HasPayment(ds[..j], ds[j].orderId) && !Flips(ds[..j], ds[j].orderId)
  }

  predicate Parked(t: Tables, k: Key) {
    k in t.inbox && t.inbox[k].state == PendingDependency
  }

  lemma ParkedStep(t: Tables, d: Delivery, k: Key)
    requires Inv(t) && d.key !in t.inbox && k in t.inbox
    ensures Parked(After(t, d), k) <==>
      Parked(t, k) && !(d.eventType == Succeeded && d.orderId == t.inbox[k].orderId
                        && d.key.profile == k.profile && d.key.account == k.account)
  {
    var applied := ApplyEvent(InsertInbox(t, d), d.key, d.eventType, d.orderId, d.now);
    assert applied.inbox[k] == t.inbox[k];
  }

  lemma LaterPaymentLast(ds: seq<Delivery>, j: nat)
    requires j < |ds| - 1
    ensures LaterPayment(ds, j) <==>
            || LaterPayment(ds[..|ds| - 1], j)
            || (Pays(ds[|ds| - 1], ds[j].orderId) && SameTenant(ds[|ds| - 1], ds[j]))
  {
    var front := ds[..|ds| - 1];
    if LaterPayment(ds, j) {
      var i :| j < i < |ds| && Pays(ds[i], ds[j].orderId) && SameTenant(ds[i], ds[j]);
      if i < |front| { assert Pays(front[i], front[j].orderId); }
    }
    if LaterPayment(front, j) {
      var i :| j < i < |front| && Pays(front[i], front[j].orderId) && SameTenant(front[i], front[j]);
      assert Pays(ds[i], ds[j].orderId);
    }
  }

  lemma ParkedOnArrival(ds: seq<Delivery>)
    requires DistinctKeys(ds) && ds != [] && ds[|ds| - 1].eventType == Refunded
    ensures Parked(Sequential(ds), ds[|ds| - 1].key) <==> !PaidOnArrival(ds, |ds| - 1)
  {
    var front, d := ds[..|ds| - 1], ds[|ds| - 1];
    FreshLast(ds);
    FinalState(front, d.orderId);
    assert OrderIsPaid(Sequential(front), d.orderId) <==> OutcomeOf(Sequential(front), d.orderId) == Row(Paid);
  }

  /** A refund ends up parked exactly if its order was not paid, or was refunded already, when it
      arrived, and no later payment of the order carries its profile and account. */
  lemma {:induction false} ParkedExactly(ds: seq<Delivery>, j: nat)
    requires DistinctKeys(ds) && j < |ds| && ds[j].eventType == Refunded
    ensures Parked(Sequential(ds), ds[j].key) <==> !PaidOnArrival(ds, j) && !LaterPayment(ds, j)
  {
    if j == |ds| - 1 {
      ParkedOnArrival(ds);
    } else {
      var front, d := ds[..|ds| - 1], ds[|ds| - 1];
      FreshLast(ds);
      ParkedExactly(front, j);
      assert front[..j] == ds[..j];
      LaterPaymentLast(ds, j);
      DistinctRecorded(front, j);
      ParkedStep(Sequential(front), d, ds[j].key);
    }
  }

  /** The tables themselves do depend on the order of arrival: a second refund is parked for good
      behind a payment and a first refund, and takes effect when both refunds come first. */
  lemma TablesDependOnOrder(p: Delivery, r: Delivery, s: Delivery, o: string)
    requires Pays(p, o) && Refunds(r, o) && Refunds(s, o) && SameTenant(p, r) && SameTenant(p, s)
    requires DistinctKeys([p, r, s])
    ensures Parked(Sequential([p, r, s]), s.key)
    ensures !Parked(Sequential([r, s, p]), s.key)
  {
    var a, b := [p, r, s], [r, s, p];
    assert FlipsAt(a[..2], 0, 1, o);
    ParkedExactly(a, 2);
    assert Pays(b[2], o) && SameTenant(b[2], b[1]);
    ParkedExactly(b, 1);
  }

  // ---------------------------------------------------------------------
  // When parking does not depend on the order of arrival
  // ---------------------------------------------------------------------

  ghost predicate PaidByTenant(ds: seq<Delivery>, r: Delivery) {
    exists p :: p in ds && Pays(p, r.orderId) && SameTenant(p, r)
  }

  ghost predicate OnlyRefund(ds: seq<Delivery>, r: Delivery) {
    forall s :: s in ds && Refunds(s, r.orderId) ==> s == r
  }

  /** What a caller can check of the events: the order is never paid, or the refund is its only one and its own
      profile and account pay the order. */
  ghost predicate Settled(ds: seq<Delivery>, r: Delivery) {
    !HasPayment(ds, r.orderId) || (PaidByTenant(ds, r) && OnlyRefund(ds, r))
  }

  lemma Rest(ds: seq<Delivery>, d: Delivery) returns (rest: seq<Delivery>)
    requires d in ds
    ensures multiset(rest) + multiset{d} == multiset(ds)
    ensures forall x :: x in rest ==> x in ds
    ensures forall x :: x in ds && x != d ==> x in rest
  {
    var i :| 0 <= i < |ds| && ds[i] == d;
    rest := ds[..i] + ds[i + 1..];
    assert ds == ds[..i] + [ds[i]] + ds[i + 1..];
    forall x | x in ds && x != d ensures x in rest {
      assert x in ds[..i] || x in ds[i + 1..];
    }
  }

  lemma UnpaidParks(ds: seq<Delivery>, es: seq<Delivery>, r: Delivery)
    requires DistinctKeys(ds) && SameEvents(ds, es) && r in ds && r.eventType == Refunded && !HasPayment(ds, r.orderId)
    ensures Parked(Sequential(es), r.key)
  {
    SameEventsPredicates(ds, es, r.orderId);
    SameEventsDistinct(ds, es);
    var e := Counterpart(ds, es, r);
    var j :| 0 <= j < |es| && es[j] == e;
    ParkedExactly(es, j);
    forall i | 0 <= i < |es| ensures !Pays(es[i], r.orderId) {
      assert es[i] in es;
    }
  }

  lemma NoEarlierFlip(es: seq<Delivery>, j: nat)
    requires DistinctKeys(es) && j < |es| && OnlyRefund(es, es[j])
    ensures !Flips(es[..j], es[j].orderId)
  {
    forall y | 0 <= y < j ensures !Refunds(es[..j][y], es[j].orderId) {
      assert es[y] in es && es[y].key != es[j].key;
    }
  }

  lemma OnlyRefundCarries(ds: seq<Delivery>, es: seq<Delivery>, r: Delivery, e: Delivery)
    requires DistinctKeys(es) && SameEvents(ds, es) && OnlyRefund(ds, r) && e in es && Untimed(e) == Untimed(r)
    ensures OnlyRefund(es, e)
  {
    forall x | x in es && Refunds(x, e.orderId) ensures x == e {
      var d := Counterpart(es, ds, x);
      assert Refunds(d, r.orderId);
      var i :| 0 <= i < |es| && es[i] == x;
      var j :| 0 <= j < |es| && es[j] == e;
      assert es[i].key == es[j].key;
    }
  }

  /** The only refund of an order that its own profile and account pay is never parked. */
  lemma OnlyRefundApplies(ds: seq<Delivery>, es: seq<Delivery>, r: Delivery)
    requires DistinctKeys(ds) && SameEvents(ds, es) && r in ds && r.eventType == Refunded
    requires PaidByTenant(ds, r) && OnlyRefund(ds, r)
    ensures !Parked(Sequential(es), r.key)
  {
    SameEventsDistinct(ds, es);
    var e := Counterpart(ds, es, r);
    OnlyRefundCarries(ds, es, r, e);
    var p :| p in ds && Pays(p, r.orderId) && SameTenant(p, r);
    var q := Counterpart(ds, es, p);
    var i :| 0 <= i < |es| && es[i] == q;
    var j :| 0 <= j < |es| && es[j] == e;
    ParkedExactly(es, j);
    if i < j {
      assert es[..j][i] in es[..j];
      NoEarlierFlip(es, j);
    } else {
      assert Pays(es[i], es[j].orderId) && SameTenant(es[i], es[j]);
    }
  }

  lemma AfterPayment(es: seq<Delivery>, p: Delivery, r: Delivery)
    requires DistinctKeys(es) && r.eventType == Refunded && Pays(p, r.orderId) && [p, r] <= es
    ensures !Parked(Sequential(es), r.key)
  {
    ParkedExactly(es, 1);
    assert es[..1] == [p];
    assert p in es[..1];
  }

  /** An order of arrival in which a refund of a paid order takes effect: right after some payment. */
  lemma AppliesSomewhere(ds: seq<Delivery>, r: Delivery) returns (es: seq<Delivery>)
    requires DistinctKeys(ds) && r in ds && r.eventType == Refunded && HasPayment(ds, r.orderId)
    ensures Reordered(ds, es) && !Parked(Sequential(es), r.key)
  {
    var p :| p in ds && Pays(p, r.orderId);
    var rest := Rest(ds, p);
    var others := Rest(rest, r);
    es := [p, r] + others;
    assert [p, r] == [p] + [r];
    ReorderedDistinct(ds, es);
    AfterPayment(es, p, r);
  }

  lemma FirstIsParked(ds: seq<Delivery>, r: Delivery) returns (es: seq<Delivery>)
    requires DistinctKeys(ds) && r in ds && r.eventType == Refunded && !PaidByTenant(ds, r)
    ensures Reordered(ds, es) && Parked(Sequential(es), r.key)
  {
    var rest := Rest(ds, r);
    es := [r] + rest;
    ReorderedDistinct(ds, es);
    ParkedExactly(es, 0);
    assert es[..0] == [];
    forall i | 0 < i < |es| ensures !(Pays(es[i], r.orderId) && SameTenant(es[i], r)) {
      assert es[i] in rest;
    }
  }

  lemma LastIsParked(ds: seq<Delivery>, r: Delivery) returns (es: seq<Delivery>)
    requires DistinctKeys(ds) && r in ds && r.eventType == Refunded
    requires HasPayment(ds, r.orderId) && !OnlyRefund(ds, r)
    ensures Reordered(ds, es) && Parked(Sequential(es), r.key)
  {
    var o := r.orderId;
    var rest := Rest(ds, r);
    PartsReorder(rest, o);
    var a, b := Part(rest, o, true), Part(rest, o, false);
    es := a + b + [r];
    assert multiset(es) == multiset(ds);
    ReorderedDistinct(ds, es);
    ParkedExactly(es, |es| - 1);
    assert es[..|es| - 1] == a + b;
    var p :| p in ds && Pays(p, o);
    var s :| s in ds && Refunds(s, o) && s != r;
    assert p in rest && s in rest;
    FlipsAcross(a, b, p, s, o);
  }

  /** Whether a refund ends up parked is the same for every order and all times of arrival if and only if it is
      settled. */
  lemma ParkedIff(ds: seq<Delivery>, r: Delivery)
    requires DistinctKeys(ds) && r in ds && r.eventType == Refunded
    ensures Settled(ds, r) <==>
      forall es :: SameEvents(ds, es) ==> (Parked(Sequential(es), r.key) <==> Parked(Sequential(ds), r.key))
  {
    if !HasPayment(ds, r.orderId) {
      forall es | SameEvents(ds, es) ensures Parked(Sequential(es), r.key) { UnpaidParks(ds, es, r); }
      UnpaidParks(ds, ds, r);
    } else if Settled(ds, r) {
      forall es | SameEvents(ds, es) ensures !Parked(Sequential(es), r.key) { OnlyRefundApplies(ds, es, r); }
      OnlyRefundApplies(ds, ds, r);
    } else {
      var applied := AppliesSomewhere(ds, r);
      var parked;
      if PaidByTenant(ds, r) { parked := LastIsParked(ds, r); } else { parked := FirstIsParked(ds, r); }
      ReorderedSame(ds, applied);
      ReorderedSame(ds, parked);
      assert Parked(Sequential(parked), r.key) && !Parked(Sequential(applied), r.key);
    }
  }

  // ---------------------------------------------------------------------
  // When the keys of the tables do not depend on the order of arrival
  // ---------------------------------------------------------------------

  function ProcessedKeys(t: Tables): set<Key> {
    set k | k in t.inbox && t.inbox[k].state == Processed
  }

  /** The same events are processed, and have an effect, and have an outbox row. */
  ghost predicate SameKeys(t: Tables, u: Tables) {
    ProcessedKeys(t) == ProcessedKeys(u) && t.effects.Keys == u.effects.Keys && t.outbox.Keys == u.outbox.Keys
  }

  ghost predicate AllSettled(ds: seq<Delivery>) {
    forall r :: r in ds && r.eventType == Refunded ==> Settled(ds, r)
  }

  lemma InvKeys(t: Tables)
    requires Inv(t)
    ensures ProcessedKeys(t) == t.effects.Keys == t.outbox.Keys
  {
  }

  lemma MentionsCarry(ds: seq<Delivery>, es: seq<Delivery>, k: Key)
    requires SameEvents(ds, es) && Mentions(ds, k)
    ensures Mentions(es, k)
  {
    var i :| 0 <= i < |ds| && ds[i].key == k;
    var e := Counterpart(ds, es, ds[i]);
    var j :| 0 <= j < |es| && es[j] == e;
    assert es[j].key == k;
  }

  lemma InboxKeys(ds: seq<Delivery>, es: seq<Delivery>, k: Key)
    requires SameEvents(ds, es)
    ensures k in Sequential(ds).inbox <==> k in Sequential(es).inbox
  {
    SequentialKeys(ds, k);
    SequentialKeys(es, k);
    if Mentions(ds, k) { MentionsCarry(ds, es, k); }
    if Mentions(es, k) { MentionsCarry(es, ds, k); }
  }

  /** Every key in the inbox belongs to one of the events, and only refunds are parked. */
  lemma ParkedIsRefund(ds: seq<Delivery>, k: Key) returns (r: Delivery)
    requires DistinctKeys(ds) && Parked(Sequential(ds), k)
    ensures r in ds && r.key == k && r.eventType == Refunded
  {
    SequentialKeys(ds, k);
    SequentialInv(ds);
    var i :| 0 <= i < |ds| && ds[i].key == k;
    DistinctRecorded(ds, i);
    r := ds[i];
  }

  lemma SameInbox(ds: seq<Delivery>, es: seq<Delivery>)
    requires SameEvents(ds, es)
    ensures Sequential(ds).inbox.Keys == Sequential(es).inbox.Keys
  {
    forall k ensures k in Sequential(ds).inbox <==> k in Sequential(es).inbox { InboxKeys(ds, es, k); }
  }

  lemma ParkedKeys(t: Tables, u: Tables)
    requires t.inbox.Keys == u.inbox.Keys
    ensures ProcessedKeys(u) == ProcessedKeys(t) <==> forall k :: Parked(u, k) <==> Parked(t, k)
  {
    if forall k :: Parked(u, k) <==> Parked(t, k) {
      forall k ensures k in ProcessedKeys(u) <==> k in ProcessedKeys(t) {
        assert Parked(u, k) <==> Parked(t, k);
      }
    } else {
      var k :| Parked(u, k) != Parked(t, k);
      assert k in ProcessedKeys(u) <==> k !in ProcessedKeys(t);
    }
  }

  lemma SameParkedSameKeys(ds: seq<Delivery>, es: seq<Delivery>)
    requires SameEvents(ds, es)
    ensures SameKeys(Sequential(es), Sequential(ds)) <==>
      forall k :: Parked(Sequential(es), k) <==> Parked(Sequential(ds), k)
  {
    SequentialInv(ds);
    SequentialInv(es);
    InvKeys(Sequential(ds));
    InvKeys(Sequential(es));
    SameInbox(ds, es);
    ParkedKeys(Sequential(ds), Sequential(es));
  }

  lemma SettledKeys(ds: seq<Delivery>, es: seq<Delivery>)
    requires DistinctKeys(ds) && SameEvents(ds, es) && AllSettled(ds)
    ensures SameKeys(Sequential(es), Sequential(ds))
  {
    SameEventsDistinct(ds, es);
    forall k ensures Parked(Sequential(es), k) <==> Parked(Sequential(ds), k) {
      if Parked(Sequential(ds), k) {
        var r := ParkedIsRefund(ds, k);
        ParkedIff(ds, r);
      } else if Parked(Sequential(es), k) {
        var e := ParkedIsRefund(es, k);
        var r := Counterpart(es, ds, e);
        ParkedIff(ds, r);
      }
    }
    SameParkedSameKeys(ds, es);
  }

  /** Which events are processed, have an effect and have an outbox row is the same for every order and all times
      of arrival if and only if every refund is settled. */
  lemma KeysIff(ds: seq<Delivery>)
    requires DistinctKeys(ds)
    ensures AllSettled(ds) <==>
      forall es :: SameEvents(ds, es) ==> SameKeys(Sequential(es), Sequential(ds))
  {
    if AllSettled(ds) {
      forall es | SameEvents(ds, es) ensures SameKeys(Sequential(es), Sequential(ds)) { SettledKeys(ds, es); }
    } else {
      var r :| r in ds && r.eventType == Refunded && !Settled(ds, r);
      ParkedIff(ds, r);
      var es :| SameEvents(ds, es) && (Parked(Sequential(es), r.key) != Parked(Sequential(ds), r.key));
      SameParkedSameKeys(ds, es);
    }
  }

  /** Two whole runs whose first commits are the same events, in any order and at any times, process the same events. */
  lemma RunsAgreeOnKeys(s: System, s': System)
    requires Reachable(s) && Reachable(s')
    requires SameEvents(Firsts(Deliveries(s.log)), Firsts(Deliveries(s'.log)))
    requires AllSettled(Firsts(Deliveries(s.log)))
    ensures SameKeys(s.db, s'.db)
  {
    ExactlyOnce(s);
    ExactlyOnce(s');
    SettledKeys(Firsts(Deliveries(s.log)), Firsts(Deliveries(s'.log)));
  }
}
