/** How the result depends on the order in which the same accepted events arrive. */
module ReceiverConfluence {
  import opened Options
  import opened ReceiverTables
  import opened ReceiverSequence
  import opened ReceiverSteps
  import opened ReceiverRuns

  predicate Pays(d: Delivery, o: string) {
    d.eventType == Succeeded && d.orderId == o
  }

  predicate Refunds(d: Delivery, o: string) {
    d.eventType == Refunded && d.orderId == o
  }

  predicate SameTenant(a: Delivery, b: Delivery) {
    a.key.profile == b.key.profile && a.key.account == b.key.account
  }

  ghost predicate HasPayment(ds: seq<Delivery>, o: string) {
    exists d :: d in ds && Pays(d, o)
  }

  ghost predicate HasRefund(ds: seq<Delivery>, o: string) {
    exists d :: d in ds && Refunds(d, o)
  }

  /** The payment at `i` and the refund at `j` flip the order. */
  predicate FlipsAt(ds: seq<Delivery>, i: int, j: int, o: string) {
    && 0 <= i < |ds| && 0 <= j < |ds| && Pays(ds[i], o) && Refunds(ds[j], o)
    && (i < j || SameTenant(ds[i], ds[j]))
  }

  /** Some refund comes after some payment of the order, or shares its profile and account with one. */
  ghost predicate Flips(ds: seq<Delivery>, o: string) {
    exists i, j :: FlipsAt(ds, i, j, o)
  }

  function RowOf(t: Tables, o: string): Option<OrderRow> {
    if o in t.orders then Some(t.orders[o]) else None
  }

  datatype OrderOutcome = Absent | Row(state: OrderState)

  function OutcomeOf(t: Tables, o: string): OrderOutcome {
    if o in t.orders then Row(t.orders[o].state) else Absent
  }

  // ---------------------------------------------------------------------
  // The inbox of a sequence of distinct events
  // ---------------------------------------------------------------------

  lemma DistinctRecorded(ds: seq<Delivery>, i: nat)
    requires DistinctKeys(ds) && i < |ds|
    ensures ds[i].key in Sequential(ds).inbox && SameEvent(Sequential(ds).inbox[ds[i].key], ds[i])
  {
    SequentialKeys(ds[..i], ds[i].key);
    ReplyRecords(ds, i);
  }

  lemma FreshLast(ds: seq<Delivery>)
    requires DistinctKeys(ds) && ds != []
    ensures DistinctKeys(ds[..|ds| - 1])
    ensures ds[|ds| - 1].key !in Sequential(ds[..|ds| - 1]).inbox
    ensures Inv(Sequential(ds[..|ds| - 1]))
  {
    SequentialKeys(ds[..|ds| - 1], ds[|ds| - 1].key);
    SequentialInv(ds[..|ds| - 1]);
  }

  /** A processed refund of an order shows in the order's state. */
  lemma ProcessedRefund(t: Tables, k: Key, o: string)
    requires Inv(t) && k in t.inbox && t.inbox[k].state == Processed
    requires t.inbox[k].eventType == Refunded && t.inbox[k].orderId == o
    ensures o in t.orders && t.orders[o].state == PaidBack
  {
    assert k in EffectsOf(t, o);
    assert OrderFits(t, o);
  }

  /** The row of an order after a payment, when a refund may be waiting for that payment. */
  function RowAfterPayment(row: Option<OrderRow>, waiting: bool): OrderRow {
    if row.Some? && row.value.state == PaidBack then row.value
    else
      var version := if row == None then 1 else row.value.version + 1;
      if waiting then OrderRow(PaidBack, version + 1) else OrderRow(Paid, version)
  }

  function RowAfterRefund(row: Option<OrderRow>): Option<OrderRow> {
    if row.Some? && row.value.state == Paid then Some(OrderRow(PaidBack, row.value.version + 1)) else row
  }

  lemma PaymentRow(t: Tables, d: Delivery)
    requires d.key !in t.inbox && d.eventType == Succeeded
    ensures RowOf(After(t, d), d.orderId) ==
      Some(RowAfterPayment(RowOf(t, d.orderId), PendingRefunds(t, d.key.profile, d.key.account, d.orderId) != {}))
  {
    var applied := ApplyEvent(InsertInbox(t, d), d.key, d.eventType, d.orderId, d.now);
    assert PendingRefunds(applied, d.key.profile, d.key.account, d.orderId)
        == PendingRefunds(t, d.key.profile, d.key.account, d.orderId);
  }

  lemma RefundRow(t: Tables, d: Delivery)
    requires d.key !in t.inbox && d.eventType == Refunded
    ensures RowOf(After(t, d), d.orderId) == RowAfterRefund(RowOf(t, d.orderId))
  {
  }

  lemma OrdersElsewhere(orders: map<string, OrderRow>, e: EventType, orderId: string, o: string)
    requires orderId != o
    ensures o in OrdersAfter(orders, e, orderId) <==> o in orders
    ensures o in orders ==> OrdersAfter(orders, e, orderId)[o] == orders[o]
  {
  }

  lemma OtherOrder(t: Tables, d: Delivery, o: string)
    requires d.orderId != o
    ensures RowOf(After(t, d), o) == RowOf(t, o)
  {
    var orders := OrdersAfter(t.orders, d.eventType, d.orderId);
    OrdersElsewhere(t.orders, d.eventType, d.orderId, o);
    OrdersElsewhere(orders, Refunded, d.orderId, o);
    assert After(t, d).orders in {t.orders, orders, OrdersAfter(orders, Refunded, d.orderId)};
  }

  /** Some earlier refund has the order, profile and account of `d`. */
  ghost predicate RefundFor(ds: seq<Delivery>, d: Delivery, o: string) {
    exists j :: 0 <= j < |ds| && Refunds(ds[j], o) && SameTenant(ds[j], d)
  }

  /** When a payment arrives, an earlier refund of its order, profile and account has either
      taken effect or is waiting for it. */
  lemma EarlierRefund(ds: seq<Delivery>, d: Delivery, o: string)
    requires DistinctKeys(ds) && RefundFor(ds, d, o)
    ensures OutcomeOf(Sequential(ds), o) == Row(PaidBack)
         || PendingRefunds(Sequential(ds), d.key.profile, d.key.account, o) != {}
  {
    var t := Sequential(ds);
    SequentialInv(ds);
    var j :| 0 <= j < |ds| && Refunds(ds[j], o) && SameTenant(ds[j], d);
    DistinctRecorded(ds, j);
    if t.inbox[ds[j].key].state == Processed {
      ProcessedRefund(t, ds[j].key, o);
    } else {
      assert ds[j].key in PendingRefunds(t, d.key.profile, d.key.account, o);
    }
  }

  lemma WaitingRefund(ds: seq<Delivery>, d: Delivery, o: string)
    requires DistinctKeys(ds) && PendingRefunds(Sequential(ds), d.key.profile, d.key.account, o) != {}
    ensures RefundFor(ds, d, o)
  {
    var k :| k in PendingRefunds(Sequential(ds), d.key.profile, d.key.account, o);
    SequentialKeys(ds, k);
    var j :| 0 <= j < |ds| && ds[j].key == k;
    DistinctRecorded(ds, j);
    assert Refunds(ds[j], o) && SameTenant(ds[j], d);
  }

  // ---------------------------------------------------------------------
  // The row of an order, read off the sequence of events
  // ---------------------------------------------------------------------

  function PaymentCount(ds: seq<Delivery>, o: string): nat {
    if ds == [] then 0
    else PaymentCount(ds[..|ds| - 1], o) + if Pays(ds[|ds| - 1], o) then 1 else 0
  }

  /** The length of the shortest beginning that flips the order. */
  ghost function FlipLength(ds: seq<Delivery>, o: string): (n: nat)
    requires Flips(ds, o)
    ensures n <= |ds| && Flips(ds[..n], o)
  {
    if Flips(ds[..|ds| - 1], o) then
      var n := FlipLength(ds[..|ds| - 1], o);
      assert ds[..|ds| - 1][..n] == ds[..n];
      n
    else
      assert ds[..|ds|] == ds;
      |ds|
  }

  lemma LongerFlips(ds: seq<Delivery>, m: nat, o: string)
    requires m <= |ds| && Flips(ds[..m], o)
    ensures Flips(ds, o)
  {
    var i, j :| FlipsAt(ds[..m], i, j, o);
    assert FlipsAt(ds, i, j, o);
  }

  lemma {:induction false} FlipLengthLeast(ds: seq<Delivery>, n: nat, o: string)
    requires n <= |ds| && Flips(ds[..n], o)
    ensures Flips(ds, o) && FlipLength(ds, o) <= n
  {
    LongerFlips(ds, n, o);
    if n < |ds| {
      assert ds[..|ds| - 1][..n] == ds[..n];
      FlipLengthLeast(ds[..|ds| - 1], n, o);
    }
  }

  /** A row that is paid counts the payments; one that was refunded counts the payments up to the event that
      flipped it, and the flip. */
  ghost function ExpectedRow(ds: seq<Delivery>, o: string): Option<OrderRow> {
    if !HasPayment(ds, o) then None
    else if Flips(ds, o) then Some(OrderRow(PaidBack, PaymentCount(ds[..FlipLength(ds, o)], o) + 1))
    else Some(OrderRow(Paid, PaymentCount(ds, o)))
  }

  lemma {:induction false} NoPaymentCount(ds: seq<Delivery>, o: string)
    ensures PaymentCount(ds, o) == 0 <==> !HasPayment(ds, o)
  {
    if ds != [] {
      var front, d := ds[..|ds| - 1], ds[|ds| - 1];
      assert ds == front + [d];
      NoPaymentCount(front, o);
      FlipsGrow(front, d, o);
    }
  }

  lemma CountGrows(ds: seq<Delivery>, d: Delivery, o: string)
    ensures PaymentCount(ds + [d], o) == PaymentCount(ds, o) + if Pays(d, o) then 1 else 0
  {
    assert (ds + [d])[..|ds|] == ds;
  }

  lemma FlippedStays(ds: seq<Delivery>, d: Delivery, o: string)
    requires Flips(ds, o)
    ensures ExpectedRow(ds + [d], o) == ExpectedRow(ds, o)
  {
    FlipLengthStays(ds, d, o);
    FlipNeedsPayment(ds, o);
    FlipNeedsPayment(ds + [d], o);
  }

  lemma FlipLengthStays(ds: seq<Delivery>, d: Delivery, o: string)
    requires Flips(ds, o)
    ensures Flips(ds + [d], o) && (ds + [d])[..FlipLength(ds + [d], o)] == ds[..FlipLength(ds, o)]
  {
    var e := ds + [d];
    assert e[..|e| - 1] == ds;
    LongerFlips(e, |ds|, o);
    assert FlipLength(e, o) == FlipLength(e[..|e| - 1], o);
  }

  lemma FlipsNow(ds: seq<Delivery>, d: Delivery, o: string)
    requires !Flips(ds, o) && Flips(ds + [d], o)
    ensures ExpectedRow(ds + [d], o) == Some(OrderRow(PaidBack, PaymentCount(ds + [d], o) + 1))
  {
    var e := ds + [d];
    assert e[..|e| - 1] == ds && e[..|e|] == e;
    FlipNeedsPayment(e, o);
  }

  lemma ExpectedGrows(ds: seq<Delivery>, d: Delivery, o: string)
    ensures PaymentCount(ds + [d], o) == PaymentCount(ds, o) + if Pays(d, o) then 1 else 0
    ensures Flips(ds, o) ==> ExpectedRow(ds + [d], o) == ExpectedRow(ds, o)
    ensures !Flips(ds, o) && Flips(ds + [d], o) ==>
      ExpectedRow(ds + [d], o) == Some(OrderRow(PaidBack, PaymentCount(ds + [d], o) + 1))
  {
    CountGrows(ds, d, o);
    if Flips(ds, o) { FlippedStays(ds, d, o); } else if Flips(ds + [d], o) { FlipsNow(ds, d, o); }
  }

  lemma FlipsGrow(ds: seq<Delivery>, d: Delivery, o: string)
    ensures HasPayment(ds + [d], o) <==> HasPayment(ds, o) || Pays(d, o)
    ensures Flips(ds, o) ==> Flips(ds + [d], o)
    ensures Refunds(d, o) && HasPayment(ds, o) ==> Flips(ds + [d], o)
    ensures Pays(d, o) && RefundFor(ds, d, o) ==> Flips(ds + [d], o)
  {
    var e := ds + [d];
    assert e[|ds|] == d;
    if Flips(ds, o) {
      var i, j :| FlipsAt(ds, i, j, o);
      assert FlipsAt(e, i, j, o);
    }
    if Refunds(d, o) && HasPayment(ds, o) {
      var x :| x in ds && Pays(x, o);
      var i :| 0 <= i < |ds| && ds[i] == x;
      assert FlipsAt(e, i, |ds|, o);
    }
    if Pays(d, o) && RefundFor(ds, d, o) {
      var j :| 0 <= j < |ds| && Refunds(ds[j], o) && SameTenant(ds[j], d);
      assert FlipsAt(e, |ds|, j, o);
    }
  }

  lemma FlipsShrink(ds: seq<Delivery>, d: Delivery, o: string)
    requires Flips(ds + [d], o)
    ensures || Flips(ds, o)
            || (Refunds(d, o) && HasPayment(ds, o))
            || (Pays(d, o) && RefundFor(ds, d, o))
  {
    var e := ds + [d];
    var i, j :| FlipsAt(e, i, j, o);
    if i < |ds| && j < |ds| {
      assert FlipsAt(ds, i, j, o);
    } else if i < |ds| {
      assert ds[i] in ds;
    } else if j < |ds| {
      assert Refunds(ds[j], o);
    }
  }

  lemma FlipNeedsPayment(ds: seq<Delivery>, o: string)
    ensures Flips(ds, o) ==> HasPayment(ds, o)
  {
    if Flips(ds, o) {
      var i, j :| FlipsAt(ds, i, j, o);
      assert ds[i] in ds;
    }
  }

  lemma RefundExpected(ds: seq<Delivery>, d: Delivery, o: string)
    requires Refunds(d, o)
    ensures ExpectedRow(ds + [d], o) == RowAfterRefund(ExpectedRow(ds, o))
  {
    FlipsGrow(ds, d, o);
    ExpectedGrows(ds, d, o);
    FlipNeedsPayment(ds, o);
    if Flips(ds + [d], o) { FlipsShrink(ds, d, o); }
  }

  lemma PaymentExpected(ds: seq<Delivery>, d: Delivery, o: string, waiting: bool)
    requires Pays(d, o) && (!Flips(ds, o) ==> (waiting <==> RefundFor(ds, d, o)))
    ensures ExpectedRow(ds + [d], o) == Some(RowAfterPayment(ExpectedRow(ds, o), waiting))
  {
    FlipsGrow(ds, d, o);
    ExpectedGrows(ds, d, o);
    FlipNeedsPayment(ds, o);
    NoPaymentCount(ds, o);
    if Flips(ds + [d], o) { FlipsShrink(ds, d, o); }
  }

  lemma OtherExpected(ds: seq<Delivery>, d: Delivery, o: string)
    requires d.orderId != o
    ensures ExpectedRow(ds + [d], o) == ExpectedRow(ds, o)
  {
    FlipsGrow(ds, d, o);
    ExpectedGrows(ds, d, o);
    if Flips(ds + [d], o) { FlipsShrink(ds, d, o); }
  }

  /** On arrival of a payment of an order that was not flipped, a refund waits for it iff one of its own profile
      and account came earlier. */
  lemma WaitingIff(ds: seq<Delivery>, d: Delivery, o: string)
    requires DistinctKeys(ds) && RowOf(Sequential(ds), o) == ExpectedRow(ds, o) && !Flips(ds, o)
    ensures PendingRefunds(Sequential(ds), d.key.profile, d.key.account, o) != {} <==> RefundFor(ds, d, o)
  {
    if RefundFor(ds, d, o) { EarlierRefund(ds, d, o); }
    if PendingRefunds(Sequential(ds), d.key.profile, d.key.account, o) != {} { WaitingRefund(ds, d, o); }
  }

  lemma RowStep(ds: seq<Delivery>, d: Delivery, o: string)
    requires DistinctKeys(ds) && d.key !in Sequential(ds).inbox && RowOf(Sequential(ds), o) == ExpectedRow(ds, o)
    ensures RowOf(After(Sequential(ds), d), o) == ExpectedRow(ds + [d], o)
  {
    if d.orderId != o {
      OtherOrder(Sequential(ds), d, o);
      OtherExpected(ds, d, o);
    } else if d.eventType == Refunded {
      RefundRow(Sequential(ds), d);
      RefundExpected(ds, d, o);
    } else {
      PaymentRow(Sequential(ds), d);
      if !Flips(ds, o) { WaitingIff(ds, d, o); }
      PaymentExpected(ds, d, o, PendingRefunds(Sequential(ds), d.key.profile, d.key.account, o) != {});
    }
  }

  /** The row of an order after distinct events, state and version, for any mix of profiles and accounts. */
  lemma {:induction false} FinalRow(ds: seq<Delivery>, o: string)
    requires DistinctKeys(ds)
    ensures RowOf(Sequential(ds), o) == ExpectedRow(ds, o)
  {
    if ds != [] {
      assert ds == ds[..|ds| - 1] + [ds[|ds| - 1]];
      FreshLast(ds);
      FinalRow(ds[..|ds| - 1], o);
      RowStep(ds[..|ds| - 1], ds[|ds| - 1], o);
    }
  }

  function Expected(pays: bool, flips: bool): OrderOutcome {
    if !pays then Absent else if flips then Row(PaidBack) else Row(Paid)
  }

  /** The state of an order after distinct events: absent without a payment, refunded iff the
      events flip it, paid otherwise. Holds for any mix of profiles and accounts. */
  lemma FinalState(ds: seq<Delivery>, o: string)
    requires DistinctKeys(ds)
    ensures OutcomeOf(Sequential(ds), o) == Expected(HasPayment(ds, o), Flips(ds, o))
  {
    FinalRow(ds, o);
  }

  // ---------------------------------------------------------------------
  // Reordering
  // ---------------------------------------------------------------------

  /** One profile and account both paid and refunded the order. */
  ghost predicate SharedTenant(ds: seq<Delivery>, o: string) {
    exists p, r :: p in ds && r in ds && Pays(p, o) && Refunds(r, o) && SameTenant(p, r)
  }

  /** What a caller can check to know that the order of arrival does not matter. */
  ghost predicate OrderBlind(ds: seq<Delivery>, o: string) {
    !HasPayment(ds, o) || !HasRefund(ds, o) || SharedTenant(ds, o)
  }

  ghost predicate Reordered(ds: seq<Delivery>, es: seq<Delivery>) {
    multiset(ds) == multiset(es)
  }

  /** The event without the time at which it happened to be received. */
  function Untimed(d: Delivery): Delivery {
    d.(now := 0)
  }

  function Timeless(ds: seq<Delivery>): (r: seq<Delivery>)
    ensures |r| == |ds| && forall i :: 0 <= i < |ds| ==> r[i] == Untimed(ds[i])
  {
    seq(|ds|, i requires 0 <= i < |ds| => Untimed(ds[i]))
  }

  /** The same events, in any order and received at any times. */
  ghost predicate SameEvents(ds: seq<Delivery>, es: seq<Delivery>) {
    Reordered(Timeless(ds), Timeless(es))
  }

  /** Where a reordering has the last event, and that the others are reordered too. */
  lemma RemoveLast(ds: seq<Delivery>, es: seq<Delivery>) returns (i: nat)
    requires Reordered(ds, es) && ds != []
    ensures i < |es| && es[i] == ds[|ds| - 1] && Reordered(ds[..|ds| - 1], es[..i] + es[i + 1..])
  {
    var front, d := ds[..|ds| - 1], ds[|ds| - 1];
    assert ds == front + [d];
    assert d in multiset(ds);
    assert d in es;
    i :| 0 <= i < |es| && es[i] == d;
    var a, b := es[..i], es[i + 1..];
    assert es == a + [d] + b;
    assert multiset(es) == multiset(a) + multiset(b) + multiset{d};
    assert multiset(ds) == multiset(front) + multiset{d};
    Cancel(multiset(front), multiset(a) + multiset(b), d);
  }

  lemma Cancel(m: multiset<Delivery>, n: multiset<Delivery>, d: Delivery)
    requires m + multiset{d} == n + multiset{d}
    ensures m == n
  {
    assert m == (m + multiset{d}) - multiset{d};
    assert n == (n + multiset{d}) - multiset{d};
  }

  lemma TimelessAppend(a: seq<Delivery>, b: seq<Delivery>)
    ensures Timeless(a + b) == Timeless(a) + Timeless(b)
  {
  }

  /** Every reordering has the same events. */
  lemma {:induction false} ReorderedSame(ds: seq<Delivery>, es: seq<Delivery>)
    requires Reordered(ds, es)
    ensures SameEvents(ds, es)
    decreases |ds|
  {
    if ds == [] {
      assert |es| == |multiset(es)|;
    } else {
      var i := RemoveLast(ds, es);
      var front, d, a, b := ds[..|ds| - 1], ds[|ds| - 1], es[..i], es[i + 1..];
      ReorderedSame(front, a + b);
      InsertSame(front, a, b, d);
      assert ds == front + [d] && es == a + [d] + b;
    }
  }

  lemma InsertSame(front: seq<Delivery>, a: seq<Delivery>, b: seq<Delivery>, d: Delivery)
    requires SameEvents(front, a + b)
    ensures SameEvents(front + [d], a + [d] + b)
  {
    TimelessAppend(front, [d]);
    TimelessAppend(a, b);
    TimelessAppend(a + [d], b);
    TimelessAppend(a, [d]);
    assert Timeless([d]) == [Untimed(d)];
  }

  /** The delivery of the same event. */
  lemma Counterpart(ds: seq<Delivery>, es: seq<Delivery>, d: Delivery) returns (e: Delivery)
    requires SameEvents(ds, es) && d in ds
    ensures e in es && Untimed(e) == Untimed(d)
  {
    var i :| 0 <= i < |ds| && ds[i] == d;
    assert Timeless(ds)[i] in multiset(Timeless(ds));
    assert Untimed(d) in multiset(Timeless(es));
    var j :| 0 <= j < |es| && Timeless(es)[j] == Untimed(d);
    e := es[j];
  }

  lemma {:induction false} Twice(ds: seq<Delivery>, d: Delivery)
    requires multiset(ds)[d] >= 2
    ensures exists i, j :: 0 <= i < j < |ds| && ds[i] == d == ds[j]
  {
    if ds != [] {
      var front, last := ds[..|ds| - 1], ds[|ds| - 1];
      assert ds == front + [last];
      if last == d {
        assert multiset(front)[d] >= 1;
        assert d in front;
        var i :| 0 <= i < |front| && front[i] == d;
        assert ds[i] == d == ds[|ds| - 1];
      } else {
        Twice(front, d);
        var i, j :| 0 <= i < j < |front| && front[i] == d == front[j];
        assert ds[i] == d == ds[j];
      }
    }
  }

  lemma TwoPlaces(es: seq<Delivery>, i: nat, j: nat)
    requires i < j < |es| && es[i] == es[j]
    ensures multiset(es)[es[i]] >= 2
  {
    assert es == es[..j] + es[j..];
    assert es[i] in es[..j];
    assert es[j] in es[j..];
    assert multiset(es) == multiset(es[..j]) + multiset(es[j..]);
  }

  lemma ReorderedDistinct(ds: seq<Delivery>, es: seq<Delivery>)
    requires DistinctKeys(ds) && Reordered(ds, es)
    ensures DistinctKeys(es)
  {
    forall i, j | 0 <= i < j < |es| ensures es[i].key != es[j].key {
      if es[i] == es[j] {
        TwoPlaces(es, i, j);
        Twice(ds, es[i]);
      } else {
        assert es[i] in multiset(es) && es[j] in multiset(es);
        assert es[i] in ds && es[j] in ds;
      }
    }
  }

  lemma SameEventsDistinct(ds: seq<Delivery>, es: seq<Delivery>)
    requires DistinctKeys(ds) && SameEvents(ds, es)
    ensures DistinctKeys(es)
  {
    ReorderedDistinct(Timeless(ds), Timeless(es));
    forall i, j | 0 <= i < j < |es| ensures es[i].key != es[j].key {
      assert Timeless(es)[i].key != Timeless(es)[j].key;
    }
  }

  lemma BlindFlips(ds: seq<Delivery>, o: string)
    requires OrderBlind(ds, o)
    ensures Flips(ds, o) <==> HasPayment(ds, o) && HasRefund(ds, o)
  {
    if Flips(ds, o) {
      var i, j :| FlipsAt(ds, i, j, o);
      assert ds[i] in ds && ds[j] in ds;
    }
    if HasPayment(ds, o) && HasRefund(ds, o) {
      var p, r :| p in ds && r in ds && Pays(p, o) && Refunds(r, o) && SameTenant(p, r);
      var i :| 0 <= i < |ds| && ds[i] == p;
      var j :| 0 <= j < |ds| && ds[j] == r;
      assert FlipsAt(ds, i, j, o);
    }
  }

  lemma SameEventsCarry(ds: seq<Delivery>, es: seq<Delivery>, o: string)
    requires SameEvents(ds, es)
    ensures HasPayment(ds, o) ==> HasPayment(es, o)
    ensures HasRefund(ds, o) ==> HasRefund(es, o)
    ensures SharedTenant(ds, o) ==> SharedTenant(es, o)
  {
    if d :| d in ds && Pays(d, o) {
      var e := Counterpart(ds, es, d);
      assert e in es && Pays(e, o);
    }
    if d :| d in ds && Refunds(d, o) {
      var e := Counterpart(ds, es, d);
      assert e in es && Refunds(e, o);
    }
    if SharedTenant(ds, o) {
      var p, r :| p in ds && r in ds && Pays(p, o) && Refunds(r, o) && SameTenant(p, r);
      var q := Counterpart(ds, es, p);
      var s := Counterpart(ds, es, r);
      assert Pays(q, o) && Refunds(s, o) && SameTenant(q, s);
    }
  }

  lemma SameEventsPredicates(ds: seq<Delivery>, es: seq<Delivery>, o: string)
    requires SameEvents(ds, es)
    ensures HasPayment(ds, o) <==> HasPayment(es, o)
    ensures HasRefund(ds, o) <==> HasRefund(es, o)
    ensures OrderBlind(ds, o) <==> OrderBlind(es, o)
  {
    SameEventsCarry(ds, es, o);
    SameEventsCarry(es, ds, o);
  }

  /** Neither the order nor the times of arrival matter to an order's state when one profile and account both
      paid and refunded it, or when it was never paid, or never refunded. */
  lemma Confluent(ds: seq<Delivery>, es: seq<Delivery>, o: string)
    requires DistinctKeys(ds) && SameEvents(ds, es) && OrderBlind(ds, o)
    ensures OutcomeOf(Sequential(es), o) == OutcomeOf(Sequential(ds), o)
         == Expected(HasPayment(ds, o), HasRefund(ds, o))
  {
    SameEventsDistinct(ds, es);
    SameEventsPredicates(ds, es, o);
    FinalState(ds, o);
    FinalState(es, o);
    BlindFlips(ds, o);
    BlindFlips(es, o);
  }

  /** Every event for the order carries one profile and account. */
  ghost predicate OneTenant(ds: seq<Delivery>, o: string) {
    forall a, b :: a in ds && b in ds && a.orderId == o && b.orderId == o ==> SameTenant(a, b)
  }

  lemma OneTenantConfluent(ds: seq<Delivery>, es: seq<Delivery>, o: string)
    requires DistinctKeys(ds) && SameEvents(ds, es) && OneTenant(ds, o)
    ensures OutcomeOf(Sequential(es), o) == Expected(HasPayment(ds, o), HasRefund(ds, o))
  {
    if HasPayment(ds, o) && HasRefund(ds, o) {
      var p :| p in ds && Pays(p, o);
      var r :| r in ds && Refunds(r, o);
      assert SameTenant(p, r);
    }
    Confluent(ds, es, o);
  }

  /** The payments of the order (or everything else), in order of arrival. */
  function Part(ds: seq<Delivery>, o: string, pays: bool): (r: seq<Delivery>)
    ensures forall d :: d in r <==> d in ds && Pays(d, o) == pays
  {
    if ds == [] then []
    else if Pays(ds[0], o) == pays then [ds[0]] + Part(ds[1..], o, pays)
    else Part(ds[1..], o, pays)
  }

  lemma {:induction false} PartsReorder(ds: seq<Delivery>, o: string)
    ensures multiset(Part(ds, o, true)) + multiset(Part(ds, o, false)) == multiset(ds)
  {
    if ds != [] {
      PartsReorder(ds[1..], o);
      assert ds == [ds[0]] + ds[1..];
    }
  }

  lemma FlipsAcross(a: seq<Delivery>, b: seq<Delivery>, p: Delivery, r: Delivery, o: string)
    requires p in a && Pays(p, o) && r in b && Refunds(r, o)
    ensures Flips(a + b, o)
  {
    var i :| 0 <= i < |a| && a[i] == p;
    var j :| 0 <= j < |b| && b[j] == r;
    assert FlipsAt(a + b, i, |a| + j, o);
  }

  lemma NoFlip(a: seq<Delivery>, b: seq<Delivery>, o: string)
    requires forall d :: d in a ==> !Pays(d, o)
    requires forall d :: d in b ==> Pays(d, o)
    requires !SharedTenant(a + b, o)
    ensures !Flips(a + b, o)
  {
    forall i, j ensures !FlipsAt(a + b, i, j, o) {
      if 0 <= i < |a + b| && 0 <= j < |a + b| {
        assert (a + b)[i] in a + b && (a + b)[j] in a + b;
      }
    }
  }

  lemma PartsReordered(ds: seq<Delivery>, o: string, first: bool)
    requires DistinctKeys(ds)
    ensures var es := Part(ds, o, first) + Part(ds, o, !first);
      && Reordered(ds, es) && DistinctKeys(es)
      && (HasPayment(ds, o) <==> HasPayment(es, o)) && (SharedTenant(ds, o) <==> SharedTenant(es, o))
  {
    var es := Part(ds, o, first) + Part(ds, o, !first);
    PartsReorder(ds, o);
    assert multiset(es) == multiset(ds);
    ReorderedDistinct(ds, es);
    assert forall d :: d in ds <==> d in es;
  }

  lemma PaymentsFirst(ds: seq<Delivery>, o: string)
    requires DistinctKeys(ds) && HasPayment(ds, o) && HasRefund(ds, o)
    ensures Reordered(ds, Part(ds, o, true) + Part(ds, o, false))
    ensures OutcomeOf(Sequential(Part(ds, o, true) + Part(ds, o, false)), o) == Row(PaidBack)
  {
    PartsReordered(ds, o, true);
    var p :| p in ds && Pays(p, o);
    var r :| r in ds && Refunds(r, o);
    FlipsAcross(Part(ds, o, true), Part(ds, o, false), p, r, o);
    FinalState(Part(ds, o, true) + Part(ds, o, false), o);
  }

  lemma PaymentsLast(ds: seq<Delivery>, o: string)
    requires DistinctKeys(ds) && HasPayment(ds, o) && !SharedTenant(ds, o)
    ensures Reordered(ds, Part(ds, o, false) + Part(ds, o, true))
    ensures OutcomeOf(Sequential(Part(ds, o, false) + Part(ds, o, true)), o) == Row(Paid)
  {
    PartsReordered(ds, o, false);
    NoFlip(Part(ds, o, false), Part(ds, o, true), o);
    FinalState(Part(ds, o, false) + Part(ds, o, true), o);
  }

  /** The order's state is the same for every order and all times of arrival if and only if the events are
      order blind: the exact condition, across any mix of profiles and accounts. */
  lemma ConfluentIff(ds: seq<Delivery>, o: string)
    requires DistinctKeys(ds)
    ensures OrderBlind(ds, o) <==>
      forall es :: SameEvents(ds, es) ==> OutcomeOf(Sequential(es), o) == OutcomeOf(Sequential(ds), o)
  {
    if OrderBlind(ds, o) {
      forall es | SameEvents(ds, es) ensures OutcomeOf(Sequential(es), o) == OutcomeOf(Sequential(ds), o) {
        Confluent(ds, es, o);
      }
    } else {
      PaymentsFirst(ds, o);
      PaymentsLast(ds, o);
      ReorderedSame(ds, Part(ds, o, true) + Part(ds, o, false));
      ReorderedSame(ds, Part(ds, o, false) + Part(ds, o, true));
    }
  }

  // ---------------------------------------------------------------------
  // Whole runs
  // ---------------------------------------------------------------------

  /** Any two runs, however interleaved, failed and retried, whose first commits are the same events in any order
      and at any times leave an order in the same state if the events are order blind for it. */
  lemma RunsAgree(s: System, s': System, o: string)
    requires Reachable(s) && Reachable(s')
    requires SameEvents(Firsts(Deliveries(s.log)), Firsts(Deliveries(s'.log)))
    requires OrderBlind(Firsts(Deliveries(s.log)), o)
    ensures OutcomeOf(s.db, o) == OutcomeOf(s'.db, o)
  {
    ExactlyOnce(s);
    ExactlyOnce(s');
    Confluent(Firsts(Deliveries(s.log)), Firsts(Deliveries(s'.log)), o);
  }
}
