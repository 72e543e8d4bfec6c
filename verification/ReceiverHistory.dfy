/** All four tables read off the sequence of events. */
module ReceiverHistory {
  import opened Options
  import opened ReceiverTables
  import opened ReceiverSequence
  import opened ReceiverSteps
  import opened ReceiverRuns
  import opened ReceiverConfluence
  import opened ReceiverParked

  // ---------------------------------------------------------------------
  // The rows of one event
  // ---------------------------------------------------------------------

  /** The first later payment with the order, profile and account of event `j`. */
  ghost function FirstPayment(ds: seq<Delivery>, j: nat): (i: nat)
    requires j < |ds| && LaterPayment(ds, j)
    ensures j < i < |ds| && Pays(ds[i], ds[j].orderId) && SameTenant(ds[i], ds[j])
    ensures forall m :: j < m < i ==> !(Pays(ds[m], ds[j].orderId) && SameTenant(ds[m], ds[j]))
  {
    var front := ds[..|ds| - 1];
    if j < |front| && LaterPayment(front, j) then FirstPayment(front, j)
    else
      assert j < |front| ==> forall m :: j < m < |front| ==>
        ds[m] == front[m] && !(Pays(front[m], front[j].orderId) && SameTenant(front[m], front[j]));
      |ds| - 1
  }

  /** When event `j` took effect: at once if it is a payment or its order was paid on arrival, else with the first
      later payment of its order, profile and account, else never. */
  ghost function AppliedAt(ds: seq<Delivery>, j: nat): Option<int>
    requires j < |ds|
  {
    if ds[j].eventType == Succeeded || PaidOnArrival(ds, j) then Some(ds[j].now)
    else if LaterPayment(ds, j) then Some(ds[FirstPayment(ds, j)].now)
    else None
  }

  /** The three rows of an event that took effect at a given time, or never. */
  ghost predicate RecordedAs(t: Tables, d: Delivery, at: Option<int>) {
    && d.key in t.inbox
    && t.inbox[d.key] == InboxRow(d.eventType, d.orderId, d.payload,
                                  if at.Some? then Processed else PendingDependency, d.now)
    && (d.key in t.effects <==> at.Some?) && (d.key in t.outbox <==> at.Some?)
    && (at.Some? ==> t.effects[d.key] == EffectRow(d.orderId, d.eventType, at.value)
                     && t.outbox[d.key] == OutboxRow(
                          if d.eventType == Succeeded then "order.succeeded" else "order.refunded", at.value))
  }

  lemma ArrivalRows(t: Tables, d: Delivery)
    requires Inv(t) && d.key !in t.inbox
    ensures RecordedAs(After(t, d), d, if ArrivalState(t, d) == Processed then Some(d.now) else None)
  {
    TopicText(d.eventType);
  }

  predicate Releases(d: Delivery, x: Delivery) {
    Pays(d, x.orderId) && SameTenant(d, x)
  }

  /** A later event leaves the rows of an earlier one alone, unless it is the payment that one waits for. */
  lemma LaterRows(t: Tables, d: Delivery, x: Delivery, at: Option<int>)
    requires Inv(t) && d.key !in t.inbox && RecordedAs(t, x, at)
    ensures RecordedAs(After(t, d), x, if at == None && Releases(d, x) then Some(d.now) else at)
  {
    var applied := ApplyEvent(InsertInbox(t, d), d.key, d.eventType, d.orderId, d.now);
    assert RecordedAs(applied, x, at);
    TopicText(Refunded);
    if at.Some? {
      AfterExtends(t, d);
    } else if d.eventType == Succeeded {
      var ks := PendingRefunds(applied, d.key.profile, d.key.account, d.orderId);
      assert x.key in ks <==> Releases(d, x);
    }
  }

  lemma AppliedLast(ds: seq<Delivery>, j: nat)
    requires j < |ds| - 1
    ensures var d, before := ds[|ds| - 1], AppliedAt(ds[..|ds| - 1], j);
      AppliedAt(ds, j) == if before == None && Releases(d, ds[j]) then Some(d.now) else before
  {
    var front := ds[..|ds| - 1];
    assert front[..j] == ds[..j];
    LaterPaymentLast(ds, j);
  }

  lemma {:induction false} EventRows(ds: seq<Delivery>, j: nat)
    requires DistinctKeys(ds) && j < |ds|
    ensures RecordedAs(Sequential(ds), ds[j], AppliedAt(ds, j))
  {
    var front, d := ds[..|ds| - 1], ds[|ds| - 1];
    FreshLast(ds);
    if j == |ds| - 1 {
      FinalState(front, d.orderId);
      ArrivalRows(Sequential(front), d);
    } else {
      EventRows(front, j);
      LaterRows(Sequential(front), d, ds[j], AppliedAt(front, j));
      AppliedLast(ds, j);
    }
  }

  // ---------------------------------------------------------------------
  // The tables
  // ---------------------------------------------------------------------

  /** A description of the tables that mentions only the events. */
  ghost predicate Describes(ds: seq<Delivery>, t: Tables) {
    && (forall k :: k in t.inbox ==> Mentions(ds, k))
    && (forall k :: k in t.effects ==> Mentions(ds, k))
    && (forall k :: k in t.outbox ==> Mentions(ds, k))
    && (forall j :: 0 <= j < |ds| ==> RecordedAs(t, ds[j], AppliedAt(ds, j)))
    && (forall o :: RowOf(t, o) == ExpectedRow(ds, o))
  }

  /** Handling distinct events one after another leaves the tables that the events describe. */
  lemma TablesMeaning(ds: seq<Delivery>)
    requires DistinctKeys(ds)
    ensures Describes(ds, Sequential(ds))
  {
    var t := Sequential(ds);
    SequentialInv(ds);
    forall k | k in t.inbox ensures Mentions(ds, k) { SequentialKeys(ds, k); }
    forall j | 0 <= j < |ds| ensures RecordedAs(t, ds[j], AppliedAt(ds, j)) { EventRows(ds, j); }
    forall o ensures RowOf(t, o) == ExpectedRow(ds, o) { FinalRow(ds, o); }
  }

  ghost predicate AgreeAt<K(!new), V>(a: map<K, V>, b: map<K, V>, k: K) {
    (k in a <==> k in b) && (k in a ==> a[k] == b[k])
  }

  lemma AgreeEverywhere<K(!new), V>(a: map<K, V>, b: map<K, V>)
    requires forall k :: AgreeAt(a, b, k)
    ensures a == b
  {
    forall k ensures k in a <==> k in b { assert AgreeAt(a, b, k); }
    forall k | k in a ensures a[k] == b[k] { assert AgreeAt(a, b, k); }
  }

  lemma RowsAgreeAt(ds: seq<Delivery>, t: Tables, u: Tables, k: Key)
    requires Describes(ds, t) && Describes(ds, u)
    ensures AgreeAt(t.inbox, u.inbox, k) && AgreeAt(t.effects, u.effects, k) && AgreeAt(t.outbox, u.outbox, k)
  {
    if Mentions(ds, k) {
      var j :| 0 <= j < |ds| && ds[j].key == k;
      assert RecordedAs(t, ds[j], AppliedAt(ds, j)) && RecordedAs(u, ds[j], AppliedAt(ds, j));
    }
  }

  lemma OrdersAgreeAt(ds: seq<Delivery>, t: Tables, u: Tables, o: string)
    requires Describes(ds, t) && Describes(ds, u)
    ensures AgreeAt(t.orders, u.orders, o)
  {
    assert RowOf(t, o) == ExpectedRow(ds, o) == RowOf(u, o);
  }

  /** The description leaves nothing open: it fits one set of tables only. */
  lemma DescribesOne(ds: seq<Delivery>, t: Tables, u: Tables)
    requires Describes(ds, t) && Describes(ds, u)
    ensures t == u
  {
    forall k ensures AgreeAt(t.inbox, u.inbox, k) { RowsAgreeAt(ds, t, u, k); }
    forall k ensures AgreeAt(t.effects, u.effects, k) { RowsAgreeAt(ds, t, u, k); }
    forall k ensures AgreeAt(t.outbox, u.outbox, k) { RowsAgreeAt(ds, t, u, k); }
    forall o ensures AgreeAt(t.orders, u.orders, o) { OrdersAgreeAt(ds, t, u, o); }
    AgreeEverywhere(t.inbox, u.inbox);
    AgreeEverywhere(t.effects, u.effects);
    AgreeEverywhere(t.outbox, u.outbox);
    AgreeEverywhere(t.orders, u.orders);
  }

  /** Whatever handlers did, the tables are those that the first committed delivery of each key describes. */
  lemma RunMeaning(s: System, t: Tables)
    requires Reachable(s)
    ensures s.db == t <==> Describes(Firsts(Deliveries(s.log)), t)
  {
    ExactlyOnce(s);
    TablesMeaning(Firsts(Deliveries(s.log)));
    if Describes(Firsts(Deliveries(s.log)), t) { DescribesOne(Firsts(Deliveries(s.log)), s.db, t); }
  }
}
