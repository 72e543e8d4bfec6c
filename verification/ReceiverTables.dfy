/** The four tables of the reference receiver, one transaction of `handle` as a
    function on them, and the invariants that every transaction keeps. */
module ReceiverTables {

  datatype Profile = GenericHmac | StripeV1 | StandardWebhooks

  datatype EventType = Succeeded | Refunded

  /** The primary key of the inbox, the effects and the outbox. */
  datatype Key = Key(profile: Profile, account: string, eventId: string)

  datatype InboxState = PendingDependency | Processed

  datatype InboxRow = InboxRow(eventType: EventType, orderId: string, payload: string,
                               state: InboxState, receivedAt: int)

  datatype OrderState = Paid | PaidBack

  datatype OrderRow = OrderRow(state: OrderState, version: int)

  datatype EffectRow = EffectRow(orderId: string, effectType: EventType, createdAt: int)

  datatype OutboxRow = OutboxRow(topic: string, createdAt: int)

  datatype Tables = Tables(inbox: map<Key, InboxRow>, orders: map<string, OrderRow>,
                           effects: map<Key, EffectRow>, outbox: map<Key, OutboxRow>)

  /** A request whose signature was verified and whose body was parsed. */
  datatype Delivery = Delivery(key: Key, eventType: EventType, orderId: string,
                               payload: string, now: int)

  datatype Outcome = Accepted | Duplicate | Conflict | Rejected | Unavailable

  const EMPTY := Tables(map[], map[], map[], map[])

  function EventName(e: EventType): string {
    if e == Succeeded then "payment.succeeded" else "payment.refunded"
  }

  function RemovePrefix(prefix: string, s: string): string {
    if prefix <= s then s[|prefix|..] else s
  }

  function Topic(e: EventType): string {
    "order." + RemovePrefix("payment.", EventName(e))
  }

  lemma TopicText(e: EventType)
    ensures Topic(e) == if e == Succeeded then "order.succeeded" else "order.refunded"
  {
    assert EventName(e)[..8] == "payment.";
    assert EventName(e)[8..] == if e == Succeeded then "succeeded" else "refunded";
  }

  // ---------------------------------------------------------------------
  // One transaction as a function
  // ---------------------------------------------------------------------

  predicate OrderIsPaid(t: Tables, orderId: string) {
    orderId in t.orders && t.orders[orderId].state == Paid
  }

  function ArrivalState(t: Tables, d: Delivery): InboxState {
    if d.eventType == Refunded && !OrderIsPaid(t, d.orderId) then PendingDependency else Processed
  }

  function OrdersAfter(orders: map<string, OrderRow>, e: EventType, orderId: string): map<string, OrderRow> {
    if orderId !in orders then
      if e == Succeeded then orders[orderId := OrderRow(Paid, 1)] else orders
    else if orders[orderId].state == PaidBack then orders
    else orders[orderId := OrderRow(if e == Succeeded then Paid else PaidBack, orders[orderId].version + 1)]
  }

  function InsertInbox(t: Tables, d: Delivery): Tables {
    t.(inbox := t.inbox[d.key := InboxRow(d.eventType, d.orderId, d.payload, ArrivalState(t, d), d.now)])
  }

  function ApplyEvent(t: Tables, k: Key, e: EventType, orderId: string, at: int): Tables {
    t.(orders := OrdersAfter(t.orders, e, orderId),
       effects := t.effects[k := EffectRow(orderId, e, at)],
       outbox := t.outbox[k := OutboxRow(Topic(e), at)])
  }

  /** The rows selected by the pending-refund query. */
  function PendingRefunds(t: Tables, profile: Profile, account: string, orderId: string): (ks: set<Key>)
    ensures ks <= t.inbox.Keys
  {
    set k | k in t.inbox && k.profile == profile && k.account == account
            && t.inbox[k].orderId == orderId && t.inbox[k].eventType == Refunded
            && t.inbox[k].state == PendingDependency
  }

  function ResolvedInbox(inbox: map<Key, InboxRow>, ks: set<Key>): map<Key, InboxRow> {
    map k | k in inbox :: if k in ks then inbox[k].(state := Processed) else inbox[k]
  }

  function WithRows<Row>(table: map<Key, Row>, ks: set<Key>, row: Row): map<Key, Row> {
    map k | k in table.Keys + ks :: if k in ks then row else table[k]
  }

  /** The tables once the rows `ks`, in whatever order, were resolved. */
  function Resolved(t: Tables, ks: set<Key>, orderId: string, at: int): Tables {
    Tables(
      ResolvedInbox(t.inbox, ks),
      if ks == {} then t.orders else OrdersAfter(t.orders, Refunded, orderId),
      WithRows(t.effects, ks, EffectRow(orderId, Refunded, at)),
      WithRows(t.outbox, ks, OutboxRow(Topic(Refunded), at)))
  }

  /** What one committed transaction leaves behind. */
  function After(t: Tables, d: Delivery): Tables {
    if d.key in t.inbox then t
    else
      var inserted := InsertInbox(t, d);
      if ArrivalState(t, d) == PendingDependency then inserted
      else
        var applied := ApplyEvent(inserted, d.key, d.eventType, d.orderId, d.now);
        if d.eventType == Refunded then applied
        else Resolved(applied, PendingRefunds(applied, d.key.profile, d.key.account, d.orderId), d.orderId, d.now)
  }

  function Reply(t: Tables, d: Delivery): Outcome {
    if d.key !in t.inbox then Accepted
    else if t.inbox[d.key].eventType == d.eventType && t.inbox[d.key].orderId == d.orderId
            && t.inbox[d.key].payload == d.payload then Duplicate
    else Conflict
  }

  // ---------------------------------------------------------------------
  // Invariants
  // ---------------------------------------------------------------------

  function EffectsOf(t: Tables, orderId: string): set<Key> {
    set k | k in t.effects && t.effects[k].orderId == orderId
  }

  /** A key has an effect iff it has an outbox row iff its inbox row is processed; the rows agree. */
  ghost predicate RowsAgree(t: Tables) {
    && t.effects.Keys == t.outbox.Keys
    && t.effects.Keys <= t.inbox.Keys
    && (forall k :: k in t.inbox ==> (t.inbox[k].state == Processed <==> k in t.effects))
    && (forall k :: k in t.effects ==>
          && t.effects[k].orderId == t.inbox[k].orderId
          && t.effects[k].effectType == t.inbox[k].eventType
          && t.outbox[k] == OutboxRow(Topic(t.inbox[k].eventType), t.effects[k].createdAt))
    && (forall k :: k in t.inbox && t.inbox[k].state == PendingDependency ==> t.inbox[k].eventType == Refunded)
  }

  ghost predicate HasEffect(t: Tables, orderId: string, e: EventType) {
    exists k :: k in EffectsOf(t, orderId) && t.effects[k].effectType == e
  }

  /** One order's row is determined by the effects recorded for it. */
  ghost predicate OrderFits(t: Tables, o: string) {
    && (o in t.orders <==> HasEffect(t, o, Succeeded))
    && (o in t.orders <==> EffectsOf(t, o) != {})
    && (o in t.orders ==>
          && (t.orders[o].state == PaidBack <==> HasEffect(t, o, Refunded))
          && (t.orders[o].state == Paid ==> 1 <= t.orders[o].version == |EffectsOf(t, o)|)
          && (t.orders[o].state == PaidBack ==> 2 <= t.orders[o].version <= |EffectsOf(t, o)|))
  }

  ghost predicate OrdersFollowEffects(t: Tables) {
    forall o :: OrderFits(t, o)
  }

  ghost predicate Inv(t: Tables) {
    RowsAgree(t) && OrdersFollowEffects(t)
  }

  /** The check constraint on orders. */
  ghost predicate OrderVersions(t: Tables) {
    forall o :: o in t.orders ==> t.orders[o].version >= 1
  }

  lemma InvVersions(t: Tables)
    requires Inv(t)
    ensures OrderVersions(t)
  {
    forall o | o in t.orders ensures t.orders[o].version >= 1 {
      assert OrderFits(t, o);
    }
  }

  /** The rows of the inbox that a query filtered by event id selects; an empty filter selects all. */
  predicate Selected(k: Key, eventIds: set<string>) {
    eventIds == {} || k.eventId in eventIds
  }

  function ProcessingCount(t: Tables, eventIds: set<string>): nat {
    |set k | k in t.inbox && t.inbox[k].state == Processed && Selected(k, eventIds)|
  }

  function EffectCount(t: Tables, eventIds: set<string>): nat {
    |set k | k in t.effects && Selected(k, eventIds)|
  }

  function OutboxCount(t: Tables, eventIds: set<string>): nat {
    |set k | k in t.outbox && Selected(k, eventIds)|
  }

  // ---------------------------------------------------------------------
  // Every transaction keeps the invariants
  // ---------------------------------------------------------------------

  lemma EmptyInv()
    ensures Inv(EMPTY)
  {
    forall o ensures OrderFits(EMPTY, o) {
      assert EffectsOf(EMPTY, o) == {};
    }
  }

  lemma InsertedFits(t: Tables, d: Delivery)
    requires Inv(t) && d.key !in t.inbox
    ensures OrdersFollowEffects(InsertInbox(t, d))
  {
    var u := InsertInbox(t, d);
    forall o ensures OrderFits(u, o) {
      assert OrderFits(t, o);
      assert EffectsOf(u, o) == EffectsOf(t, o);
      assert HasEffect(u, o, Refunded) <==> HasEffect(t, o, Refunded);
      assert HasEffect(u, o, Succeeded) <==> HasEffect(t, o, Succeeded);
    }
  }

  /** An event that is a payment, or a refund of a paid or refunded order, keeps order and effects in step. */
  lemma ApplyFits(t: Tables, k: Key, e: EventType, orderId: string, at: int)
    requires OrdersFollowEffects(t) && k !in t.effects
    requires e == Refunded ==> orderId in t.orders
    ensures OrdersFollowEffects(ApplyEvent(t, k, e, orderId, at))
  {
    var u := ApplyEvent(t, k, e, orderId, at);
    forall o ensures OrderFits(u, o) {
      assert OrderFits(t, o);
      if o == orderId {
        ApplyFitsOrder(t, k, e, orderId, at);
      } else {
        assert EffectsOf(u, o) == EffectsOf(t, o);
        assert forall x :: x in EffectsOf(t, o) ==> u.effects[x] == t.effects[x];
        assert HasEffect(u, o, Refunded) <==> HasEffect(t, o, Refunded);
        assert HasEffect(u, o, Succeeded) <==> HasEffect(t, o, Succeeded);
      }
    }
  }

  lemma ApplyFitsOrder(t: Tables, k: Key, e: EventType, o: string, at: int)
    requires OrderFits(t, o) && k !in t.effects
    requires e == Refunded ==> o in t.orders
    ensures OrderFits(ApplyEvent(t, k, e, o, at), o)
  {
    var u := ApplyEvent(t, k, e, o, at);
    assert EffectsOf(u, o) == EffectsOf(t, o) + {k};
    assert u.effects[k] == EffectRow(o, e, at);
    assert forall x :: x in t.effects ==> x in u.effects && u.effects[x] == t.effects[x];
    assert HasEffect(u, o, Refunded) <==> HasEffect(t, o, Refunded) || e == Refunded;
    assert HasEffect(u, o, Succeeded) <==> HasEffect(t, o, Succeeded) || e == Succeeded;
  }

  /** One iteration of the pending-refund loop. */
  function ResolveRow(t: Tables, k: Key, orderId: string, at: int): Tables
    requires k in t.inbox
  {
    var applied := ApplyEvent(t, k, Refunded, orderId, at);
    applied.(inbox := applied.inbox[k := applied.inbox[k].(state := Processed)])
  }

  /** A pending row of an order that has a row of its own. */
  predicate Resolvable(t: Tables, k: Key, orderId: string) {
    && k in t.inbox && t.inbox[k].eventType == Refunded && t.inbox[k].orderId == orderId
    && t.inbox[k].state == PendingDependency && orderId in t.orders
  }

  lemma ResolveRowInv(t: Tables, k: Key, orderId: string, at: int)
    requires Inv(t) && Resolvable(t, k, orderId)
    ensures Inv(ResolveRow(t, k, orderId, at))
  {
    var a := ApplyEvent(t, k, Refunded, orderId, at);
    var u := ResolveRow(t, k, orderId, at);
    ApplyFits(t, k, Refunded, orderId, at);
    forall o ensures OrderFits(u, o) {
      assert OrderFits(a, o);
      assert EffectsOf(u, o) == EffectsOf(a, o);
    }
  }

  lemma WithRowsStep<Row>(table: map<Key, Row>, done: set<Key>, k: Key, row: Row)
    ensures WithRows(table, done + {k}, row) == WithRows(table, done, row)[k := row]
  {
  }

  lemma ResolvedInboxStep(inbox: map<Key, InboxRow>, done: set<Key>, k: Key)
    requires k in inbox
    ensures ResolvedInbox(inbox, done + {k}) ==
            ResolvedInbox(inbox, done)[k := ResolvedInbox(inbox, done)[k].(state := Processed)]
  {
  }

  /** Resolving the rows one at a time, in any order, gives the closed form. */
  lemma ResolvedStep(t: Tables, done: set<Key>, k: Key, orderId: string, at: int)
    requires k in t.inbox && k !in done
    ensures Resolved(t, done + {k}, orderId, at)
         == ResolveRow(Resolved(t, done, orderId, at), k, orderId, at)
  {
    WithRowsStep(t.effects, done, k, EffectRow(orderId, Refunded, at));
    WithRowsStep(t.outbox, done, k, OutboxRow(Topic(Refunded), at));
    ResolvedInboxStep(t.inbox, done, k);
  }

  lemma ResolvedEmpty(t: Tables, orderId: string, at: int)
    ensures Resolved(t, {}, orderId, at) == t
  {
    assert ResolvedInbox(t.inbox, {}) == t.inbox;
    assert WithRows(t.effects, {}, EffectRow(orderId, Refunded, at)) == t.effects;
    assert WithRows(t.outbox, {}, OutboxRow(Topic(Refunded), at)) == t.outbox;
  }

  lemma {:induction false} ResolvedInv(t: Tables, ks: set<Key>, orderId: string, at: int)
    requires Inv(t) && forall k :: k in ks ==> Resolvable(t, k, orderId)
    ensures Inv(Resolved(t, ks, orderId, at))
  {
    if ks == {} {
      ResolvedEmpty(t, orderId, at);
    } else {
      var k :| k in ks;
      var done := ks - {k};
      ResolvedInv(t, done, orderId, at);
      ResolvedStep(t, done, k, orderId, at);
      assert done + {k} == ks;
      ResolveRowInv(Resolved(t, done, orderId, at), k, orderId, at);
    }
  }

  /** The constraints of the effect and outbox inserts and of the order update for key `k`. */
  ghost predicate InsertsAllowed(t: Tables, k: Key) {
    k in t.inbox && k !in t.effects && k !in t.outbox && OrderVersions(t)
  }

  /** After `done`, no statement for the row `k` breaks a constraint, and the row extends the closed form. */
  ghost predicate Ready(t: Tables, done: set<Key>, k: Key, orderId: string, at: int) {
    && InsertsAllowed(Resolved(t, done, orderId, at), k)
    && ResolveRow(Resolved(t, done, orderId, at), k, orderId, at) == Resolved(t, done + {k}, orderId, at)
  }

  lemma ResolveReady(t: Tables, done: set<Key>, k: Key, orderId: string, at: int)
    requires Inv(t) && k !in done && Resolvable(t, k, orderId)
    requires forall x :: x in done ==> Resolvable(t, x, orderId)
    ensures Ready(t, done, k, orderId, at)
  {
    ResolvedInv(t, done, orderId, at);
    InvVersions(Resolved(t, done, orderId, at));
    ResolvedStep(t, done, k, orderId, at);
  }

  lemma AppliedInv(t: Tables, d: Delivery)
    requires Inv(t) && d.key !in t.inbox && ArrivalState(t, d) == Processed
    ensures Inv(ApplyEvent(InsertInbox(t, d), d.key, d.eventType, d.orderId, d.now))
  {
    InsertedFits(t, d);
    ApplyFits(InsertInbox(t, d), d.key, d.eventType, d.orderId, d.now);
  }

  /** Every transaction of `handle` keeps the invariants. */
  lemma AfterInv(t: Tables, d: Delivery)
    requires Inv(t)
    ensures Inv(After(t, d))
  {
    if d.key !in t.inbox {
      InsertedFits(t, d);
      if ArrivalState(t, d) == Processed {
        AppliedInv(t, d);
        var applied := ApplyEvent(InsertInbox(t, d), d.key, d.eventType, d.orderId, d.now);
        if d.eventType == Succeeded {
          var ks := PendingRefunds(applied, d.key.profile, d.key.account, d.orderId);
          ResolvedInv(applied, ks, d.orderId, d.now);
        }
      }
    }
  }

  // ---------------------------------------------------------------------
  // What a transaction changes and what it never touches
  // ---------------------------------------------------------------------

  predicate InboxRowKept(row: InboxRow, later: InboxRow) {
    later == row || later == row.(state := Processed)
  }

  predicate OrderRowKept(row: OrderRow, later: OrderRow) {
    row.version <= later.version && (row.state == PaidBack ==> later == row)
  }

  /** Recorded rows stay as they are, a refunded order stays refunded, versions never decrease. */
  ghost predicate Extends(t: Tables, u: Tables) {
    && (forall k :: k in t.inbox ==> k in u.inbox && InboxRowKept(t.inbox[k], u.inbox[k]))
    && (forall k :: k in t.effects ==> k in u.effects && u.effects[k] == t.effects[k])
    && (forall k :: k in t.outbox ==> k in u.outbox && u.outbox[k] == t.outbox[k])
    && (forall o :: o in t.orders ==> o in u.orders && OrderRowKept(t.orders[o], u.orders[o]))
  }

  lemma ExtendsTransitive(t: Tables, u: Tables, v: Tables)
    requires Extends(t, u) && Extends(u, v)
    ensures Extends(t, v)
  {
  }

  lemma AppliedExtends(t: Tables, d: Delivery)
    requires RowsAgree(t) && d.key !in t.inbox
    ensures Extends(t, ApplyEvent(InsertInbox(t, d), d.key, d.eventType, d.orderId, d.now))
  {
  }

  lemma ResolvedExtends(t: Tables, ks: set<Key>, orderId: string, at: int)
    requires ks !! t.effects.Keys && ks !! t.outbox.Keys
    ensures Extends(t, Resolved(t, ks, orderId, at))
  {
  }

  lemma AfterExtends(t: Tables, d: Delivery)
    requires Inv(t)
    ensures Extends(t, After(t, d))
  {
    if d.key !in t.inbox && ArrivalState(t, d) == Processed {
      var applied := ApplyEvent(InsertInbox(t, d), d.key, d.eventType, d.orderId, d.now);
      AppliedExtends(t, d);
      AppliedInv(t, d);
      var ks := PendingRefunds(applied, d.key.profile, d.key.account, d.orderId);
      ResolvedExtends(applied, ks, d.orderId, d.now);
      ExtendsTransitive(t, applied, Resolved(applied, ks, d.orderId, d.now));
    }
  }

  /** An accepted payment leaves no refund of its profile, account and order waiting. */
  lemma NoRefundLeftPending(t: Tables, d: Delivery)
    requires d.key !in t.inbox && d.eventType == Succeeded
    ensures PendingRefunds(After(t, d), d.key.profile, d.key.account, d.orderId) == {}
  {
    var applied := ApplyEvent(InsertInbox(t, d), d.key, d.eventType, d.orderId, d.now);
    var ks := PendingRefunds(applied, d.key.profile, d.key.account, d.orderId);
    assert After(t, d).inbox == ResolvedInbox(applied.inbox, ks);
  }

  /** The three counts that the observer reports agree, for every event filter. */
  lemma CountsAgree(t: Tables, eventIds: set<string>)
    requires Inv(t)
    ensures ProcessingCount(t, eventIds) == EffectCount(t, eventIds) == OutboxCount(t, eventIds)
  {
    var effects := set k | k in t.effects && Selected(k, eventIds);
    assert effects == set k | k in t.inbox && t.inbox[k].state == Processed && Selected(k, eventIds);
    assert effects == set k | k in t.outbox && Selected(k, eventIds);
  }
}
