/** `handle` as it runs: SQL statements against four tables inside one write
    transaction. Every statement checks the constraints of its table, and the
    database may fail at any statement. */
module ReceiverDatabase {
  import opened ReceiverTables
  import opened ReceiverSequence

  class Database {
    var inbox: map<Key, InboxRow>
    var orders: map<string, OrderRow>
    var effects: map<Key, EffectRow>
    var outbox: map<Key, OutboxRow>
    /** The committed image that a rollback restores. */
    var committed: Tables
    /** How many more statements the database carries out before it starts to fail. */
    var budget: nat

    ghost function Contents(): Tables
      reads this
    {
      Tables(inbox, orders, effects, outbox)
    }

    ghost predicate Valid()
      reads this
    {
      Contents() == committed && Inv(committed)
    }

    constructor (budget: nat)
      ensures Valid() && Contents() == EMPTY && this.budget == budget
    {
      inbox, orders, effects, outbox := map[], map[], map[], map[];
      committed := EMPTY;
      this.budget := budget;
      EmptyInv();
    }

    /** Spends one statement; false is a database error. */
    method Statement() returns (ok: bool)
      modifies this`budget
      ensures ok <==> old(budget) > 0
      ensures ok ==> budget == old(budget) - 1
      ensures !ok ==> budget == 0
    {
      ok := budget > 0;
      if ok { budget := budget - 1; }
    }

    method Rollback()
      modifies this
      ensures Contents() == old(committed) && committed == old(committed) && budget == old(budget)
    {
      inbox, orders, effects, outbox := committed.inbox, committed.orders, committed.effects, committed.outbox;
    }

    /** Primary key (provider_profile, account_id, event_id). */
    method InsertInboxRow(k: Key, row: InboxRow) returns (ok: bool)
      modifies this`inbox, this`budget
      ensures ok <==> old(budget) > 0 && k !in old(inbox)
      ensures inbox == if ok then old(inbox)[k := row] else old(inbox)
      ensures !ok && k !in old(inbox) ==> budget == 0
    {
      ok := Statement();
      if ok {
        if k in inbox { return false; }
        inbox := inbox[k := row];
      }
    }

    /** Primary key, and foreign key into the inbox. */
    method InsertEffectRow(k: Key, row: EffectRow) returns (ok: bool)
      modifies this`effects, this`budget
      ensures ok <==> old(budget) > 0 && k !in old(effects) && k in inbox
      ensures effects == if ok then old(effects)[k := row] else old(effects)
      ensures !ok && k !in old(effects) && k in inbox ==> budget == 0
    {
      ok := Statement();
      if ok {
        if k in effects || k !in inbox { return false; }
        effects := effects[k := row];
      }
    }

    /** Primary key, and foreign key into the inbox. */
    method InsertOutboxRow(k: Key, row: OutboxRow) returns (ok: bool)
      modifies this`outbox, this`budget
      ensures ok <==> old(budget) > 0 && k !in old(outbox) && k in inbox
      ensures outbox == if ok then old(outbox)[k := row] else old(outbox)
      ensures !ok && k !in old(outbox) && k in inbox ==> budget == 0
    {
      ok := Statement();
      if ok {
        if k in outbox || k !in inbox { return false; }
        outbox := outbox[k := row];
      }
    }

    /** Primary key order_id and the check on version, for an insert or an update of one order. */
    method WriteOrderRow(o: string, row: OrderRow, insert: bool) returns (ok: bool)
      modifies this`orders, this`budget
      ensures ok <==> old(budget) > 0 && (insert ==> o !in old(orders)) && row.version >= 1
      ensures orders == if ok then old(orders)[o := row] else old(orders)
      ensures !ok && (insert ==> o !in old(orders)) && row.version >= 1 ==> budget == 0
    {
      ok := Statement();
      if ok {
        if (insert && o in orders) || row.version < 1 { return false; }
        orders := orders[o := row];
      }
    }

    /** `_apply_event`: the order, then the effect, then the outbox row. */
    method Apply(k: Key, e: EventType, orderId: string, at: int) returns (ok: bool)
      requires InsertsAllowed(Contents(), k)
      modifies this`orders, this`effects, this`outbox, this`budget
      ensures ok ==> Contents() == ApplyEvent(old(Contents()), k, e, orderId, at)
      ensures !ok ==> budget == 0
    {
      ok := true;
      if e == Succeeded {
        if orderId !in orders {
          ok := WriteOrderRow(orderId, OrderRow(Paid, 1), true);
        } else if orders[orderId].state != PaidBack {
          ok := WriteOrderRow(orderId, OrderRow(Paid, orders[orderId].version + 1), false);
        }
      } else if orderId in orders && orders[orderId].state == Paid {
        ok := WriteOrderRow(orderId, OrderRow(PaidBack, orders[orderId].version + 1), false);
      }
      if ok { ok := InsertEffectRow(k, EffectRow(orderId, e, at)); }
      if ok { ok := InsertOutboxRow(k, OutboxRow(Topic(e), at)); }
    }

    /** The body of the pending-refund loop. */
    method ResolveOne(k: Key, orderId: string, at: int) returns (ok: bool)
      requires InsertsAllowed(Contents(), k)
      modifies this`inbox, this`orders, this`effects, this`outbox, this`budget
      ensures ok ==> Contents() == ResolveRow(old(Contents()), k, orderId, at)
      ensures !ok ==> budget == 0
    {
      ok := Apply(k, Refunded, orderId, at);
      if ok { ok := Statement(); }
      if ok { inbox := inbox[k := inbox[k].(state := Processed)]; }
    }

    /** The loop of `_resolve_pending_refunds`: the selected rows one after another, in any order. */
    method ResolveRows(all: set<Key>, orderId: string, at: int) returns (ok: bool)
      requires forall done, k {:trigger Ready(Contents(), done, k, orderId, at)} ::
                 done <= all && k in all && k !in done ==> Ready(Contents(), done, k, orderId, at)
      modifies this`inbox, this`orders, this`effects, this`outbox, this`budget
      ensures ok ==> Contents() == Resolved(old(Contents()), all, orderId, at)
      ensures !ok ==> budget == 0
    {
      ghost var before := Contents();
      var rows := all;
      ok := true;
      assert all - rows == {};
      ResolvedEmpty(before, orderId, at);
      while rows != {}
        invariant ok && rows <= all
        invariant Contents() == Resolved(before, all - rows, orderId, at)
        decreases rows
      {
        var k :| k in rows;
        assert Ready(before, all - rows, k, orderId, at);
        ok := ResolveOne(k, orderId, at);
        if !ok { return; }
        assert (all - rows) + {k} == all - (rows - {k});
        rows := rows - {k};
      }
      assert all - rows == all;
    }

    /** `_resolve_pending_refunds`: the query and its loop. */
    method ResolvePendingRefunds(profile: Profile, account: string, orderId: string, at: int) returns (ok: bool)
      requires Inv(Contents()) && orderId in orders
      modifies this`inbox, this`orders, this`effects, this`outbox, this`budget
      ensures ok ==>
        Contents() == Resolved(old(Contents()), PendingRefunds(old(Contents()), profile, account, orderId), orderId, at)
      ensures !ok ==> budget == 0
    {
      var rows := set k | k in inbox && k.profile == profile && k.account == account
        && inbox[k].orderId == orderId && inbox[k].eventType == Refunded && inbox[k].state == PendingDependency;
      assert rows == PendingRefunds(Contents(), profile, account, orderId);
      forall done, k | done <= rows && k in rows && k !in done
        ensures Ready(Contents(), done, k, orderId, at)
      {
        ResolveReady(Contents(), done, k, orderId, at);
      }
      ok := ResolveRows(rows, orderId, at);
    }

    /** The inbox row of a fresh key and, unless it has to wait, its event. */
    method Record(d: Delivery) returns (ok: bool)
      requires Inv(Contents()) && d.key !in inbox
      modifies this`inbox, this`orders, this`effects, this`outbox, this`budget
      ensures ok ==> Contents() == After(old(Contents()), d)
      ensures !ok ==> budget == 0
    {
      ghost var before := Contents();
      RecordReady(before, d);
      var state := if d.eventType == Refunded && !(d.orderId in orders && orders[d.orderId].state == Paid)
                   then PendingDependency else Processed;
      ok := InsertInboxRow(d.key, InboxRow(d.eventType, d.orderId, d.payload, state, d.now));
      if ok && state == Processed {
        ok := Apply(d.key, d.eventType, d.orderId, d.now);
        if ok && d.eventType == Succeeded {
          ok := ResolvePendingRefunds(d.key.profile, d.key.account, d.orderId, d.now);
        }
      }
    }

    /** `handle` from the write lock on: the whole transaction, or a rollback. */
    method Handle(d: Delivery) returns (reply: Outcome)
      requires Valid()
      modifies this
      ensures Valid()
      ensures reply == Unavailable ==> Contents() == old(Contents()) && budget == 0
      ensures reply != Unavailable ==>
        reply == Reply(old(Contents()), d) && Contents() == After(old(Contents()), d)
      ensures reply != Unavailable ==>
        && (reply == Accepted <==> d.key !in old(inbox))
        && (reply == Duplicate <==> d.key in old(inbox) && SameEvent(old(inbox)[d.key], d))
        && (reply == Conflict <==> d.key in old(inbox) && !SameEvent(old(inbox)[d.key], d))
    {
      var ok := Statement();
      if !ok { return Unavailable; }
      if d.key in inbox {
        var prior := inbox[d.key];
        if prior.eventType == d.eventType && prior.orderId == d.orderId && prior.payload == d.payload {
          return Duplicate;
        }
        return Conflict;
      }
      ok := Record(d);
      if ok { ok := Statement(); }
      if !ok {
        Rollback();
        return Unavailable;
      }
      AfterInv(committed, d);
      committed := Tables(inbox, orders, effects, outbox);
      return Accepted;
    }
  }

  /** From a state that meets the invariants, no statement for a fresh key breaks a constraint. */
  lemma RecordReady(t: Tables, d: Delivery)
    requires Inv(t) && d.key !in t.inbox
    ensures OrderVersions(t) && d.key !in t.effects && d.key !in t.outbox
    ensures ArrivalState(t, d) == Processed ==>
      var applied := ApplyEvent(InsertInbox(t, d), d.key, d.eventType, d.orderId, d.now);
      Inv(applied) && d.orderId in applied.orders
  {
    InvVersions(t);
    if ArrivalState(t, d) == Processed {
      AppliedInv(t, d);
    }
  }
}
