/** Handling deliveries one at a time: what a sequence of them leaves in the tables. */
module ReceiverSequence {
  import opened ReceiverTables

  /** Handling `ds` one after another on an empty database. */
  function Sequential(ds: seq<Delivery>): Tables {
    if ds == [] then EMPTY else After(Sequential(ds[..|ds| - 1]), ds[|ds| - 1])
  }

  predicate Mentions(ds: seq<Delivery>, k: Key) {
    exists i :: 0 <= i < |ds| && ds[i].key == k
  }

  /** The first delivery of every key, in order. */
  function Firsts(ds: seq<Delivery>): seq<Delivery> {
    if ds == [] then []
    else
      var before := Firsts(ds[..|ds| - 1]);
      if Mentions(before, ds[|ds| - 1].key) then before else before + [ds[|ds| - 1]]
  }

  ghost predicate DistinctKeys(ds: seq<Delivery>) {
    forall i, j :: 0 <= i < j < |ds| ==> ds[i].key != ds[j].key
  }

  lemma AfterInbox(t: Tables, d: Delivery)
    ensures After(t, d).inbox.Keys == t.inbox.Keys + {d.key}
  {
  }

  lemma {:induction false} SequentialInv(ds: seq<Delivery>)
    ensures Inv(Sequential(ds))
  {
    if ds == [] {
      EmptyInv();
    } else {
      SequentialInv(ds[..|ds| - 1]);
      AfterInv(Sequential(ds[..|ds| - 1]), ds[|ds| - 1]);
    }
  }

  lemma MentionsLast(ds: seq<Delivery>, d: Delivery, k: Key)
    ensures Mentions(ds + [d], k) <==> Mentions(ds, k) || d.key == k
  {
    var e := ds + [d];
    if d.key == k { assert e[|ds|].key == k; }
    if Mentions(ds, k) {
      var i :| 0 <= i < |ds| && ds[i].key == k;
      assert e[i].key == k;
    }
  }

  lemma {:induction false} FirstsMention(ds: seq<Delivery>, k: Key)
    ensures Mentions(Firsts(ds), k) <==> Mentions(ds, k)
  {
    if ds != [] {
      var front, d := ds[..|ds| - 1], ds[|ds| - 1];
      assert ds == front + [d];
      FirstsMention(front, k);
      MentionsLast(front, d, k);
      MentionsLast(Firsts(front), d, k);
    }
  }

  lemma {:induction false} FirstsDistinct(ds: seq<Delivery>)
    ensures DistinctKeys(Firsts(ds))
  {
    if ds != [] {
      FirstsDistinct(ds[..|ds| - 1]);
    }
  }

  /** The inbox holds exactly the keys that were delivered. */
  lemma {:induction false} SequentialKeys(ds: seq<Delivery>, k: Key)
    ensures k in Sequential(ds).inbox <==> Mentions(ds, k)
  {
    if ds != [] {
      var front, d := ds[..|ds| - 1], ds[|ds| - 1];
      assert ds == front + [d];
      SequentialKeys(front, k);
      MentionsLast(front, d, k);
      AfterInbox(Sequential(front), d);
    }
  }

  /** Handling only the first delivery of each key leaves the same tables. */
  lemma {:induction false} FirstsSuffice(ds: seq<Delivery>)
    ensures Sequential(Firsts(ds)) == Sequential(ds)
  {
    if ds != [] {
      var front, d := ds[..|ds| - 1], ds[|ds| - 1];
      FirstsSuffice(front);
      FirstsMention(front, d.key);
      if Mentions(front, d.key) {
        SequentialKeys(front, d.key);
        assert After(Sequential(front), d) == Sequential(front);
      } else {
        assert (Firsts(front) + [d])[..|Firsts(front)|] == Firsts(front);
      }
    }
  }

  lemma {:induction false} SequentialExtends(ds: seq<Delivery>, n: nat)
    requires n <= |ds|
    ensures Extends(Sequential(ds[..n]), Sequential(ds))
  {
    if n == |ds| {
      assert ds[..n] == ds;
    } else {
      var front := ds[..|ds| - 1];
      SequentialExtends(front, n);
      assert front[..n] == ds[..n];
      SequentialInv(front);
      AfterExtends(Sequential(front), ds[|ds| - 1]);
      ExtendsTransitive(Sequential(ds[..n]), Sequential(front), Sequential(ds));
    }
  }

  predicate SameEvent(row: InboxRow, d: Delivery) {
    row.eventType == d.eventType && row.orderId == d.orderId && row.payload == d.payload
  }

  /** Handling a fresh key leaves the row of that very event. */
  lemma FreshRecords(t: Tables, d: Delivery)
    requires d.key !in t.inbox
    ensures d.key in After(t, d).inbox && SameEvent(After(t, d).inbox[d.key], d)
  {
    var inbox := InsertInbox(t, d).inbox;
    var applied := ApplyEvent(InsertInbox(t, d), d.key, d.eventType, d.orderId, d.now);
    var ks := PendingRefunds(applied, d.key.profile, d.key.account, d.orderId);
    assert SameEvent(inbox[d.key], d) && SameEvent(ResolvedInbox(inbox, ks)[d.key], d);
    assert After(t, d).inbox in {inbox, ResolvedInbox(inbox, ks)};
  }

  /** A commit whose reply was not a conflict leaves the row of its own event. */
  lemma CommitRecords(t: Tables, d: Delivery)
    requires Inv(t) && Reply(t, d) in {Accepted, Duplicate}
    ensures d.key in After(t, d).inbox && SameEvent(After(t, d).inbox[d.key], d)
  {
    if d.key !in t.inbox { FreshRecords(t, d); }
  }

  lemma ReplyRecords(ds: seq<Delivery>, i: nat)
    requires i < |ds| && Reply(Sequential(ds[..i]), ds[i]) in {Accepted, Duplicate}
    ensures ds[i].key in Sequential(ds).inbox && SameEvent(Sequential(ds).inbox[ds[i].key], ds[i])
  {
    assert ds[..i + 1][..i] == ds[..i];
    SequentialInv(ds[..i]);
    CommitRecords(Sequential(ds[..i]), ds[i]);
    SequentialExtends(ds, i + 1);
  }

  lemma LaterNotAccepted(ds: seq<Delivery>, i: nat, j: nat)
    requires i < j < |ds| && ds[i].key == ds[j].key
    ensures Reply(Sequential(ds[..j]), ds[j]) != Accepted
  {
    assert ds[..j][i].key == ds[j].key;
    SequentialKeys(ds[..j], ds[j].key);
  }

  // ---------------------------------------------------------------------
  // The answer, read off the sequence
  // ---------------------------------------------------------------------

  /** Delivery `j` is the first one of key `k`. */
  ghost predicate FirstAt(ds: seq<Delivery>, j: int, k: Key) {
    0 <= j < |ds| && ds[j].key == k && forall m :: 0 <= m < j ==> ds[m].key != k
  }

  lemma {:induction false} FirstExists(ds: seq<Delivery>, k: Key) returns (j: nat)
    requires Mentions(ds, k)
    ensures FirstAt(ds, j, k)
  {
    var front := ds[..|ds| - 1];
    if Mentions(front, k) {
      j := FirstExists(front, k);
      assert forall m :: 0 <= m <= j ==> ds[m] == front[m];
    } else {
      assert forall m :: 0 <= m < |front| ==> front[m] == ds[m];
      j := |ds| - 1;
    }
  }

  /** The inbox keeps the event of the first delivery of a key. */
  lemma FirstIsKept(ds: seq<Delivery>, j: nat, k: Key)
    requires FirstAt(ds, j, k)
    ensures k in Sequential(ds).inbox && SameEvent(Sequential(ds).inbox[k], ds[j])
  {
    SequentialKeys(ds[..j], k);
    assert ds[..j + 1][..j] == ds[..j];
    FreshRecords(Sequential(ds[..j]), ds[j]);
    SequentialExtends(ds, j + 1);
  }

  predicate SameDelivery(a: Delivery, b: Delivery) {
    a.eventType == b.eventType && a.orderId == b.orderId && a.payload == b.payload
  }

  /** The answer that delivery `i` deserves: accepted if its key is new, a duplicate if the first delivery of its key
      was the same event, and a conflict if it was another one. */
  ghost predicate Deserves(ds: seq<Delivery>, i: nat, outcome: Outcome)
    requires i < |ds|
  {
    && (outcome == Accepted <==> !Mentions(ds[..i], ds[i].key))
    && (outcome == Duplicate <==> exists j :: FirstAt(ds[..i], j, ds[i].key) && SameDelivery(ds[j], ds[i]))
    && (outcome == Conflict <==> exists j :: FirstAt(ds[..i], j, ds[i].key) && !SameDelivery(ds[j], ds[i]))
  }

  lemma ReplyMeaning(ds: seq<Delivery>, i: nat)
    requires i < |ds|
    ensures Deserves(ds, i, Reply(Sequential(ds[..i]), ds[i]))
  {
    var before, k := ds[..i], ds[i].key;
    SequentialKeys(before, k);
    if Mentions(before, k) {
      var j := FirstExists(before, k);
      FirstIsKept(before, j, k);
      forall m | FirstAt(before, m, k) ensures m == j {}
    } else {
      forall m ensures !FirstAt(before, m, k) {}
    }
  }
}
