/** The bytes that identify a manifest, and what they refuse. */
module Manifests {
  import opened Options
  import opened Text
  import opened CanonicalJson
  import opened JsonReader

  /** "manifest_id" */
  const MANIFEST_ID: Chars := [109, 97, 110, 105, 102, 101, 115, 116, 95, 105, 100]

  /** "run_id" */
  const RUN_ID: Chars := [114, 117, 110, 95, 105, 100]

  function WithoutId(ms: seq<Member>): (r: seq<Member>)
    ensures forall m :: m in r <==> m in ms && m.key != MANIFEST_ID
    ensures UniqueKeys(ms) ==> UniqueKeys(r)
  {
    if ms == [] then []
    else if ms[0].key == MANIFEST_ID then WithoutId(ms[1..])
    else [ms[0]] + WithoutId(ms[1..])
  }

  /** `canonical_manifest_bytes` of a mapping with the given members; none is the raised error. */
  function ManifestBytes(ms: seq<Member>): Option<Bytes> {
    if RUN_ID in KeySet(ms) then None else CanonicalBytes(Obj(WithoutId(ms)))
  }

  /** Equal manifest bytes mean manifests that differ in nothing but their root `manifest_id` and
      the order of members, and conversely. */
  lemma ManifestIdentity(ms: seq<Member>, ns: seq<Member>)
    requires ManifestBytes(ms).Some? && ManifestBytes(ns).Some?
    ensures ManifestBytes(ms) == ManifestBytes(ns) <==>
      && KeySet(ms) - {MANIFEST_ID} == KeySet(ns) - {MANIFEST_ID}
      && forall m, n | m in ms && n in ns && m.key == n.key != MANIFEST_ID :: SameValue(m.value, n.value)
  {
    var a, b := WithoutId(ms), WithoutId(ns);
    CanonicalIffSame(Obj(a), Obj(b));
    WithoutIdKeys(ms);
    WithoutIdKeys(ns);
  }

  lemma WithoutIdKeys(ms: seq<Member>)
    ensures KeySet(WithoutId(ms)) == KeySet(ms) - {MANIFEST_ID}
  {
  }

  // ---------------------------------------------------------------------
  // Refused values
  // ---------------------------------------------------------------------

  /** `w` is the value or stands somewhere in it. */
  ghost predicate Occurs(w: Json, v: Json)
    decreases v
  {
    || w == v
    || (v.Arr? && exists i :: 0 <= i < |v.items| && Occurs(w, v.items[i]))
    || (v.Obj? && exists i :: 0 <= i < |v.members| && Occurs(w, v.members[i].value))
  }

  ghost predicate HasSurrogate(s: Chars) {
    exists i :: 0 <= i < |s| && (0xD800 <= s[i] <= 0xDFFF || s[i] > 0x10FFFF)
  }

  /** What the printer raises on: something that is not JSON, an integer of 54 bits or more, a lone surrogate. */
  ghost predicate Offends(w: Json) {
    match w
    case Int(n) => n <= -9_007_199_254_740_992 || n >= 9_007_199_254_740_992
    case Str(s) => HasSurrogate(s)
    case Obj(ms) => !UniqueKeys(ms) || exists i :: 0 <= i < |ms| && HasSurrogate(ms[i].key)
    case Foreign => true
    case _ => false
  }

  lemma ScalarIff(s: Chars)
    ensures IsScalarText(s) <==> !HasSurrogate(s)
  {
    if !IsScalarText(s) {
      var i :| 0 <= i < |s| && !IsScalar(s[i]);
      assert 0xD800 <= s[i] <= 0xDFFF || s[i] > 0x10FFFF;
    }
  }

  ghost predicate Spoiled(v: Json) {
    exists w :: Occurs(w, v) && Offends(w)
  }

  lemma {:induction false} AcceptedClean(v: Json, w: Json)
    requires Accepted(v) && Occurs(w, v)
    ensures !Offends(w)
    decreases v
  {
    if w == v {
      if v.Str? { ScalarIff(v.text); }
      if v.Obj? {
        forall i | 0 <= i < |v.members| ensures !HasSurrogate(v.members[i].key) { ScalarIff(v.members[i].key); }
      }
    } else if v.Arr? {
      var i :| 0 <= i < |v.items| && Occurs(w, v.items[i]);
      AcceptedClean(v.items[i], w);
    } else {
      var i :| 0 <= i < |v.members| && Occurs(w, v.members[i].value);
      AcceptedClean(v.members[i].value, w);
    }
  }

  lemma {:induction false} RefusedSpoiled(v: Json) returns (w: Json)
    requires !Accepted(v)
    ensures Occurs(w, v) && Offends(w)
    decreases v
  {
    w := v;
    match v
    case Str(s) => ScalarIff(s);
    case Arr(items) =>
      var i :| 0 <= i < |items| && !Accepted(items[i]);
      w := RefusedSpoiled(items[i]);
    case Obj(ms) =>
      if UniqueKeys(ms) {
        var i :| 0 <= i < |ms| && !(IsScalarText(ms[i].key) && Accepted(ms[i].value));
        ScalarIff(ms[i].key);
        if IsScalarText(ms[i].key) { w := RefusedSpoiled(ms[i].value); }
      }
    case _ =>
  }

  /** The printer raises exactly on values in which something offends. */
  lemma RefusedIff(v: Json)
    ensures CanonicalBytes(v) == None <==> Spoiled(v)
  {
    if Accepted(v) {
      forall w | Occurs(w, v) ensures !Offends(w) { AcceptedClean(v, w); }
    } else {
      var w := RefusedSpoiled(v);
    }
  }

  lemma FieldTexts()
    ensures MANIFEST_ID == Ascii("manifest_id") && RUN_ID == Ascii("run_id")
  {
  }

  /** A manifest is refused exactly if it has a run id or something offends outside the root `manifest_id`. */
  lemma ManifestRefusedIff(ms: seq<Member>)
    requires UniqueKeys(ms)
    ensures ManifestBytes(ms) == None <==>
      || (exists m :: m in ms && m.key == Ascii("run_id"))
      || (exists m :: m in ms && m.key != Ascii("manifest_id") && (HasSurrogate(m.key) || Spoiled(m.value)))
  {
    FieldTexts();
    if RUN_ID in KeySet(ms) {
      var m :| m in ms && m.key == RUN_ID;
    }
    WithoutIdRefused(ms);
  }

  lemma AcceptedMembers(ms: seq<Member>)
    requires UniqueKeys(ms)
    ensures Accepted(Obj(ms)) <==> forall m :: m in ms ==> IsScalarText(m.key) && Accepted(m.value)
  {
  }

  lemma WithoutIdRefused(ms: seq<Member>)
    requires UniqueKeys(ms)
    ensures !Accepted(Obj(WithoutId(ms))) <==>
      exists m :: m in ms && m.key != MANIFEST_ID && (HasSurrogate(m.key) || Spoiled(m.value))
  {
    var kept := WithoutId(ms);
    forall m | m in ms ensures IsScalarText(m.key) <==> !HasSurrogate(m.key) { ScalarIff(m.key); }
    forall m | m in ms ensures Accepted(m.value) <==> !Spoiled(m.value) { RefusedIff(m.value); }
    AcceptedMembers(kept);
    assert forall m :: m in kept <==> m in ms && m.key != MANIFEST_ID;
  }
}
