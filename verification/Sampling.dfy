/** `bounded_int`: the width of a sample, the rejection limit, and the loop. */
module Sampling {
  import opened Options
  import opened Text
  import opened Digits
  import opened Generator
  import opened Codecs

  function BitLength(n: nat): nat {
    if n == 0 then 0 else 1 + BitLength(n / 2)
  }

  /** `max(1, ((span - 1).bit_length() + 7) // 8)` */
  function Width(span: nat): nat
    requires span >= 1
  {
    var bytes := (BitLength(span - 1) + 7) / 8;
    if bytes < 1 then 1 else bytes
  }

  function SampleSpace(span: nat): nat
    requires span >= 1
  {
    Pow(256, Width(span))
  }

  function RejectionLimit(span: nat): (limit: nat)
    requires span >= 1
    ensures limit <= SampleSpace(span)
  {
    ModBound(SampleSpace(span), span);
    SampleSpace(span) - SampleSpace(span) % span
  }

  // ---------------------------------------------------------------------
  // The width is the least that covers the span
  // ---------------------------------------------------------------------

  lemma {:induction false} BitLengthBounds(n: nat)
    ensures n < Pow(2, BitLength(n))
    ensures n > 0 ==> Pow(2, BitLength(n) - 1) <= n
  {
    if n > 0 {
      BitLengthBounds(n / 2);
    }
  }

  lemma {:induction false} PowMonotone(base: nat, m: nat, n: nat)
    requires base >= 1 && m <= n
    ensures 1 <= Pow(base, m) <= Pow(base, n)
  {
    if m < n {
      PowMonotone(base, m, n - 1);
      Multiples(base, Pow(base, n - 1));
    } else if m > 0 {
      PowMonotone(base, m - 1, m - 1);
      Multiples(base, Pow(base, m - 1));
    }
  }

  lemma {:induction false} ByteIsEightBits(k: nat)
    ensures Pow(2, 8 * k) == Pow(256, k)
  {
    if k > 0 {
      ByteIsEightBits(k - 1);
      var p := Pow(2, 8 * (k - 1));
      assert Pow(2, 8 * k - 7) == p * 2;
      assert Pow(2, 8 * k - 6) == p * 4;
      assert Pow(2, 8 * k - 5) == p * 8;
      assert Pow(2, 8 * k - 4) == p * 16;
      assert Pow(2, 8 * k - 3) == p * 32;
      assert Pow(2, 8 * k - 2) == p * 64;
      assert Pow(2, 8 * k - 1) == p * 128;
    }
  }

  /** The width is the least positive number of bytes whose values cover the span. */
  lemma WidthBits(span: nat)
    requires span >= 1
    ensures Width(span) >= 1 && BitLength(span - 1) <= 8 * Width(span)
    ensures forall w :: 1 <= w < Width(span) ==> 8 * w <= BitLength(span - 1) - 1
  {
  }

  lemma SmallerWidth(span: nat, w: nat)
    requires span >= 1 && 1 <= w < Width(span)
    ensures Pow(256, w) < span
  {
    WidthBits(span);
    BitLengthBounds(span - 1);
    ByteIsEightBits(w);
    PowMonotone(2, 8 * w, BitLength(span - 1) - 1);
  }

  lemma WidthIsLeast(span: nat)
    requires span >= 1
    ensures Width(span) >= 1 && span <= SampleSpace(span)
    ensures forall w :: 1 <= w < Width(span) ==> Pow(256, w) < span
  {
    var bits := BitLength(span - 1);
    BitLengthBounds(span - 1);
    WidthBits(span);
    PowMonotone(2, bits, 8 * Width(span));
    ByteIsEightBits(Width(span));
    forall w | 1 <= w < Width(span) ensures Pow(256, w) < span {
      SmallerWidth(span, w);
    }
  }

  // ---------------------------------------------------------------------
  // Every value is hit equally often
  // ---------------------------------------------------------------------

  lemma LargestMultiple(space: nat, span: nat)
    requires 1 <= span <= space
    ensures var limit := space - space % span; limit / span * span == limit && limit / span >= 1
  {
    var q := space / span;
    assert space - space % span == q * span;
    Multiples(1 - q, span);
    assert (1 - q) * span == span - q * span;
    DivMod(q, span, 0);
  }

  lemma LimitIsMultiple(span: nat)
    requires span >= 1
    ensures RejectionLimit(span) == RejectionLimit(span) / span * span
    ensures RejectionLimit(span) / span >= 1
    ensures SampleSpace(span) - RejectionLimit(span) < span
  {
    WidthIsLeast(span);
    LargestMultiple(SampleSpace(span), span);
  }

  /** Fewer than half of the candidates are rejected. */
  lemma MoreThanHalfAccepted(span: nat)
    requires span >= 1
    ensures 2 * RejectionLimit(span) > SampleSpace(span)
  {
    LimitIsMultiple(span);
    Multiples(RejectionLimit(span) / span, span);
  }

  /** The candidates below `limit` that are reduced to `residue`. */
  function Preimages(limit: nat, span: nat, residue: nat): set<nat>
    requires span >= 1
  {
    set c: nat | c < limit && c % span == residue
  }

  lemma {:induction false} PreimageCount(q: nat, span: nat, residue: nat)
    requires span >= 1 && residue < span
    ensures |Preimages(q * span, span, residue)| == q
  {
    if q == 0 {
      assert Preimages(0, span, residue) == {};
    } else {
      PreimageCount(q - 1, span, residue);
      var c := (q - 1) * span + residue;
      DivMod(q - 1, span, residue);
      assert q * span == (q - 1) * span + span;
      var before := Preimages((q - 1) * span, span, residue);
      forall x: nat | x < q * span && x % span == residue && x >= (q - 1) * span ensures x == c {
        DivMod(q - 1, span, x - (q - 1) * span);
      }
      assert Preimages(q * span, span, residue) == before + {c};
    }
  }

  /** Exactness: every value of the range has the same number of accepted candidates. */
  lemma Unbiased(span: nat, residue: nat)
    requires span >= 1 && residue < span
    ensures |Preimages(RejectionLimit(span), span, residue)| == RejectionLimit(span) / span
  {
    LimitIsMultiple(span);
    PreimageCount(RejectionLimit(span) / span, span, residue);
  }

  // ---------------------------------------------------------------------
  // The loop
  // ---------------------------------------------------------------------

  /** The number read from the `k`-th window of the keystream. */
  function Candidate(mac: Bytes -> Bytes, encoded: Bytes, width: nat, k: nat): nat
    requires IsSeeded(mac)
  {
    Decode(Window(mac, encoded, k * width, width), 256)
  }

  /** `k` is the first window whose candidate is not rejected, and `value` is what it is reduced to. */
  ghost predicate Draws(mac: Bytes -> Bytes, encoded: Bytes, lower: int, upper: int, k: nat, value: int)
    requires IsSeeded(mac) && lower < upper
  {
    var width, limit := Width(upper - lower), RejectionLimit(upper - lower);
    && InSpace(k * width, width) && Candidate(mac, encoded, width, k) < limit
    && (forall j: nat :: j < k ==> Candidate(mac, encoded, width, j) >= limit)
    && value == lower + Candidate(mac, encoded, width, k) % (upper - lower)
  }

  /** Every window that 64-bit counters reach is rejected. */
  ghost predicate Exhausted(mac: Bytes -> Bytes, encoded: Bytes, width: nat, limit: nat)
    requires IsSeeded(mac)
  {
    forall k: nat {:trigger Candidate(mac, encoded, width, k)} ::
      InSpace(k * width, width) ==> Candidate(mac, encoded, width, k) >= limit
  }

  lemma DrawsNow(mac: Bytes -> Bytes, encoded: Bytes, lower: int, upper: int, k: nat)
    requires IsSeeded(mac) && lower < upper && InSpace(k * Width(upper - lower), Width(upper - lower))
    requires Candidate(mac, encoded, Width(upper - lower), k) < RejectionLimit(upper - lower)
    requires var width := Width(upper - lower);
      forall j: nat :: j < k ==> Candidate(mac, encoded, width, j) >= RejectionLimit(upper - lower)
    ensures var value := lower + Candidate(mac, encoded, Width(upper - lower), k) % (upper - lower);
      && Draws(mac, encoded, lower, upper, k, value) && lower <= value < upper
      && !Exhausted(mac, encoded, Width(upper - lower), RejectionLimit(upper - lower))
  {
  }

  lemma NextOffset(k: nat, width: nat)
    ensures (k + 1) * width == k * width + width
  {
  }

  /** `bounded_int`; none is a raised error: an empty range, a bad context, or a keystream whose every
      window that 64-bit counters reach is rejected. */
  method BoundedInt(mac: Bytes -> Bytes, context: seq<Chars>, lower: int, upper: int) returns (r: Option<int>)
    requires IsSeeded(mac)
    ensures lower >= upper || !ValidContext(context) ==> r == None
    ensures r.Some? ==> lower <= r.value < upper
    ensures r.Some? ==> exists k :: Draws(mac, Components(context), lower, upper, k, r.value)
    ensures lower < upper && ValidContext(context) ==>
      (r == None <==> Exhausted(mac, Components(context), Width(upper - lower), RejectionLimit(upper - lower)))
  {
    if lower >= upper {
      return None;
    }
    var encoded := EncodeContext(context);
    if encoded == None {
      return None;
    }
    var span := upper - lower;
    var width := Width(span);
    var limit := RejectionLimit(span);
    var offset := 0;
    ghost var k: nat := 0;
    while true
      invariant offset == k * width
      invariant forall j: nat :: j < k ==> Candidate(mac, encoded.value, width, j) >= limit
      decreases DIGEST_SIZE * (UINT64_MAX + 1) - offset
    {
      SliceIsWindow(mac, encoded.value, offset, width);
      var slice := StreamSlice(mac, encoded.value, offset, width);
      if slice == None {
        BeyondSpace(k, width);
        return None;
      }
      var candidate := Decode(slice.value, 256);
      if candidate < limit {
        DrawsNow(mac, encoded.value, lower, upper, k);
        return Some(lower + candidate % span);
      }
      NextOffset(k, width);
      offset, k := offset + width, k + 1;
    }
  }

  lemma BeyondSpace(k: nat, width: nat)
    requires !InSpace(k * width, width)
    ensures forall j: nat {:trigger j * width} :: j >= k ==> !InSpace(j * width, width)
  {
    forall j: nat | j >= k ensures !InSpace(j * width, width) {
      assert j * width == k * width + (j - k) * width;
      assert (j - k) * width >= 0;
    }
  }
}
