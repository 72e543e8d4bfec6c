/** Fixed-width big-endian digits in any base: `int.to_bytes`, `int.from_bytes`
    and the base 32 of identifiers. */
module Digits {

  function Pow(base: nat, n: nat): nat {
    if n == 0 then 1 else Pow(base, n - 1) * base
  }

  predicate AllBelow(ds: seq<nat>, base: nat) {
    forall i :: 0 <= i < |ds| ==> ds[i] < base
  }

  function Encode(n: nat, base: nat, width: nat): (ds: seq<nat>)
    requires base >= 2
    ensures |ds| == width && AllBelow(ds, base)
  {
    if width == 0 then [] else Encode(n / base, base, width - 1) + [n % base]
  }

  function Decode(ds: seq<nat>, base: nat): nat {
    if ds == [] then 0 else Decode(ds[..|ds| - 1], base) * base + ds[|ds| - 1]
  }

  lemma Multiples(k: int, b: nat)
    ensures k >= 1 ==> k * b >= b
    ensures k <= -1 ==> k * b + b <= 0
  {
    if k >= 1 {
      assert k * b == (k - 1) * b + b;
    } else if k <= -1 {
      assert -k * b == (-k - 1) * b + b;
    }
  }

  lemma ModBound(n: nat, base: nat)
    requires base >= 1
    ensures n % base <= n
  {
    assert n == n / base * base + n % base;
    assert n / base * base >= 0;
  }

  lemma DivMod(q: nat, base: nat, r: nat)
    requires r < base
    ensures (q * base + r) / base == q && (q * base + r) % base == r
  {
    var n := q * base + r;
    var d, m := n / base, n % base;
    assert n == d * base + m;
    Multiples(d - q, base);
    assert (d - q) * base == d * base - q * base;
  }

  lemma QuotientBound(n: nat, base: nat, p: nat)
    requires base >= 1 && n < p * base
    ensures n / base < p
  {
    var d := n / base;
    assert n == d * base + n % base;
    Multiples(d - p, base);
    assert (d - p) * base == d * base - p * base;
  }

  /** A number below `base` to the `width` survives the trip through its digits. */
  lemma {:induction false} DecodeEncode(n: nat, base: nat, width: nat)
    requires base >= 2 && n < Pow(base, width)
    ensures Decode(Encode(n, base, width), base) == n
  {
    if width > 0 {
      QuotientBound(n, base, Pow(base, width - 1));
      DecodeEncode(n / base, base, width - 1);
      var front := Encode(n / base, base, width - 1);
      assert (front + [n % base])[..width - 1] == front;
      assert n / base * base + n % base == n;
    }
  }

  lemma ShiftBound(q: nat, base: nat, r: nat, p: nat)
    requires q < p && r < base
    ensures q * base + r < p * base
  {
    assert (q + 1) * base <= p * base;
  }

  /** Any digits are the digits of the number they stand for. */
  lemma {:induction false} EncodeDecode(ds: seq<nat>, base: nat)
    requires base >= 2 && AllBelow(ds, base)
    ensures Decode(ds, base) < Pow(base, |ds|)
    ensures Encode(Decode(ds, base), base, |ds|) == ds
  {
    if ds != [] {
      var front, last := ds[..|ds| - 1], ds[|ds| - 1];
      EncodeDecode(front, base);
      DivMod(Decode(front, base), base, last);
      ShiftBound(Decode(front, base), base, last, Pow(base, |front|));
    }
  }

  lemma EncodeInjective(m: nat, n: nat, base: nat, width: nat)
    requires base >= 2 && m < Pow(base, width) && n < Pow(base, width)
    requires Encode(m, base, width) == Encode(n, base, width)
    ensures m == n
  {
    DecodeEncode(m, base, width);
    DecodeEncode(n, base, width);
  }

  lemma NestedDiv(n: nat, a: nat, b: nat)
    requires a >= 1 && b >= 1
    ensures a * b >= 1 && n / a / b == n / (a * b)
  {
    var m, r := n / a, n % a;
    var q, t := m / b, m % b;
    assert n == m * a + r && m == q * b + t;
    ShiftBound(t, a, r, b);
    assert n == q * (a * b) + (t * a + r);
    assert t * a + r < a * b;
    DivMod(q, a * b, t * a + r);
  }

  lemma {:induction false} PowPositive(base: nat, n: nat)
    requires base >= 1
    ensures Pow(base, n) >= 1
  {
    if n > 0 { PowPositive(base, n - 1); }
  }

  /** The digit of a number that counts `base` to the `k`. */
  function Digit(n: nat, base: nat, k: nat): nat
    requires base >= 1
  {
    PowPositive(base, k);
    n / Pow(base, k) % base
  }

  /** The digits of a number, the most significant first. */
  ghost predicate BigEndian(ds: seq<nat>, n: nat, base: nat)
    requires base >= 1
  {
    forall i :: 0 <= i < |ds| ==> ds[i] == Digit(n, base, |ds| - 1 - i)
  }

  lemma DigitShift(n: nat, base: nat, k: nat)
    requires base >= 1
    ensures Digit(n / base, base, k) == Digit(n, base, k + 1)
  {
    PowPositive(base, k);
    NestedDiv(n, base, Pow(base, k));
    assert Pow(base, k + 1) == base * Pow(base, k);
  }

  lemma {:induction false} EncodeDigit(n: nat, base: nat, width: nat, i: nat)
    requires base >= 2 && i < width
    ensures Encode(n, base, width)[i] == Digit(n, base, width - 1 - i)
  {
    if i < width - 1 {
      EncodeDigit(n / base, base, width - 1, i);
      DigitShift(n, base, width - 2 - i);
    } else {
      LastDigit(n, base);
    }
  }

  lemma LastDigit(n: nat, base: nat)
    requires base >= 2
    ensures Digit(n, base, 0) == n % base
  {
    assert Pow(base, 0) == 1;
  }

  lemma EncodeBigEndian(n: nat, base: nat, width: nat)
    requires base >= 2
    ensures BigEndian(Encode(n, base, width), n, base)
  {
    forall i | 0 <= i < width ensures Encode(n, base, width)[i] == Digit(n, base, width - 1 - i) {
      EncodeDigit(n, base, width, i);
    }
  }
}
