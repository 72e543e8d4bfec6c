/** Text forms used in signature headers: lowercase hexadecimal, base 64,
    canonical seconds, and the splitting of header values. */
module Codecs {
  import opened Options
  import opened Text
  import opened Digits

  predicate AreBytes(bs: Bytes) {
    AllBelow(bs, 256)
  }

  const DIGEST_SIZE := 32

  /** The bytes of a SHA-256 digest. */
  predicate IsDigest(bs: Bytes) {
    |bs| == DIGEST_SIZE && AreBytes(bs)
  }

  // ---------------------------------------------------------------------
  // Hexadecimal
  // ---------------------------------------------------------------------

  function HexDigit(d: nat): nat {
    if d < 10 then 48 + d else 87 + d
  }

  /** The value of a lowercase hexadecimal digit; 16 for any other character. */
  function HexValue(c: nat): nat {
    if IsDigit(c) then c - 48 else if 97 <= c <= 102 then c - 87 else 16
  }

  /** `bytes.hex()` */
  function ToHex(bs: Bytes): (s: Chars)
    ensures |s| == 2 * |bs|
  {
    if bs == [] then [] else [HexDigit(bs[0] / 16), HexDigit(bs[0] % 16)] + ToHex(bs[1..])
  }

  function FromHex(s: Chars): Option<Bytes> {
    if s == [] then Some([])
    else if |s| == 1 || HexValue(s[0]) == 16 || HexValue(s[1]) == 16 then None
    else
      var rest := FromHex(s[2..]);
      if rest == None then None else Some([16 * HexValue(s[0]) + HexValue(s[1])] + rest.value)
  }

  lemma {:induction false} HexRoundTrip(bs: Bytes)
    requires AreBytes(bs)
    ensures FromHex(ToHex(bs)) == Some(bs)
    ensures forall i :: 0 <= i < |ToHex(bs)| ==> HexValue(ToHex(bs)[i]) < 16
  {
    if bs != [] {
      HexRoundTrip(bs[1..]);
      var s := ToHex(bs);
      assert bs[0] < 256;
      assert s[2..] == ToHex(bs[1..]);
      assert HexValue(s[0]) == bs[0] / 16 && HexValue(s[1]) == bs[0] % 16;
      assert [16 * (bs[0] / 16) + bs[0] % 16] + bs[1..] == bs;
      forall i | 0 <= i < |s| ensures HexValue(s[i]) < 16 {
        if i >= 2 { assert s[i] == ToHex(bs[1..])[i - 2]; }
      }
    }
  }

  lemma HexAlphabet(d: nat)
    requires d < 16
    ensures HexDigit(d) == Ascii("0123456789abcdef")[d]
  {
  }

  /** Exactly the lowercase hexadecimal text of bytes is read, as those bytes. */
  lemma {:induction false} HexReads(s: Chars, bs: Bytes)
    ensures FromHex(s) == Some(bs) <==> AreBytes(bs) && s == ToHex(bs)
  {
    if AreBytes(bs) && s == ToHex(bs) {
      HexRoundTrip(bs);
    }
    if FromHex(s) == Some(bs) && s != [] {
      HexReads(s[2..], bs[1..]);
      HexPair(s[0], s[1]);
      assert bs[1..] == FromHex(s[2..]).value;
      assert s == [s[0], s[1]] + s[2..];
      assert forall i :: 0 < i < |bs| ==> bs[i] == bs[1..][i - 1];
    }
  }

  lemma HexPair(a: nat, b: nat)
    requires HexValue(a) < 16 && HexValue(b) < 16
    ensures var x := 16 * HexValue(a) + HexValue(b); x < 256 && HexDigit(x / 16) == a && HexDigit(x % 16) == b
  {
  }

  // ---------------------------------------------------------------------
  // Base 64
  // ---------------------------------------------------------------------

  function Sextet(d: nat): nat {
    if d < 26 then 65 + d else if d < 52 then 71 + d else if d < 62 then d - 4 else if d == 62 then 43 else 47
  }

  /** The value of a base 64 character; 64 for any other character. */
  function SextetValue(c: nat): nat {
    if 65 <= c <= 90 then c - 65 else if 97 <= c <= 122 then c - 71
    else if IsDigit(c) then c + 4 else if c == 43 then 62 else if c == 47 then 63 else 64
  }

  const PAD := 61

  /** `base64.b64encode` */
  function ToBase64(bs: Bytes): Chars {
    if bs == [] then []
    else if |bs| == 1 then [Sextet(bs[0] / 4), Sextet(bs[0] % 4 * 16), PAD, PAD]
    else if |bs| == 2 then
      [Sextet(bs[0] / 4), Sextet(bs[0] % 4 * 16 + bs[1] / 16), Sextet(bs[1] % 16 * 4), PAD]
    else
      [Sextet(bs[0] / 4), Sextet(bs[0] % 4 * 16 + bs[1] / 16), Sextet(bs[1] % 16 * 4 + bs[2] / 64), Sextet(bs[2] % 64)]
      + ToBase64(bs[3..])
  }

  /** `base64.b64decode` of text whose padding, if any, ends it; surplus bits of the last digit are dropped. */
  function FromBase64(s: Chars): Option<Bytes> {
    if s == [] then Some([])
    else if |s| < 4 || SextetValue(s[0]) == 64 || SextetValue(s[1]) == 64 then None
    else
      var a, b, c, d := SextetValue(s[0]), SextetValue(s[1]), SextetValue(s[2]), SextetValue(s[3]);
      if s[2] == PAD && s[3] == PAD && |s| == 4 then Some([a * 4 + b / 16])
      else if c == 64 then None
      else if s[3] == PAD && |s| == 4 then Some([a * 4 + b / 16, b % 16 * 16 + c / 4])
      else if d == 64 then None
      else
        var rest := FromBase64(s[4..]);
        if rest == None then None
        else Some([a * 4 + b / 16, b % 16 * 16 + c / 4, c % 4 * 64 + d] + rest.value)
  }

  lemma SextetRoundTrip(d: nat)
    requires d < 64
    ensures SextetValue(Sextet(d)) == d && Sextet(d) != PAD
  {
  }

  lemma Quartet(x: nat, y: nat, z: nat)
    requires x < 256 && y < 256 && z < 256
    ensures var a, b, c, d := x / 4, x % 4 * 16 + y / 16, y % 16 * 4 + z / 64, z % 64;
      && a < 64 && b < 64 && c < 64 && d < 64
      && a * 4 + b / 16 == x && b % 16 * 16 + c / 4 == y && c % 4 * 64 + d == z
  {
  }

  lemma DecodeFour(q: Chars, s: Chars, a: nat, b: nat, c: nat, d: nat)
    requires |q| == 4 && a < 64 && b < 64 && c < 64 && d < 64
    requires SextetValue(q[0]) == a && SextetValue(q[1]) == b && SextetValue(q[2]) == c && SextetValue(q[3]) == d
    ensures FromBase64(q + s) ==
      if FromBase64(s) == None then None
      else Some([a * 4 + b / 16, b % 16 * 16 + c / 4, c % 4 * 64 + d] + FromBase64(s).value)
  {
    assert (q + s)[4..] == s;
    assert (q + s)[2] != PAD && (q + s)[3] != PAD;
  }

  lemma DecodeQuartet(a: nat, b: nat, c: nat, d: nat, s: Chars)
    requires a < 64 && b < 64 && c < 64 && d < 64
    ensures FromBase64([Sextet(a), Sextet(b), Sextet(c), Sextet(d)] + s) ==
      if FromBase64(s) == None then None
      else Some([a * 4 + b / 16, b % 16 * 16 + c / 4, c % 4 * 64 + d] + FromBase64(s).value)
  {
    SextetRoundTrip(a);
    SextetRoundTrip(b);
    SextetRoundTrip(c);
    SextetRoundTrip(d);
    DecodeFour([Sextet(a), Sextet(b), Sextet(c), Sextet(d)], s, a, b, c, d);
  }

  lemma DecodePadded(a: nat, b: nat, c: nat)
    requires a < 64 && b < 64 && c < 64
    ensures FromBase64([Sextet(a), Sextet(b), PAD, PAD]) == Some([a * 4 + b / 16])
    ensures FromBase64([Sextet(a), Sextet(b), Sextet(c), PAD]) == Some([a * 4 + b / 16, b % 16 * 16 + c / 4])
  {
    SextetRoundTrip(a);
    SextetRoundTrip(b);
    SextetRoundTrip(c);
  }

  lemma OneByte(x: nat)
    requires x < 256
    ensures FromBase64(ToBase64([x])) == Some([x])
  {
    DecodePadded(x / 4, x % 4 * 16, 0);
    assert x / 4 * 4 + x % 4 * 16 / 16 == x;
  }

  lemma TwoBytes(x: nat, y: nat)
    requires x < 256 && y < 256
    ensures FromBase64(ToBase64([x, y])) == Some([x, y])
  {
    var a, b, c := x / 4, x % 4 * 16 + y / 16, y % 16 * 4;
    DecodePadded(a, b, c);
    assert a * 4 + b / 16 == x;
    assert b % 16 * 16 + c / 4 == y;
  }

  lemma ThreeBytes(x: nat, y: nat, z: nat, rest: Bytes)
    requires x < 256 && y < 256 && z < 256 && FromBase64(ToBase64(rest)) == Some(rest)
    ensures FromBase64(ToBase64([x, y, z] + rest)) == Some([x, y, z] + rest)
  {
    var bs := [x, y, z] + rest;
    var a, b, c, d := x / 4, x % 4 * 16 + y / 16, y % 16 * 4 + z / 64, z % 64;
    assert bs[3..] == rest;
    assert ToBase64(bs) == [Sextet(a), Sextet(b), Sextet(c), Sextet(d)] + ToBase64(rest) by {
      assert bs[0] == x && bs[1] == y && bs[2] == z;
    }
    Quartet(x, y, z);
    DecodeQuartet(a, b, c, d, ToBase64(rest));
    assert [a * 4 + b / 16, b % 16 * 16 + c / 4, c % 4 * 64 + d] == [x, y, z];
  }

  lemma ShortRoundTrip(bs: Bytes)
    requires AreBytes(bs) && |bs| <= 2
    ensures FromBase64(ToBase64(bs)) == Some(bs)
  {
    if |bs| == 1 {
      var x := bs[0];
      assert bs == [x];
      OneByte(x);
    } else if |bs| == 2 {
      var x, y := bs[0], bs[1];
      assert bs == [x, y];
      TwoBytes(x, y);
    }
  }

  lemma {:induction false} Base64RoundTrip(bs: Bytes)
    requires AreBytes(bs)
    ensures FromBase64(ToBase64(bs)) == Some(bs)
  {
    if |bs| <= 2 {
      ShortRoundTrip(bs);
    } else {
      Base64RoundTrip(bs[3..]);
      ThreeBytes(bs[0], bs[1], bs[2], bs[3..]);
      assert bs == [bs[0], bs[1], bs[2]] + bs[3..];
    }
  }

  /** All but the last character are base 64 digits, and the last one is padding. */
  predicate OnePad(s: Chars) {
    s != [] && s[|s| - 1] == PAD && forall i :: 0 <= i < |s| - 1 ==> SextetValue(s[i]) < 64
  }

  predicate Sextets(s: Chars) {
    forall i :: 0 <= i < |s| ==> SextetValue(s[i]) < 64
  }

  lemma QuartetSextets(x: nat, y: nat, z: nat)
    requires x < 256 && y < 256 && z < 256
    ensures Sextets([Sextet(x / 4), Sextet(x % 4 * 16 + y / 16), Sextet(y % 16 * 4 + z / 64), Sextet(z % 64)])
  {
    Quartet(x, y, z);
    SextetRoundTrip(x / 4);
    SextetRoundTrip(x % 4 * 16 + y / 16);
    SextetRoundTrip(y % 16 * 4 + z / 64);
    SextetRoundTrip(z % 64);
  }

  lemma PadAppended(head: Chars, t: Chars)
    requires Sextets(head) && OnePad(t)
    ensures OnePad(head + t)
  {
    var s := head + t;
    assert s[|s| - 1] == t[|t| - 1];
    forall i | 0 <= i < |s| - 1 ensures SextetValue(s[i]) < 64 {
      if i >= |head| { assert s[i] == t[i - |head|]; }
    }
  }

  lemma TwoByteShape(x: nat, y: nat)
    requires x < 256 && y < 256
    ensures |ToBase64([x, y])| == 4 && OnePad(ToBase64([x, y]))
  {
    QuartetSextets(x, y, 0);
    var head := [Sextet(x / 4), Sextet(x % 4 * 16 + y / 16), Sextet(y % 16 * 4 + 0 / 64)];
    assert Sextets(head) by {
      var all := [Sextet(x / 4), Sextet(x % 4 * 16 + y / 16), Sextet(y % 16 * 4 + 0 / 64), Sextet(0 % 64)];
      assert head[0] == all[0] && head[1] == all[1] && head[2] == all[2];
    }
    PadAppended(head, [PAD]);
    assert ToBase64([x, y]) == head + [PAD];
  }

  lemma {:induction false} Base64Shape(bs: Bytes)
    requires AreBytes(bs) && |bs| % 3 == 2
    ensures |ToBase64(bs)| == 4 * (|bs| / 3 + 1) && OnePad(ToBase64(bs))
  {
    if |bs| == 2 {
      TwoByteShape(bs[0], bs[1]);
      assert bs == [bs[0], bs[1]];
    } else {
      Base64Shape(bs[3..]);
      QuartetSextets(bs[0], bs[1], bs[2]);
      PadAppended([Sextet(bs[0] / 4), Sextet(bs[0] % 4 * 16 + bs[1] / 16), Sextet(bs[1] % 16 * 4 + bs[2] / 64),
                   Sextet(bs[2] % 64)], ToBase64(bs[3..]));
    }
  }

  /** The digits in order: capitals, small letters, decimal digits, plus and slash. */
  lemma Base64Alphabet(d: nat)
    requires d < 64
    ensures d < 26 ==> Sextet(d) == Ascii("ABCDEFGHIJKLMNOPQRSTUVWXYZ")[d]
    ensures 26 <= d < 52 ==> Sextet(d) == Ascii("abcdefghijklmnopqrstuvwxyz")[d - 26]
    ensures d >= 52 ==> Sextet(d) == Ascii("0123456789+/")[d - 52]
  {
    if d < 26 { Capitals(d); } else if d < 52 { SmallLetters(d - 26); }
  }

  lemma Capitals(d: nat)
    requires d < 26
    ensures 65 + d == Ascii("ABCDEFGHIJKLMNOPQRSTUVWXYZ")[d]
  {
  }

  lemma SmallLetters(d: nat)
    requires d < 26
    ensures 97 + d == Ascii("abcdefghijklmnopqrstuvwxyz")[d]
  {
  }

  /** Examples of section 10 of RFC 4648. */
  lemma Base64Examples()
    ensures ToBase64(Ascii("f")) == Ascii("Zg==") && ToBase64(Ascii("fo")) == Ascii("Zm8=")
    ensures ToBase64(Ascii("foobar")) == Ascii("Zm9vYmFy")
  {
    assert Ascii("f") == [102] && Ascii("fo") == [102, 111];
    assert Ascii("foobar") == [102, 111, 111, 98, 97, 114];
    assert ToBase64([98, 97, 114]) == [89, 109, 70, 121];
    assert [102, 111, 111, 98, 97, 114][3..] == [98, 97, 114];
  }

  // ---------------------------------------------------------------------
  // Canonical seconds
  // ---------------------------------------------------------------------

  predicate AllDigits(s: Chars) {
    forall i :: 0 <= i < |s| ==> IsDigit(s[i])
  }

  /** `_timestamp`: zero, or at most nineteen digits that do not begin with zero. */
  function Timestamp(s: Chars): Option<nat> {
    if s != [] && AllDigits(s) && |s| <= 19 && (s[0] == 48 ==> |s| == 1) then Some(DecimalValue(s)) else None
  }

  const TIMESTAMP_LIMIT := 10_000_000_000_000_000_000

  lemma {:induction false} DecimalLength(n: nat, k: nat)
    requires k >= 1
    ensures |Decimal(n)| <= k <==> n < Pow(10, k)
  {
    if k == 1 {
      assert Pow(10, 1) == 10;
    } else if n >= 10 {
      DecimalLength(n / 10, k - 1);
    } else {
      PowAtLeastTen(k);
    }
  }

  lemma {:induction false} PowAtLeastTen(k: nat)
    requires k >= 1
    ensures Pow(10, k) >= 10
  {
    if k > 1 { PowAtLeastTen(k - 1); }
  }

  lemma PowNineteen()
    ensures Pow(10, 19) == TIMESTAMP_LIMIT
  {
    assert Pow(10, 3) == 1000;
    assert Pow(10, 6) == Pow(10, 3) * 1000;
    assert Pow(10, 9) == Pow(10, 6) * 1000;
    assert Pow(10, 12) == Pow(10, 9) * 1000;
    assert Pow(10, 15) == Pow(10, 12) * 1000;
    assert Pow(10, 18) == Pow(10, 15) * 1000;
  }

  /** A printed number is read back exactly if it has at most nineteen digits. */
  lemma TimestampRoundTrip(n: nat)
    ensures Timestamp(Decimal(n)) == if n < TIMESTAMP_LIMIT then Some(n) else None
  {
    PowNineteen();
    DecimalLength(n, 19);
    DecimalRoundTrip(n);
  }

  /** A number that was read is the number printed. */
  lemma {:induction false} DigitsPrint(s: Chars)
    requires s != [] && AllDigits(s) && (s[0] == 48 ==> |s| == 1)
    ensures Decimal(DecimalValue(s)) == s
    ensures s[0] != 48 ==> DecimalValue(s) >= 1
  {
    assert IsDigit(s[0]) && IsDigit(s[|s| - 1]);
    if |s| > 1 {
      var front, last := s[..|s| - 1], s[|s| - 1];
      DigitsPrint(front);
      assert DecimalValue(s) == 10 * DecimalValue(front) + (last - 48);
      assert front + [last] == s;
    } else {
      assert s[..0] == [];
      assert s == [s[0]];
    }
  }

  /** Exactly the printed numbers of at most nineteen digits are read. */
  lemma TimestampIff(s: Chars, n: nat)
    ensures Timestamp(s) == Some(n) <==> s == Decimal(n) && n < TIMESTAMP_LIMIT
  {
    TimestampRoundTrip(n);
    if Timestamp(s) == Some(n) {
      DigitsPrint(s);
    }
  }

  // ---------------------------------------------------------------------
  // Splitting
  // ---------------------------------------------------------------------

  /** `s.split(sep)` */
  function Split(s: Chars, sep: nat): (parts: seq<Chars>)
    ensures |parts| >= 1
  {
    if s == [] then [[]]
    else
      var rest := Split(s[1..], sep);
      if s[0] == sep then [[]] + rest else [[s[0]] + rest[0]] + rest[1..]
  }

  lemma {:induction false} SplitFirst(a: Chars, sep: nat, b: Chars)
    requires sep !in a
    ensures Split(a + [sep] + b, sep) == [a] + Split(b, sep)
    ensures Split(a, sep) == [a]
  {
    if a == [] {
      assert ([sep] + b)[1..] == b;
      assert a + [sep] + b == [sep] + b;
    } else {
      SplitFirst(a[1..], sep, b);
      assert (a + [sep] + b)[1..] == a[1..] + [sep] + b;
      assert [a[0]] + a[1..] == a;
    }
  }

  datatype Partition = Partition(name: Chars, found: bool, value: Chars)

  /** `s.partition(sep)` */
  function PartitionAt(s: Chars, sep: nat): Partition {
    if s == [] then Partition([], false, [])
    else if s[0] == sep then Partition([], true, s[1..])
    else
      var rest := PartitionAt(s[1..], sep);
      Partition([s[0]] + rest.name, rest.found, rest.value)
  }

  lemma {:induction false} PartitionFirst(a: Chars, sep: nat, b: Chars)
    requires sep !in a
    ensures PartitionAt(a + [sep] + b, sep) == Partition(a, true, b)
  {
    if a == [] {
      assert a + [sep] + b == [sep] + b;
    } else {
      PartitionFirst(a[1..], sep, b);
      assert (a + [sep] + b)[1..] == a[1..] + [sep] + b;
      assert [a[0]] + a[1..] == a;
    }
  }
}
