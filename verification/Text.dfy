/** Text as sequences of code points, bytes as sequences of numbers below 256,
    and the codes between them. */
module Text {

  type Chars = seq<nat>

  type Bytes = seq<nat>

  /** The code points of a text written out. */
  function Ascii(s: string): (r: Chars)
    ensures |r| == |s| && forall i :: 0 <= i < |s| ==> r[i] == s[i] as nat
  {
    seq(|s|, i requires 0 <= i < |s| => s[i] as nat)
  }

  predicate IsSurrogate(c: nat) {
    0xD800 <= c <= 0xDFFF
  }

  predicate IsScalar(c: nat) {
    c < 0x110000 && !IsSurrogate(c)
  }

  predicate IsScalarText(s: Chars) {
    forall i :: 0 <= i < |s| ==> IsScalar(s[i])
  }

  // ---------------------------------------------------------------------
  // Codes in which no word begins another
  // ---------------------------------------------------------------------

  function Spell(f: nat -> seq<nat>, s: Chars): seq<nat> {
    if s == [] then [] else f(s[0]) + Spell(f, s[1..])
  }

  ghost predicate PrefixFree(f: nat -> seq<nat>, ok: nat -> bool) {
    && (forall c :: ok(c) ==> f(c) != [])
    && (forall c, d :: ok(c) && ok(d) && f(c) <= f(d) ==> c == d)
  }

  lemma SameWord(f: nat -> seq<nat>, ok: nat -> bool, c: nat, d: nat, x: seq<nat>, y: seq<nat>)
    requires PrefixFree(f, ok) && ok(c) && ok(d) && f(c) + x == f(d) + y
    ensures c == d && x == y
  {
    var u := f(c) + x;
    assert u[..|f(c)|] == f(c) && u[..|f(d)|] == f(d);
    assert f(c) <= f(d) || f(d) <= f(c);
    assert x == u[|f(c)|..] && y == u[|f(d)|..];
  }

  lemma {:induction false} SpellInjective(f: nat -> seq<nat>, ok: nat -> bool, s: Chars, t: Chars)
    requires PrefixFree(f, ok) && Spell(f, s) == Spell(f, t)
    requires forall i :: 0 <= i < |s| ==> ok(s[i])
    requires forall i :: 0 <= i < |t| ==> ok(t[i])
    ensures s == t
  {
    assert (s != [] ==> ok(s[0]) && f(s[0]) != []) && (t != [] ==> ok(t[0]) && f(t[0]) != []);
    if s != [] {
      SameWord(f, ok, s[0], t[0], Spell(f, s[1..]), Spell(f, t[1..]));
      SpellInjective(f, ok, s[1..], t[1..]);
    }
  }

  // ---------------------------------------------------------------------
  // UTF-8 and UTF-16
  // ---------------------------------------------------------------------

  function Utf8Of(c: nat): Bytes {
    if c < 0x80 then [c]
    else if c < 0x800 then [0xC0 + c / 0x40, 0x80 + c % 0x40]
    else if c < 0x10000 then [0xE0 + c / 0x1000, 0x80 + c / 0x40 % 0x40, 0x80 + c % 0x40]
    else [0xF0 + c / 0x40000, 0x80 + c / 0x1000 % 0x40, 0x80 + c / 0x40 % 0x40, 0x80 + c % 0x40]
  }

  function Utf8(s: Chars): Bytes {
    Spell(Utf8Of, s)
  }

  function Utf16BeOf(c: nat): Bytes {
    if c < 0x10000 then [c / 0x100, c % 0x100]
    else
      var high, low := 0xD800 + (c - 0x10000) / 0x400, 0xDC00 + (c - 0x10000) % 0x400;
      [high / 0x100, high % 0x100, low / 0x100, low % 0x100]
  }

  function Utf16Be(s: Chars): Bytes {
    Spell(Utf16BeOf, s)
  }

  /** One character of every length, as the table in section 3 of RFC 3629 and the surrogates of RFC 2781 have it. */
  lemma EncodedExamples()
    ensures Utf8Of(0x41) == [0x41] && Utf8Of(0xE9) == [0xC3, 0xA9] && Utf8Of(0x20AC) == [0xE2, 0x82, 0xAC]
    ensures Utf8Of(0x1F600) == [0xF0, 0x9F, 0x98, 0x80]
    ensures Utf16BeOf(0x20AC) == [0x20, 0xAC] && Utf16BeOf(0x1F600) == [0xD8, 0x3D, 0xDE, 0x00]
  {
  }

  /** The code point that a UTF-8 word stands for. */
  function Utf8Value(w: Bytes): int {
    var at := (i: nat) => if i < |w| then w[i] as int else 0;
    match |w|
    case 1 => at(0)
    case 2 => at(0) * 0x40 + at(1) - 0x3080
    case 3 => at(0) * 0x1000 + at(1) * 0x40 + at(2) - 0xE2080
    case 4 => at(0) * 0x40000 + at(1) * 0x1000 + at(2) * 0x40 + at(3) - 0x3C82080
    case _ => -1
  }

  lemma Utf8RoundTrip(c: nat)
    ensures Utf8Value(Utf8Of(c)) == c
  {
    assert c / 0x40 / 0x40 == c / 0x1000;
    assert c / 0x1000 / 0x40 == c / 0x40000;
  }

  predicate Utf8Lead(b: nat, length: nat) {
    match length
    case 1 => b < 0x80
    case 2 => 0xC0 <= b < 0xE0
    case 3 => 0xE0 <= b < 0xF0
    case _ => 0xF0 <= b
  }

  lemma Utf8Words(c: nat, d: nat)
    requires IsScalar(c) && IsScalar(d) && Utf8Of(c) <= Utf8Of(d)
    ensures c == d
  {
    var u, v := Utf8Of(c), Utf8Of(d);
    assert Utf8Lead(u[0], |u|) && Utf8Lead(v[0], |v|) && u[0] == v[0];
    assert u == v;
    Utf8RoundTrip(c);
    Utf8RoundTrip(d);
  }

  /** The code point that a UTF-16 word stands for. */
  function Utf16Value(w: Bytes): int {
    var at := (i: nat) => if i < |w| then w[i] as int else 0;
    if |w| == 2 then at(0) * 0x100 + at(1)
    else (at(0) * 0x100 + at(1) - 0xD800) * 0x400 + (at(2) * 0x100 + at(3) - 0xDC00) + 0x10000
  }

  lemma Utf16RoundTrip(c: nat)
    ensures Utf16Value(Utf16BeOf(c)) == c
  {
  }

  lemma Utf16Words(c: nat, d: nat)
    requires IsScalar(c) && IsScalar(d) && Utf16BeOf(c) <= Utf16BeOf(d)
    ensures c == d
  {
    var u, v := Utf16BeOf(c), Utf16BeOf(d);
    assert (|u| == 4 <==> 0xD8 <= u[0] <= 0xDB) && (|v| == 4 <==> 0xD8 <= v[0] <= 0xDB);
    assert u[0] == v[0];
    assert u == v;
    Utf16RoundTrip(c);
    Utf16RoundTrip(d);
  }

  lemma Utf8Injective(s: Chars, t: Chars)
    requires IsScalarText(s) && IsScalarText(t) && Utf8(s) == Utf8(t)
    ensures s == t
  {
    forall c, d | IsScalar(c) && IsScalar(d) && Utf8Of(c) <= Utf8Of(d) ensures c == d {
      Utf8Words(c, d);
    }
    SpellInjective(Utf8Of, IsScalar, s, t);
  }

  lemma Utf16Injective(s: Chars, t: Chars)
    requires IsScalarText(s) && IsScalarText(t) && Utf16Be(s) == Utf16Be(t)
    ensures s == t
  {
    forall c, d | IsScalar(c) && IsScalar(d) && Utf16BeOf(c) <= Utf16BeOf(d) ensures c == d {
      Utf16Words(c, d);
    }
    SpellInjective(Utf16BeOf, IsScalar, s, t);
  }

  // ---------------------------------------------------------------------
  // Decimal numbers
  // ---------------------------------------------------------------------

  predicate IsDigit(c: nat) {
    48 <= c <= 57
  }

  /** `str(n)` of a nonnegative integer. */
  function Decimal(n: nat): (s: Chars)
    ensures |s| >= 1 && forall i :: 0 <= i < |s| ==> IsDigit(s[i])
    ensures s[0] == 48 ==> n == 0 && |s| == 1
  {
    if n < 10 then [48 + n] else Decimal(n / 10) + [48 + n % 10]
  }

  /** `int(s)` of a run of decimal digits. */
  function DecimalValue(s: Chars): nat
    requires forall i :: 0 <= i < |s| ==> IsDigit(s[i])
  {
    if s == [] then 0
    else
      assert IsDigit(s[|s| - 1]);
      10 * DecimalValue(s[..|s| - 1]) + (s[|s| - 1] - 48)
  }

  lemma {:induction false} DecimalRoundTrip(n: nat)
    ensures DecimalValue(Decimal(n)) == n
  {
    if n < 10 {
      assert Decimal(n)[..0] == [];
    } else {
      DecimalRoundTrip(n / 10);
      assert Decimal(n)[..|Decimal(n)| - 1] == Decimal(n / 10);
    }
  }

  /** How many digits a text begins with. */
  function DigitRun(s: seq<nat>): (n: nat)
    ensures n <= |s| && forall i :: 0 <= i < n ==> IsDigit(s[i])
  {
    if s != [] && IsDigit(s[0]) then 1 + DigitRun(s[1..]) else 0
  }

  lemma {:induction false} DigitRunOf(a: Chars, x: seq<nat>)
    requires (forall i :: 0 <= i < |a| ==> IsDigit(a[i])) && (x != [] ==> !IsDigit(x[0]))
    ensures DigitRun(a + x) == |a|
  {
    if a != [] {
      DigitRunOf(a[1..], x);
      assert (a + x)[1..] == a[1..] + x;
    } else {
      assert a + x == x;
    }
  }

  /** A number followed by no further digit can be read off the text. */
  lemma DecimalTerminated(m: nat, n: nat, x: seq<nat>, y: seq<nat>)
    requires Decimal(m) + x == Decimal(n) + y
    requires (x != [] ==> !IsDigit(x[0])) && (y != [] ==> !IsDigit(y[0]))
    ensures m == n && x == y
  {
    var a, b := Decimal(m), Decimal(n);
    DigitRunOf(a, x);
    DigitRunOf(b, y);
    assert (a + x)[..|a|] == a && (b + y)[..|b|] == b && (a + x)[|a|..] == x && (b + y)[|b|..] == y;
    DecimalRoundTrip(m);
    DecimalRoundTrip(n);
  }
}
