/** The context generator: the encoding of contexts, the keystream and random
    access into it, and rejection sampling. HMAC-SHA256 under the seed is any
    function to 32 bytes. */
module Generator {
  import opened Options
  import opened Text
  import opened Digits
  import opened Codecs

  const UINT64_MAX := 0xFFFF_FFFF_FFFF_FFFF
  const UINT32_MAX := 0xFFFF_FFFF

  /** "wrch-prng-v1" and a zero byte. */
  const DOMAIN: Bytes := [119, 114, 99, 104, 45, 112, 114, 110, 103, 45, 118, 49, 0]

  /** HMAC-SHA256 under the seed. */
  ghost predicate IsSeeded(mac: Bytes -> Bytes) {
    forall m :: IsDigest(mac(m))
  }

  // ---------------------------------------------------------------------
  // Contexts
  // ---------------------------------------------------------------------

  predicate ValidComponent(c: Chars) {
    c != [] && IsScalarText(c) && |Utf8(c)| <= UINT32_MAX
  }

  predicate ValidContext(context: seq<Chars>) {
    context != [] && forall i :: 0 <= i < |context| ==> ValidComponent(context[i])
  }

  function Component(c: Chars): Bytes {
    Encode(|Utf8(c)|, 256, 4) + Utf8(c)
  }

  function Components(context: seq<Chars>): Bytes {
    if context == [] then [] else Components(context[..|context| - 1]) + Component(context[|context| - 1])
  }

  /** `encode_context`; none is the raised error. */
  method EncodeContext(context: seq<Chars>) returns (r: Option<Bytes>)
    ensures r == if ValidContext(context) then Some(Components(context)) else None
  {
    if context == [] {
      return None;
    }
    var encoded: Bytes := [];
    for i := 0 to |context|
      invariant encoded == Components(context[..i])
      invariant forall j :: 0 <= j < i ==> ValidComponent(context[j])
    {
      if !ValidComponent(context[i]) {
        return None;
      }
      var text := Utf8(context[i]);
      encoded := encoded + Encode(|text|, 256, 4) + text;
      assert context[..i + 1][..i] == context[..i];
      assert Components(context[..i + 1]) == Components(context[..i]) + Component(context[i]);
    }
    assert context[..|context|] == context;
    return Some(encoded);
  }

  lemma LastComponent(front: seq<Chars>, last: Chars)
    ensures Components(front + [last]) == Components(front) + Component(last)
  {
    assert (front + [last])[..|front|] == front;
  }

  lemma {:induction false} FirstComponent(context: seq<Chars>)
    requires context != []
    ensures Components(context) == Component(context[0]) + Components(context[1..])
    decreases |context|
  {
    var front, last := context[..|context| - 1], context[|context| - 1];
    assert context == front + [last];
    LastComponent(front, last);
    if front != [] {
      FirstComponent(front);
      assert context[1..] == front[1..] + [last];
      LastComponent(front[1..], last);
    }
  }

  lemma SameComponent(c: Chars, d: Chars, x: Bytes, y: Bytes)
    requires ValidComponent(c) && ValidComponent(d) && Component(c) + x == Component(d) + y
    ensures c == d && x == y
  {
    var u, v := Component(c) + x, Component(d) + y;
    assert u[..4] == Encode(|Utf8(c)|, 256, 4) && v[..4] == Encode(|Utf8(d)|, 256, 4);
    PowFour();
    EncodeInjective(|Utf8(c)|, |Utf8(d)|, 256, 4);
    assert u[4..4 + |Utf8(c)|] == Utf8(c) && v[4..4 + |Utf8(d)|] == Utf8(d);
    Utf8Injective(c, d);
    assert u[4 + |Utf8(c)|..] == x && v[4 + |Utf8(d)|..] == y;
  }

  lemma PowFour()
    ensures Pow(256, 4) == UINT32_MAX + 1
  {
    assert Pow(256, 1) == 256;
    assert Pow(256, 2) == 256 * 256;
    assert Pow(256, 3) == 256 * 256 * 256;
  }

  lemma PowEight()
    ensures Pow(256, 8) == UINT64_MAX + 1
  {
    PowFour();
    assert Pow(256, 5) == Pow(256, 4) * 256;
    assert Pow(256, 6) == Pow(256, 5) * 256;
    assert Pow(256, 7) == Pow(256, 6) * 256;
  }

  /** No two valid contexts have the same encoding. */
  lemma {:induction false} ContextInjective(a: seq<Chars>, b: seq<Chars>)
    requires forall i :: 0 <= i < |a| ==> ValidComponent(a[i])
    requires forall i :: 0 <= i < |b| ==> ValidComponent(b[i])
    requires Components(a) == Components(b)
    ensures a == b
  {
    if a != [] { FirstComponent(a); }
    if b != [] { FirstComponent(b); }
    if a != [] && b != [] {
      SameComponent(a[0], b[0], Components(a[1..]), Components(b[1..]));
      ContextInjective(a[1..], b[1..]);
    }
  }

  // ---------------------------------------------------------------------
  // Messages
  // ---------------------------------------------------------------------

  function Message(encoded: Bytes, counter: nat): Bytes {
    DOMAIN + encoded + Encode(counter, 256, 8)
  }

  lemma DomainText()
    ensures DOMAIN == Ascii("wrch-prng-v1") + [0]
  {
  }

  /** A message is the domain separator, a zero byte, the context, and the counter in eight bytes, the most significant
      first. */
  lemma MessageShape(encoded: Bytes, counter: nat)
    ensures var m := Message(encoded, counter);
      && |m| == 13 + |encoded| + 8 && m[..13] == Ascii("wrch-prng-v1") + [0] && m[13..|m| - 8] == encoded
      && BigEndian(m[|m| - 8..], counter, 256)
  {
    var m := Message(encoded, counter);
    DomainText();
    assert m[|m| - 8..] == Encode(counter, 256, 8);
    EncodeBigEndian(counter, 256, 8);
  }

  /** A component is the length of its UTF-8 in four bytes, the most significant first, and the UTF-8. */
  lemma ComponentShape(c: Chars)
    ensures |Component(c)| == 4 + |Utf8(c)| && Component(c)[4..] == Utf8(c)
    ensures BigEndian(Component(c)[..4], |Utf8(c)|, 256)
  {
    assert Component(c)[..4] == Encode(|Utf8(c)|, 256, 4);
    EncodeBigEndian(|Utf8(c)|, 256, 4);
  }

  /** Distinct contexts or counters never give the same HMAC message. */
  lemma MessageInjective(a: seq<Chars>, i: nat, b: seq<Chars>, j: nat)
    requires ValidContext(a) && ValidContext(b) && i <= UINT64_MAX && j <= UINT64_MAX
    requires Message(Components(a), i) == Message(Components(b), j)
    ensures a == b && i == j
  {
    var x, y := Components(a), Components(b);
    var u, v := Message(x, i), Message(y, j);
    assert |x| == |y|;
    assert u[|DOMAIN|..|DOMAIN| + |x|] == x && v[|DOMAIN|..|DOMAIN| + |y|] == y;
    assert u[|DOMAIN| + |x|..] == Encode(i, 256, 8) && v[|DOMAIN| + |y|..] == Encode(j, 256, 8);
    PowEight();
    EncodeInjective(i, j, 256, 8);
    ContextInjective(a, b);
  }

  /** What each kind of draw puts in front of the caller's components. */
  datatype Purpose = Choice | Uuid | Ulid | Jitter | PlannedId

  function Root(p: Purpose): Chars {
    match p
    case Choice => [99, 104, 111, 105, 99, 101, 45, 105, 110, 100, 101, 120, 45, 118, 49]
    case Uuid => [117, 117, 105, 100, 45, 101, 110, 116, 114, 111, 112, 121, 45, 118, 49]
    case Ulid => [117, 108, 105, 100, 45, 101, 110, 116, 114, 111, 112, 121, 45, 118, 49]
    case Jitter => [114, 101, 116, 114, 121, 45, 106, 105, 116, 116, 101, 114]
    case PlannedId => [112, 108, 97, 110, 110, 101, 100, 45, 105, 100, 45, 118, 49]
  }

  lemma EntropyRoots()
    ensures Root(Uuid) == Ascii("uuid-entropy-v1") && Root(Ulid) == Ascii("ulid-entropy-v1")
  {
  }

  lemma ChoiceRoots()
    ensures Root(Choice) == Ascii("choice-index-v1") && Root(Jitter) == Ascii("retry-jitter")
  {
  }

  lemma PlannedRoot()
    ensures Root(PlannedId) == Ascii("planned-id-v1")
  {
  }

  function RootText(p: Purpose): string {
    match p
    case Choice => "choice-index-v1"
    case Uuid => "uuid-entropy-v1"
    case Ulid => "ulid-entropy-v1"
    case Jitter => "retry-jitter"
    case PlannedId => "planned-id-v1"
  }

  lemma RootTexts(p: Purpose)
    ensures Root(p) == Ascii(RootText(p))
  {
    EntropyRoots();
    ChoiceRoots();
    PlannedRoot();
  }

  lemma RootsDiffer(p: Purpose, q: Purpose)
    requires Root(p) == Root(q)
    ensures p == q
  {
    assert Root(p)[0] == Root(q)[0] && Root(p)[1] == Root(q)[1];
  }

  /** Draws for different purposes, or with different components, use disjoint messages. */
  lemma PurposesDisjoint(p: Purpose, a: seq<Chars>, i: nat, q: Purpose, b: seq<Chars>, j: nat)
    requires ValidContext([Root(p)] + a) && ValidContext([Root(q)] + b) && i <= UINT64_MAX && j <= UINT64_MAX
    requires Message(Components([Root(p)] + a), i) == Message(Components([Root(q)] + b), j)
    ensures p == q && a == b && i == j
  {
    MessageInjective([Root(p)] + a, i, [Root(q)] + b, j);
    assert ([Root(p)] + a)[0] == Root(p) && ([Root(q)] + b)[0] == Root(q);
    assert ([Root(p)] + a)[1..] == a && ([Root(q)] + b)[1..] == b;
    RootsDiffer(p, q);
  }

  // ---------------------------------------------------------------------
  // The keystream
  // ---------------------------------------------------------------------

  /** Byte `p` of the keystream of a context. */
  function StreamByte(mac: Bytes -> Bytes, encoded: Bytes, p: nat): nat
    requires IsSeeded(mac)
  {
    mac(Message(encoded, p / DIGEST_SIZE))[p % DIGEST_SIZE]
  }

  function Window(mac: Bytes -> Bytes, encoded: Bytes, offset: nat, length: nat): (w: Bytes)
    requires IsSeeded(mac)
    ensures |w| == length
  {
    seq<nat>(length, i requires 0 <= i < length => StreamByte(mac, encoded, offset + i))
  }

  function Blocks(mac: Bytes -> Bytes, encoded: Bytes, first: nat, count: nat): Bytes {
    if count == 0 then [] else Blocks(mac, encoded, first, count - 1) + mac(Message(encoded, first + count - 1))
  }

  lemma WindowSplit(mac: Bytes -> Bytes, encoded: Bytes, offset: nat, a: nat, b: nat)
    requires IsSeeded(mac)
    ensures Window(mac, encoded, offset, a + b) == Window(mac, encoded, offset, a) + Window(mac, encoded, offset + a, b)
  {
  }

  lemma BlockPosition(counter: nat, i: nat)
    requires i < DIGEST_SIZE
    ensures (DIGEST_SIZE * counter + i) / DIGEST_SIZE == counter && (DIGEST_SIZE * counter + i) % DIGEST_SIZE == i
  {
  }

  lemma BlockWindow(mac: Bytes -> Bytes, encoded: Bytes, counter: nat)
    requires IsSeeded(mac)
    ensures mac(Message(encoded, counter)) == Window(mac, encoded, DIGEST_SIZE * counter, DIGEST_SIZE)
  {
    var block, window := mac(Message(encoded, counter)), Window(mac, encoded, DIGEST_SIZE * counter, DIGEST_SIZE);
    assert IsDigest(block);
    forall i | 0 <= i < DIGEST_SIZE ensures block[i] == window[i] {
      BlockPosition(counter, i);
      assert window[i] == StreamByte(mac, encoded, DIGEST_SIZE * counter + i);
    }
  }

  lemma {:induction false} BlocksInStream(mac: Bytes -> Bytes, encoded: Bytes, first: nat, count: nat)
    requires IsSeeded(mac)
    ensures Blocks(mac, encoded, first, count) == Window(mac, encoded, DIGEST_SIZE * first, DIGEST_SIZE * count)
  {
    if count > 0 {
      BlocksInStream(mac, encoded, first, count - 1);
      BlockWindow(mac, encoded, first + count - 1);
      WindowSplit(mac, encoded, DIGEST_SIZE * first, DIGEST_SIZE * (count - 1), DIGEST_SIZE);
    }
  }

  /** `(n + 31) // 32` */
  function BlockCount(n: nat): nat {
    (n + DIGEST_SIZE - 1) / DIGEST_SIZE
  }

  /** `_stream_slice`; none is the exhausted counter space. */
  function StreamSlice(mac: Bytes -> Bytes, encoded: Bytes, offset: nat, length: nat): Option<Bytes>
    requires IsSeeded(mac)
  {
    var first := offset / DIGEST_SIZE;
    var count := BlockCount(offset + length) - first;
    if first > UINT64_MAX || count > UINT64_MAX - first + 1 then None
    else
      var stream := Blocks(mac, encoded, first, count);
      var start := offset % DIGEST_SIZE;
      BlocksInStream(mac, encoded, first, count);
      Some(stream[start..start + length])
  }

  /** The bytes that 64-bit counters can reach. */
  predicate InSpace(offset: nat, length: nat) {
    offset / DIGEST_SIZE <= UINT64_MAX && BlockCount(offset + length) <= UINT64_MAX + 1
  }

  /** Random access: a slice is the window of the keystream at its offset, across any block boundaries. */
  lemma SliceIsWindow(mac: Bytes -> Bytes, encoded: Bytes, offset: nat, length: nat)
    requires IsSeeded(mac)
    ensures StreamSlice(mac, encoded, offset, length) ==
      if InSpace(offset, length) then Some(Window(mac, encoded, offset, length)) else None
  {
    var first, start := offset / DIGEST_SIZE, offset % DIGEST_SIZE;
    var count := BlockCount(offset + length) - first;
    if InSpace(offset, length) {
      BlocksInStream(mac, encoded, first, count);
      var rest := DIGEST_SIZE * count - start - length;
      WindowSplit(mac, encoded, DIGEST_SIZE * first, start, length + rest);
      WindowSplit(mac, encoded, offset, length, rest);
      var a, b, c := Window(mac, encoded, DIGEST_SIZE * first, start), Window(mac, encoded, offset, length),
                     Window(mac, encoded, offset + length, rest);
      assert DIGEST_SIZE * first + start == offset;
      assert (a + (b + c))[start..start + length] == b;
    }
  }

  /** `draw_bytes`; none is a raised error. */
  method DrawBytes(mac: Bytes -> Bytes, context: seq<Chars>, length: nat) returns (r: Option<Bytes>)
    requires IsSeeded(mac)
    ensures r == if ValidContext(context) && BlockCount(length) <= UINT64_MAX + 1
                 then Some(Window(mac, Components(context), 0, length)) else None
  {
    var encoded := EncodeContext(context);
    if encoded == None {
      return None;
    }
    var count := BlockCount(length);
    if count > UINT64_MAX + 1 {
      return None;
    }
    var output: Bytes := [];
    for counter := 0 to count
      invariant output == Blocks(mac, encoded.value, 0, counter)
    {
      output := output + mac(Message(encoded.value, counter));
    }
    BlocksInStream(mac, encoded.value, 0, count);
    assert output[..length] == Window(mac, encoded.value, 0, length);
    return Some(output[..length]);
  }

  /** Drawing sequentially and slicing agree: the slice at `offset` is the end of the longer draw,
      and the shorter draw is its beginning. */
  lemma SequentialAndRandomAgree(mac: Bytes -> Bytes, encoded: Bytes, offset: nat, length: nat)
    requires IsSeeded(mac) && InSpace(offset, length)
    ensures StreamSlice(mac, encoded, offset, length) == Some(Window(mac, encoded, 0, offset + length)[offset..])
    ensures Window(mac, encoded, 0, offset) <= Window(mac, encoded, 0, offset + length)
  {
    SliceIsWindow(mac, encoded, offset, length);
    WindowSplit(mac, encoded, 0, offset, length);
    assert (Window(mac, encoded, 0, offset) + Window(mac, encoded, 0 + offset, length))[offset..]
        == Window(mac, encoded, offset, length);
  }
}
