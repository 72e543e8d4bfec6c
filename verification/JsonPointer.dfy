/** Resolving JSON Pointers (RFC 6901) in frozen documents. */
module JsonPointer {
  import opened Text
  import opened Codecs
  import opened CanonicalJson

  const TILDE := 126
  const SLASH := 47
  const MAX_PATH_LENGTH := 4096
  /** The longest decimal text that Python converts to a number. */
  const MAX_DIGITS := 4300

  /** `Raises` is an exception that leaves the resolver. */
  datatype Resolved = Found(value: Json) | Missing | Raises

  // ---------------------------------------------------------------------
  // Tokens
  // ---------------------------------------------------------------------

  /** `s.replace(xy, z)` for a pattern of two characters. */
  function ReplacePair(s: Chars, x: nat, y: nat, z: nat): Chars {
    if s == [] then []
    else if |s| >= 2 && s[0] == x && s[1] == y then [z] + ReplacePair(s[2..], x, y, z)
    else [s[0]] + ReplacePair(s[1..], x, y, z)
  }

  /** The two passes of the resolver: first `~1`, then `~0`. */
  function Unescape(s: Chars): Chars {
    ReplacePair(ReplacePair(s, TILDE, 49, SLASH), TILDE, 48, TILDE)
  }

  /** Every tilde is followed by 0 or 1, and there is no slash. */
  predicate ValidToken(s: Chars) {
    s == []
    || (s[0] == TILDE && |s| >= 2 && (s[1] == 48 || s[1] == 49) && ValidToken(s[2..]))
    || (s[0] != TILDE && s[0] != SLASH && ValidToken(s[1..]))
  }

  /** The token decoded in one pass from left to right. */
  function DecodeToken(s: Chars): Chars
    requires ValidToken(s)
  {
    if s == [] then []
    else if s[0] == TILDE then [if s[1] == 48 then TILDE else SLASH] + DecodeToken(s[2..])
    else [s[0]] + DecodeToken(s[1..])
  }

  function EscapeToken(s: Chars): Chars {
    if s == [] then []
    else (if s[0] == TILDE then [TILDE, 48] else if s[0] == SLASH then [TILDE, 49] else [s[0]]) + EscapeToken(s[1..])
  }

  lemma ReplaceSkip(c: nat, s: Chars, x: nat, y: nat, z: nat)
    requires c != x || s == [] || s[0] != y
    ensures ReplacePair([c] + s, x, y, z) == [c] + ReplacePair(s, x, y, z)
  {
    assert ([c] + s)[1..] == s;
  }

  lemma ReplaceHit(s: Chars, x: nat, y: nat, z: nat)
    ensures ReplacePair([x, y] + s, x, y, z) == [z] + ReplacePair(s, x, y, z)
  {
    assert ([x, y] + s)[2..] == s;
  }

  lemma UnescapeOne(s: Chars)
    ensures Unescape([TILDE, 49] + s) == [SLASH] + Unescape(s)
  {
    ReplaceHit(s, TILDE, 49, SLASH);
    ReplaceSkip(SLASH, ReplacePair(s, TILDE, 49, SLASH), TILDE, 48, TILDE);
  }

  lemma UnescapeZero(s: Chars)
    ensures Unescape([TILDE, 48] + s) == [TILDE] + Unescape(s)
  {
    var t := ReplacePair(s, TILDE, 49, SLASH);
    assert [TILDE, 48] + s == [TILDE] + ([48] + s);
    ReplaceSkip(48, s, TILDE, 49, SLASH);
    ReplaceSkip(TILDE, [48] + s, TILDE, 49, SLASH);
    assert [TILDE] + ([48] + t) == [TILDE, 48] + t;
    ReplaceHit(t, TILDE, 48, TILDE);
  }

  lemma UnescapeOther(c: nat, s: Chars)
    requires c != TILDE
    ensures Unescape([c] + s) == [c] + Unescape(s)
  {
    ReplaceSkip(c, s, TILDE, 49, SLASH);
    ReplaceSkip(c, ReplacePair(s, TILDE, 49, SLASH), TILDE, 48, TILDE);
  }

  /** On every valid token the two passes agree with the single pass. */
  lemma {:induction false} TwoPassesDecode(s: Chars)
    requires ValidToken(s)
    ensures Unescape(s) == DecodeToken(s)
  {
    if s != [] {
      if s[0] == TILDE {
        TwoPassesDecode(s[2..]);
        assert s == [TILDE, s[1]] + s[2..];
        if s[1] == 48 { UnescapeZero(s[2..]); } else { UnescapeOne(s[2..]); }
      } else {
        TwoPassesDecode(s[1..]);
        assert s == [s[0]] + s[1..];
        UnescapeOther(s[0], s[1..]);
      }
    }
  }

  lemma {:induction false} EscapeRoundTrip(s: Chars)
    ensures ValidToken(EscapeToken(s)) && DecodeToken(EscapeToken(s)) == s && SLASH !in EscapeToken(s)
  {
    if s != [] {
      EscapeRoundTrip(s[1..]);
      var e, r := EscapeToken(s), EscapeToken(s[1..]);
      if s[0] == TILDE || s[0] == SLASH {
        assert e[2..] == r;
      } else {
        assert e[1..] == r;
      }
      assert [s[0]] + s[1..] == s;
    }
  }

  lemma {:induction false} DecodeRoundTrip(s: Chars)
    requires ValidToken(s)
    ensures EscapeToken(DecodeToken(s)) == s
  {
    if s != [] {
      var rest := if s[0] == TILDE then s[2..] else s[1..];
      DecodeRoundTrip(rest);
      assert DecodeToken(s)[1..] == DecodeToken(rest);
      assert s == (if s[0] == TILDE then [TILDE, s[1]] else [s[0]]) + rest;
    }
  }

  // ---------------------------------------------------------------------
  // Resolution
  // ---------------------------------------------------------------------

  function Lookup(ms: seq<Member>, key: Chars): Resolved {
    if ms == [] then Missing else if ms[0].key == key then Found(ms[0].value) else Lookup(ms[1..], key)
  }

  /** `(?:0|[1-9][0-9]*)` */
  predicate IsIndex(s: Chars) {
    s != [] && AllDigits(s) && (s[0] == 48 ==> |s| == 1)
  }

  /** One token applied to one node. */
  function Child(v: Json, token: Chars): Resolved {
    match v
    case Obj(ms) => Lookup(ms, token)
    case Arr(items) =>
      if !IsIndex(token) then Missing
      else if |token| > MAX_DIGITS then Raises
      else if DecimalValue(token) < |items| then Found(items[DecimalValue(token)])
      else Missing
    case _ => Missing
  }

  function Descend(v: Json, tokens: seq<Chars>): Resolved
    decreases |tokens|
  {
    if tokens == [] then Found(v)
    else
      var next := Child(v, Unescape(tokens[0]));
      if next.Found? then Descend(next.value, tokens[1..]) else next
  }

  function Tokens(pointer: Chars): seq<Chars> {
    if pointer == [] then [] else Split(pointer[1..], SLASH)
  }

  /** `_resolve_json_pointer` */
  method Resolve(root: Json, pointer: Chars) returns (r: Resolved)
    ensures r == Descend(root, Tokens(pointer))
  {
    if pointer == [] {
      return Found(root);
    }
    var tokens := Split(pointer[1..], SLASH);
    var current := root;
    for i := 0 to |tokens|
      invariant Descend(root, tokens) == Descend(current, tokens[i..])
    {
      var next := Child(current, Unescape(tokens[i]));
      assert tokens[i..][1..] == tokens[i + 1..];
      if !next.Found? {
        return next;
      }
      current := next.value;
    }
    return Found(current);
  }

  // ---------------------------------------------------------------------
  // Pointers and paths
  // ---------------------------------------------------------------------

  datatype Step = Key(key: Chars) | Index(position: nat)

  predicate IsChild(v: Json, step: Step, next: Json) {
    if step.Key? then v.Obj? && Member(step.key, next) in v.members
    else v.Arr? && step.position < |v.items| && v.items[step.position] == next
  }

  /** `node` is the node of `v` at `path`. */
  ghost predicate At(v: Json, path: seq<Step>, node: Json)
    decreases |path|
  {
    if path == [] then node == v else exists next :: IsChild(v, path[0], next) && At(next, path[1..], node)
  }

  /** No object of the document repeats a key. */
  predicate WellKeyed(v: Json) {
    match v
    case Obj(ms) => UniqueKeys(ms) && forall i :: 0 <= i < |ms| ==> WellKeyed(ms[i].value)
    case Arr(items) => forall i :: 0 <= i < |items| ==> WellKeyed(items[i])
    case _ => true
  }

  function TokenOf(step: Step): Chars {
    match step
    case Key(k) => EscapeToken(k)
    case Index(i) => Decimal(i)
  }

  function TokensOf(path: seq<Step>): seq<Chars> {
    if path == [] then [] else [TokenOf(path[0])] + TokensOf(path[1..])
  }

  function Join(tokens: seq<Chars>): Chars {
    if tokens == [] then [] else [SLASH] + tokens[0] + Join(tokens[1..])
  }

  /** The pointer to a path: every step escaped and preceded by a slash. */
  function PointerOf(path: seq<Step>): Chars {
    Join(TokensOf(path))
  }

  /** `(?:/(?:[^~/]|~0|~1)*)*`, up to a maximal length */
  predicate ValidPointer(pointer: Chars) {
    && |pointer| <= MAX_PATH_LENGTH
    && (pointer != [] ==> pointer[0] == SLASH)
    && forall i :: 0 <= i < |Tokens(pointer)| ==> ValidToken(Tokens(pointer)[i])
  }

  predicate ShortTokens(tokens: seq<Chars>) {
    forall i :: 0 <= i < |tokens| ==> |tokens[i]| <= MAX_DIGITS
  }

  lemma {:induction false} JoinLengths(tokens: seq<Chars>)
    ensures forall i :: 0 <= i < |tokens| ==> |tokens[i]| <= |Join(tokens)|
  {
    if tokens != [] {
      JoinLengths(tokens[1..]);
      forall i | 0 <= i < |tokens| ensures |tokens[i]| <= |Join(tokens)| {
        if i > 0 { assert tokens[i] == tokens[1..][i - 1]; }
      }
    }
  }

  lemma ValidIsShort(pointer: Chars)
    requires ValidPointer(pointer)
    ensures Join(Tokens(pointer)) == pointer && ShortTokens(Tokens(pointer))
  {
    if pointer != [] {
      JoinSplit(pointer[1..]);
      assert pointer == [pointer[0]] + pointer[1..];
    }
    JoinLengths(Tokens(pointer));
  }

  lemma {:induction false} UnescapeShortens(s: Chars)
    requires ValidToken(s)
    ensures |DecodeToken(s)| <= |s|
  {
    if s != [] { UnescapeShortens(if s[0] == TILDE then s[2..] else s[1..]); }
  }

  lemma LookupKinds(v: Json, token: Chars)
    ensures v.Obj? ==> Child(v, token) != Raises
  {
    if v.Obj? { LookupNeverRaises(v.members, token); }
  }

  lemma {:induction false} LookupNeverRaises(ms: seq<Member>, key: Chars)
    ensures Lookup(ms, key) != Raises
  {
    if ms != [] { LookupNeverRaises(ms[1..], key); }
  }

  /** An index with more digits than can be converted. */
  predicate LongIndex(token: Chars) {
    IsIndex(Unescape(token)) && |Unescape(token)| > MAX_DIGITS
  }

  predicate HasLongIndex(tokens: seq<Chars>) {
    exists i :: 0 <= i < |tokens| && LongIndex(tokens[i])
  }

  lemma {:induction false} RaisingIsLong(v: Json, tokens: seq<Chars>)
    requires Descend(v, tokens) == Raises
    ensures HasLongIndex(tokens)
    decreases |tokens|
  {
    LookupKinds(v, Unescape(tokens[0]));
    var next := Child(v, Unescape(tokens[0]));
    if next.Found? {
      RaisingIsLong(next.value, tokens[1..]);
      var i :| 0 <= i < |tokens[1..]| && LongIndex(tokens[1..][i]);
      assert LongIndex(tokens[i + 1]);
    } else {
      assert LongIndex(tokens[0]);
    }
  }

  /** Objects of one member lead to an array at the token in question. */
  lemma {:induction false} RaisingDocument(tokens: seq<Chars>, i: nat) returns (v: Json)
    requires i < |tokens| && LongIndex(tokens[i])
    ensures WellKeyed(v) && Descend(v, tokens) == Raises
    decreases i
  {
    if i == 0 {
      v := Arr([]);
    } else {
      assert tokens[1..][i - 1] == tokens[i];
      var rest := RaisingDocument(tokens[1..], i - 1);
      v := Obj([Member(Unescape(tokens[0]), rest)]);
    }
  }

  /** Some document makes the resolver raise if and only if some token is an index too long to convert. */
  lemma RaisesIff(pointer: Chars)
    ensures (exists root :: WellKeyed(root) && Descend(root, Tokens(pointer)) == Raises) <==>
      HasLongIndex(Tokens(pointer))
  {
    if root :| WellKeyed(root) && Descend(root, Tokens(pointer)) == Raises {
      RaisingIsLong(root, Tokens(pointer));
    }
    if i :| 0 <= i < |Tokens(pointer)| && LongIndex(Tokens(pointer)[i]) {
      var root := RaisingDocument(Tokens(pointer), i);
    }
  }

  /** A pointer of valid length has no such token, so that no document makes the resolver raise. */
  lemma ValidNeverRaises(root: Json, pointer: Chars)
    requires ValidPointer(pointer)
    ensures Descend(root, Tokens(pointer)) != Raises
  {
    ValidIsShort(pointer);
    if Descend(root, Tokens(pointer)) == Raises {
      RaisingIsLong(root, Tokens(pointer));
      var i :| 0 <= i < |Tokens(pointer)| && LongIndex(Tokens(pointer)[i]);
      TwoPassesDecode(Tokens(pointer)[i]);
      UnescapeShortens(Tokens(pointer)[i]);
      assert false;
    }
  }

  /** Without that bound it can: one digit more than can be converted. */
  lemma RaisesExample(token: Chars)
    requires IsIndex(token) && |token| == MAX_DIGITS + 1
    ensures Descend(Arr([]), Tokens([SLASH] + token)) == Raises
  {
    DigitsEscape(token);
    EscapeRoundTrip(token);
    TwoPassesDecode(token);
    SplitToken(token, []);
    assert [SLASH] + token + [] == [SLASH] + token;
    assert Tokens([SLASH] + token) == [token];
  }

  lemma SplitToken(t: Chars, rest: Chars)
    requires SLASH !in t && (rest != [] ==> rest[0] == SLASH)
    ensures Tokens([SLASH] + t + rest) == [t] + Tokens(rest)
  {
    assert ([SLASH] + t + rest)[1..] == t + rest;
    if rest == [] {
      SplitFirst(t, SLASH, []);
      assert t + rest == t;
    } else {
      SplitFirst(t, SLASH, rest[1..]);
      assert rest == [SLASH] + rest[1..];
      assert t + rest == t + [SLASH] + rest[1..];
    }
  }

  lemma {:induction false} SplitJoin(tokens: seq<Chars>)
    requires forall i :: 0 <= i < |tokens| ==> SLASH !in tokens[i]
    ensures Tokens(Join(tokens)) == tokens
  {
    if tokens != [] {
      SplitJoin(tokens[1..]);
      SplitToken(tokens[0], Join(tokens[1..]));
      assert tokens == [tokens[0]] + tokens[1..];
    }
  }

  lemma {:induction false} JoinSplit(s: Chars)
    ensures Join(Split(s, SLASH)) == [SLASH] + s
  {
    if s == [] {
      assert Split(s, SLASH) == [[]];
      assert Split(s, SLASH)[1..] == [];
    } else {
      JoinSplit(s[1..]);
      var rest, all := Split(s[1..], SLASH), Split(s, SLASH);
      assert Join(rest) == [SLASH] + rest[0] + Join(rest[1..]);
      if s[0] == SLASH {
        assert all[0] == [] && all[1..] == rest;
      } else {
        assert all[0] == [s[0]] + rest[0] && all[1..] == rest[1..];
        assert rest[0] + Join(rest[1..]) == s[1..] by {
          assert ([SLASH] + rest[0] + Join(rest[1..]))[1..] == rest[0] + Join(rest[1..]);
        }
      }
      assert s == [s[0]] + s[1..];
    }
  }

  lemma MemberFound(ms: seq<Member>, m: Member)
    requires UniqueKeys(ms) && m in ms
    ensures Lookup(ms, m.key) == Found(m.value)
  {
    if ms[0] != m {
      assert m in ms[1..];
      assert ms[0].key != m.key;
      MemberFound(ms[1..], m);
    }
  }

  lemma {:induction false} MemberIsThere(ms: seq<Member>, key: Chars)
    requires Lookup(ms, key).Found?
    ensures exists m :: m in ms && m.key == key && m.value == Lookup(ms, key).value
  {
    if ms[0].key == key {
      assert ms[0] in ms;
    } else {
      MemberIsThere(ms[1..], key);
      var m :| m in ms[1..] && m.key == key && m.value == Lookup(ms[1..], key).value;
      assert m in ms;
    }
  }

  lemma {:induction false} DigitsEscape(s: Chars)
    requires AllDigits(s)
    ensures EscapeToken(s) == s
  {
    if s != [] {
      assert IsDigit(s[0]);
      DigitsEscape(s[1..]);
      assert [s[0]] + s[1..] == s;
    }
  }

  /** What one token of a path does to the node it is applied to. */
  lemma StepDown(v: Json, step: Step, next: Json)
    requires WellKeyed(v) && IsChild(v, step, next) && |TokenOf(step)| <= MAX_DIGITS
    ensures Child(v, Unescape(TokenOf(step))) == Found(next) && WellKeyed(next)
  {
    match step
    case Key(k) =>
      EscapeRoundTrip(k);
      TwoPassesDecode(EscapeToken(k));
      MemberFound(v.members, Member(k, next));
    case Index(i) =>
      DecimalRoundTrip(i);
      DigitsEscape(Decimal(i));
      EscapeRoundTrip(Decimal(i));
      TwoPassesDecode(Decimal(i));
  }

  lemma {:induction false} PathResolves(v: Json, path: seq<Step>, node: Json)
    requires WellKeyed(v) && At(v, path, node) && ShortTokens(TokensOf(path))
    ensures Descend(v, TokensOf(path)) == Found(node)
    decreases |path|
  {
    if path != [] {
      var next :| IsChild(v, path[0], next) && At(next, path[1..], node);
      assert TokensOf(path)[1..] == TokensOf(path[1..]) && TokensOf(path)[0] == TokenOf(path[0]);
      StepDown(v, path[0], next);
      PathResolves(next, path[1..], node);
    }
  }

  /** What a token found belongs to a step whose text is the token itself. */
  lemma StepOf(v: Json, token: Chars) returns (step: Step)
    requires ValidToken(token) && Child(v, Unescape(token)).Found?
    ensures TokenOf(step) == token && IsChild(v, step, Child(v, Unescape(token)).value)
  {
    TwoPassesDecode(token);
    DecodeRoundTrip(token);
    var text := DecodeToken(token);
    if v.Obj? {
      step := Key(text);
      MemberIsThere(v.members, text);
    } else {
      step := Index(DecimalValue(text));
      DigitsPrint(text);
      DigitsEscape(text);
    }
  }

  lemma {:induction false} FoundHasPath(v: Json, tokens: seq<Chars>) returns (path: seq<Step>)
    requires Descend(v, tokens).Found? && forall i :: 0 <= i < |tokens| ==> ValidToken(tokens[i])
    ensures TokensOf(path) == tokens && At(v, path, Descend(v, tokens).value)
    decreases |tokens|
  {
    if tokens == [] {
      path := [];
    } else {
      var step := StepOf(v, tokens[0]);
      var next := Child(v, Unescape(tokens[0])).value;
      var rest := FoundHasPath(next, tokens[1..]);
      path := [step] + rest;
      assert path[1..] == rest;
      assert IsChild(v, path[0], next);
      assert tokens == [tokens[0]] + tokens[1..];
    }
  }

  lemma {:induction false} TokensHaveNoSlash(path: seq<Step>)
    ensures forall i :: 0 <= i < |TokensOf(path)| ==> SLASH !in TokensOf(path)[i]
  {
    if path != [] {
      TokensHaveNoSlash(path[1..]);
      if path[0].Key? { EscapeRoundTrip(path[0].key); }
      forall i | 0 <= i < |TokensOf(path)| ensures SLASH !in TokensOf(path)[i] {
        if i > 0 { assert TokensOf(path)[i] == TokensOf(path[1..])[i - 1]; }
      }
    }
  }

  /** Resolution is correct: a valid pointer finds a node if and only if it is the pointer to a path at which the
      document has that node. In particular the pointer to any path in a document finds the node there. */
  lemma ResolvesIff(root: Json, pointer: Chars, node: Json)
    requires WellKeyed(root) && ValidPointer(pointer)
    ensures Descend(root, Tokens(pointer)) == Found(node) <==>
      exists path :: At(root, path, node) && PointerOf(path) == pointer
  {
    ValidIsShort(pointer);
    if Descend(root, Tokens(pointer)) == Found(node) {
      var path := FoundHasPath(root, Tokens(pointer));
      assert PointerOf(path) == pointer;
    }
    if path :| At(root, path, node) && PointerOf(path) == pointer {
      TokensHaveNoSlash(path);
      SplitJoin(TokensOf(path));
      PathResolves(root, path, node);
    }
  }
}
