/** Composite keys: escaped strings joined by a separator byte; unique decoding and order. */
module CompositeKey {
  import opened Bytes

  const MAX_PARTS := 4

  // ---------- The encoding ----------

  function EscapedByte(c: byte): bytes {
    if c == 0x00 then [0x00, 0xFF] else if c == 0xFF then [0xFF, 0xFF] else [c]
  }

  function Escape(s: bytes): bytes {
    if s == [] then [] else EscapedByte(s[0]) + Escape(s[1..])
  }

  /** Parts joined by the separator byte. */
  function Joined(parts: seq<bytes>): bytes {
    if parts == [] then []
    else if |parts| == 1 then parts[0]
    else parts[0] + [0x00] + Joined(parts[1..])
  }

  function Escapes(tuple: seq<bytes>): (parts: seq<bytes>)
    ensures |parts| == |tuple|
  {
    seq(|tuple|, i requires 0 <= i < |tuple| => Escape(tuple[i]))
  }

  function KeyOf(tuple: seq<bytes>): bytes {
    Joined(Escapes(tuple))
  }

  /** Escaping goes byte by byte. */
  lemma {:induction false} EscapeConcat(a: bytes, b: bytes)
    ensures Escape(a + b) == Escape(a) + Escape(b)
  {
    if a == [] {
      assert a + b == b;
    } else {
      assert (a + b)[0] == a[0] && (a + b)[1..] == a[1..] + b;
      EscapeConcat(a[1..], b);
    }
  }

  /** The two bytes that are escaped get a 0xFF behind them. */
  lemma EscapeSpecial(c: byte)
    requires c == 0x00 || c == 0xFF
    ensures Escape([c]) == [c, 0xFF]
  {
    assert [c][1..] == [];
  }

  /** A string without those bytes is its own escape, and alone its own key. */
  lemma {:induction false} EscapePlain(s: bytes)
    requires 0x00 !in s && 0xFF !in s
    ensures Escape(s) == s && KeyOf([s]) == s
  {
    if s != [] {
      EscapePlain(s[1..]);
    }
  }

  /** Plain strings are joined by single zero bytes. */
  lemma {:induction false} PlainKey(s: bytes, rest: seq<bytes>)
    requires 0x00 !in s && 0xFF !in s && rest != []
    ensures KeyOf([s] + rest) == s + [0x00] + KeyOf(rest)
  {
    EscapePlain(s);
    var tuple := [s] + rest;
    assert Escapes(tuple)[1..] == Escapes(rest);
  }

  /** How many bytes of the string are escaped. */
  function Specials(s: bytes): nat {
    if s == [] then 0
    else Specials(s[..|s| - 1]) + if s[|s| - 1] == 0x00 || s[|s| - 1] == 0xFF then 1 else 0
  }

  /** The lengths of the strings and the numbers of their escaped bytes together. */
  function EscapedLengths(tuple: seq<bytes>): nat {
    if tuple == [] then 0 else |tuple[0]| + Specials(tuple[0]) + EscapedLengths(tuple[1..])
  }

  lemma {:induction false} EscapeLength(s: bytes)
    ensures |Escape(s)| == |s| + Specials(s)
  {
    if s != [] {
      var init, c := s[..|s| - 1], s[|s| - 1];
      assert s == init + [c];
      EscapeConcat(init, [c]);
      EscapeLength(init);
      if c == 0x00 || c == 0xFF {
        EscapeSpecial(c);
      } else {
        EscapePlain([c]);
      }
    }
  }

  /** A key is as long as its strings, with one byte more for each escaped byte and between two strings. */
  lemma {:induction false} KeyLength(tuple: seq<bytes>)
    requires tuple != []
    ensures |KeyOf(tuple)| == EscapedLengths(tuple) + |tuple| - 1
  {
    EscapeLength(tuple[0]);
    if |tuple| > 1 {
      KeyLength(tuple[1..]);
      assert Escapes(tuple[1..]) == Escapes(tuple)[1..];
    } else {
      assert tuple[1..] == [];
    }
  }

  // ---------- Tokens ----------

  /** A tuple of strings as one sequence of characters and separators. */
  datatype Token = Sep | Ch(c: byte)

  function Encode(t: Token): bytes {
    match t
    case Sep => [0x00]
    case Ch(c) => EscapedByte(c)
  }

  function EncodeAll(ts: seq<Token>): bytes {
    if ts == [] then [] else Encode(ts[0]) + EncodeAll(ts[1..])
  }

  function Tokens(tuple: seq<bytes>): seq<Token>
    requires tuple != []
    decreases |tuple|, |tuple[0]|
  {
    if tuple[0] != [] then [Ch(tuple[0][0])] + Tokens([tuple[0][1..]] + tuple[1..])
    else if |tuple| == 1 then []
    else [Sep] + Tokens(tuple[1..])
  }

  lemma JoinedStep(part: bytes, more: bytes, rest: seq<bytes>)
    ensures Joined([more + part] + rest) == more + Joined([part] + rest)
  {
    if rest == [] {
    } else {
      assert ([more + part] + rest)[1..] == rest == ([part] + rest)[1..];
    }
  }

  /** The key is the encoding of the tuple's tokens. */
  lemma {:induction false} KeyIsEncoding(tuple: seq<bytes>)
    requires tuple != []
    ensures KeyOf(tuple) == EncodeAll(Tokens(tuple))
    decreases |tuple|, |tuple[0]|
  {
    var parts := Escapes(tuple);
    if tuple[0] != [] {
      var shorter := [tuple[0][1..]] + tuple[1..];
      KeyIsEncoding(shorter);
      assert Escapes(shorter) == [Escape(tuple[0][1..])] + parts[1..];
      JoinedStep(Escape(tuple[0][1..]), EscapedByte(tuple[0][0]), parts[1..]);
      assert parts == [EscapedByte(tuple[0][0]) + Escape(tuple[0][1..])] + parts[1..];
    } else if |tuple| > 1 {
      KeyIsEncoding(tuple[1..]);
      assert Escapes(tuple[1..]) == parts[1..];
    }
  }

  function Untoken(ts: seq<Token>): (tuple: seq<bytes>)
    ensures tuple != []
  {
    if ts == [] then [[]]
    else
      var rest := Untoken(ts[1..]);
      match ts[0]
      case Sep => [[]] + rest
      case Ch(c) => [[c] + rest[0]] + rest[1..]
  }

  lemma {:induction false} UntokenTokens(tuple: seq<bytes>)
    requires tuple != []
    ensures Untoken(Tokens(tuple)) == tuple
    decreases |tuple|, |tuple[0]|
  {
    if tuple[0] != [] {
      var shorter := [tuple[0][1..]] + tuple[1..];
      UntokenTokens(shorter);
      assert shorter[0] == tuple[0][1..] && shorter[1..] == tuple[1..];
      assert tuple[0] == [tuple[0][0]] + tuple[0][1..];
      assert tuple == [tuple[0]] + tuple[1..];
    } else if |tuple| > 1 {
      UntokenTokens(tuple[1..]);
      assert tuple == [[]] + tuple[1..];
    }
  }

  // ---------- Runs of 0xFF ----------

  function LeadingFF(s: bytes): nat {
    if s != [] && s[0] == 0xFF then 1 + LeadingFF(s[1..]) else 0
  }

  function LeadingFFTokens(ts: seq<Token>): nat {
    if ts != [] && ts[0] == Ch(0xFF) then 1 + LeadingFFTokens(ts[1..]) else 0
  }

  /** Encoded characters and separators start with an even run of 0xFF. */
  lemma {:induction false} RunIsEven(ts: seq<Token>)
    ensures LeadingFF(EncodeAll(ts)) == 2 * LeadingFFTokens(ts)
  {
    if ts != [] && ts[0] == Ch(0xFF) {
      RunIsEven(ts[1..]);
      var e := EncodeAll(ts);
      assert e[1..][1..] == EncodeAll(ts[1..]);
    }
  }

  lemma {:induction false} TokensRun(tuple: seq<bytes>)
    requires tuple != []
    ensures LeadingFFTokens(Tokens(tuple)) == LeadingFF(tuple[0])
    decreases |tuple[0]|
  {
    if tuple[0] != [] {
      TokensRun([tuple[0][1..]] + tuple[1..]);
    }
  }

  // ---------- Unique decoding ----------

  /** Equal encodings come from equal tokens: after a zero byte an odd run of 0xFF means an escaped zero, an even one a separator. */
  lemma {:induction false} EncodingInjective(p: seq<Token>, q: seq<Token>)
    requires EncodeAll(p) == EncodeAll(q)
    ensures p == q
  {
    if p != [] && q != [] {
      var e, f := EncodeAll(p), EncodeAll(q);
      FirstTokens(p, q);
      assert e[|Encode(p[0])|..] == EncodeAll(p[1..]) && f[|Encode(q[0])|..] == EncodeAll(q[1..]);
      EncodingInjective(p[1..], q[1..]);
    }
  }

  lemma FirstByte(ts: seq<Token>)
    requires ts != []
    ensures EncodeAll(ts) != [] && EncodeAll(ts)[0] == match ts[0] case Sep => 0 case Ch(c) => c
  {
  }

  lemma FirstTokens(p: seq<Token>, q: seq<Token>)
    requires p != [] && q != [] && EncodeAll(p) == EncodeAll(q)
    ensures p[0] == q[0]
  {
    hide EncodeAll;
    FirstByte(p);
    FirstByte(q);
    if p[0] == Sep && q[0] == Ch(0) {
      ZeroTails(p, q);
    } else if p[0] == Ch(0) && q[0] == Sep {
      ZeroTails(q, p);
    }
  }

  lemma ZeroTails(p: seq<Token>, q: seq<Token>)
    requires p != [] && q != [] && p[0] == Sep && q[0] == Ch(0)
    ensures EncodeAll(p) != EncodeAll(q)
    ensures EncodeAll(p) == [0x00] + EncodeAll(p[1..]) && EncodeAll(q) == [0x00] + ([0xFF] + EncodeAll(q[1..]))
  {
    hide EncodeAll;
    EncodeFirst(p);
    EncodeFirst(q);
    SepIsNotZero(p[1..], q[1..]);
    var a: bytes, b: bytes := EncodeAll(p[1..]), [0xFF] + EncodeAll(q[1..]);
    var x: bytes, y: bytes := [0x00] + a, [0x00] + b;
    assert y == [0x00, 0xFF] + EncodeAll(q[1..]);
    assert x[1..] == a && y[1..] == b;
  }

  lemma EncodeFirst(ts: seq<Token>)
    requires ts != []
    ensures EncodeAll(ts) == Encode(ts[0]) + EncodeAll(ts[1..])
  {
  }

  /** What follows a separator and what follows an escaped zero's first byte differ in the parity of their first run. */
  lemma SepIsNotZero(p: seq<Token>, q: seq<Token>)
    ensures EncodeAll(p) != [0xFF] + EncodeAll(q)
  {
    RunIsEven(p);
    RunIsEven(q);
    var odd: bytes := [0xFF] + EncodeAll(q);
    assert odd[1..] == EncodeAll(q);
    assert LeadingFF(odd) == 1 + 2 * LeadingFFTokens(q);
  }

  /** Different tuples have different keys. */
  lemma KeyInjective(a: seq<bytes>, b: seq<bytes>)
    requires a != [] && b != [] && KeyOf(a) == KeyOf(b)
    ensures a == b
  {
    KeyIsEncoding(a);
    KeyIsEncoding(b);
    EncodingInjective(Tokens(a), Tokens(b));
    UntokenTokens(a);
    UntokenTokens(b);
  }

  // ---------- Order ----------

  /** Tuples in componentwise lexicographic order. */
  predicate TupleLess(a: seq<bytes>, b: seq<bytes>) {
    b != [] && (a == [] || Less(a[0], b[0]) || (a[0] == b[0] && TupleLess(a[1..], b[1..])))
  }

  /** The first components that differ are a string and an extension of it by a zero byte, and the component after the
      former starts with more 0xFF bytes than follow that zero byte in the latter. */
  predicate Inverted(a: seq<bytes>, b: seq<bytes>) {
    a != [] && b != [] &&
    if a[0] == b[0] then Inverted(a[1..], b[1..])
    else a[0] < b[0] && b[0][|a[0]|] == 0x00 && |a| > 1 && LeadingFF(a[1]) > LeadingFF(b[0][|a[0]| + 1..])
  }

  function Rank(t: Token): int {
    match t
    case Sep => -1
    case Ch(c) => c
  }

  predicate TokensLess(p: seq<Token>, q: seq<Token>) {
    q != [] && (p == [] || Rank(p[0]) < Rank(q[0]) || (p[0] == q[0] && TokensLess(p[1..], q[1..])))
  }

  predicate TokensInverted(p: seq<Token>, q: seq<Token>) {
    p != [] && q != [] &&
    if p[0] == q[0] then TokensInverted(p[1..], q[1..])
    else p[0] == Sep && q[0] == Ch(0) && LeadingFFTokens(p[1..]) > LeadingFFTokens(q[1..])
  }

  lemma {:induction false} LessCancel(c: bytes, x: bytes, y: bytes)
    ensures Less(c + x, c + y) <==> Less(x, y)
  {
    if c == [] {
      assert c + x == x && c + y == y;
    } else {
      LessCancel(c[1..], x, y);
      assert (c + x)[1..] == c[1..] + x && (c + y)[1..] == c[1..] + y;
    }
  }

  lemma {:induction false} ShorterRunLess(x: bytes, y: bytes)
    requires LeadingFF(x) < LeadingFF(y)
    ensures Less(x, y)
  {
    if x != [] && x[0] == 0xFF {
      ShorterRunLess(x[1..], y[1..]);
    }
  }

  lemma LessAsymmetric(a: bytes, b: bytes)
    requires Less(a, b)
    ensures !Less(b, a) && a != b
  {
    KeyCompareIsOrder(a, b);
  }

  /** A separator against an escaped zero: the encodings are in token order unless the first run is longer. */
  lemma ZeroOrder(p: seq<Token>, q: seq<Token>)
    requires p != [] && q != [] && p[0] == Sep && q[0] == Ch(0)
    ensures Less(EncodeAll(p), EncodeAll(q)) <==> LeadingFFTokens(p[1..]) <= LeadingFFTokens(q[1..])
  {
    hide EncodeAll, LeadingFFTokens;
    var x := EncodeAll(p[1..]);
    var y: bytes := [0xFF] + EncodeAll(q[1..]);
    ZeroTails(p, q);
    LessCancel([0x00], x, y);
    RunIsEven(p[1..]);
    RunIsEven(q[1..]);
    assert y[1..] == EncodeAll(q[1..]);
    if LeadingFF(x) < LeadingFF(y) {
      ShorterRunLess(x, y);
    } else {
      ShorterRunLess(y, x);
      LessAsymmetric(y, x);
    }
  }

  lemma {:induction false} EncodingOrder(p: seq<Token>, q: seq<Token>)
    requires TokensLess(p, q)
    ensures Less(EncodeAll(p), EncodeAll(q)) <==> !TokensInverted(p, q)
  {
    FirstByte(q);
    if p != [] {
      FirstByte(p);
      if p[0] == q[0] {
        LessCancel(Encode(p[0]), EncodeAll(p[1..]), EncodeAll(q[1..]));
        EncodingOrder(p[1..], q[1..]);
      } else if p[0] == Sep && q[0] == Ch(0) {
        ZeroOrder(p, q);
      }
    }
  }

  /** Order and inversion of tuples are those of their tokens. */
  lemma {:induction false} TokensOrder(a: seq<bytes>, b: seq<bytes>)
    requires a != [] && b != []
    ensures TupleLess(a, b) <==> TokensLess(Tokens(a), Tokens(b))
    ensures Inverted(a, b) <==> TokensInverted(Tokens(a), Tokens(b))
    decreases |a|, |a[0]|
  {
    if a[0] != [] && b[0] != [] {
      if a[0][0] == b[0][0] {
        TokensOrder([a[0][1..]] + a[1..], [b[0][1..]] + b[1..]);
        SameFirst(a, b);
      }
    } else if a[0] == [] && b[0] == [] {
      if |a| > 1 && |b| > 1 {
        TokensOrder(a[1..], b[1..]);
      }
    } else if a[0] == [] && |a| > 1 {
      TokensRun(a[1..]);
      TokensRun([b[0][1..]] + b[1..]);
    }
  }

  lemma SameFirst(a: seq<bytes>, b: seq<bytes>)
    requires a != [] && b != [] && a[0] != [] && b[0] != [] && a[0][0] == b[0][0]
    ensures var a', b' := [a[0][1..]] + a[1..], [b[0][1..]] + b[1..];
            (TupleLess(a, b) <==> TupleLess(a', b')) && (Inverted(a, b) <==> Inverted(a', b'))
  {
    var x, y := a[0][1..], b[0][1..];
    assert a[0] == [a[0][0]] + x && b[0] == [b[0][0]] + y;
    assert ([x] + a[1..])[1..] == a[1..] && ([y] + b[1..])[1..] == b[1..];
    assert x < y <==> a[0] < b[0];
    if x < y {
      assert b[0][|a[0]| + 1..] == y[|x| + 1..];
    }
  }

  /** Byte order is tuple order exactly when the pair is not inverted. */
  lemma KeyOrder(a: seq<bytes>, b: seq<bytes>)
    requires a != [] && b != [] && TupleLess(a, b)
    ensures Less(KeyOf(a), KeyOf(b)) <==> !Inverted(a, b)
  {
    KeyIsEncoding(a);
    KeyIsEncoding(b);
    TokensOrder(a, b);
    EncodingOrder(Tokens(a), Tokens(b));
  }

  predicate LaterStartFree(tuple: seq<bytes>) {
    forall i :: 0 < i < |tuple| ==> tuple[i] == [] || tuple[i][0] != 0xFF
  }

  lemma {:induction false} NotInverted(a: seq<bytes>, b: seq<bytes>)
    requires LaterStartFree(a)
    ensures !Inverted(a, b)
  {
    if a != [] && b != [] && a[0] == b[0] {
      NotInverted(a[1..], b[1..]);
    }
  }

  lemma {:induction false} TupleTotal(a: seq<bytes>, b: seq<bytes>)
    ensures TupleLess(a, b) || a == b || TupleLess(b, a)
    ensures !(TupleLess(a, b) && TupleLess(b, a)) && !TupleLess(a, a)
  {
    if a != [] {
      LessIrreflexive(a[0]);
      TupleTotal(a[1..], if b != [] then b[1..] else []);
      if b != [] {
        KeyCompareIsOrder(a[0], b[0]);
        assert a == [a[0]] + a[1..] && b == [b[0]] + b[1..];
      }
    }
  }

  /** If no component after the first begins with 0xFF, keys compare as their tuples do. */
  lemma KeyOrderAgrees(a: seq<bytes>, b: seq<bytes>)
    requires a != [] && b != [] && LaterStartFree(a) && LaterStartFree(b)
    ensures Less(KeyOf(a), KeyOf(b)) <==> TupleLess(a, b)
  {
    hide KeyOf, TupleLess, LaterStartFree;
    TupleTotal(a, b);
    NotInverted(a, b);
    NotInverted(b, a);
    if TupleLess(a, b) {
      KeyOrder(a, b);
    } else if TupleLess(b, a) {
      KeyOrder(b, a);
      LessAsymmetric(KeyOf(b), KeyOf(a));
    } else {
      LessIrreflexive(KeyOf(a));
    }
  }

  /** The pair ("", 0xFF) comes before (0x00), but its key comes after. */
  lemma OrderCanFail()
    ensures TupleLess([[], [0xFF]], [[0x00]]) && Less(KeyOf([[0x00]]), KeyOf([[], [0xFF]]))
  {
    var a: seq<bytes>, b: seq<bytes> := [[], [0xFF]], [[0x00]];
    assert TupleLess(a, b) && Inverted(a, b);
    KeyOrder(a, b);
    KeyInjectiveOrLess(a, b);
  }

  lemma KeyInjectiveOrLess(a: seq<bytes>, b: seq<bytes>)
    requires a != [] && b != [] && a != b
    ensures Less(KeyOf(a), KeyOf(b)) || Less(KeyOf(b), KeyOf(a))
  {
    LessTotal(KeyOf(a), KeyOf(b));
    if KeyOf(a) == KeyOf(b) {
      KeyInjective(a, b);
    }
  }

  // ---------- The builder ----------

  /** Writes one byte, escaped if need be. */
  method PutEscaped(escaped: array<byte>, outPos: nat, c: byte) returns (next: nat)
    requires outPos + 2 <= escaped.Length
    modifies escaped
    ensures outPos < next <= outPos + 2 && escaped[..next] == old(escaped[..outPos]) + EscapedByte(c)
  {
    if c == 0x00 {
      escaped[outPos] := 0x00;
      escaped[outPos + 1] := 0xFF;
      next := outPos + 2;
    } else if c == 0xFF {
      escaped[outPos] := 0xFF;
      escaped[outPos + 1] := 0xFF;
      next := outPos + 2;
    } else {
      escaped[outPos] := c;
      next := outPos + 1;
    }
  }

  /** Escapes byte after byte into a buffer of twice the length. */
  method EscapeString(str: bytes) returns (part: bytes)
    ensures part == Escape(str)
  {
    hide Escape, EscapedByte;
    assert str[0..] == str;
    var escaped := new byte[|str| * 2 + 1](_ => 0);
    var outPos: nat, i: nat := 0, 0;
    while i < |str|
      invariant 0 <= i <= |str| && outPos <= 2 * i
      invariant escaped[..outPos] + Escape(str[i..]) == Escape(str)
    {
      ghost var done := escaped[..outPos];
      EscapeFrom(str, i);
      Regroup(done, EscapedByte(str[i]), Escape(str[i + 1..]));
      outPos := PutEscaped(escaped, outPos, str[i]);
      i := i + 1;
    }
    EscapeEnd(str);
    part := escaped[..outPos];
    assert part + [] == part;
  }

  lemma Regroup(a: bytes, b: bytes, c: bytes)
    ensures a + (b + c) == (a + b) + c
  {
  }

  class CompositeKeyBuilder {
    var parts: seq<bytes>

    constructor ()
      ensures parts == []
    {
      parts := [];
    }

    /** Adds a string component, escaped. */
    method AddString(str: bytes) returns (ok: bool)
      modifies this
      ensures ok == (|old(parts)| < 4)
      ensures parts == old(parts) + if ok then [Escape(str)] else []
    {
      if |parts| >= MAX_PARTS {
        return false;
      }
      var part := EscapeString(str);
      parts := parts + [part];
      ok := true;
    }

    /** Writes the key to the buffer and empties the builder. */
    method Build(buf: array<byte>) returns (len: nat)
      requires |Joined(parts)| <= buf.Length
      modifies this, buf
      ensures len == |old(Joined(parts))| && buf[..len] == old(Joined(parts)) && parts == []
    {
      hide Joined;
      len := 0;
      var i := 0;
      NothingJoined();
      ghost var all := parts;
      assert all[..0] == [] && all[..|all|] == all;
      while i < |parts|
        invariant 0 <= i <= |parts| && parts == all && len <= buf.Length
        invariant buf[..len] == Joined(all[..i])
      {
        JoinedGrows(all, i);
        if i > 0 {
          buf[len] := 0x00;
          len := len + 1;
        }
        PutBytes(buf, len, parts[i]);
        len := len + |parts[i]|;
        i := i + 1;
      }
      parts := [];
    }
  }

  lemma EscapeFrom(s: bytes, i: nat)
    requires i < |s|
    ensures Escape(s[i..]) == EscapedByte(s[i]) + Escape(s[i + 1..])
  {
    assert s[i..][1..] == s[i + 1..];
  }

  lemma EscapeEnd(s: bytes)
    ensures Escape(s[|s|..]) == []
  {
  }

  lemma NothingJoined()
    ensures Joined([]) == []
  {
  }

  lemma {:induction false} JoinedGrows(parts: seq<bytes>, i: nat)
    requires i < |parts|
    ensures Joined(parts[..i + 1]) == Joined(parts[..i]) + (if i > 0 then [0x00] else []) + parts[i]
    ensures |Joined(parts[..i + 1])| <= |Joined(parts)|
  {
    if i == 0 {
      assert parts[..1] == [parts[0]];
    } else {
      JoinedGrows(parts[1..], i - 1);
      assert parts[1..][..i] == parts[..i + 1][1..] && parts[1..][..i - 1] == parts[..i][1..];
    }
  }

  /** Strings added to an empty builder come out as their key. */
  method BuildKey(tuple: seq<bytes>, buf: array<byte>) returns (len: nat)
    requires |tuple| <= MAX_PARTS && |KeyOf(tuple)| <= buf.Length
    modifies buf
    ensures len == |KeyOf(tuple)| && buf[..len] == KeyOf(tuple)
    ensures len == if tuple == [] then 0 else EscapedLengths(tuple) + |tuple| - 1
    ensures forall s :: tuple == [s] && 0x00 !in s && 0xFF !in s ==> buf[..len] == s
  {
    var b := new CompositeKeyBuilder();
    var i := 0;
    while i < |tuple|
      invariant 0 <= i <= |tuple| && fresh(b) && b.parts == Escapes(tuple)[..i]
      modifies b
    {
      var ok := b.AddString(tuple[i]);
      i := i + 1;
    }
    assert Escapes(tuple)[..|tuple|] == Escapes(tuple);
    len := b.Build(buf);
    if tuple != [] {
      KeyLength(tuple);
      if |tuple| == 1 && 0x00 !in tuple[0] && 0xFF !in tuple[0] {
        EscapePlain(tuple[0]);
      }
    }
  }
}
