/** Byte strings: lexicographic order, little-endian words, common prefixes. */
module Bytes {

  type byte = x: int | 0 <= x < 256

  type bytes = seq<byte>

  const WORD := 0x1_0000_0000

  // ---------- Lexicographic order ----------

  /** `a` comes strictly before `b` in byte order. */
  predicate Less(a: bytes, b: bytes) {
    b != [] && (a == [] || a[0] < b[0] || (a[0] == b[0] && Less(a[1..], b[1..])))
  }

  /** The first place where the keys part decides, the lesser byte or the ended key coming first. */
  lemma {:induction false} LessExactly(a: bytes, b: bytes)
    ensures Less(a, b) <==> exists k: nat :: PartsBelow(a, b, k)
  {
    if b != [] && a != [] && a[0] == b[0] {
      LessExactly(a[1..], b[1..]);
      forall k: nat | PartsBelow(a[1..], b[1..], k)
        ensures PartsBelow(a, b, k + 1)
      {
        assert a[..k + 1] == [a[0]] + a[1..][..k] && b[..k + 1] == [b[0]] + b[1..][..k];
      }
      forall k: nat | PartsBelow(a, b, k)
        ensures k > 0 && PartsBelow(a[1..], b[1..], k - 1)
      {
        assert a[1..][..k - 1] == a[..k][1..] && b[1..][..k - 1] == b[..k][1..];
      }
    } else if Less(a, b) {
      assert PartsBelow(a, b, 0) && a[..0] == [];
    } else {
      forall k: nat
        ensures !PartsBelow(a, b, k)
      {
        if 0 < k <= |a| && k < |b| {
          assert a[..k][0] == a[0] && b[..k][0] == b[0];
        }
      }
    }
  }

  /** The keys agree up to place `k`, where `a` has ended or has the lesser byte. */
  predicate PartsBelow(a: bytes, b: bytes, k: nat) {
    k <= |a| && k < |b| && a[..k] == b[..k] && (k == |a| || a[k] < b[k])
  }

  /** The sign of the first difference among the first `n` bytes. */
  function MemCmp(a: bytes, b: bytes, n: nat): int
    requires n <= |a| && n <= |b|
  {
    if n == 0 then 0
    else if a[0] != b[0] then a[0] - b[0]
    else MemCmp(a[1..], b[1..], n - 1)
  }

  /** Key comparison: the shared length first, then the shorter key first. */
  function KeyCompare(a: bytes, b: bytes): int {
    var n := if |a| < |b| then |a| else |b|;
    var c := MemCmp(a, b, n);
    if c != 0 then c
    else if |a| < |b| then -1
    else if |a| > |b| then 1
    else 0
  }

  /** Key comparison decides byte order. */
  lemma {:induction false} KeyCompareIsOrder(a: bytes, b: bytes)
    ensures KeyCompare(a, b) < 0 <==> Less(a, b)
    ensures KeyCompare(a, b) == 0 <==> a == b
    ensures KeyCompare(a, b) > 0 <==> Less(b, a)
  {
    if a != [] && b != [] && a[0] == b[0] {
      KeyCompareIsOrder(a[1..], b[1..]);
      assert a == [a[0]] + a[1..] && b == [b[0]] + b[1..];
    }
  }

  lemma {:induction false} LessTrans(a: bytes, b: bytes, c: bytes)
    requires Less(a, b) && Less(b, c)
    ensures Less(a, c)
  {
    if a != [] && a[0] == b[0] == c[0] {
      LessTrans(a[1..], b[1..], c[1..]);
    }
  }

  lemma LessIrreflexive(a: bytes)
    ensures !Less(a, a)
  {
    KeyCompareIsOrder(a, a);
  }

  lemma LessTotal(a: bytes, b: bytes)
    ensures Less(a, b) || a == b || Less(b, a)
  {
    KeyCompareIsOrder(a, b);
  }

  // ---------- Little-endian words ----------

  function Put32(x: nat): (b: bytes)
    requires x < WORD
    ensures |b| == 4
  {
    [x % 256, x / 256 % 256, x / 65536 % 256, x / 16777216]
  }

  function Get32(b: bytes): nat
    requires |b| == 4
  {
    (b[0] as int) + 256 * (b[1] as int) + 65536 * (b[2] as int) + 16777216 * (b[3] as int)
  }

  lemma Word32RoundTrip(x: nat)
    requires x < WORD
    ensures Get32(Put32(x)) == x
  {
    assert x == x % 256 + 256 * (x / 256);
    assert x / 256 == x / 256 % 256 + 256 * (x / 65536);
    assert x / 65536 == x / 65536 % 256 + 256 * (x / 16777216);
  }

  /** Four bytes read as a word are written back. */
  lemma Bytes32RoundTrip(b: bytes)
    requires |b| == 4
    ensures Get32(b) < WORD && Put32(Get32(b)) == b
  {
    var x, b0, b1, b2, b3 := Get32(b), b[0] as int, b[1] as int, b[2] as int, b[3] as int;
    var y := b1 + 256 * b2 + 65536 * b3;
    var z := b2 + 256 * b3;
    assert x == 256 * y + b0 && y == 256 * z + b1;
    LastDigit(x, y, b0);
    LastDigit(y, z, b1);
    LastDigit(z, b3, b2);
    assert x / 65536 == y / 256 && x / 16777216 == z / 256;
  }

  lemma LastDigit(x: nat, y: nat, d: byte)
    requires x == 256 * y + d
    ensures x % 256 == d && x / 256 == y
  {
  }

  /** The last `n` base-256 digits of a number, the least significant first. */
  function Digits(x: nat, n: nat): seq<byte> {
    if n == 0 then [] else [x % 256] + Digits(x / 256, n - 1)
  }

  /** A word stands in memory least significant byte first. */
  lemma Word32Digits(x: nat)
    requires x < WORD
    ensures Put32(x) == Digits(x, 4)
  {
    var y := x / 256;
    var z := y / 256;
    var w := z / 256;
    assert z == x / 65536 && w == x / 16777216;
    assert Digits(w, 1) == [w % 256] + Digits(w / 256, 0);
    assert Digits(z, 2) == [z % 256] + Digits(w, 1);
    assert Digits(y, 3) == [y % 256] + Digits(z, 2);
  }

  function Get32At(data: bytes, pos: nat): nat
    requires pos + 4 <= |data|
  {
    Get32(data[pos..pos + 4])
  }

  /** A slice of a part is a slice of the whole. */
  lemma SubSlice(data: bytes, pos: nat, part: bytes, a: nat, b: nat)
    requires pos + |part| <= |data| && data[pos..pos + |part|] == part && a <= b <= |part|
    ensures data[pos + a..pos + b] == part[a..b]
  {
    forall i | a <= i < b
      ensures data[pos + i] == part[i]
    {
      assert data[pos..pos + |part|][i] == part[i];
    }
    assert |data[pos + a..pos + b]| == |part[a..b]|;
  }

  // ---------- Common prefixes ----------

  function CommonPrefix(a: bytes, b: bytes): (n: nat)
    ensures n <= |a| && n <= |b| && a[..n] == b[..n]
    ensures n < |a| && n < |b| ==> a[n] != b[n]
  {
    if a == [] || b == [] || a[0] != b[0] then 0
    else
      var n := CommonPrefix(a[1..], b[1..]);
      assert a[..n + 1] == [a[0]] + a[1..][..n] && b[..n + 1] == [b[0]] + b[1..][..n];
      n + 1
  }

  // ---------- Copying into buffers ----------

  /** Copies `src` to `buf` at `offset`. */
  method PutBytes(buf: array<byte>, offset: nat, src: bytes)
    requires offset + |src| <= buf.Length
    modifies buf
    ensures buf[..offset + |src|] == old(buf[..offset]) + src
  {
    forall i | 0 <= i < |src| {
      buf[offset + i] := src[i];
    }
  }
}
