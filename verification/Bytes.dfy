/** Bytes, Go's fixed-width integers and the byte order of an ordered key-value store. */
module Bytes {

  datatype Option<+T> = None | Some(value: T)

  type byte = x: int | 0 <= x < 256

  const TWO_31: int := 0x8000_0000
  const TWO_32: int := 0x1_0000_0000
  const TWO_63: int := 0x8000_0000_0000_0000
  const TWO_64: int := 0x1_0000_0000_0000_0000

  /** A Go slice of bytes: its length is an int64. */
  type Buffer = s: seq<byte> | |s| < TWO_63

  type uint64 = x: int | 0 <= x < TWO_64
  type uint32 = x: int | 0 <= x < TWO_32
  type int64 = x: int | -TWO_63 <= x < TWO_63
  type int32 = x: int | -TWO_31 <= x < TWO_31

  /** Go's conversions keep the low bits. */
  function U64(x: int): uint64 { x % TWO_64 }

  function U32(x: int): uint32 { x % TWO_32 }

  function I64(x: int): int64 {
    if x % TWO_64 < TWO_63 then x % TWO_64 else x % TWO_64 - TWO_64
  }

  function I32(x: int): int32 {
    if x % TWO_32 < TWO_31 then x % TWO_32 else x % TWO_32 - TWO_32
  }

  /** q words and low bits: the conversions keep the low bits, read with or without a sign. */
  lemma ConversionsKeepLowBits(q: int, low: nat)
    ensures low < 0x1_0000_0000_0000_0000 ==> U64(q * 0x1_0000_0000_0000_0000 + low) == low
    ensures low < 0x1_0000_0000_0000_0000
            ==> I64(q * 0x1_0000_0000_0000_0000 + low) == if low < 0x8000_0000_0000_0000 then low else low - 0x1_0000_0000_0000_0000
    ensures low < 0x1_0000_0000 ==> U32(q * 0x1_0000_0000 + low) == low
    ensures low < 0x1_0000_0000 ==> I32(q * 0x1_0000_0000 + low) == if low < 0x8000_0000 then low else low - 0x1_0000_0000
  {}

  lemma I64Id(x: int)
    ensures -TWO_63 <= x < TWO_63 ==> I64(x) == x
    ensures TWO_63 <= x < TWO_64 ==> I64(x) < 0
  {}

  lemma U64Add(a: int, x: int)
    ensures U64(U64(a) + x) == U64(a + x)
  {}

  /** Conversion to uint64 and back, as the codec and the index keys do it. */
  lemma SignedBack(x: int64, y: int32)
    ensures I64(U64(x)) == x && (U64(x) == 0 <==> x == 0)
    ensures I32(U64(y)) == y && (U64(y) == 0 <==> y == 0)
  {}

  /** s with e written over it from index i on. */
  function Splice(s: seq<byte>, i: nat, e: seq<byte>): (r: seq<byte>)
    requires i + |e| <= |s|
    ensures |r| == |s|
  {
    s[..i] + e + s[i + |e|..]
  }

  lemma SpliceAt(s: seq<byte>, i: nat, e: seq<byte>, k: nat)
    requires i + |e| <= |s| && k < |s|
    ensures Splice(s, i, e)[k] == if i <= k < i + |e| then e[k - i] else s[k]
  {}

  lemma SpliceTwice(s: seq<byte>, i: nat, e: seq<byte>, f: seq<byte>)
    requires i + |e| + |f| <= |s|
    ensures Splice(Splice(s, i + |e|, f), i, e) == Splice(s, i, e + f)
    ensures Splice(Splice(s, i, e), i + |e|, f) == Splice(s, i, e + f)
  {}

  /** Lexicographic order: on byte strings, bytes.Compare(a, b) < 0. */
  predicate Less(a: seq<int>, b: seq<int>) {
    b != [] && (a == [] || a[0] < b[0] || (a[0] == b[0] && Less(a[1..], b[1..])))
  }

  /** The first difference decides; without one the shorter string is below the longer. */
  lemma {:induction false} LessMeans(a: seq<int>, b: seq<int>)
    ensures Less(a, b) <==> exists k: nat :: k <= |a| && k < |b| && a[..k] == b[..k] && (k == |a| || a[k] < b[k])
  {
    if b != [] && a == [] {
      assert a[..0] == b[..0];
    } else if b != [] && a[0] < b[0] {
      assert a[..0] == b[..0];
    } else if b != [] && a[0] == b[0] {
      LessMeans(a[1..], b[1..]);
      if Less(a, b) {
        var k: nat :| k <= |a[1..]| && k < |b[1..]| && a[1..][..k] == b[1..][..k] && (k == |a[1..]| || a[1..][k] < b[1..][k]);
        assert a[..k + 1] == [a[0]] + a[1..][..k] && b[..k + 1] == [b[0]] + b[1..][..k];
      }
      if k: nat :| k <= |a| && k < |b| && a[..k] == b[..k] && (k == |a| || a[k] < b[k]) {
        assert k > 0 && a[1..][..k - 1] == a[..k][1..] == b[..k][1..] == b[1..][..k - 1];
      }
    } else if b != [] {
      assert forall k: nat :: 0 < k <= |a| && k < |b| && a[..k] == b[..k] ==> a[..k][0] == b[..k][0];
    }
  }

  lemma LessIrreflexive(a: seq<int>)
    ensures !Less(a, a)
  {}

  lemma {:induction false} LessTransitive(a: seq<int>, b: seq<int>, c: seq<int>)
    requires Less(a, b) && Less(b, c)
    ensures Less(a, c)
  {
    if a != [] && a[0] == b[0] == c[0] {
      LessTransitive(a[1..], b[1..], c[1..]);
    }
  }

  lemma {:induction false} LessTotal(a: seq<int>, b: seq<int>)
    ensures Less(a, b) || a == b || Less(b, a)
  {
    if a != [] && b != [] && a[0] == b[0] {
      LessTotal(a[1..], b[1..]);
      assert a == [a[0]] + a[1..] && b == [b[0]] + b[1..];
    }
  }

  /** Lexicographic order compares equal-length prefixes first. */
  lemma {:induction false} LessConcat(a: seq<int>, a': seq<int>, b: seq<int>, b': seq<int>)
    requires |a| == |a'|
    ensures Less(a + b, a' + b') <==> Less(a, a') || (a == a' && Less(b, b'))
  {
    if a == [] {
      assert a + b == b && a' + b' == b';
    } else {
      LessConcat(a[1..], a'[1..], b, b');
      assert (a + b)[1..] == a[1..] + b && (a' + b')[1..] == a'[1..] + b';
      assert a == [a[0]] + a[1..] && a' == [a'[0]] + a'[1..];
    }
  }
}
