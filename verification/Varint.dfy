/** Base-128 varints: the writer, the size function and the reader of the generated codec. */
module Varint {
  import opened Base256
  import opened Bytes

  datatype Error =
    | IntOverflow
    | UnexpectedEOF
    | InvalidLength
    | UnexpectedEndOfGroup
    | IllegalWireType
    | EndGroupForNonGroup
    | IllegalTag
    | WrongWireType

  function Pow2(n: nat): (p: nat)
    ensures p > 0
  {
    if n == 0 then 1 else 2 * Pow2(n - 1)
  }

  lemma Pow2Plus7(n: nat)
    ensures Pow2(n + 7) == 128 * Pow2(n)
  {
    assert Pow2(n + 7) == 2 * Pow2(n + 6) == 4 * Pow2(n + 5) == 8 * Pow2(n + 4);
    assert Pow2(n + 4) == 2 * Pow2(n + 3) == 4 * Pow2(n + 2) == 8 * Pow2(n + 1);
  }

  // ----- the meaning of a byte string, and the canonical byte string of a number -----

  /** The number denoted by a little-endian string of base-128 digits; the top bit of each byte is ignored. */
  function Base128(bs: seq<byte>): nat {
    if bs == [] then 0 else bs[0] % 128 + 128 * Base128(bs[1..])
  }

  /** Every byte but the last carries a continuation bit. */
  predicate Terminated(bs: seq<byte>) {
    bs != [] && (if |bs| == 1 then bs[0] < 128 else bs[0] >= 128 && Terminated(bs[1..]))
  }

  function EncodeVarint(v: nat): (bs: seq<byte>)
    decreases v
  {
    if v < 128 then [v] else [v % 128 + 128] + EncodeVarint(v / 128)
  }

  lemma {:induction false} EncodeDenotes(v: nat)
    ensures Terminated(EncodeVarint(v))
    ensures Base128(EncodeVarint(v)) == v
    decreases v
  {
    if v < 128 {
      assert Base128(EncodeVarint(v)[1..]) == 0;
    } else {
      EncodeDenotes(v / 128);
      assert EncodeVarint(v)[1..] == EncodeVarint(v / 128);
    }
  }

  /** 300, the example of the Protocol Buffers encoding specification, section "Base 128 Varints". */
  lemma EncodeExample()
    ensures EncodeVarint(300) == [0xAC, 0x02] && EncodeVarint(0) == [0] && EncodeVarint(127) == [127]
  {}

  /** No terminated string denoting v is shorter than the one the writer produces. */
  lemma {:induction false} EncodeIsShortest(bs: seq<byte>, v: nat)
    requires Terminated(bs) && Base128(bs) == v
    ensures |EncodeVarint(v)| <= |bs|
    ensures |EncodeVarint(v)| == |bs| ==> bs == EncodeVarint(v)
  {
    if |bs| == 1 {
      assert Base128(bs[1..]) == 0;
    } else {
      assert v / 128 == Base128(bs[1..]) && v % 128 == bs[0] % 128;
      EncodeIsShortest(bs[1..], v / 128);
      assert bs == [bs[0]] + bs[1..];
    }
  }

  lemma {:induction false} Base128Append(bs: seq<byte>, b: byte)
    ensures Base128(bs + [b]) == Base128(bs) + b % 128 * Pow2(7 * |bs|)
  {
    if bs == [] {
      assert bs + [b] == [b];
      assert Base128([b][1..]) == 0;
    } else {
      var p := Pow2(7 * |bs[1..]|);
      Base128Append(bs[1..], b);
      assert (bs + [b])[1..] == bs[1..] + [b];
      Pow2Plus7(7 * |bs[1..]|);
      assert 128 * (b % 128 * p) == b % 128 * (128 * p);
    }
  }

  // ----- size -----

  /** bits.Len64 */
  function BitLen(x: nat): nat {
    if x == 0 then 0 else 1 + BitLen(x / 2)
  }

  /** (bits.Len64(x|1) + 6) / 7 */
  function Sov(x: nat): nat {
    (BitLen(if x % 2 == 0 then x + 1 else x) + 6) / 7
  }

  lemma BitLenShift7(x: nat)
    requires x >= 128
    ensures BitLen(x) == 7 + BitLen(x / 128)
  {
    var a := x / 2;
    var b := a / 2;
    var c := b / 2;
    assert BitLen(x) == 1 + BitLen(a) && BitLen(a) == 1 + BitLen(b) && BitLen(b) == 1 + BitLen(c);
    var d := c / 2;
    var e := d / 2;
    var f := e / 2;
    assert BitLen(c) == 1 + BitLen(d) && BitLen(d) == 1 + BitLen(e) && BitLen(e) == 1 + BitLen(f);
    assert BitLen(f) == 1 + BitLen(f / 2);
    assert f / 2 == x / 128;
  }

  lemma BitLenSmall(x: nat)
    requires 0 < x < 128
    ensures 1 <= BitLen(x) <= 7
  {}

  lemma {:induction false} BitLenOr1(x: nat)
    requires x > 0 && x % 2 == 0
    ensures BitLen(x + 1) == BitLen(x)
  {}

  /** The size the generated Size method computes is the number of bytes the writer emits. */
  lemma {:induction false} SovIsLength(v: nat)
    ensures Sov(v) == |EncodeVarint(v)|
    decreases v
  {
    if v < 128 {
      BitLenSmall(if v % 2 == 0 then v + 1 else v);
    } else {
      SovIsLength(v / 128);
      BitLenShift7(v);
      if v % 2 == 0 { BitLenOr1(v); }
      if v / 128 % 2 == 0 { BitLenOr1(v / 128); }
    }
  }

  lemma {:induction false} EncodeLengthBound(v: nat, k: nat)
    requires v < Pow2(7 * k) && k > 0
    ensures |EncodeVarint(v)| <= k
    decreases k
  {
    if v >= 128 {
      if k == 1 {
        Pow2Plus7(0);
        assert false;
      }
      Pow2Plus7(7 * (k - 1));
      EncodeLengthBound(v / 128, k - 1);
    }
  }

  /** A 64-bit value takes at most ten bytes. */
  lemma Encode64Length(v: uint64)
    ensures 1 <= |EncodeVarint(v)| <= 10
  {
    Pow2Plus7(0); Pow2Plus7(7); Pow2Plus7(14); Pow2Plus7(21); Pow2Plus7(28);
    Pow2Plus7(35); Pow2Plus7(42); Pow2Plus7(49); Pow2Plus7(56); Pow2Plus7(63);
    EncodeLengthBound(v, 10);
  }

  // ----- reading -----

  /** What one varint loop does to its accumulator and its index: the digits gathered so far are
      kept even when the loop gives up. */
  datatype Scan = Scan(raw: nat, used: nat, err: Option<Error>)

  /** The varint at the front of s, of which k bytes were consumed before. */
  function ReadVarint(s: seq<byte>, k: nat): (r: Scan)
    ensures r.used <= |s|
    ensures r.err.None? ==> r.used >= 1
  {
    if 7 * k >= 64 then Scan(0, 0, Some(IntOverflow))
    else if s == [] then Scan(0, 0, Some(UnexpectedEOF))
    else if s[0] < 128 then Scan(s[0], 1, None)
    else
      var r := ReadVarint(s[1..], k + 1);
      Scan(s[0] % 128 + 128 * r.raw, 1 + r.used, r.err)
  }

  /** The reader accepts exactly the terminated strings of at most ten bytes and stops right after
      the first of them. */
  lemma {:induction false} ReadAccepts(s: seq<byte>, n: nat, k: nat)
    requires n <= |s|
    ensures Terminated(s[..n]) && n + k <= 10 <==> ReadVarint(s, k).err.None? && ReadVarint(s, k).used == n
    ensures Terminated(s[..n]) && n + k <= 10 ==> ReadVarint(s, k).raw == Base128(s[..n])
    decreases |s|
  {
    if 7 * k < 64 && n > 0 {
      if s[0] < 128 {
        if n == 1 { assert Base128(s[..1][1..]) == 0; }
      } else {
        ReadAccepts(s[1..], n - 1, k + 1);
        assert s[..n][1..] == s[1..][..n - 1];
      }
    }
  }

  /** Bytes after a varint, or after an error that is not a premature end, do not matter to the reader. */
  lemma {:induction false} ReadExtend(s: seq<byte>, t: seq<byte>, k: nat)
    requires ReadVarint(s, k).err != Some(UnexpectedEOF)
    ensures ReadVarint(s + t, k) == ReadVarint(s, k)
  {
    if 7 * k < 64 && s[0] >= 128 {
      ReadExtend(s[1..], t, k + 1);
      assert (s + t)[1..] == s[1..] + t;
    }
  }

  /** The reader gives back what the writer wrote, whatever follows. */
  lemma ReadEncoded(v: uint64, t: seq<byte>)
    ensures ReadVarint(EncodeVarint(v) + t, 0) == Scan(v, |EncodeVarint(v)|, None)
  {
    var e := EncodeVarint(v);
    EncodeDenotes(v);
    Encode64Length(v);
    assert (e + t)[..|e|] == e;
    ReadAccepts(e + t, |e|, 0);
  }

  // ----- or-ing in digits -----

  /** Bitwise or. */
  function Or(x: nat, y: nat): nat
    decreases x + y
  {
    if x == 0 && y == 0 then 0 else 2 * Or(x / 2, y / 2) + if x % 2 == 1 || y % 2 == 1 then 1 else 0
  }

  lemma {:induction false} OrZero(y: nat)
    ensures Or(0, y) == y && Or(y, 0) == y
  {
    if y > 0 { OrZero(y / 2); }
  }

  /** Or-ing in bits above all that are set is addition. */
  lemma {:induction false} OrIsAdd(x: nat, y: nat, k: nat)
    requires x < Pow2(k)
    ensures Or(x, y * Pow2(k)) == x + y * Pow2(k)
  {
    if k == 0 {
      OrZero(y);
    } else {
      var p := Pow2(k - 1);
      assert Pow2(k) == 2 * p;
      OrIsAdd(x / 2, y, k - 1);
      hide Or, Pow2;
      Twice(y, p);
      OrDouble(x, y * p);
    }
  }

  lemma Twice(y: nat, p: nat)
    ensures y * (2 * p) == 2 * (y * p)
  {}

  lemma OrDouble(x: nat, z: nat)
    ensures Or(x, 2 * z) == 2 * Or(x / 2, z) + x % 2
  {}

  lemma {:induction false} PowSum(m: nat, n: nat)
    ensures Pow2(m + n) == Pow2(m) * Pow2(n)
  {
    if m > 0 { PowSum(m - 1, n); }
  }

  /** A digit shifted into a word keeps its low bits; the rest of the word is free for what is below it. */
  lemma ShiftedDigit(x: nat, d: nat, p: nat, q: nat)
    requires x < p && q > 0
    ensures d * p % (p * q) == d % q * p
    ensures (x + d * p) % (p * q) == x + d % q * p
  {
    var r := d % q * p;
    assert d % q * p <= (q - 1) * p;
    assert d * p == p * q * (d / q) + r by {
      assert d == q * (d / q) + d % q;
      assert (q * (d / q) + d % q) * p == p * q * (d / q) + d % q * p;
    }
    ModUnique(d * p, p * q, d / q, r);
    ModUnique(x + d * p, p * q, d / q, x + r);
  }

  /** Go's x |= d << shift on a word of some width, where all bits of x are below shift; a shift beyond the
      width leaves nothing of the digit. */
  lemma OrShifted(x: nat, d: nat, shift: nat, width: nat)
    requires x < Pow2(shift) && x < Pow2(width)
    ensures Or(x, d * Pow2(shift) % Pow2(width)) == (x + d * Pow2(shift)) % Pow2(width)
  {
    hide Pow2, Or;
    if shift <= width {
      PowSum(shift, width - shift);
      ShiftedDigit(x, d, Pow2(shift), Pow2(width - shift));
      OrIsAdd(x, d % Pow2(width - shift), shift);
    } else {
      PowSum(width, shift - width);
      OrZero(x);
      Beyond(x, d, Pow2(width), Pow2(shift - width));
    }
  }

  lemma Beyond(x: nat, d: nat, m: nat, q: nat)
    requires x < m
    ensures d * (m * q) % m == 0 && (x + d * (m * q)) % m == x
  {
    assert d * (m * q) == m * (d * q);
    ModUnique(d * (m * q), m, d * q, 0);
    ModUnique(x + d * (m * q), m, d * q, x);
  }

  // ----- the loop -----

  function Modulus(bits: int): (m: nat)
    ensures m > 0
  {
    if bits == 32 then TWO_32 else TWO_64
  }

  lemma Doubled(n: nat, p: nat)
    requires Pow2(n) == p
    ensures Pow2(n + n) == p * p
  {
    hide Pow2;
    PowSum(n, n);
  }

  lemma ModulusIsPow2(bits: nat)
    requires bits == 32 || bits == 64
    ensures Modulus(bits) == Pow2(bits)
  {
    assert Pow2(4) == 16;
    hide Pow2;
    Doubled(4, 16);
    Doubled(8, 256);
    Doubled(16, 65536);
    Doubled(32, TWO_32);
  }

  lemma ModAdd(a: int, x: int, bits: int)
    requires bits == 32 || bits == 64
    ensures (a % Modulus(bits) + x) % Modulus(bits) == (a + x) % Modulus(bits)
  {}

  lemma {:induction false} DigitsBound(bs: seq<byte>)
    ensures Base128(bs) < Pow2(7 * |bs|)
  {
    if bs != [] {
      DigitsBound(bs[1..]);
      Pow2Plus7(7 * |bs[1..]|);
    }
  }

  lemma {:induction false} ReadPrefix(s: seq<byte>, n: nat, k: nat)
    requires n <= |s| && forall j :: 0 <= j < n ==> s[j] >= 128
    requires n + k <= 10
    ensures var r := ReadVarint(s[n..], k + n);
            ReadVarint(s, k).used == n + r.used && ReadVarint(s, k).err == r.err &&
            (r.used == 0 ==> ReadVarint(s, k).raw == Base128(s[..n])) &&
            (r.used == 1 && r.err.None? ==> ReadVarint(s, k).raw == Base128(s[..n + 1]))
    decreases n
  {
    if n == 0 {
      assert s[0..] == s;
      if s != [] { assert Base128(s[..1][1..]) == 0; }
    } else {
      ReadPrefix(s[1..], n - 1, k + 1);
      assert s[1..][n - 1..] == s[n..];
      assert s[..n][1..] == s[1..][..n - 1];
      if n < |s| { assert s[..n + 1][1..] == s[1..][..n]; }
    }
  }

  /** The three ways the loop can end after n continuation bytes. */
  lemma ReadStops(s: seq<byte>, n: nat)
    requires n <= |s| && n <= 10 && forall j :: 0 <= j < n ==> s[j] >= 128
    ensures n == 10 ==> ReadVarint(s, 0) == Scan(Base128(s[..n]), n, Some(IntOverflow))
    ensures n == |s| < 10 ==> ReadVarint(s, 0) == Scan(Base128(s[..n]), n, Some(UnexpectedEOF))
    ensures n < |s| && n < 10 && s[n] < 128 ==> ReadVarint(s, 0) == Scan(Base128(s[..n + 1]), n + 1, None)
  {
    hide Base128;
    ReadPrefix(s, n, 0);
  }

  lemma DigitStep(s: seq<byte>, n: nat, bits: nat)
    requires n < |s| && (bits == 32 || bits == 64)
    ensures var acc, shifted := Base128(s[..n]) % Modulus(bits), s[n] % 128 * Pow2(7 * n) % Modulus(bits);
            Or(acc, shifted) == Base128(s[..n + 1]) % Modulus(bits)
  {
    var acc, d := Base128(s[..n]) % Modulus(bits), s[n] % 128;
    DigitsBound(s[..n]);
    Base128Append(s[..n], s[n]);
    assert s[..n + 1] == s[..n] + [s[n]];
    ModulusIsPow2(bits);
    hide Base128, Pow2, Or;
    ModAdd(Base128(s[..n]), d * Pow2(7 * n), bits);
    hide Modulus;
    ModAtMost(Base128(s[..n]), Pow2(bits));
    OrShifted(acc, d, 7 * n, bits);
  }

  lemma ModAtMost(x: nat, m: nat)
    requires m > 0
    ensures x % m <= x && x % m < m
  {}

  /** The varint loop of Unmarshal, accumulating into a variable of the given width. */
  method DecodeVarint(d: Buffer, start: nat, bits: nat) returns (acc: nat, next: nat, err: Option<Error>)
    requires start <= |d| && (bits == 32 || bits == 64)
    ensures var r := ReadVarint(d[start..], 0);
            acc == r.raw % Modulus(bits) && next == start + r.used && err == r.err
  {
    hide Base128, ReadVarint, Pow2, Or;
    acc, next, err := 0, start, None;
    var shift := 0;
    ghost var n, s := 0, d[start..];
    assert acc == Base128(s[..0]) % Modulus(bits) by { EmptyDenotesZero(s[..0]); }
    while true
      invariant shift == 7 * n && next == start + n <= |d| && n <= 10
      invariant forall j :: 0 <= j < n ==> s[j] >= 128
      invariant acc == Base128(s[..n]) % Modulus(bits)
      decreases |d| - next
    {
      ReadStops(s, n);
      if shift >= 64 {
        err := Some(IntOverflow);
        return;
      }
      if next >= |d| {
        err := Some(UnexpectedEOF);
        return;
      }
      var b := d[next];
      DigitStep(s, n, bits);
      next := next + 1;
      acc := Or(acc, b % 128 * Pow2(shift) % Modulus(bits));
      if b < 128 {
        return;
      }
      shift := shift + 7;
      n := n + 1;
    }
  }

  lemma EmptyDenotesZero(bs: seq<byte>)
    requires bs == []
    ensures Base128(bs) == 0
  {}

  /** encodeVarint: writes v just before offset, touches nothing else and returns where it starts. */
  method PutVarint(a: array<byte>, offset: nat, v: uint64) returns (base: nat)
    requires Sov(v) <= offset <= a.Length
    modifies a
    ensures base == offset - Sov(v) && Sov(v) == |EncodeVarint(v)|
    ensures a[..] == Splice(old(a[..]), base, EncodeVarint(v))
  {
    SovIsLength(v);
    hide Splice, Sov, EncodeVarint;
    base := offset - Sov(v);
    var o, w := base, v;
    ghost var was, done: seq<byte> := a[..], [];
    assert a[..] == Splice(was, base, done) by { SpliceNothing(was, base); }
    while w >= 128
      invariant w >= 0 && o == base + |done|
      invariant done + EncodeVarint(w) == EncodeVarint(v)
      invariant a[..] == Splice(was, base, done)
      decreases w
    {
      var b := w % 128 + 128;
      ghost var before := a[..];
      EncodeStep(w, done);
      SpliceTwice(was, base, done, [b]);
      SpliceOne(before, o, b);
      a[o] := b;
      assert a[..] == before[o := b];
      done := done + [b];
      w := w / 128;
      o := o + 1;
    }
    EncodeStep(w, done);
    ghost var before := a[..];
    SpliceTwice(was, base, done, [w]);
    SpliceOne(before, o, w);
    a[o] := w;
    assert a[..] == before[o := w];
  }

  lemma EncodeStep(w: nat, done: seq<byte>)
    ensures EncodeVarint(w) != []
    ensures if w < 128 then EncodeVarint(w) == [w]
            else done + EncodeVarint(w) == (done + [w % 128 + 128]) + EncodeVarint(w / 128) && EncodeVarint(w / 128) != []
  {}

  lemma SpliceNothing(s: seq<byte>, i: nat)
    requires i <= |s|
    ensures Splice(s, i, []) == s
  {}

  lemma SpliceOne(s: seq<byte>, i: nat, b: byte)
    requires i < |s|
    ensures Splice(s, i, [b]) == s[i := b]
  {}
}
