/** Numbers as bytes in base 256, most significant first. */
module Base256 {
  import opened Bytes

  function Pow256(n: nat): (r: int)
    ensures r > 0
  {
    if n == 0 then 1 else 256 * Pow256(n - 1)
  }

  /** The n low bytes of x, most significant first. */
  function BigEndian(x: nat, n: nat): (bs: seq<byte>)
    ensures |bs| == n
  {
    if n == 0 then [] else BigEndian(x / 256, n - 1) + [x % 256]
  }

  /** The number that bytes stand for, most significant first. */
  function FromBigEndian(bs: seq<byte>): nat {
    if bs == [] then 0 else 256 * FromBigEndian(bs[..|bs| - 1]) + bs[|bs| - 1]
  }

  /** One more digit on the right. */
  lemma NumberOfDigits(bs: seq<byte>, x: byte)
    ensures FromBigEndian([]) == 0 && FromBigEndian(bs + [x]) == 256 * FromBigEndian(bs) + x
  {
    assert (bs + [x])[..|bs + [x]| - 1] == bs;
  }

  lemma {:induction false} BigEndianBack(x: nat, n: nat)
    requires x < Pow256(n)
    ensures FromBigEndian(BigEndian(x, n)) == x
  {
    if n > 0 {
      BigEndianBack(x / 256, n - 1);
      assert BigEndian(x, n)[..n - 1] == BigEndian(x / 256, n - 1);
    }
  }

  lemma {:induction false} BigEndianOrder(x: nat, y: nat, n: nat)
    requires x < Pow256(n) && y < Pow256(n)
    ensures Less(BigEndian(x, n), BigEndian(y, n)) <==> x < y
    ensures BigEndian(x, n) == BigEndian(y, n) <==> x == y
  {
    if n > 0 {
      var p, q := BigEndian(x / 256, n - 1), BigEndian(y / 256, n - 1);
      BigEndianOrder(x / 256, y / 256, n - 1);
      LessConcat(p, q, [x % 256], [y % 256]);
      assert (p + [x % 256])[..n - 1] == p && (q + [y % 256])[..n - 1] == q;
    }
  }

  lemma Pow256Of8()
    ensures Pow256(8) == TWO_64
  {}

  lemma {:induction false} PowAdd(m: nat, n: nat)
    ensures Pow256(m + n) == Pow256(m) * Pow256(n)
  {
    if n == 0 {
    } else {
      PowAdd(m, n - 1);
    }
  }

  lemma {:induction false} NumberConcat(a: seq<byte>, b: seq<byte>)
    ensures FromBigEndian(a + b) == FromBigEndian(a) * Pow256(|b|) + FromBigEndian(b)
  {
    if b == [] {
      assert a + b == a;
    } else {
      var init := b[..|b| - 1];
      NumberConcat(a, init);
      assert (a + b)[..|a + b| - 1] == a + init;
      assert FromBigEndian(a + b) == (FromBigEndian(a) * Pow256(|init|) + FromBigEndian(init)) * 256 + b[|b| - 1];
      Distribute(FromBigEndian(a), Pow256(|init|), FromBigEndian(init));
    }
  }

  lemma Distribute(x: int, p: int, y: int)
    ensures (x * p + y) * 256 == x * (256 * p) + y * 256
  {}

  lemma {:induction false} NumberBound(s: seq<byte>)
    ensures FromBigEndian(s) < Pow256(|s|)
  {
    if s != [] {
      NumberBound(s[..|s| - 1]);
    }
  }

  lemma ModSplit(x: int, m: int)
    requires m > 0
    ensures x % (256 * m) == x / m % 256 * m + x % m
  {
    var q, r := x / m, x % m;
    var e, d := q / 256, q % 256;
    assert x == m * q + r;
    Regroup(q, e, d, m, r);
    ModUnique(x, 256 * m, e, d * m + r);
  }

  lemma Regroup(q: int, e: int, d: int, m: int, r: int)
    requires q == 256 * e + d && 0 <= d <= 255 && 0 <= r < m
    ensures m * q == 256 * m * e + d * m && 0 <= d * m + r < 256 * m
  {
    Distributes(m, 256 * e, d);
    Associates(m, 256, e);
    Bounds(d, m);
  }

  lemma Distributes(m: int, a: int, b: int)
    ensures m * (a + b) == m * a + m * b
  {}

  lemma Associates(m: int, a: int, b: int)
    ensures m * (a * b) == a * m * b
  {}

  lemma Bounds(d: int, m: int)
    requires 0 <= d <= 255 && m > 0
    ensures 0 <= d * m == m * d <= 255 * m
  {}

  lemma ModUnique(x: int, m: int, q: int, r: int)
    requires m > 0 && x == m * q + r && 0 <= r < m
    ensures x % m == r
  {
    var k := x / m - q;
    assert x == m * (x / m) + x % m;
    assert m * (x / m) - m * q == m * k;
    assert m * k == r - x % m;
    Multiple(m, k);
  }

  lemma Multiple(m: int, k: int)
    requires m > 0
    ensures k >= 1 ==> m * k >= m
    ensures k <= -1 ==> m * k <= -m
  {}

  lemma Pow256Of32()
    ensures Pow256(32) == TWO_64 * TWO_64 * TWO_64 * TWO_64
  {
    Pow256Of8();
    PowAdd(8, 8);
    PowAdd(16, 16);
  }
}
