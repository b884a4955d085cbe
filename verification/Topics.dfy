/** The 32-byte topic of an indexed event argument. */
module Topics {
  import opened Base256
  import opened Bytes

  const HASH_LENGTH := 32
  const ADDRESS_LENGTH := 20

  /** byte(x >> (8 * i)): a shift to the right rounds down. */
  function LowByte(x: int, i: nat): byte { x / Pow256(i) % 256 }

  /** The n lowest bytes of a number in two's complement. */
  function LowBytes(x: int, n: nat): (r: seq<byte>)
    ensures |r| == n
  {
    if n == 0 then [] else [LowByte(x, n - 1)] + LowBytes(x, n - 1)
  }

  lemma {:induction false} LowBytesNumber(x: int, n: nat)
    ensures FromBigEndian(LowBytes(x, n)) == x % Pow256(n)
  {
    if n > 0 {
      LowBytesNumber(x, n - 1);
      var b := x / Pow256(n - 1) % 256;
      NumberConcat([b], LowBytes(x, n - 1));
      assert FromBigEndian([b]) == b by { assert [b][..0] == []; }
      ModSplit(x, Pow256(n - 1));
    }
  }

  lemma {:induction false} Ones(n: nat)
    ensures FromBigEndian(seq(n, i => 255)) == Pow256(n) - 1
  {
    if n > 0 {
      Ones(n - 1);
      var s: seq<byte> := seq(n, i => 255);
      assert s[..n - 1] == seq(n - 1, i => 255);
    }
  }

  lemma {:induction false} Zeros(n: nat)
    ensures FromBigEndian(seq(n, i => 0)) == 0
  {
    if n > 0 {
      Zeros(n - 1);
      var s: seq<byte> := seq(n, i => 0);
      assert s[..n - 1] == seq(n - 1, i => 0);
    }
  }

  // ----- genIntType -----

  function Fill(x: int, n: nat): (r: seq<byte>)
    ensures |r| == n
  {
    seq(n, i => if x < 0 then 255 else 0)
  }

  /** The low bytes of the number, and what they are extended with. */
  function IntBytes(x: int, size: nat): (r: seq<byte>)
    requires size <= HASH_LENGTH
    ensures |r| == HASH_LENGTH
  {
    Fill(x, HASH_LENGTH - size) + LowBytes(x, size)
  }

  /** genIntType */
  method GenIntType(rule: int64, size: nat) returns (topic: array<byte>)
    requires size <= HASH_LENGTH
    ensures fresh(topic) && topic[..] == IntBytes(rule, size)
  {
    hide Pow256, IntBytes, LowByte;
    IntBytesStart(rule);
    topic := new byte[HASH_LENGTH](_ => 0);
    if rule < 0 {
      topic := new byte[HASH_LENGTH](_ => 255);
    }
    assert topic[..] == IntBytes(rule, 0);
    for i := 0 to size
      invariant fresh(topic) && topic.Length == HASH_LENGTH
      invariant topic[..] == IntBytes(rule, i)
    {
      IntBytesStep(rule, i);
      ghost var before := topic[..];
      var b := LowByte(rule, i);
      topic[HASH_LENGTH - i - 1] := b;
      assert topic[..] == before[HASH_LENGTH - i - 1 := b];
    }
  }

  lemma IntBytesStart(x: int)
    ensures forall k :: 0 <= k < HASH_LENGTH ==> IntBytes(x, 0)[k] == if x < 0 then 255 else 0
  {}

  lemma IntBytesStep(x: int, i: nat)
    requires i < HASH_LENGTH
    ensures IntBytes(x, i + 1) == IntBytes(x, i)[HASH_LENGTH - i - 1 := LowByte(x, i)]
  {}

  lemma FillNumber(x: int, n: nat)
    ensures FromBigEndian(Fill(x, n)) == if x < 0 then Pow256(n) - 1 else 0
  {
    if x < 0 {
      Ones(n);
      assert Fill(x, n) == seq(n, i => 255);
    } else {
      Zeros(n);
      assert Fill(x, n) == seq(n, i => 0);
    }
  }

  lemma FillConcat(x: int, n: nat, s: seq<byte>)
    ensures FromBigEndian(Fill(x, n) + s) == (if x < 0 then Pow256(n + |s|) - Pow256(|s|) else 0) + FromBigEndian(s)
  {
    FillNumber(x, n);
    NumberConcat(Fill(x, n), s);
    hide FromBigEndian, Fill;
    PowAdd(n, |s|);
    Extended(x, FromBigEndian(Fill(x, n)), Pow256(n), Pow256(|s|));
    hide Pow256;
  }

  /** A fill of ones or of zeros above modulus p. */
  lemma Extended(x: int, fill: int, high: int, p: int)
    requires high > 0 && p > 0 && fill == if x < 0 then high - 1 else 0
    ensures p <= high * p && fill * p == if x < 0 then high * p - p else 0
  {}

  /** The topic stands for the number modulo 2^256 exactly when the number fits in size bytes and a sign. */
  lemma IntBytesNumber(x: int64, size: nat)
    requires size <= HASH_LENGTH
    ensures FromBigEndian(IntBytes(x, size)) == x % Pow256(size) + if x < 0 then Pow256(HASH_LENGTH) - Pow256(size) else 0
    ensures FromBigEndian(IntBytes(x, size)) == x % Pow256(HASH_LENGTH) <==> -Pow256(size) <= x < Pow256(size)
  {
    Pow256Of32();
    LowBytesNumber(x, size);
    FillConcat(x, HASH_LENGTH - size, LowBytes(x, size));
    PowAdd(HASH_LENGTH - size, size);
    hide Pow256, FromBigEndian, LowBytes, Fill;
    assert IntBytes(x, size) == Fill(x, HASH_LENGTH - size) + LowBytes(x, size);
    hide IntBytes;
    Extended(0, 0, Pow256(HASH_LENGTH - size), Pow256(size));
    Signed(x, Pow256(size), Pow256(HASH_LENGTH));
  }

  /** Sign extension from modulus p to modulus h. */
  lemma Signed(x: int, p: int, h: int)
    requires 0 < p <= h && -h <= x < h
    ensures x % p + (if x < 0 then h - p else 0) == x % h <==> -p <= x < p
  {
    if x >= 0 {
      ModUnique(x, h, 0, x);
    } else {
      ModUnique(x, h, -1, x + h);
    }
    if 0 <= x < p {
      ModUnique(x, p, 0, x);
    } else if -p <= x < 0 {
      ModUnique(x, p, -1, x + p);
    }
  }

  // ----- MakeTopic -----

  /** The Go values that MakeTopic takes: sized integers, and the wider types. */
  datatype Rule =
    | HashRule(hash: seq<byte>)
    | AddressRule(address: seq<byte>)
    | BigInt(big: int)
    | BoolRule(b: bool)
    | SignedInt(i: int64, size: nat)
    | UnsignedInt(u: uint64)
    | Text(bytes: seq<byte>)
    | ByteArray(bytes: seq<byte>)
    | OtherRule

  /** Hashes and addresses have their length, and an intN is in the range of its type. */
  predicate IsRule(r: Rule) {
    match r
    case HashRule(hash) => |hash| == HASH_LENGTH
    case AddressRule(a) => |a| == ADDRESS_LENGTH
    case SignedInt(n, size) => size in {1, 2, 4, 8} && -Pow256(size) <= 2 * n < Pow256(size)
    case _ => true
  }

  datatype Outcome = Topic(bytes: seq<byte>) | Unsupported | Panicked

  /** big.Int.Bytes: the absolute value, most significant byte first, without leading zeros. */
  function BigBytes(n: int): (r: seq<byte>)
    requires n >= 0
    decreases n
  {
    if n == 0 then [] else BigBytes(n / 256) + [n % 256]
  }

  lemma {:induction false} BigBytesNumber(n: int)
    requires n >= 0
    ensures FromBigEndian(BigBytes(n)) == n
    ensures forall k: nat :: |BigBytes(n)| <= k <==> n < Pow256(k)
  {
    if n > 0 {
      BigBytesNumber(n / 256);
      var s := BigBytes(n);
      assert s[..|s| - 1] == BigBytes(n / 256);
      forall k: nat ensures |s| <= k <==> n < Pow256(k) {
        if k > 0 {
          assert |BigBytes(n / 256)| <= k - 1 <==> n / 256 < Pow256(k - 1);
        }
      }
    } else {
      assert forall k: nat :: Pow256(k) > 0;
    }
  }

  lemma BigBytesFit(n: nat)
    ensures FromBigEndian(BigBytes(n)) == n && (|BigBytes(n)| <= HASH_LENGTH <==> n < Pow256(HASH_LENGTH))
  {
    hide FromBigEndian, Pow256, BigBytes;
    BigBytesNumber(n);
  }

  /** copy(topic[HashLength-len(blob):], blob); slicing below 0 panics. */
  method CopyRight(topic: array<byte>, blob: seq<byte>) returns (panicked: bool)
    requires topic.Length == HASH_LENGTH
    modifies topic
    ensures panicked <==> |blob| > HASH_LENGTH
    ensures topic[..] == if panicked then old(topic[..]) else old(topic[..])[..HASH_LENGTH - |blob|] + blob
  {
    if |blob| > HASH_LENGTH {
      return true;
    }
    for i := 0 to |blob|
      invariant forall k :: 0 <= k < HASH_LENGTH - |blob| ==> topic[k] == old(topic[k])
      invariant forall k :: 0 <= k < i ==> topic[HASH_LENGTH - |blob| + k] == blob[k]
    {
      topic[HASH_LENGTH - |blob| + i] := blob[i];
    }
    return false;
  }

  /** reflect.Copy to topic[:n] from an array of n bytes. */
  method CopyLeft(topic: array<byte>, blob: seq<byte>) returns (panicked: bool)
    requires topic.Length == HASH_LENGTH
    modifies topic
    ensures panicked <==> |blob| > HASH_LENGTH
    ensures topic[..] == if panicked then old(topic[..]) else blob + old(topic[..])[|blob|..]
  {
    if |blob| > HASH_LENGTH {
      return true;
    }
    for i := 0 to |blob|
      invariant forall k :: 0 <= k < HASH_LENGTH ==> topic[k] == if k < i then blob[k] else old(topic[k])
    {
      topic[i] := blob[i];
    }
    return false;
  }

  lemma ZeroTopic()
    ensures forall n :: 0 <= n <= HASH_LENGTH ==> Fill(0, HASH_LENGTH)[..n] == Fill(0, n)
    ensures forall n :: 0 <= n <= HASH_LENGTH ==> Fill(0, HASH_LENGTH)[n..] == Fill(0, HASH_LENGTH - n)
    ensures Fill(0, HASH_LENGTH)[HASH_LENGTH - 1 := 1] == Fill(0, HASH_LENGTH - 1) + [1]
    ensures Fill(0, HASH_LENGTH) == Fill(0, HASH_LENGTH - 1) + [0]
  {}

  /** MakeTopic; keccak is the hash function, whatever it is. */
  method MakeTopic(rule: Rule, keccak: seq<byte> -> seq<byte>) returns (r: Outcome)
    requires IsRule(rule) && forall s :: |keccak(s)| == HASH_LENGTH
    ensures r == TopicOf(rule, keccak)
    ensures r.Topic? ==> |r.bytes| == 32
    ensures rule.HashRule? ==> r == Topic(rule.hash)
    ensures rule.Text? ==> r == Topic(keccak(rule.bytes))
    ensures rule.OtherRule? ==> r == Unsupported
    ensures rule.ByteArray? ==>
              if |rule.bytes| > 32 then r == Panicked
              else r.Topic? && forall k :: 0 <= k < 32 ==> r.bytes[k] == if k < |rule.bytes| then rule.bytes[k] else 0
    ensures rule.AddressRule? ==>
              r.Topic? && forall k :: 0 <= k < 32 ==> r.bytes[k] == if k < 12 then 0 else rule.address[k - 12]
    ensures rule.BoolRule? ==>
              r.Topic? && forall k :: 0 <= k < 32 ==> r.bytes[k] == if rule.b && k == 31 then 1 else 0
  {
    var topic := new byte[HASH_LENGTH](_ => 0);
    assert topic[..] == Fill(0, HASH_LENGTH);
    ZeroTopic();
    hide Pow256, LowBytes, BigBytes, IntBytes, Fill, FromBigEndian;
    var panicked := false;
    match rule {
      case HashRule(hash) =>
        panicked := CopyRight(topic, hash);
      case AddressRule(a) =>
        panicked := CopyRight(topic, a);
      case BigInt(n) =>
        panicked := CopyRight(topic, BigBytes(if n < 0 then -n else n));
      case BoolRule(b) =>
        if b {
          topic[HASH_LENGTH - 1] := 1;
        }
      case SignedInt(n, size) =>
        var bytes := GenIntType(n, size);
        panicked := CopyRight(topic, bytes[..]);
      case UnsignedInt(n) =>
        panicked := CopyRight(topic, BigBytes(n));
      case Text(bytes) =>
        panicked := CopyRight(topic, keccak(bytes));
      case ByteArray(bytes) =>
        panicked := CopyLeft(topic, bytes);
      case OtherRule =>
        TopicBytes(rule, keccak);
        return Unsupported;
    }
    r := if panicked then Panicked else Topic(topic[..]);
    assert r == TopicOf(rule, keccak);
    hide TopicOf;
    TopicBytes(rule, keccak);
  }

  /** Right-aligned in a topic of zeros. */
  function Padded(blob: seq<byte>): Outcome {
    if |blob| > HASH_LENGTH then Panicked else Topic(Fill(0, HASH_LENGTH - |blob|) + blob)
  }

  function TopicOf(rule: Rule, keccak: seq<byte> -> seq<byte>): Outcome
    requires IsRule(rule)
  {
    match rule
    case HashRule(hash) => Topic(hash)
    case AddressRule(a) => Padded(a)
    case BigInt(n) => Padded(BigBytes(if n < 0 then -n else n))
    case BoolRule(b) => Topic(Fill(0, HASH_LENGTH - 1) + [if b then 1 else 0])
    case SignedInt(n, size) => Topic(IntBytes(n, size))
    case UnsignedInt(n) => Padded(BigBytes(n))
    case Text(bytes) => Topic(keccak(bytes))
    case ByteArray(bytes) => if |bytes| > HASH_LENGTH then Panicked else Topic(bytes + Fill(0, HASH_LENGTH - |bytes|))
    case OtherRule => Unsupported
  }

  /** The topics that are no numbers, byte by byte. */
  lemma TopicBytes(rule: Rule, keccak: seq<byte> -> seq<byte>)
    requires IsRule(rule) && forall s :: |keccak(s)| == HASH_LENGTH
    ensures var r := TopicOf(rule, keccak);
            && (r.Topic? ==> |r.bytes| == 32)
            && match rule
               case HashRule(hash) => r == Topic(hash)
               case Text(bytes) => r == Topic(keccak(bytes))
               case OtherRule => r == Unsupported
               case ByteArray(bytes) =>
                 if |bytes| > 32 then r == Panicked
                 else r.Topic? && forall k :: 0 <= k < 32 ==> r.bytes[k] == if k < |bytes| then bytes[k] else 0
               case AddressRule(a) =>
                 |a| == 20 && r.Topic? && forall k :: 0 <= k < 32 ==> r.bytes[k] == if k < 12 then 0 else a[k - 12]
               case BoolRule(b) => r.Topic? && forall k :: 0 <= k < 32 ==> r.bytes[k] == if b && k == 31 then 1 else 0
               case _ => true
  {
    hide Pow256, BigBytes, LowBytes;
  }

  /** The ranges of Go's signed types. */
  lemma SignedRanges(n: int64, size: nat)
    ensures IsRule(SignedInt(n, size)) <==>
            || (size == 1 && -128 <= n <= 127) || (size == 2 && -32768 <= n <= 32767)
            || (size == 4 && -0x8000_0000 <= n <= 0x7FFF_FFFF) || size == 8
  {
    Pow256Of8();
    assert Pow256(1) == 256 && Pow256(2) == 65536 && Pow256(4) == 0x1_0000_0000;
    hide Pow256;
  }

  lemma PaddedNumber(blob: seq<byte>)
    requires |blob| <= HASH_LENGTH
    ensures FromBigEndian(Padded(blob).bytes) == FromBigEndian(blob)
  {
    hide FromBigEndian, Fill;
    FillConcat(0, HASH_LENGTH - |blob|, blob);
  }

  /** Sized integers of either sign become their value modulo 2^256; so do booleans, as 0 and 1, and addresses. */
  lemma TopicNumber(rule: Rule, keccak: seq<byte> -> seq<byte>)
    requires IsRule(rule) && (rule.SignedInt? || rule.UnsignedInt? || rule.BoolRule? || rule.AddressRule?)
    ensures TopicOf(rule, keccak).Topic?
    ensures var x := match rule
                     case SignedInt(n, _) => n
                     case UnsignedInt(n) => n
                     case BoolRule(b) => if b then 1 else 0
                     case AddressRule(a) => FromBigEndian(a)
                     case _ => 0;
            FromBigEndian(TopicOf(rule, keccak).bytes) == x % Pow256(HASH_LENGTH)
  {
    Pow256Of32();
    hide Pow256;
    match rule
    case SignedInt(n, size) => IntBytesNumber(n, size);
    case UnsignedInt(n) =>
      BigBytesFit(n);
      PaddedNumber(BigBytes(n));
      ModUnique(n, Pow256(HASH_LENGTH), 0, n);
    case BoolRule(b) =>
      PaddedNumber([if b then 1 else 0]);
      ModUnique(if b then 1 else 0, Pow256(HASH_LENGTH), 0, if b then 1 else 0);
    case AddressRule(a) =>
      PaddedNumber(a);
      NumberBound(a);
      PowAdd(HASH_LENGTH - ADDRESS_LENGTH, ADDRESS_LENGTH);
      Extended(0, 0, Pow256(HASH_LENGTH - ADDRESS_LENGTH), Pow256(ADDRESS_LENGTH));
      ModUnique(FromBigEndian(a), Pow256(HASH_LENGTH), 0, FromBigEndian(a));
    case _ =>
  }

  /** Two integers of a signed type have the same topic only if they are equal. */
  lemma SignedTopicsAreInjective(m: int64, n: int64, size: nat, keccak: seq<byte> -> seq<byte>)
    requires IsRule(SignedInt(m, size)) && IsRule(SignedInt(n, size))
    requires TopicOf(SignedInt(m, size), keccak) == TopicOf(SignedInt(n, size), keccak)
    ensures m == n
  {
    var h := Pow256(HASH_LENGTH);
    TopicNumber(SignedInt(m, size), keccak);
    TopicNumber(SignedInt(n, size), keccak);
    Pow256Of32();
    hide Pow256;
    ModUnique(m, h, if m < 0 then -1 else 0, if m < 0 then m + h else m);
    ModUnique(n, h, if n < 0 then -1 else 0, if n < 0 then n + h else n);
  }

  /** A big integer is encoded by its absolute value. It panics when that needs more than 32 bytes, and it is
      the value modulo 2^256, as the ABI wants it, only for what is not negative and for -2^255. */
  lemma BigIntTopic(n: int, keccak: seq<byte> -> seq<byte>)
    ensures var h, r := Pow256(HASH_LENGTH), TopicOf(BigInt(n), keccak);
            && (r == Panicked <==> n <= -h || n >= h)
            && (r != Panicked ==> r.Topic? && FromBigEndian(r.bytes) == if n < 0 then -n else n)
            && (r != Panicked ==> (FromBigEndian(r.bytes) == n % h <==> n >= 0 || 2 * n == -h))
  {
    var h, abs := Pow256(HASH_LENGTH), if n < 0 then -n else n;
    var r := TopicOf(BigInt(n), keccak);
    assert r == Padded(BigBytes(abs));
    hide TopicOf, Pow256, FromBigEndian, BigBytes, Fill;
    BigBytesFit(abs);
    assert r == Panicked <==> abs >= h;
    if abs < h {
      PaddedNumber(BigBytes(abs));
      AbsoluteValue(n, h);
    }
  }

  lemma AbsoluteValue(n: int, h: int)
    requires -h < n < h
    ensures (if n < 0 then -n else n) == n % h <==> n >= 0 || 2 * n == -h
  {
    ModUnique(n, h, if n < 0 then -1 else 0, if n < 0 then n + h else n);
  }
}
