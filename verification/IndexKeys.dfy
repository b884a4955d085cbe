/** The two keyspaces of the transaction index and the byte order on their keys. */
module IndexKeys {
  import opened Base256
  import opened Bytes

  const PREFIX_TX_HASH: byte := 1
  const PREFIX_TX_INDEX: byte := 2
  const TX_INDEX_KEY_LENGTH := 17

  type Hash = s: seq<byte> | |s| == 32 witness seq(32, _ => 0)

  function BE64(x: uint64): (bs: seq<byte>)
    ensures |bs| == 8
  {
    BigEndian(x, 8)
  }

  function TxHashKey(hash: Hash): seq<byte> { [PREFIX_TX_HASH] + hash }

  function TxIndexKey(height: int64, index: int32): seq<byte> {
    [PREFIX_TX_INDEX] + (BE64(U64(height)) + BE64(U64(index)))
  }

  /** parseBlockNumberFromKey */
  function ParseBlockNumber(key: seq<byte>): Option<int64> {
    if |key| != TX_INDEX_KEY_LENGTH then None else Some(I64(FromBigEndian(key[1..9])))
  }

  lemma BE64Order(x: uint64, y: uint64)
    ensures Less(BE64(x), BE64(y)) <==> x < y
    ensures BE64(x) == BE64(y) <==> x == y
  {
    Pow256Of8();
    BigEndianOrder(x, y, 8);
  }

  /** Byte order on index keys is the order of the two numbers as uint64, height first. */
  lemma KeyOrder(h: int64, i: int32, h': int64, i': int32)
    ensures Less(TxIndexKey(h, i), TxIndexKey(h', i'))
            <==> U64(h) < U64(h') || (h == h' && U64(i) < U64(i'))
    ensures 0 <= h && 0 <= h' && 0 <= i && 0 <= i' ==>
              (Less(TxIndexKey(h, i), TxIndexKey(h', i')) <==> h < h' || (h == h' && i < i'))
  {
    hide Less, BE64;
    var a, b, a', b' := BE64(U64(h)), BE64(U64(i)), BE64(U64(h')), BE64(U64(i'));
    BE64Order(U64(h), U64(h'));
    BE64Order(U64(i), U64(i'));
    LessIrreflexive([PREFIX_TX_INDEX]);
    LessConcat([PREFIX_TX_INDEX], [PREFIX_TX_INDEX], a + b, a' + b');
    LessConcat(a, a', b, b');
  }

  lemma KeyInjective(h: int64, i: int32, h': int64, i': int32)
    requires TxIndexKey(h, i) == TxIndexKey(h', i')
    ensures h == h' && i == i'
  {
    KeyOrder(h, i, h', i');
    KeyOrder(h', i', h, i);
    LessIrreflexive(TxIndexKey(h, i));
    hide TxIndexKey, Less;
  }

  lemma ParseBack(h: int64, i: int32)
    ensures |TxIndexKey(h, i)| == TX_INDEX_KEY_LENGTH
    ensures ParseBlockNumber(TxIndexKey(h, i)) == Some(h)
  {
    Pow256Of8();
    BigEndianBack(U64(h), 8);
    SignedBack(h, i);
    hide BigEndian, FromBigEndian, I64, U64, Pow256;
    assert TxIndexKey(h, i)[1..9] == BE64(U64(h));
  }

  /** The range the iterators scan: from [2] up to but not including [3]. */
  predicate InIndexRange(key: seq<byte>) {
    !Less(key, [PREFIX_TX_INDEX]) && Less(key, [PREFIX_TX_INDEX + 1])
  }

  lemma IndexRange(key: seq<byte>)
    ensures InIndexRange(key) <==> key != [] && key[0] == PREFIX_TX_INDEX
  {
    var lo, hi := [PREFIX_TX_INDEX], [PREFIX_TX_INDEX + 1];
    assert lo[1..] == [] && hi[1..] == [];
    if key != [] {
      assert !Less(key[1..], []);
      assert Less(key, lo) <==> key[0] < lo[0];
      assert Less(key, hi) <==> key[0] < hi[0];
    }
  }

  lemma KeyspacesApart(hash: Hash, h: int64, i: int32)
    ensures InIndexRange(TxIndexKey(h, i)) && !InIndexRange(TxHashKey(hash))
    ensures TxHashKey(hash) != TxIndexKey(h, i)
  {}

  lemma HashKeyInjective(a: Hash, b: Hash)
    requires TxHashKey(a) == TxHashKey(b)
    ensures a == b
  {
    assert a == TxHashKey(a)[1..] && b == TxHashKey(b)[1..];
  }
}
