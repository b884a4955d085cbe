/** The indexer over its store: IndexBlock as the loop that fills a batch, and the first and last
    indexed block, read off the ends of the index key range. */
module KVIndexer {
  import opened Bytes
  import opened IndexKeys
  import opened TxIndexLog
  import Wire

  // ----- first and last -----

  /** The keys an iterator over the index range visits. */
  function IndexKeysOf(db: Store): set<seq<byte>> {
    set key | key in db && InIndexRange(key)
  }

  ghost predicate IsLeast(keys: set<seq<byte>>, key: seq<byte>) {
    key in keys && forall j :: j in keys ==> !Less(j, key)
  }

  ghost predicate IsGreatest(keys: set<seq<byte>>, key: seq<byte>) {
    key in keys && forall j :: j in keys ==> !Less(key, j)
  }

  lemma EndsExist(keys: set<seq<byte>>)
    requires keys != {}
    ensures (exists key :: IsLeast(keys, key)) && (exists key :: IsGreatest(keys, key))
  {
    hide Less;
    var k :| k in keys;
    if keys == {k} {
      LessIrreflexive(k);
      assert IsLeast(keys, k) && IsGreatest(keys, k);
    } else {
      var rest := keys - {k};
      assert keys == rest + {k};
      EndsExist(rest);
      var lo: seq<byte> :| IsLeast(rest, lo);
      var hi: seq<byte> :| IsGreatest(rest, hi);
      LessIrreflexive(k);
      var lo' := if Less(k, lo) then k else lo;
      var hi' := if Less(hi, k) then k else hi;
      forall j: seq<byte> | j in keys ensures !Less(j, lo') && !Less(hi', j) {
        if j != k && Less(k, lo) && Less(j, k) { LessTransitive(j, k, lo); }
        if j != k && Less(hi, k) && Less(k, j) { LessTransitive(hi, k, j); }
      }
      assert IsLeast(keys, lo') && IsGreatest(keys, hi');
    }
  }

  /** LoadFirstBlock: -1 without an entry, None for a malformed key. */
  ghost function FirstIndexed(db: Store): Option<int64> {
    if IndexKeysOf(db) == {} then Some(-1)
    else
      EndsExist(IndexKeysOf(db));
      var key :| IsLeast(IndexKeysOf(db), key);
      ParseBlockNumber(key)
  }

  /** LoadLastBlock */
  ghost function LastIndexed(db: Store): Option<int64> {
    if IndexKeysOf(db) == {} then Some(-1)
    else
      EndsExist(IndexKeysOf(db));
      var key :| IsGreatest(IndexKeysOf(db), key);
      ParseBlockNumber(key)
  }

  /** Some transaction of block h is in the index. */
  ghost predicate HasEntry(db: Store, h: int64) {
    exists i: int32 :: TxIndexKey(h, i) in db
  }

  /** The index range holds index keys of blocks with a non-negative height and nothing else. */
  ghost predicate WellKeyed(db: Store) {
    forall key :: key in IndexKeysOf(db) ==> exists h: int64, i: int32 :: h >= 0 && key == TxIndexKey(h, i)
  }

  lemma EntryKey(db: Store, h: int64, i: int32)
    requires TxIndexKey(h, i) in db
    ensures TxIndexKey(h, i) in IndexKeysOf(db) && HasEntry(db, h)
  {
    KeyspacesApart(seq(32, _ => 0), h, i);
  }

  /** First and last are the smallest and the largest height with an entry; -1 means there is none. */
  lemma FirstAndLast(db: Store)
    requires WellKeyed(db)
    ensures FirstIndexed(db).Some? && LastIndexed(db).Some?
    ensures FirstIndexed(db).value == -1 <==> forall h: int64 :: !HasEntry(db, h)
    ensures LastIndexed(db).value == -1 <==> forall h: int64 :: !HasEntry(db, h)
    ensures FirstIndexed(db).value != -1 ==> HasEntry(db, FirstIndexed(db).value)
    ensures LastIndexed(db).value != -1 ==> HasEntry(db, LastIndexed(db).value)
    ensures forall h: int64 :: HasEntry(db, h) ==> 0 <= FirstIndexed(db).value <= h <= LastIndexed(db).value
  {
    hide TxIndexKey, Less, InIndexRange, ParseBlockNumber;
    var keys := IndexKeysOf(db);
    forall h: int64, i: int32 | TxIndexKey(h, i) in db ensures TxIndexKey(h, i) in keys {
      EntryKey(db, h, i);
    }
    if keys != {} {
      EndsExist(keys);
      var lo :| IsLeast(keys, lo) && FirstIndexed(db) == ParseBlockNumber(lo);
      var hi :| IsGreatest(keys, hi) && LastIndexed(db) == ParseBlockNumber(hi);
      var first: int64, i: int32 :| first >= 0 && lo == TxIndexKey(first, i);
      var last: int64, j: int32 :| last >= 0 && hi == TxIndexKey(last, j);
      assert HasEntry(db, first) && HasEntry(db, last);
      ParseBack(first, i);
      ParseBack(last, j);
      forall h: int64 | HasEntry(db, h) ensures first <= h <= last {
        var k: int32 :| TxIndexKey(h, k) in db;
        assert TxIndexKey(h, k) in keys;
        var h': int64, k': int32 :| h' >= 0 && TxIndexKey(h, k) == TxIndexKey(h', k');
        KeyInjective(h, k, h', k');
        KeyOrder(h, k, first, i);
        KeyOrder(last, j, h, k);
      }
    }
  }

  // ----- IndexBlock -----

  lemma TxEntriesAppend(height: int64, t: nat, acc: seq<Accepted>, a: Accepted, base: nat)
    ensures TxEntries(height, t, acc + [a], base)
         == TxEntries(height, t, acc, base) + [EntryOf(height, t, acc + [a], |acc|, base)]
  {
    hide U32, I32, U64, GasSum;
    var all := TxEntries(height, t, acc + [a], base);
    forall j | 0 <= j < |acc| ensures all[j] == TxEntries(height, t, acc, base)[j] {
      assert (acc + [a])[..j + 1] == acc[..j + 1];
    }
  }

  lemma GasSumAppend(acc: seq<Accepted>, a: Accepted)
    ensures GasSum(acc + [a]) == GasSum(acc) + a.gasUsed
  {}

  lemma NextIndex(n: nat)
    ensures I32(I32(n) + 1) == I32(n + 1)
  {}

  lemma BatchOfAppend(es: seq<Entry>, e: Entry)
    ensures BatchOf(es + [e]) == BatchOf(es) + WritesOf(e) && |BatchOf(es + [e])| == |BatchOf(es)| + 2
  {}

  lemma {:induction false} BatchLength(es: seq<Entry>)
    ensures |BatchOf(es)| == 2 * |es|
  {
    if es != [] { BatchLength(es[..|es| - 1]); }
  }

  /** saveTxResult: the two Sets of one entry. */
  method SaveTxResult(batch: seq<Write>, e: Entry, setFails: nat -> bool) returns (batch': seq<Write>, err: bool)
    ensures err <==> setFails(|batch|) || setFails(|batch| + 1)
    ensures !err ==> batch' == batch + WritesOf(e)
  {
    batch' := batch;
    if setFails(|batch'|) {
      return batch', true;
    }
    batch' := batch' + [WritesOf(e)[0]];
    if setFails(|batch'|) {
      return batch', true;
    }
    batch' := batch' + [WritesOf(e)[1]];
    return batch', false;
  }

  /** The inner loop of IndexBlock: the messages of transaction t. */
  method IndexTx(b: Block, t: nat, batch0: seq<Write>, ethTxIndex0: int32, setFails: nat -> bool)
    returns (batch: seq<Write>, ethTxIndex: int32, err: bool)
    requires t < |b.txs| && Indexable(b.txs[t])
    requires batch0 == BatchOf(EntriesUpTo(b, t)) && ethTxIndex0 == I32(|EntriesUpTo(b, t)|)
    requires forall n :: 0 <= n < |batch0| ==> !setFails(n)
    ensures !err ==> batch == BatchOf(EntriesUpTo(b, t + 1)) && ethTxIndex == I32(|EntriesUpTo(b, t + 1)|)
    ensures !err ==> forall n :: 0 <= n < |batch| ==> !setFails(n)
    ensures err ==> exists n :: 0 <= n < 2 * |Entries(b)| && setFails(n)
  {
    hide I32, U64, U32, GasSum, BatchOf, WritesOf, EntriesUpTo, TxEntries, Entries, EntryOf, AcceptedUpTo;
    var tx := b.txs[t];
    ghost var es := EntriesUpTo(b, t);
    ghost var acc: seq<Accepted> := [];
    NextTx(b, t);
    NoneAccepted(tx);
    batch, ethTxIndex, err := batch0, ethTxIndex0, false;
    var cumulativeGasUsed: uint64 := 0;
    for k := 0 to |tx.msgs|
      invariant acc == AcceptedUpTo(tx, k) && !err
      invariant batch == BatchOf(es + TxEntries(b.height, t, acc, |es|))
      invariant ethTxIndex == I32(|es| + |acc|) && cumulativeGasUsed == U64(GasSum(acc))
      invariant forall n :: 0 <= n < |batch| ==> !setFails(n)
    {
      var msg := tx.msgs[k];
      var gasUsed, failed;
      NextMsg(tx, k);
      if !tx.codeOK {
        gasUsed, failed := msg.gasLimit, true;
      } else {
        if k >= |tx.parsed.value| {
          continue;
        }
        gasUsed, failed := tx.parsed.value[k].gasUsed, tx.parsed.value[k].failed;
      }
      cumulativeGasUsed := U64(cumulativeGasUsed + gasUsed);
      var e := Entry(msg.hash,
                     Wire.TxResult(b.height, U32(t), U32(k), ethTxIndex, failed, gasUsed, cumulativeGasUsed));
      ethTxIndex := I32(ethTxIndex + 1);
      ghost var written := es + TxEntries(b.height, t, acc, |es|);
      ghost var a := Accepted(k, msg.hash, gasUsed, failed);
      StepEntry(b.height, t, acc, a, |es|);
      GasSumAppend(acc, a);
      U64Add(GasSum(acc), a.gasUsed);
      acc := acc + [a];
      assert es + TxEntries(b.height, t, acc, |es|) == written + [e];
      BatchOfAppend(written, e);
      Prefix(b, t, k + 1);
      BatchLength(written);
      BatchLength(written + [e]);
      batch, err := SaveTxResult(batch, e, setFails);
      if err {
        return batch, ethTxIndex, true;
      }
    }
  }

  lemma NoneAccepted(tx: CosmosTx)
    requires tx.parsed.Some?
    ensures AcceptedUpTo(tx, 0) == []
  {}

  lemma NextMsg(tx: CosmosTx, k: nat)
    requires tx.parsed.Some? && k < |tx.msgs|
    ensures AcceptedUpTo(tx, k + 1) == AcceptedUpTo(tx, k) + Singleton(MsgResult(tx, k))
  {}

  class KVIndexer {
    var db: Store

    constructor ()
      ensures db == map[]
    {
      db := map[];
    }

    /** Indexes a block. setFails and writeFails say what the store does: whether the n-th Set of the
        batch fails, and whether the final write does. The store changes at once or not at all. */
    method IndexBlock(b: Block, setFails: nat -> bool, writeFails: bool) returns (err: bool)
      modifies this
      ensures err <==> writeFails || exists n :: 0 <= n < 2 * |Entries(b)| && setFails(n)
      ensures !err ==> db == PutAll(old(db), Entries(b))
      ensures err ==> db == old(db)
    {
      hide I32, BatchOf, EntriesUpTo;
      NothingYet(b);
      var batch: seq<Write> := [];
      var ethTxIndex: int32 := 0;
      for t := 0 to |b.txs|
        invariant batch == BatchOf(EntriesUpTo(b, t)) && ethTxIndex == I32(|EntriesUpTo(b, t)|)
        invariant forall n :: 0 <= n < |batch| ==> !setFails(n)
        invariant db == old(db)
      {
        var tx := b.txs[t];
        NextTx(b, t);
        if !tx.expected {
          continue;
        }
        if !tx.decodes {
          continue;
        }
        if !tx.isEth {
          continue;
        }
        if tx.parsed.None? {
          continue;
        }
        batch, ethTxIndex, err := IndexTx(b, t, batch, ethTxIndex, setFails);
        if err {
          return true;
        }
      }
      BatchLength(Entries(b));
      if writeFails {
        return true;
      }
      BatchIsPutAll(db, Entries(b));
      db := ApplyWrites(db, batch);
      return false;
    }

    method FirstIndexedBlock() returns (height: Option<int64>)
      ensures height == FirstIndexed(db)
    {
      var keys := IndexKeysOf(db);
      if keys == {} {
        return Some(-1);
      }
      EndsExist(keys);
      var key :| key in keys && forall j :: j in keys ==> !Less(j, key);
      OneLeast(keys, key);
      return ParseBlockNumber(key);
    }

    method LastIndexedBlock() returns (height: Option<int64>)
      ensures height == LastIndexed(db)
    {
      var keys := IndexKeysOf(db);
      if keys == {} {
        return Some(-1);
      }
      EndsExist(keys);
      var key :| key in keys && forall j :: j in keys ==> !Less(key, j);
      OneLeast(keys, key);
      return ParseBlockNumber(key);
    }
  }

  lemma OneLeast(keys: set<seq<byte>>, key: seq<byte>)
    ensures forall j :: IsLeast(keys, key) && IsLeast(keys, j) ==> j == key
    ensures forall j :: IsGreatest(keys, key) && IsGreatest(keys, j) ==> j == key
  {
    hide Less;
    forall j: seq<byte> | IsLeast(keys, key) && IsLeast(keys, j) ensures j == key { LessTotal(j, key); }
    forall j: seq<byte> | IsGreatest(keys, key) && IsGreatest(keys, j) ensures j == key { LessTotal(j, key); }
  }

  lemma NothingYet(b: Block)
    ensures EntriesUpTo(b, 0) == [] && BatchOf([]) == [] && I32(0) == 0
  {}

  lemma NextTx(b: Block, t: nat)
    requires t < |b.txs|
    ensures var es := EntriesUpTo(b, t);
            && EntriesUpTo(b, t + 1) == es + TxEntries(b.height, t, AcceptedOf(b.txs[t]), |es|)
            && es + TxEntries(b.height, t, [], |es|) == es
            && U64(GasSum([])) == 0
  {}

  lemma StepEntry(height: int64, t: nat, acc: seq<Accepted>, a: Accepted, base: nat)
    ensures TxEntries(height, t, acc + [a], base)
         == TxEntries(height, t, acc, base) + [EntryOf(height, t, acc + [a], |acc|, base)]
    ensures EntryOf(height, t, acc + [a], |acc|, base)
         == Entry(a.hash, Wire.TxResult(height, U32(t), U32(a.msgIndex), I32(base + |acc|), a.failed, a.gasUsed,
                                        U64(U64(GasSum(acc)) + a.gasUsed)))
    ensures I32(I32(base + |acc|) + 1) == I32(base + |acc + [a]|)
  {
    hide I32, U32, U64, GasSum, TxEntries;
    TxEntriesAppend(height, t, acc, a, base);
    assert (acc + [a])[..|acc| + 1] == acc + [a];
    GasSumAppend(acc, a);
    U64Add(GasSum(acc), a.gasUsed);
    NextIndex(base + |acc|);
  }

  /** What is gathered in the middle of a block is no more than the whole. */
  lemma Prefix(b: Block, t: nat, k: nat)
    requires t < |b.txs| && Indexable(b.txs[t]) && k <= |b.txs[t].msgs|
    ensures |EntriesUpTo(b, t)| + |AcceptedUpTo(b.txs[t], k)| <= |Entries(b)|
    ensures forall base :: |TxEntries(b.height, t, AcceptedUpTo(b.txs[t], k), base)| == |AcceptedUpTo(b.txs[t], k)|
  {
    AcceptedPrefix(b.txs[t], k, |b.txs[t].msgs|);
    NextTx(b, t);
    EntriesPrefix(b, t + 1, |b.txs|);
    hide EntriesUpTo, AcceptedUpTo;
  }
}
