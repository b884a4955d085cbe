/** The transaction index as functions: the entries a block gives rise to, the two records written
    for each, the lookups, and what any run of IndexBlock leaves in the store. */
module TxIndexLog {
  import opened Bytes
  import opened IndexKeys
  import Wire

  type Store = map<seq<byte>, Buffer>
  type TxRecord = m: Wire.Message | m.TxResult? witness Wire.FRESH_TX_RESULT

  // ----- blocks -----

  datatype EthMsg = EthMsg(hash: Hash, gasLimit: uint64)

  /** What the events of a cosmos transaction say about one of its messages. */
  datatype ParsedTx = ParsedTx(gasUsed: uint64, failed: bool)

  /** One transaction of a block with its result. What the decoder, TxSucessOrExpectedFailure,
      isEthTx and ParseTxResult say about it are given as fields; parsed is None when ParseTxResult
      fails, codeOK tells whether the result code is OK. */
  datatype CosmosTx = CosmosTx(expected: bool, decodes: bool, isEth: bool, parsed: Option<seq<ParsedTx>>,
                               codeOK: bool, msgs: seq<EthMsg>)

  datatype Block = Block(height: int64, txs: seq<CosmosTx>)

  // ----- the entries of a block -----

  datatype Accepted = Accepted(msgIndex: nat, hash: Hash, gasUsed: uint64, failed: bool)

  datatype Entry = Entry(hash: Hash, rec: TxRecord)

  predicate Indexable(tx: CosmosTx) {
    tx.expected && tx.decodes && tx.isEth && tx.parsed.Some?
  }

  function MsgResult(tx: CosmosTx, k: nat): Option<Accepted>
    requires tx.parsed.Some? && k < |tx.msgs|
  {
    if !tx.codeOK then Some(Accepted(k, tx.msgs[k].hash, tx.msgs[k].gasLimit, true))
    else if k < |tx.parsed.value| then
      Some(Accepted(k, tx.msgs[k].hash, tx.parsed.value[k].gasUsed, tx.parsed.value[k].failed))
    else None
  }

  function Singleton(a: Option<Accepted>): seq<Accepted> {
    if a.None? then [] else [a.value]
  }

  /** The accepted ones of the first n messages. */
  function AcceptedUpTo(tx: CosmosTx, n: nat): seq<Accepted>
    requires tx.parsed.Some? && n <= |tx.msgs|
  {
    if n == 0 then [] else AcceptedUpTo(tx, n - 1) + Singleton(MsgResult(tx, n - 1))
  }

  function AcceptedOf(tx: CosmosTx): seq<Accepted> {
    if Indexable(tx) then AcceptedUpTo(tx, |tx.msgs|) else []
  }

  function GasSum(acc: seq<Accepted>): nat {
    if acc == [] then 0 else GasSum(acc[..|acc| - 1]) + acc[|acc| - 1].gasUsed
  }

  /** The j-th accepted message of transaction t, when base messages of the block came before it:
      cumulative gas restarts with every transaction, the index runs through the block. */
  function EntryOf(height: int64, t: nat, acc: seq<Accepted>, j: nat, base: nat): (e: Entry)
    requires j < |acc|
  {
    Entry(acc[j].hash,
          Wire.TxResult(height, U32(t), U32(acc[j].msgIndex), I32(base + j), acc[j].failed, acc[j].gasUsed,
                        U64(GasSum(acc[..j + 1]))))
  }

  function TxEntries(height: int64, t: nat, acc: seq<Accepted>, base: nat): (es: seq<Entry>)
    ensures |es| == |acc|
  {
    seq(|acc|, j requires 0 <= j < |acc| => EntryOf(height, t, acc, j, base))
  }

  function EntriesUpTo(b: Block, t: nat): seq<Entry>
    requires t <= |b.txs|
  {
    if t == 0 then []
    else
      var es := EntriesUpTo(b, t - 1);
      es + TxEntries(b.height, t - 1, AcceptedOf(b.txs[t - 1]), |es|)
  }

  function Entries(b: Block): seq<Entry> { EntriesUpTo(b, |b.txs|) }

  /** Indexes are dense from 0 (as int32), and every entry carries its block's height. */
  lemma {:induction false} EntriesAreDense(b: Block, t: nat)
    requires t <= |b.txs|
    ensures forall k :: 0 <= k < |EntriesUpTo(b, t)| ==>
              EntriesUpTo(b, t)[k].rec.height == b.height && EntriesUpTo(b, t)[k].rec.ethTxIndex == I32(k)
  {
    hide I32, GasSum, AcceptedOf;
    if t > 0 {
      EntriesAreDense(b, t - 1);
    }
  }

  /** Within a transaction the cumulative gas is the running sum, modulo 2^64. */
  lemma CumulativeGas(height: int64, t: nat, acc: seq<Accepted>, base: nat, j: nat)
    requires j < |acc|
    ensures var es := TxEntries(height, t, acc, base);
            es[j].rec.cumulativeGasUsed
            == U64((if j == 0 then 0 else es[j - 1].rec.cumulativeGasUsed) + es[j].rec.gasUsed)
  {
    assert acc[..j + 1][..j] == acc[..j];
    U64Add(GasSum(acc[..j]), acc[j].gasUsed);
    if j == 0 { assert GasSum(acc[..0]) == 0; }
  }

  // ----- the store -----

  /** MustMarshal of a record; only the all-zero record has an empty encoding. */
  function RecordBytes(r: TxRecord): (bs: Buffer)
    ensures Wire.Unmarshal(bs, 0, Wire.FRESH_TX_RESULT) == Wire.Outcome(r, None)
    ensures bs == [] <==> r == Wire.FRESH_TX_RESULT
  {
    RecordBytesFacts(r);
    Wire.Encode(r)
  }

  lemma RecordBytesFacts(r: TxRecord)
    ensures |Wire.Encode(r)| < TWO_63
    ensures Wire.Unmarshal(Wire.Encode(r), 0, Wire.FRESH_TX_RESULT) == Wire.Outcome(r, None)
    ensures Wire.Encode(r) == [] <==> r == Wire.FRESH_TX_RESULT
  {
    assert Wire.Size(Wire.FRESH_TX_RESULT) == 0;
    assert Wire.Unmarshal([], 0, Wire.FRESH_TX_RESULT) == Wire.Outcome(Wire.FRESH_TX_RESULT, None);
    hide Wire.Size, Wire.Encode, Wire.Unmarshal;
    Wire.TxResultRoundTrip(r);
    Wire.SizeIsLength(r);
  }

  datatype Write = Write(key: seq<byte>, value: Buffer)

  /** saveTxResult */
  function WritesOf(e: Entry): seq<Write> {
    [Write(TxHashKey(e.hash), RecordBytes(e.rec)), Write(TxIndexKey(e.rec.height, e.rec.ethTxIndex), e.hash)]
  }

  function BatchOf(es: seq<Entry>): seq<Write> {
    if es == [] then [] else BatchOf(es[..|es| - 1]) + WritesOf(es[|es| - 1])
  }

  /** batch.Write */
  function ApplyWrites(db: Store, ws: seq<Write>): Store {
    if ws == [] then db
    else ApplyWrites(db, ws[..|ws| - 1])[ws[|ws| - 1].key := ws[|ws| - 1].value]
  }

  function Put(db: Store, e: Entry): Store {
    db[TxHashKey(e.hash) := RecordBytes(e.rec)][TxIndexKey(e.rec.height, e.rec.ethTxIndex) := e.hash]
  }

  function PutAll(db: Store, es: seq<Entry>): Store {
    if es == [] then db else Put(PutAll(db, es[..|es| - 1]), es[|es| - 1])
  }

  lemma {:induction false} ApplyWritesAppend(db: Store, a: seq<Write>, b: seq<Write>)
    ensures ApplyWrites(db, a + b) == ApplyWrites(ApplyWrites(db, a), b)
  {
    if b == [] {
      assert a + b == a;
    } else {
      ApplyWritesAppend(db, a, b[..|b| - 1]);
      assert (a + b)[..|a + b| - 1] == a + b[..|b| - 1];
    }
  }

  lemma ApplyTwo(db: Store, v: Write, w: Write)
    ensures ApplyWrites(db, [v, w]) == db[v.key := v.value][w.key := w.value]
  {
    assert [v, w][..1] == [v] && [v][..0] == [];
    assert ApplyWrites(db, [v]) == ApplyWrites(db, [])[v.key := v.value];
  }

  lemma {:induction false} BatchIsPutAll(db: Store, es: seq<Entry>)
    ensures ApplyWrites(db, BatchOf(es)) == PutAll(db, es)
  {
    hide RecordBytes, TxHashKey, TxIndexKey;
    if es != [] {
      var init, last := es[..|es| - 1], es[|es| - 1];
      BatchIsPutAll(db, init);
      ApplyWritesAppend(db, BatchOf(init), WritesOf(last));
      ApplyTwo(PutAll(db, init), WritesOf(last)[0], WritesOf(last)[1]);
    }
  }

  lemma {:induction false} PutAllAppend(db: Store, a: seq<Entry>, b: seq<Entry>)
    ensures PutAll(db, a + b) == PutAll(PutAll(db, a), b)
  {
    hide Put;
    if b == [] {
      assert a + b == a;
    } else {
      PutAllAppend(db, a, b[..|b| - 1]);
      assert (a + b)[..|a + b| - 1] == a + b[..|b| - 1];
    }
  }

  /** Writing a batch lays the batch, taken on its own, over the store. */
  lemma {:induction false} PutAllOverlays(db: Store, es: seq<Entry>)
    ensures PutAll(db, es) == db + PutAll(map[], es)
  {
    hide RecordBytes, TxHashKey, TxIndexKey;
    if es != [] {
      PutAllOverlays(db, es[..|es| - 1]);
    }
  }

  // ----- lookups -----

  function GetByTxHash(db: Store, hash: Hash): Option<Wire.Message> {
    var key := TxHashKey(hash);
    if key !in db || |db[key]| == 0 then None
    else
      var r := Wire.Unmarshal(db[key], 0, Wire.FRESH_TX_RESULT);
      if r.err.Some? then None else Some(r.m)
  }

  /** common.BytesToHash: the last 32 bytes, padded with zeros on the left. */
  function BytesToHash(bs: seq<byte>): Hash {
    if |bs| >= 32 then bs[|bs| - 32..] else seq(32 - |bs|, _ => 0) + bs
  }

  function GetByBlockAndIndex(db: Store, height: int64, index: int32): Option<Wire.Message> {
    var key := TxIndexKey(height, index);
    if key !in db || |db[key]| == 0 then None else GetByTxHash(db, BytesToHash(db[key]))
  }

  // ----- refinement to a plain list of entries -----

  function LastByHash(es: seq<Entry>, hash: Hash): (r: Option<Entry>)
    ensures r.Some? ==> r.value in es && r.value.hash == hash
  {
    if es == [] then None
    else if es[|es| - 1].hash == hash then Some(es[|es| - 1])
    else LastByHash(es[..|es| - 1], hash)
  }

  function LastByIndex(es: seq<Entry>, height: int64, index: int32): (r: Option<Entry>)
    ensures r.Some? ==> r.value in es && r.value.rec.height == height && r.value.rec.ethTxIndex == index
  {
    if es == [] then None
    else if es[|es| - 1].rec.height == height && es[|es| - 1].rec.ethTxIndex == index then Some(es[|es| - 1])
    else LastByIndex(es[..|es| - 1], height, index)
  }

  lemma {:induction false} PutAllByHash(es: seq<Entry>, hash: Hash)
    ensures var db, r := PutAll(map[], es), LastByHash(es, hash);
            && (TxHashKey(hash) in db <==> r.Some?)
            && (r.Some? ==> db[TxHashKey(hash)] == RecordBytes(r.value.rec))
  {
    hide RecordBytes, TxHashKey, TxIndexKey;
    if es != [] {
      var e := es[|es| - 1];
      PutAllByHash(es[..|es| - 1], hash);
      KeyspacesApart(hash, e.rec.height, e.rec.ethTxIndex);
      if TxHashKey(e.hash) == TxHashKey(hash) { HashKeyInjective(e.hash, hash); }
    }
  }

  lemma {:induction false} PutAllByIndex(es: seq<Entry>, height: int64, index: int32)
    ensures var db, r := PutAll(map[], es), LastByIndex(es, height, index);
            && (TxIndexKey(height, index) in db <==> r.Some?)
            && (r.Some? ==> db[TxIndexKey(height, index)] == r.value.hash)
  {
    hide RecordBytes, TxHashKey, TxIndexKey;
    if es != [] {
      var e := es[|es| - 1];
      PutAllByIndex(es[..|es| - 1], height, index);
      KeyspacesApart(e.hash, height, index);
      if TxIndexKey(e.rec.height, e.rec.ethTxIndex) == TxIndexKey(height, index) {
        KeyInjective(e.rec.height, e.rec.ethTxIndex, height, index);
      }
    }
  }

  /** What a lookup makes of a record: the all-zero record has no bytes and reads as missing. */
  function Visible(r: TxRecord): Option<Wire.Message> {
    if r == Wire.FRESH_TX_RESULT then None else Some(r)
  }

  /** Lookup by hash is lookup in the list of entries written, last one first. */
  lemma HashLookupRefines(es: seq<Entry>, hash: Hash)
    ensures GetByTxHash(PutAll(map[], es), hash)
         == match LastByHash(es, hash) case None => None case Some(e) => Visible(e.rec)
  {
    hide PutAll, RecordBytes, TxHashKey, Wire.Unmarshal;
    PutAllByHash(es, hash);
  }

  /** Lookup by block and index goes through the hash, so it finds the last entry with that hash. */
  lemma IndexLookupRefines(es: seq<Entry>, height: int64, index: int32)
    ensures GetByBlockAndIndex(PutAll(map[], es), height, index)
         == match LastByIndex(es, height, index) case None => None case Some(e) =>
              match LastByHash(es, e.hash) case None => None case Some(f) => Visible(f.rec)
  {
    hide PutAll, RecordBytes, TxIndexKey, GetByTxHash, LastByHash, LastByIndex;
    PutAllByIndex(es, height, index);
    var r := LastByIndex(es, height, index);
    if r.Some? {
      HashLookupRefines(es, r.value.hash);
      assert r.value.hash[0..] == r.value.hash;
    }
  }

  // ----- runs over blocks -----

  /** The entries of a run of IndexBlock, in the order they were written. */
  function Log(bs: seq<Block>): seq<Entry> {
    if bs == [] then [] else Log(bs[..|bs| - 1]) + Entries(bs[|bs| - 1])
  }

  /** The store after a run on an empty store. */
  function Run(bs: seq<Block>): Store { PutAll(map[], Log(bs)) }

  lemma {:induction false} LogMembers(bs: seq<Block>, e: Entry)
    ensures e in Log(bs) <==> exists n, k :: 0 <= n < |bs| && 0 <= k < |Entries(bs[n])| && e == Entries(bs[n])[k]
  {
    hide Entries;
    if bs != [] {
      var init, last := bs[..|bs| - 1], bs[|bs| - 1];
      LogMembers(init, e);
      if e in Log(init) {
        var n, k :| 0 <= n < |init| && 0 <= k < |Entries(init[n])| && e == Entries(init[n])[k];
        assert bs[n] == init[n];
      } else if e in Entries(last) {
        var k :| 0 <= k < |Entries(last)| && e == Entries(last)[k];
        assert bs[|bs| - 1] == last;
      }
      if n, k :| 0 <= n < |bs| && 0 <= k < |Entries(bs[n])| && e == Entries(bs[n])[k] {
        if n < |bs| - 1 { assert init[n] == bs[n]; }
      }
    }
  }

  lemma {:induction false} OnlyByHash(es: seq<Entry>, e: Entry)
    requires e in es && forall x | x in es :: x.hash == e.hash ==> x == e
    ensures LastByHash(es, e.hash) == Some(e)
  {
    var last := es[|es| - 1];
    assert last in es;
    if last != e {
      assert e in es[..|es| - 1];
      OnlyByHash(es[..|es| - 1], e);
    }
  }

  lemma {:induction false} OnlyByIndex(es: seq<Entry>, e: Entry)
    requires e in es
    requires forall x | x in es :: x.rec.height == e.rec.height && x.rec.ethTxIndex == e.rec.ethTxIndex ==> x == e
    ensures LastByIndex(es, e.rec.height, e.rec.ethTxIndex) == Some(e)
  {
    var last := es[|es| - 1];
    assert last in es;
    if last != e {
      assert e in es[..|es| - 1];
      OnlyByIndex(es[..|es| - 1], e);
    }
  }

  /** Distinct heights, and no more messages in a block than the int32 index can tell apart. */
  ghost predicate DistinctHeights(bs: seq<Block>) {
    && (forall n, n' :: 0 <= n < n' < |bs| ==> bs[n].height != bs[n'].height)
    && (forall n :: 0 <= n < |bs| ==> |Entries(bs[n])| <= TWO_32)
  }

  ghost predicate DistinctHashes(es: seq<Entry>) {
    forall x, y | x in es && y in es :: x.hash == y.hash ==> x == y
  }

  lemma I32Injective(k: nat, k': nat)
    requires k < TWO_32 && k' < TWO_32 && I32(k) == I32(k')
    ensures k == k'
  {}

  lemma UniqueIndex(bs: seq<Block>, n: nat, k: nat, x: Entry)
    requires DistinctHeights(bs) && n < |bs| && k < |Entries(bs[n])|
    requires x in Log(bs) && x.rec.height == bs[n].height && x.rec.ethTxIndex == I32(k)
    ensures x == Entries(bs[n])[k]
  {
    hide Log, Entries, I32;
    LogMembers(bs, x);
    var n', k' :| 0 <= n' < |bs| && 0 <= k' < |Entries(bs[n'])| && x == Entries(bs[n'])[k'];
    BlockEntriesAreDense(bs[n']);
    assert n' == n;
    I32Injective(k, k');
  }

  lemma BlockEntriesAreDense(b: Block)
    ensures forall k :: 0 <= k < |Entries(b)| ==> Entries(b)[k].rec.height == b.height && Entries(b)[k].rec.ethTxIndex == I32(k)
  {
    EntriesAreDense(b, |b.txs|);
  }

  /** After a run over blocks with distinct heights and transactions with distinct hashes, both lookups
      give the k-th accepted message of every block, unless its record is all zero. */
  lemma RunLookup(bs: seq<Block>, n: nat, k: nat)
    requires DistinctHeights(bs) && DistinctHashes(Log(bs)) && n < |bs| && k < |Entries(bs[n])|
    ensures GetByBlockAndIndex(Run(bs), bs[n].height, I32(k)) == Visible(Entries(bs[n])[k].rec)
    ensures GetByTxHash(Run(bs), Entries(bs[n])[k].hash) == Visible(Entries(bs[n])[k].rec)
  {
    hide Entries, Log, I32, PutAll, GetByTxHash, GetByBlockAndIndex, DistinctHeights, Visible;
    var e := Entries(bs[n])[k];
    LogMembers(bs, e);
    BlockEntriesAreDense(bs[n]);
    forall x | x in Log(bs) && x.rec.height == e.rec.height && x.rec.ethTxIndex == e.rec.ethTxIndex
      ensures x == e
    {
      UniqueIndex(bs, n, k, x);
    }
    OnlyByIndex(Log(bs), e);
    OnlyByHash(Log(bs), e);
    IndexLookupRefines(Log(bs), e.rec.height, e.rec.ethTxIndex);
    HashLookupRefines(Log(bs), e.hash);
  }

  /** Every other key is reported missing. */
  lemma RunMiss(bs: seq<Block>, height: int64, index: int32, hash: Hash)
    ensures (forall n, k :: 0 <= n < |bs| && 0 <= k < |Entries(bs[n])| ==> !(bs[n].height == height && I32(k) == index))
            ==> GetByBlockAndIndex(Run(bs), height, index) == None
    ensures (forall n, k :: 0 <= n < |bs| && 0 <= k < |Entries(bs[n])| ==> Entries(bs[n])[k].hash != hash)
            ==> GetByTxHash(Run(bs), hash) == None
  {
    hide Entries, Log, I32, PutAll, GetByTxHash, GetByBlockAndIndex, LastByHash, LastByIndex;
    IndexLookupRefines(Log(bs), height, index);
    HashLookupRefines(Log(bs), hash);
    var x, y := LastByIndex(Log(bs), height, index), LastByHash(Log(bs), hash);
    if x.Some? {
      LogMembers(bs, x.value);
      var n, k :| 0 <= n < |bs| && 0 <= k < |Entries(bs[n])| && x.value == Entries(bs[n])[k];
      BlockEntriesAreDense(bs[n]);
    }
    if y.Some? {
      LogMembers(bs, y.value);
    }
  }

  lemma {:induction false} AcceptedPrefix(tx: CosmosTx, k: nat, n: nat)
    requires tx.parsed.Some? && k <= n <= |tx.msgs|
    ensures AcceptedUpTo(tx, k) <= AcceptedUpTo(tx, n)
  {
    if k < n { AcceptedPrefix(tx, k, n - 1); }
  }

  lemma {:induction false} EntriesPrefix(b: Block, t: nat, n: nat)
    requires t <= n <= |b.txs|
    ensures EntriesUpTo(b, t) <= EntriesUpTo(b, n)
  {
    hide TxEntries, AcceptedOf;
    if t < n { EntriesPrefix(b, t, n - 1); }
  }

  /** The transaction and the message that an entry comes from. */
  lemma {:induction false} EntryOrigin(b: Block, n: nat, k: nat) returns (t: nat, a: Accepted)
    requires n <= |b.txs| && k < |EntriesUpTo(b, n)|
    ensures t < n && Indexable(b.txs[t]) && a.msgIndex < |b.txs[t].msgs| && MsgResult(b.txs[t], a.msgIndex) == Some(a)
    ensures var r := EntriesUpTo(b, n)[k].rec;
            r.txIndex == U32(t) && r.msgIndex == U32(a.msgIndex) && r.failed == a.failed && r.gasUsed == a.gasUsed
  {
    hide U32, I32, U64, GasSum, MsgResult, AcceptedUpTo;
    var init := EntriesUpTo(b, n - 1);
    if k < |init| {
      t, a := EntryOrigin(b, n - 1, k);
    } else {
      t, a := n - 1, AcceptedOf(b.txs[n - 1])[k - |init|];
      AcceptedOrigin(b.txs[t], |b.txs[t].msgs|, k - |init|);
    }
  }

  lemma {:induction false} AcceptedOrigin(tx: CosmosTx, n: nat, j: nat)
    requires tx.parsed.Some? && n <= |tx.msgs| && j < |AcceptedUpTo(tx, n)|
    ensures var a := AcceptedUpTo(tx, n)[j]; a.msgIndex < n && MsgResult(tx, a.msgIndex) == Some(a)
  {
    if j < |AcceptedUpTo(tx, n - 1)| {
      AcceptedOrigin(tx, n - 1, j);
    }
  }

  /** The first message of the first transaction is indexed, did not fail and used no gas. */
  predicate StartsFree(b: Block) {
    b.txs != [] && Indexable(b.txs[0]) && b.txs[0].msgs != []
    && var a := MsgResult(b.txs[0], 0); a.Some? && !a.value.failed && a.value.gasUsed == 0
  }

  /** Counts fit the 32 bits of the record's fields. */
  predicate Countable(b: Block) {
    |b.txs| <= TWO_32 && |Entries(b)| <= TWO_32 && forall t :: 0 <= t < |b.txs| ==> |b.txs[t].msgs| <= TWO_32
  }

  /** Lookups cannot see exactly one kind of record: that of the first message of a block of height 0, when
      this message did not fail and used no gas. */
  lemma InvisibleExactlyAtHeightZero(b: Block, k: nat)
    requires Countable(b) && k < |Entries(b)|
    ensures Visible(Entries(b)[k].rec) == None <==> b.height == 0 && k == 0 && StartsFree(b)
  {
    hide Entries, StartsFree, Countable;
    if Visible(Entries(b)[k].rec) == None {
      InvisibleIsFirst(b, k);
    }
    if b.height == 0 && k == 0 && StartsFree(b) {
      FirstEntry(b);
    }
  }

  lemma InvisibleIsFirst(b: Block, k: nat)
    requires Countable(b) && k < |Entries(b)| && Visible(Entries(b)[k].rec) == None
    ensures b.height == 0 && k == 0 && StartsFree(b)
  {
    EntriesAreDense(b, |b.txs|);
    hide I32, AcceptedUpTo, EntriesUpTo;
    assert I32(k) == 0 by { assert Entries(b)[k].rec.ethTxIndex == I32(k); }
    ZeroIndex(k);
    var t, a := EntryOrigin(b, |b.txs|, k);
    assert t == 0 && a.msgIndex == 0;
    hide MsgResult;
  }

  lemma ZeroIndex(k: nat)
    requires k < TWO_32 && I32(k) == 0
    ensures k == 0
  {}

  lemma FirstEntry(b: Block)
    requires StartsFree(b) && b.height == 0
    ensures |Entries(b)| > 0 && Entries(b)[0].rec == Wire.FRESH_TX_RESULT
  {
    var tx := b.txs[0];
    var a := MsgResult(tx, 0).value;
    FirstAccepted(tx);
    EntriesPrefix(b, 1, |b.txs|);
    var acc := AcceptedOf(tx);
    assert EntriesUpTo(b, 0) == [] && EntriesUpTo(b, 1) == TxEntries(0, 0, acc, 0);
    hide MsgResult, EntriesUpTo, AcceptedOf;
    assert acc[..1] == [a];
    OneFreeMessage(a);
    assert TxEntries(0, 0, acc, 0)[0] == EntryOf(0, 0, acc, 0, 0);
  }

  lemma FirstAccepted(tx: CosmosTx)
    requires Indexable(tx) && tx.msgs != [] && MsgResult(tx, 0).Some?
    ensures |AcceptedOf(tx)| > 0 && AcceptedOf(tx)[0] == MsgResult(tx, 0).value && MsgResult(tx, 0).value.msgIndex == 0
  {
    assert AcceptedUpTo(tx, 0) == [] && AcceptedUpTo(tx, 1) == [MsgResult(tx, 0).value];
    AcceptedPrefix(tx, 1, |tx.msgs|);
  }

  lemma OneFreeMessage(a: Accepted)
    requires a.gasUsed == 0
    ensures GasSum([a]) == 0
  {
    assert [a][..0] == [];
    assert GasSum([]) == 0;
  }

  /** One message that used no gas, alone in its block. */
  function FreeTx(hash: Hash): CosmosTx {
    CosmosTx(true, true, true, Some([ParsedTx(0, false)]), true, [EthMsg(hash, 0)])
  }

  lemma FreeTxEntry(height: int64, hash: Hash)
    ensures Log([Block(height, [FreeTx(hash)])]) == Entries(Block(height, [FreeTx(hash)]))
    ensures Entries(Block(height, [FreeTx(hash)])) == [Entry(hash, Wire.TxResult(height, 0, 0, 0, false, 0, 0))]
  {
    var tx, a := FreeTx(hash), Accepted(0, hash, 0, false);
    var b := Block(height, [tx]);
    assert AcceptedUpTo(tx, 0) == [];
    assert AcceptedOf(tx) == [a];
    assert GasSum([a][..0]) == 0 && [a][..1] == [a];
    assert EntriesUpTo(b, 0) == [];
    assert EntryOf(height, 0, [a], 0, 0) == Entry(hash, Wire.TxResult(height, 0, 0, 0, false, 0, 0));
    assert [b][..0] == [] && Log([b][..0]) == [];
  }

  /** The promise fails at height 0: a first transaction that used no gas is written but never found. */
  lemma HeightZeroIsLost(hash: Hash)
    ensures var b := Block(0, [FreeTx(hash)]);
            TxHashKey(hash) in Run([b])
            && GetByTxHash(Run([b]), hash) == None && GetByBlockAndIndex(Run([b]), 0, 0) == None
  {
    FreeTxEntry(0, hash);
    hide Entries, Log, GetByTxHash, GetByBlockAndIndex, TxHashKey, FreeTx;
    var e := Entry(hash, Wire.FRESH_TX_RESULT);
    PutAllByHash([e], hash);
    HashLookupRefines([e], hash);
    IndexLookupRefines([e], 0, 0);
  }

  // ----- a hash indexed twice -----

  ghost predicate DistinctIndexes(es: seq<Entry>) {
    forall p, q :: 0 <= p < q < |es| ==> !SameIndex(es[p], es[q])
  }

  predicate SameIndex(x: Entry, y: Entry) {
    x.rec.height == y.rec.height && x.rec.ethTxIndex == y.rec.ethTxIndex
  }

  lemma BlockIndexesDistinct(b: Block, p: nat, q: nat)
    requires p < q < |Entries(b)| <= TWO_32
    ensures !SameIndex(Entries(b)[p], Entries(b)[q])
  {
    hide Entries, I32;
    BlockEntriesAreDense(b);
    if I32(p) == I32(q) { I32Injective(p, q); }
  }

  lemma HeightInLog(bs: seq<Block>, x: Entry) returns (n: nat)
    requires x in Log(bs)
    ensures n < |bs| && x.rec.height == bs[n].height
  {
    hide Entries, Log;
    LogMembers(bs, x);
    var m, k :| 0 <= m < |bs| && 0 <= k < |Entries(bs[m])| && x == Entries(bs[m])[k];
    BlockEntriesAreDense(bs[m]);
    n := m;
  }

  lemma {:induction false} LogIndexesDistinct(bs: seq<Block>)
    requires DistinctHeights(bs)
    ensures DistinctIndexes(Log(bs))
  {
    hide Entries, SameIndex;
    if bs != [] {
      var init, last := bs[..|bs| - 1], bs[|bs| - 1];
      LogIndexesDistinct(init);
      var n := |Log(init)|;
      forall p, q | 0 <= p < q < |Log(bs)|
        ensures !SameIndex(Log(bs)[p], Log(bs)[q])
      {
        if n <= p {
          BlockIndexesDistinct(last, p - n, q - n);
        } else if n <= q {
          LogCross(bs, p, q);
        }
      }
    }
  }

  lemma LogCross(bs: seq<Block>, p: nat, q: nat)
    requires DistinctHeights(bs) && bs != [] && p < |Log(bs[..|bs| - 1])| <= q < |Log(bs)|
    ensures !SameIndex(Log(bs)[p], Log(bs)[q])
  {
    var init, last := bs[..|bs| - 1], bs[|bs| - 1];
    assert Log(bs) == Log(init) + Entries(last);
    hide Entries, Log;
    var m := HeightInLog(init, Log(init)[p]);
    BlockEntriesAreDense(last);
  }

  lemma {:induction false} LastByHashPosition(es: seq<Entry>, p: nat) returns (q: nat)
    requires p < |es|
    ensures p <= q < |es| && es[q].hash == es[p].hash && LastByHash(es, es[p].hash) == Some(es[q])
    ensures forall r :: q < r < |es| ==> es[r].hash != es[p].hash
  {
    if es[|es| - 1].hash == es[p].hash {
      q := |es| - 1;
    } else {
      q := LastByHashPosition(es[..|es| - 1], p);
    }
  }

  /** A hash indexed again overwrites its record. So the lookup of an entry by block and index gives that
      entry back exactly when no later entry of the run carries the same hash. */
  lemma RepeatedHash(bs: seq<Block>, p: nat)
    requires DistinctHeights(bs) && p < |Log(bs)| && Visible(Log(bs)[p].rec).Some?
    ensures var e := Log(bs)[p];
            GetByBlockAndIndex(Run(bs), e.rec.height, e.rec.ethTxIndex) == Some(e.rec)
            <==> forall q :: p < q < |Log(bs)| ==> Log(bs)[q].hash != e.hash
  {
    hide Entries, I32, PutAll, GetByBlockAndIndex, DistinctHeights, LastByHash;
    var es := Log(bs);
    hide Log;
    LogIndexesDistinct(bs);
    var e := es[p];
    forall x | x in es && x.rec.height == e.rec.height && x.rec.ethTxIndex == e.rec.ethTxIndex
      ensures x == e
    {
      var r :| 0 <= r < |es| && es[r] == x;
    }
    OnlyByIndex(es, e);
    IndexLookupRefines(es, e.rec.height, e.rec.ethTxIndex);
    var q := LastByHashPosition(es, p);
  }

  /** For instance, a transaction that is in two blocks is reported by both as being in the second. */
  lemma RetriedTxMoves(hash: Hash)
    ensures var b, c := Block(1, [FreeTx(hash)]), Block(2, [FreeTx(hash)]);
            GetByBlockAndIndex(Run([b, c]), 1, 0) == Some(Wire.TxResult(2, 0, 0, 0, false, 0, 0))
  {
    var e, f := Entry(hash, Wire.TxResult(1, 0, 0, 0, false, 0, 0)), Entry(hash, Wire.TxResult(2, 0, 0, 0, false, 0, 0));
    hide Entries, FreeTx, GetByBlockAndIndex, PutAll, Log;
    TwoFreeTxs(hash);
    SecondWins(e, f);
  }

  lemma SecondWins(e: Entry, f: Entry)
    requires e.hash == f.hash && !SameIndex(e, f)
    ensures GetByBlockAndIndex(PutAll(map[], [e, f]), e.rec.height, e.rec.ethTxIndex) == Visible(f.rec)
  {}

  lemma TwoFreeTxs(hash: Hash)
    ensures Log([Block(1, [FreeTx(hash)]), Block(2, [FreeTx(hash)])])
         == [Entry(hash, Wire.TxResult(1, 0, 0, 0, false, 0, 0)), Entry(hash, Wire.TxResult(2, 0, 0, 0, false, 0, 0))]
  {
    hide Entries, FreeTx;
    var b, c := Block(1, [FreeTx(hash)]), Block(2, [FreeTx(hash)]);
    FreeTxEntry(1, hash);
    FreeTxEntry(2, hash);
    assert [b, c][..1] == [b];
  }

  // ----- order does not matter -----

  /** What one block writes. */
  function Overlay(b: Block): Store { PutAll(map[], Entries(b)) }

  ghost predicate Compatible(s: set<Block>) {
    forall b, c | b in s && c in s && b != c ::
      b.height != c.height && forall x, y | x in Entries(b) && y in Entries(c) :: x.hash != y.hash
  }

  lemma {:induction false} OverlayKeys(es: seq<Entry>, key: seq<byte>)
    requires key in PutAll(map[], es)
    ensures exists e :: e in es && (key == TxHashKey(e.hash) || key == TxIndexKey(e.rec.height, e.rec.ethTxIndex))
  {
    hide RecordBytes, TxHashKey, TxIndexKey;
    var last := es[|es| - 1];
    if key == TxHashKey(last.hash) || key == TxIndexKey(last.rec.height, last.rec.ethTxIndex) {
      assert last in es;
    } else {
      OverlayKeys(es[..|es| - 1], key);
    }
  }

  lemma OverlaysDisjoint(s: set<Block>, b: Block, c: Block, key: seq<byte>)
    requires Compatible(s) && b in s && c in s && key in Overlay(b) && key in Overlay(c)
    ensures b == c
  {
    hide Entries, PutAll, TxHashKey, TxIndexKey;
    OverlayKeys(Entries(b), key);
    OverlayKeys(Entries(c), key);
    var x :| x in Entries(b) && (key == TxHashKey(x.hash) || key == TxIndexKey(x.rec.height, x.rec.ethTxIndex));
    var y :| y in Entries(c) && (key == TxHashKey(y.hash) || key == TxIndexKey(y.rec.height, y.rec.ethTxIndex));
    BlockEntriesAreDense(b);
    BlockEntriesAreDense(c);
    KeyspacesApart(x.hash, y.rec.height, y.rec.ethTxIndex);
    KeyspacesApart(y.hash, x.rec.height, x.rec.ethTxIndex);
    if key == TxHashKey(x.hash) {
      HashKeyInjective(x.hash, y.hash);
    } else {
      KeyInjective(x.rec.height, x.rec.ethTxIndex, y.rec.height, y.rec.ethTxIndex);
    }
  }

  function SetOf(bs: seq<Block>): set<Block> { set b | b in bs }

  lemma {:induction false} RunIsUnion(bs: seq<Block>, s: set<Block>)
    requires Compatible(s) && SetOf(bs) <= s
    ensures forall b, key :: b in bs && key in Overlay(b) ==> key in Run(bs) && Run(bs)[key] == Overlay(b)[key]
    ensures forall key :: key in Run(bs) ==> exists b :: b in bs && key in Overlay(b)
  {
    hide Entries, Compatible, Put;
    if bs != [] {
      var init, last := bs[..|bs| - 1], bs[|bs| - 1];
      RunIsUnion(init, s);
      PutAllAppend(map[], Log(init), Entries(last));
      PutAllOverlays(Run(init), Entries(last));
      hide PutAll;
      assert Run(bs) == Run(init) + Overlay(last);
      assert last in bs;
      forall b, key | b in bs && key in Overlay(b)
        ensures key in Run(bs) && Run(bs)[key] == Overlay(b)[key]
      {
        if key in Overlay(last) {
          OverlaysDisjoint(s, b, last, key);
        } else {
          assert b in init;
        }
      }
      forall key | key in Run(bs)
        ensures exists b :: b in bs && key in Overlay(b)
      {
        if key !in Overlay(last) {
          var b :| b in init && key in Overlay(b);
          assert b in bs;
        }
      }
    }
  }

  /** Any two runs over the same set of blocks, in any order and with any repetitions, leave the same
      store: backward and forward filling agree, and indexing a block again changes nothing. */
  lemma OrderDoesNotMatter(bs: seq<Block>, cs: seq<Block>)
    requires SetOf(bs) == SetOf(cs) && Compatible(SetOf(bs))
    ensures Run(bs) == Run(cs)
  {
    hide Run, Overlay, Compatible;
    assert forall b :: b in bs <==> b in SetOf(bs);
    assert forall b :: b in cs <==> b in SetOf(cs);
    RunIsUnion(bs, SetOf(bs));
    RunIsUnion(cs, SetOf(bs));
    forall key | key in Run(bs) ensures key in Run(cs) && Run(cs)[key] == Run(bs)[key] {
      var b :| b in bs && key in Overlay(b);
      assert b in cs;
    }
    forall key | key in Run(cs) ensures key in Run(bs) {
      var b :| b in cs && key in Overlay(b);
      assert b in bs;
    }
  }

  /** Indexing a block twice in a row changes nothing, on any store. */
  lemma IndexTwice(db: Store, b: Block)
    ensures PutAll(PutAll(db, Entries(b)), Entries(b)) == PutAll(db, Entries(b))
  {
    hide Entries, PutAll;
    PutAllOverlays(db, Entries(b));
    PutAllOverlays(PutAll(db, Entries(b)), Entries(b));
  }
}
