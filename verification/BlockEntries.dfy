/** Where the entries of a block come from, and where their two records go: the index written out in
    terms of the transactions and messages of a block. */
module BlockEntries {
  import opened Base256
  import opened Bytes
  import opened IndexKeys
  import opened TxIndexLog
  import Wire

  // ----- one transaction -----

  /** Each accepted message has what its own message and result say. */
  lemma {:induction false} AcceptedContents(tx: CosmosTx, n: nat, p: nat)
    requires tx.parsed.Some? && n <= |tx.msgs| && p < |AcceptedUpTo(tx, n)|
    ensures var a := AcceptedUpTo(tx, n)[p];
            && a.msgIndex < n && a.hash == tx.msgs[a.msgIndex].hash
            && (!tx.codeOK ==> a.gasUsed == tx.msgs[a.msgIndex].gasLimit && a.failed)
            && (tx.codeOK ==> a.msgIndex < |tx.parsed.value| && a.gasUsed == tx.parsed.value[a.msgIndex].gasUsed
                              && a.failed == tx.parsed.value[a.msgIndex].failed)
  {
    if p < |AcceptedUpTo(tx, n - 1)| {
      AcceptedContents(tx, n - 1, p);
    }
  }

  lemma {:induction false} AcceptedAscend(tx: CosmosTx, n: nat, p: nat, q: nat)
    requires tx.parsed.Some? && n <= |tx.msgs| && p < q < |AcceptedUpTo(tx, n)|
    ensures AcceptedUpTo(tx, n)[p].msgIndex < AcceptedUpTo(tx, n)[q].msgIndex
  {
    if q < |AcceptedUpTo(tx, n - 1)| {
      AcceptedAscend(tx, n - 1, p, q);
    } else {
      AcceptedContents(tx, n - 1, p);
    }
  }

  /** No message is missed. */
  lemma {:induction false} AcceptedComplete(tx: CosmosTx, n: nat, j: nat) returns (p: nat)
    requires tx.parsed.Some? && j < n <= |tx.msgs| && (tx.codeOK ==> j < |tx.parsed.value|)
    ensures p < |AcceptedUpTo(tx, n)| && AcceptedUpTo(tx, n)[p].msgIndex == j
  {
    if j == n - 1 {
      p := |AcceptedUpTo(tx, n - 1)|;
    } else {
      p := AcceptedComplete(tx, n - 1, j);
    }
  }

  // ----- one block -----

  /** The transaction and the message that each entry of the first n transactions comes from. */
  ghost function Sources(b: Block, n: nat): (src: seq<(nat, nat)>)
    requires n <= |b.txs|
    ensures |src| == |EntriesUpTo(b, n)|
  {
    if n == 0 then []
    else
      var acc := AcceptedOf(b.txs[n - 1]);
      Sources(b, n - 1) + seq(|acc|, p requires 0 <= p < |acc| => (n - 1, acc[p].msgIndex))
  }

  predicate Before(x: (nat, nat), y: (nat, nat)) {
    x.0 < y.0 || (x.0 == y.0 && x.1 < y.1)
  }

  lemma {:induction false} SourceBelow(b: Block, n: nat, k: nat)
    requires n <= |b.txs| && k < |Sources(b, n)|
    ensures Sources(b, n)[k].0 < n
  {
    hide EntriesUpTo, AcceptedOf;
    if k < |Sources(b, n - 1)| {
      SourceBelow(b, n - 1, k);
    }
  }

  lemma {:induction false} SourcesAscend(b: Block, n: nat, k: nat, k': nat)
    requires n <= |b.txs| && k < k' < |Sources(b, n)|
    ensures Before(Sources(b, n)[k], Sources(b, n)[k'])
  {
    hide EntriesUpTo, AcceptedUpTo;
    var l := |Sources(b, n - 1)|;
    if k' < l {
      SourcesAscend(b, n - 1, k, k');
    } else if k < l {
      SourceBelow(b, n - 1, k);
    } else {
      AcceptedAscend(b.txs[n - 1], |b.txs[n - 1].msgs|, k - l, k' - l);
    }
  }

  predicate Indexed(b: Block, t: nat, j: nat) {
    && t < |b.txs| && Indexable(b.txs[t]) && j < |b.txs[t].msgs|
    && (b.txs[t].codeOK ==> j < |b.txs[t].parsed.value|)
  }

  lemma {:induction false} SourcesComplete(b: Block, n: nat, t: nat, j: nat) returns (k: nat)
    requires t < n <= |b.txs| && Indexed(b, t, j)
    ensures k < |Sources(b, n)| && Sources(b, n)[k] == (t, j)
  {
    hide EntriesUpTo, AcceptedUpTo;
    if t == n - 1 {
      var p := AcceptedComplete(b.txs[t], |b.txs[t].msgs|, j);
      k := |Sources(b, n - 1)| + p;
    } else {
      k := SourcesComplete(b, n - 1, t, j);
    }
  }

  ghost predicate FromSource(b: Block, e: Entry, t: nat, j: nat)
    requires Indexed(b, t, j)
  {
    var tx := b.txs[t];
    && e.hash == tx.msgs[j].hash && e.rec.height == b.height
    && e.rec.txIndex == t % 0x1_0000_0000 && e.rec.msgIndex == j % 0x1_0000_0000
    && e.rec.gasUsed == (if tx.codeOK then tx.parsed.value[j].gasUsed else tx.msgs[j].gasLimit)
    && e.rec.failed == (if tx.codeOK then tx.parsed.value[j].failed else true)
  }

  lemma {:induction false} SourceOfEntry(b: Block, n: nat, k: nat)
    requires n <= |b.txs| && k < |EntriesUpTo(b, n)|
    ensures Indexed(b, Sources(b, n)[k].0, Sources(b, n)[k].1)
    ensures FromSource(b, EntriesUpTo(b, n)[k], Sources(b, n)[k].0, Sources(b, n)[k].1)
  {
    hide AcceptedUpTo, U64, I32, GasSum;
    var init := EntriesUpTo(b, n - 1);
    if k < |init| {
      SourceOfEntry(b, n - 1, k);
    } else {
      AcceptedContents(b.txs[n - 1], |b.txs[n - 1].msgs|, k - |init|);
    }
  }

  lemma {:induction false} RunningGas(b: Block, n: nat, k: nat)
    requires n <= |b.txs| && k < |EntriesUpTo(b, n)|
    ensures var src, es := Sources(b, n), EntriesUpTo(b, n);
            var before := if k > 0 && src[k - 1].0 == src[k].0 then es[k - 1].rec.cumulativeGasUsed else 0;
            es[k].rec.cumulativeGasUsed == U64(before + es[k].rec.gasUsed)
  {
    hide AcceptedUpTo, U64, U32, I32, GasSum;
    var init := EntriesUpTo(b, n - 1);
    if k < |init| {
      RunningGas(b, n - 1, k);
    } else {
      hide AcceptedOf, TxEntries, EntryOf, Indexable;
      if 0 < k == |init| { SourceBelow(b, n - 1, k - 1); }
      CumulativeGas(b.height, n - 1, AcceptedOf(b.txs[n - 1]), |init|, k - |init|);
    }
  }

  /** Where the entries of a block come from: entry k from message SourcesOf(b)[k].1 of transaction SourcesOf(b)[k].0. */
  ghost function SourcesOf(b: Block): (src: seq<(nat, nat)>)
    ensures |src| == |Entries(b)|
  {
    Sources(b, |b.txs|)
  }

  /** There is one entry for every message of every transaction that is to be indexed and has a result, in the order
      of the block. */
  lemma MessagesOfBlock(b: Block)
    ensures forall k, k' :: 0 <= k < k' < |SourcesOf(b)| ==>
              SourcesOf(b)[k].0 < SourcesOf(b)[k'].0
              || (SourcesOf(b)[k].0 == SourcesOf(b)[k'].0 && SourcesOf(b)[k].1 < SourcesOf(b)[k'].1)
    ensures forall t: nat, j: nat :: (t, j) in SourcesOf(b) <==>
              && t < |b.txs| && j < |b.txs[t].msgs|
              && b.txs[t].expected && b.txs[t].decodes && b.txs[t].isEth && b.txs[t].parsed.Some?
              && (b.txs[t].codeOK ==> j < |b.txs[t].parsed.value|)
  {
    hide Sources, EntriesUpTo;
    var src := Sources(b, |b.txs|);
    forall k, k' | 0 <= k < k' < |src|
      ensures Before(src[k], src[k'])
    {
      SourcesAscend(b, |b.txs|, k, k');
    }
    forall t: nat, j: nat
      ensures (t, j) in src <==> Indexed(b, t, j)
    {
      if (t, j) in src {
        var k :| 0 <= k < |src| && src[k] == (t, j);
        SourceOfEntry(b, |b.txs|, k);
      } else if Indexed(b, t, j) {
        var k := SourcesComplete(b, |b.txs|, t, j);
      }
    }
  }

  /** What an entry holds. A failed transaction reports the gas limit, every other one the gas its events tell; the
      cumulative gas adds up within a transaction. */
  lemma EntryOfMessage(b: Block, k: nat)
    requires k < |Entries(b)|
    ensures var t, j := SourcesOf(b)[k].0, SourcesOf(b)[k].1;
            && t < |b.txs| && j < |b.txs[t].msgs|
            && var tx, rec := b.txs[t], Entries(b)[k].rec;
            var before := if k > 0 && SourcesOf(b)[k - 1].0 == t then Entries(b)[k - 1].rec.cumulativeGasUsed else 0;
            && Entries(b)[k].hash == tx.msgs[j].hash && rec.height == b.height
            && rec.txIndex == t % 0x1_0000_0000 && rec.msgIndex == j % 0x1_0000_0000
            && rec.ethTxIndex == (if k % 0x1_0000_0000 < 0x8000_0000 then k % 0x1_0000_0000 else k % 0x1_0000_0000 - 0x1_0000_0000)
            && (tx.codeOK ==> tx.parsed.Some? && j < |tx.parsed.value| && rec.gasUsed == tx.parsed.value[j].gasUsed
                              && rec.failed == tx.parsed.value[j].failed)
            && (!tx.codeOK ==> rec.gasUsed == tx.msgs[j].gasLimit && rec.failed)
            && rec.cumulativeGasUsed == (before + rec.gasUsed) % 0x1_0000_0000_0000_0000
  {
    hide Sources, EntriesUpTo;
    SourceOfEntry(b, |b.txs|, k);
    RunningGas(b, |b.txs|, k);
    BlockEntriesAreDense(b);
  }

  // ----- the store -----

  /** The bytes of the two keys: a prefix, then the hash, or the height and the index as eight bytes each. */
  lemma KeyLayout(hash: Hash, h: int64, i: int32)
    ensures TxHashKey(hash) == [1] + hash
    ensures var key := TxIndexKey(h, i);
            && |key| == 17 && key[0] == 2
            && FromBigEndian(key[1..9]) == (if h < 0 then h + 0x1_0000_0000_0000_0000 else h)
            && FromBigEndian(key[9..17]) == (if i < 0 then i + 0x1_0000_0000_0000_0000 else i)
  {
    Pow256Of8();
    BigEndianBack(U64(h), 8);
    BigEndianBack(U64(i), 8);
    hide BigEndian, FromBigEndian, Pow256;
    var key := TxIndexKey(h, i);
    assert key[1..9] == BE64(U64(h)) && key[9..17] == BE64(U64(i));
  }

  /** What IndexBlock leaves behind: entry by entry, the record under the hash key and the hash under the index
      key, and nothing else. */
  lemma EntriesAreStored(db: Store, es: seq<Entry>, e: Entry)
    ensures PutAll(db, []) == db
    ensures var before, after := PutAll(db, es), PutAll(db, es + [e]);
            var hashKey, indexKey := TxHashKey(e.hash), TxIndexKey(e.rec.height, e.rec.ethTxIndex);
            && hashKey in after && Wire.Unmarshal(after[hashKey], 0, Wire.FRESH_TX_RESULT) == Wire.Outcome(e.rec, None)
            && after[hashKey] == Wire.Encode(e.rec)
            && indexKey in after && after[indexKey] == e.hash
            && forall key :: key != hashKey && key != indexKey ==>
                 (key in after <==> key in before) && (key in after ==> after[key] == before[key])
  {
    assert (es + [e])[..|es + [e]| - 1] == es;
    KeyspacesApart(e.hash, e.rec.height, e.rec.ethTxIndex);
    hide TxHashKey, TxIndexKey, Wire.Unmarshal, Wire.Encode;
    assert PutAll(db, es + [e]) == Put(PutAll(db, es), e);
    hide PutAll;
  }

  /** A lookup by hash gives the record stored under the hash key, unless there are no bytes or they do not decode. */
  lemma LookupByHash(db: Store, hash: Hash)
    ensures var key := [1] + hash;
            match GetByTxHash(db, hash)
            case Some(m) => key in db && db[key] != [] && Wire.Unmarshal(db[key], 0, Wire.FRESH_TX_RESULT) == Wire.Outcome(m, None)
            case None => key !in db || db[key] == [] || Wire.Unmarshal(db[key], 0, Wire.FRESH_TX_RESULT).err.Some?
  {
    hide Wire.Unmarshal;
    KeyLayout(hash, 0, 0);
  }

  /** A lookup by height and index follows the hash stored there: its last 32 bytes, with zeros in front. */
  lemma LookupByIndex(db: Store, height: int64, index: int32) returns (hash: Hash)
    ensures var key := TxIndexKey(height, index);
            if key in db && db[key] != [] then
              && GetByBlockAndIndex(db, height, index) == GetByTxHash(db, hash)
              && forall k :: 0 <= k < 32 ==> hash[k] == if |db[key]| + k >= 32 then db[key][|db[key]| + k - 32] else 0
            else GetByBlockAndIndex(db, height, index) == None
  {
    hide GetByTxHash, TxIndexKey;
    var key := TxIndexKey(height, index);
    hash := if key in db then BytesToHash(db[key]) else seq(32, _ => 0);
  }

  // ----- runs -----

  /** A run indexes block after block. */
  lemma RunSteps(bs: seq<Block>, b: Block)
    ensures Run([]) == map[] && Run(bs + [b]) == PutAll(Run(bs), Entries(b))
  {
    hide Entries, Put;
    assert (bs + [b])[..|bs + [b]| - 1] == bs;
    PutAllAppend(map[], Log(bs), Entries(b));
  }

  /** After a run over blocks above height 0, with distinct heights and transactions with distinct hashes, every
      message of every transaction that is to be indexed is found by its hash and by its place in the block, and
      what is found is its own outcome. */
  lemma MessageIsFound(bs: seq<Block>, n: nat, t: nat, j: nat) returns (k: nat, rec: TxRecord)
    requires n < |bs| && bs[n].height > 0
    requires forall m, m' :: 0 <= m < m' < |bs| ==> bs[m].height != bs[m'].height
    requires forall m :: 0 <= m < |bs| ==> |Entries(bs[m])| <= TWO_32
    requires forall x, y | x in Log(bs) && y in Log(bs) :: x.hash == y.hash ==> x == y
    requires t < |bs[n].txs| && j < |bs[n].txs[t].msgs|
    requires var tx := bs[n].txs[t];
             tx.expected && tx.decodes && tx.isEth && tx.parsed.Some? && (tx.codeOK ==> j < |tx.parsed.value|)
    ensures GetByTxHash(Run(bs), bs[n].txs[t].msgs[j].hash) == Some(rec)
    ensures GetByBlockAndIndex(Run(bs), bs[n].height, I32(k)) == Some(rec)
    ensures rec.height == bs[n].height && rec.txIndex == t % 0x1_0000_0000 && rec.msgIndex == j % 0x1_0000_0000
    ensures rec.ethTxIndex == I32(k)
    ensures var tx := bs[n].txs[t];
            if tx.codeOK then rec.gasUsed == tx.parsed.value[j].gasUsed && rec.failed == tx.parsed.value[j].failed
            else rec.gasUsed == tx.msgs[j].gasLimit && rec.failed
  {
    assert DistinctHeights(bs) && DistinctHashes(Log(bs));
    hide Entries, Log, I32, Run, GetByTxHash, GetByBlockAndIndex, DistinctHeights, DistinctHashes, SourcesOf;
    MessagesOfBlock(bs[n]);
    assert (t, j) in SourcesOf(bs[n]);
    k :| 0 <= k < |SourcesOf(bs[n])| && SourcesOf(bs[n])[k] == (t, j);
    EntryOfMessage(bs[n], k);
    rec := Entries(bs[n])[k].rec;
    RunLookup(bs, n, k);
    BlockEntriesAreDense(bs[n]);
  }
}
