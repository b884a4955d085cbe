/** The programs that fill the index: the forward and backward command and the service that follows
    the chain. None of them leaves a gap, wherever it is stopped. */
module IndexDrivers {
  import opened Bytes
  import opened IndexKeys
  import opened TxIndexLog
  import opened KVIndexer

  /** Block number h of the chain. */
  function At(chain: seq<Block>, h: int): Block
    requires 1 <= h <= |chain|
  {
    chain[h - 1]
  }

  /** The blocks 1, 2, ... of the chain. */
  ghost predicate ValidChain(chain: seq<Block>) {
    |chain| < TWO_63 - 1 && forall h :: 1 <= h <= |chain| ==> At(chain, h).height == h
  }

  /** Every index record of b is in the store, and so is some record for each of its hashes. */
  ghost predicate Indexed(db: Store, b: Block) {
    forall key :: key in Overlay(b) ==> key in db && (InIndexRange(key) ==> db[key] == Overlay(b)[key])
  }

  /** Blocks lo up to but not including hi are indexed, and no other block has an entry. */
  ghost predicate Cover(chain: seq<Block>, db: Store, lo: int, hi: int) {
    && 1 <= lo <= hi <= |chain| + 1 && WellKeyed(db)
    && (forall h :: lo <= h < hi ==> Indexed(db, At(chain, h)))
    && (forall h: int64 :: HasEntry(db, h) ==> lo <= h < hi)
  }

  /** Every block between the first and the last indexed block is indexed. */
  ghost predicate NoGaps(chain: seq<Block>, db: Store) {
    && WellKeyed(db) && FirstIndexed(db).Some? && LastIndexed(db).Some?
    && var first, last := FirstIndexed(db).value, LastIndexed(db).value;
       first != -1 ==> 1 <= first && last <= |chain| && forall h :: first <= h <= last ==> Indexed(db, At(chain, h))
  }

  // ----- one block more -----

  lemma KeysOfBlock(b: Block, key: seq<byte>)
    requires key in Overlay(b) && InIndexRange(key)
    ensures exists i: int32 :: key == TxIndexKey(b.height, i)
  {
    hide Entries, PutAll, InIndexRange;
    OverlayKeys(Entries(b), key);
    BlockEntriesAreDense(b);
    var e :| e in Entries(b) && (key == TxHashKey(e.hash) || key == TxIndexKey(e.rec.height, e.rec.ethTxIndex));
    KeyspacesApart(e.hash, e.rec.height, e.rec.ethTxIndex);
  }

  /** What indexing block b does to the index. */
  lemma IndexOne(db: Store, b: Block)
    ensures var db' := PutAll(db, Entries(b));
            && Indexed(db', b)
            && (forall c :: Indexed(db, c) && c.height != b.height ==> Indexed(db', c))
            && (forall h: int64 :: HasEntry(db, h) ==> HasEntry(db', h))
            && (forall h: int64 :: HasEntry(db', h) ==> HasEntry(db, h) || h == b.height)
            && (b.height >= 0 && WellKeyed(db) ==> WellKeyed(db'))
  {
    hide Entries, InIndexRange, TxIndexKey;
    var db' := PutAll(db, Entries(b));
    PutAllOverlays(db, Entries(b));
    assert db' == db + Overlay(b);
    hide PutAll, Overlay;
    forall c, key | Indexed(db, c) && c.height != b.height && key in Overlay(c)
      ensures key in db' && (InIndexRange(key) ==> db'[key] == Overlay(c)[key])
    {
      if InIndexRange(key) && key in Overlay(b) {
        KeysOfBlock(b, key);
        KeysOfBlock(c, key);
        var i: int32 :| key == TxIndexKey(b.height, i);
        var j: int32 :| key == TxIndexKey(c.height, j);
        KeyInjective(b.height, i, c.height, j);
      }
    }
    forall h: int64 | HasEntry(db', h) ensures HasEntry(db, h) || h == b.height {
      var i: int32 :| TxIndexKey(h, i) in db';
      if TxIndexKey(h, i) !in db {
        KeyspacesApart(seq(32, _ => 0), h, i);
        KeysOfBlock(b, TxIndexKey(h, i));
        var j: int32 :| TxIndexKey(h, i) == TxIndexKey(b.height, j);
        KeyInjective(h, i, b.height, j);
      }
    }
    forall h: int64 | HasEntry(db, h) ensures HasEntry(db', h) {
      var i: int32 :| TxIndexKey(h, i) in db;
      assert TxIndexKey(h, i) in db';
    }
    if b.height >= 0 && WellKeyed(db) {
      forall key | key in IndexKeysOf(db')
        ensures exists h: int64, i: int32 :: h >= 0 && key == TxIndexKey(h, i)
      {
        if key in db {
          assert key in IndexKeysOf(db);
        } else {
          KeysOfBlock(b, key);
        }
      }
    }
  }

  lemma HasOwnEntry(db: Store, b: Block)
    requires Indexed(db, b) && Entries(b) != []
    ensures HasEntry(db, b.height)
  {
    hide TxIndexKey, Entries, PutAll, I32;
    BlockEntriesAreDense(b);
    OverlayHas(Entries(b), Entries(b)[0]);
    assert TxIndexKey(b.height, I32(0)) in Overlay(b);
  }

  lemma {:induction false} OverlayHas(es: seq<Entry>, e: Entry)
    requires e in es
    ensures TxIndexKey(e.rec.height, e.rec.ethTxIndex) in PutAll(map[], es)
  {
    hide TxIndexKey, TxHashKey, RecordBytes;
    if es[|es| - 1] != e {
      OverlayHas(es[..|es| - 1], e);
    }
  }

  lemma CoverStep(chain: seq<Block>, db: Store, lo: int, hi: int, h: int)
    requires ValidChain(chain) && Cover(chain, db, lo, hi)
    requires 1 <= h <= |chain| && lo - 1 <= h <= hi
    ensures Cover(chain, PutAll(db, Entries(At(chain, h))), if h < lo then h else lo, if h < hi then hi else h + 1)
  {
    hide Indexed, HasEntry, WellKeyed, PutAll, Entries;
    IndexOne(db, At(chain, h));
  }

  lemma EmptyCover(chain: seq<Block>, db: Store, h: int)
    requires WellKeyed(db) && (forall g: int64 :: !HasEntry(db, g)) && 1 <= h <= |chain| + 1
    ensures Cover(chain, db, h, h)
  {}

  lemma CoverHasNoGaps(chain: seq<Block>, db: Store, lo: int, hi: int)
    requires |chain| < TWO_63 && Cover(chain, db, lo, hi)
    ensures NoGaps(chain, db)
  {
    FirstAndLast(db);
    hide FirstIndexed, LastIndexed, HasEntry, WellKeyed, Indexed;
  }

  /** A store without gaps covers an interval that both ends of the index lie in; an empty one covers
      an empty interval wherever one likes. */
  lemma NoGapsIsCover(chain: seq<Block>, db: Store, h: int)
    requires ValidChain(chain) && NoGaps(chain, db) && 1 <= h <= |chain| + 1
    ensures var first, last := FirstIndexed(db).value, LastIndexed(db).value;
            && (first == -1 <==> last == -1)
            && if first == -1 then Cover(chain, db, h, h) else Cover(chain, db, first, last + 1)
  {
    FirstAndLast(db);
    hide FirstIndexed, LastIndexed, HasEntry, WellKeyed, Indexed;
    if FirstIndexed(db).value == -1 {
      EmptyCover(chain, db, h);
    }
  }

  // ----- runs -----

  /** Blocks from, from + 1, ..., upTo indexed in this order. */
  function IndexUp(db: Store, chain: seq<Block>, from: int, upTo: int): Store
    requires 1 <= from && upTo <= |chain|
    decreases upTo - from
  {
    if upTo < from then db else PutAll(IndexUp(db, chain, from, upTo - 1), Entries(At(chain, upTo)))
  }

  /** Blocks from, from - 1, ..., upTo indexed in this order. */
  function IndexDown(db: Store, chain: seq<Block>, from: int, upTo: int): Store
    requires from <= |chain| && 1 <= upTo
    decreases from - upTo
  {
    if from < upTo then db else PutAll(IndexDown(db, chain, from, upTo + 1), Entries(At(chain, upTo)))
  }

  lemma {:induction false} IndexUpCovers(chain: seq<Block>, db: Store, lo: int, hi: int, from: int, upTo: int)
    requires ValidChain(chain) && Cover(chain, db, lo, hi) && lo <= from <= hi && upTo <= |chain|
    ensures Cover(chain, IndexUp(db, chain, from, upTo), lo, if upTo < hi then hi else upTo + 1)
    decreases upTo - from
  {
    hide Cover, Entries, PutAll;
    if from <= upTo {
      IndexUpCovers(chain, db, lo, hi, from, upTo - 1);
      CoverBounds(chain, db, lo, hi);
      CoverStep(chain, IndexUp(db, chain, from, upTo - 1), lo, if upTo - 1 < hi then hi else upTo, upTo);
    }
  }

  lemma {:induction false} IndexDownCovers(chain: seq<Block>, db: Store, lo: int, hi: int, from: int, upTo: int)
    requires ValidChain(chain) && Cover(chain, db, lo, hi) && from == lo - 1 && 1 <= upTo
    ensures Cover(chain, IndexDown(db, chain, from, upTo), if upTo < lo then upTo else lo, hi)
    decreases from - upTo
  {
    hide Entries, PutAll;
    if upTo <= from {
      IndexDownCovers(chain, db, lo, hi, from, upTo + 1);
      hide Cover;
      CoverStep(chain, IndexDown(db, chain, from, upTo + 1), upTo + 1, hi, upTo);
    }
  }

  lemma CoverBounds(chain: seq<Block>, db: Store, lo: int, hi: int)
    requires Cover(chain, db, lo, hi)
    ensures 1 <= lo <= hi <= |chain| + 1
  {}

  /** A run of a driver: Backward is told the height of the block store, Service the latest block it
      knows of when it starts. */
  datatype Driver = Forward | Backward(height: nat) | Service(latest: nat)

  /** Where a driver starts, given what is in the store. */
  ghost function StartOf(db: Store, d: Driver): int
    requires WellKeyed(db)
  {
    FirstAndLast(db);
    var first, last := FirstIndexed(db).value, LastIndexed(db).value;
    match d
    case Forward => (if last == -1 then 0 else last) + 1
    case Backward(height) => (if first == -1 then height else first) - 1
    case Service(latest) => (if last == -1 then latest else last) + 1
  }

  ghost predicate DriverFits(chain: seq<Block>, d: Driver) {
    (d.Backward? ==> d.height <= |chain|) && (d.Service? ==> d.latest <= |chain|)
  }

  /** db' is what the driver leaves in the store when block stop was the last one it indexed. */
  ghost predicate IsRun(chain: seq<Block>, db: Store, d: Driver, stop: int, db': Store) {
    && NoGaps(chain, db) && DriverFits(chain, d)
    && var start := StartOf(db, d);
       if d.Backward? then start <= |chain| && 1 <= stop && db' == IndexDown(db, chain, start, stop)
       else 1 <= start && stop <= |chain| && db' == IndexUp(db, chain, start, stop)
  }

  lemma UpRunCovers(chain: seq<Block>, db: Store, start: int, stop: int)
    requires ValidChain(chain) && NoGaps(chain, db) && start <= stop <= |chain|
    requires 1 <= start && (LastIndexed(db).value == -1 || start == LastIndexed(db).value + 1)
    ensures var lo := if FirstIndexed(db).value == -1 then start else FirstIndexed(db).value;
            lo <= start && Cover(chain, IndexUp(db, chain, start, stop), lo, stop + 1)
  {
    hide FirstIndexed, LastIndexed, HasEntry, WellKeyed, Indexed, Cover;
    NoGapsIsCover(chain, db, start);
    var lo := if FirstIndexed(db).value == -1 then start else FirstIndexed(db).value;
    CoverBounds(chain, db, lo, start);
    IndexUpCovers(chain, db, lo, start, start, stop);
  }

  lemma DownRunCovers(chain: seq<Block>, db: Store, start: int, stop: int)
    requires ValidChain(chain) && NoGaps(chain, db) && 1 <= stop <= start < |chain| + 1
    requires FirstIndexed(db).value == -1 || start == FirstIndexed(db).value - 1
    ensures var hi := if LastIndexed(db).value == -1 then start + 1 else LastIndexed(db).value + 1;
            start < hi && Cover(chain, IndexDown(db, chain, start, stop), stop, hi)
  {
    hide FirstIndexed, LastIndexed, HasEntry, WellKeyed, Indexed, Cover;
    NoGapsIsCover(chain, db, start + 1);
    var hi := if LastIndexed(db).value == -1 then start + 1 else LastIndexed(db).value + 1;
    CoverBounds(chain, db, start + 1, hi);
    IndexDownCovers(chain, db, start + 1, hi, start, stop);
  }

  lemma UpRun(chain: seq<Block>, db: Store, start: int, stop: int)
    requires ValidChain(chain) && NoGaps(chain, db) && start <= stop <= |chain|
    requires 1 <= start && (LastIndexed(db).value == -1 || start == LastIndexed(db).value + 1)
    ensures var db' := IndexUp(db, chain, start, stop);
            && NoGaps(chain, db') && (forall h :: start <= h <= stop ==> Indexed(db', At(chain, h)))
            && (FirstIndexed(db).value != -1 ==>
                  forall h :: FirstIndexed(db).value <= h <= LastIndexed(db).value ==> Indexed(db', At(chain, h)))
  {
    hide IndexUp;
    UpRunCovers(chain, db, start, stop);
    NoGapsIsCover(chain, db, start);
    hide FirstIndexed, LastIndexed, HasEntry, WellKeyed, Indexed, NoGaps;
    CoverHasNoGaps(chain, IndexUp(db, chain, start, stop),
                   if FirstIndexed(db).value == -1 then start else FirstIndexed(db).value, stop + 1);
  }

  lemma DownRun(chain: seq<Block>, db: Store, start: int, stop: int)
    requires ValidChain(chain) && NoGaps(chain, db) && 1 <= stop <= start < |chain| + 1
    requires FirstIndexed(db).value == -1 || start == FirstIndexed(db).value - 1
    ensures var db' := IndexDown(db, chain, start, stop);
            && NoGaps(chain, db') && (forall h :: stop <= h <= start ==> Indexed(db', At(chain, h)))
            && (FirstIndexed(db).value != -1 ==>
                  forall h :: FirstIndexed(db).value <= h <= LastIndexed(db).value ==> Indexed(db', At(chain, h)))
  {
    hide IndexDown;
    DownRunCovers(chain, db, start, stop);
    NoGapsIsCover(chain, db, start);
    hide FirstIndexed, LastIndexed, HasEntry, WellKeyed, Indexed, NoGaps;
    CoverHasNoGaps(chain, IndexDown(db, chain, start, stop), stop,
                   if LastIndexed(db).value == -1 then start + 1 else LastIndexed(db).value + 1);
  }

  /** What a run leaves behind: no gap, with the blocks the driver went through and those between the old
      first and last block all indexed. */
  lemma RunCovers(chain: seq<Block>, db: Store, d: Driver, stop: int, db': Store)
    requires ValidChain(chain) && IsRun(chain, db, d, stop, db')
    ensures NoGaps(chain, db')
    ensures !d.Backward? ==> forall h :: StartOf(db, d) <= h <= stop ==> Indexed(db', At(chain, h))
    ensures d.Backward? ==> forall h :: stop <= h <= StartOf(db, d) ==> Indexed(db', At(chain, h))
    ensures FirstIndexed(db).value != -1 ==>
              forall h :: FirstIndexed(db).value <= h <= LastIndexed(db).value ==> Indexed(db', At(chain, h))
  {
    hide FirstIndexed, LastIndexed, HasEntry, WellKeyed, Indexed;
    var start := StartOf(db, d);
    Ends(chain, db);
    if (if d.Backward? then start < stop else stop < start) {
      assert db' == db;
    } else if d.Backward? {
      hide IndexDown, IndexUp, Cover;
      DownRun(chain, db, start, stop);
    } else {
      hide IndexDown, IndexUp, Cover;
      UpRun(chain, db, start, stop);
    }
  }

  /** A forward run that gets to the latest block, and a backward run that gets to block 1, leave
      everything from the old first block up, or from the old last block down, indexed. */
  lemma CompleteRuns(chain: seq<Block>, db: Store, height: nat, db': Store)
    requires ValidChain(chain) && height <= |chain| && NoGaps(chain, db)
    ensures var first := FirstIndexed(db).value;
            IsRun(chain, db, Forward, height, db')
            ==> forall h :: (if first == -1 then 1 else first) <= h <= height ==> Indexed(db', At(chain, h))
    ensures var last := LastIndexed(db).value;
            IsRun(chain, db, Backward(height), 1, db')
            ==> forall h :: 1 <= h <= |chain| && h <= (if last == -1 then height - 1 else last) ==> Indexed(db', At(chain, h))
  {
    FirstAndLast(db);
    Ends(chain, db);
    hide NoGaps, WellKeyed, HasEntry, Indexed, FirstIndexed, LastIndexed;
    if IsRun(chain, db, Forward, height, db') {
      RunCovers(chain, db, Forward, height, db');
    }
    if IsRun(chain, db, Backward(height), 1, db') {
      RunCovers(chain, db, Backward(height), 1, db');
    }
  }

  /** No gaps: over any sequence of forward, backward and service runs on an empty store, each stopped
      anywhere, every block between the first and the last indexed one is indexed at any time. */
  lemma {:induction false} AnyRunsLeaveNoGaps(chain: seq<Block>, dbs: seq<Store>, ds: seq<Driver>, stops: seq<int>, n: nat)
    requires ValidChain(chain) && n < |dbs| && |dbs| == |ds| + 1 == |stops| + 1 && dbs[0] == map[]
    requires forall k :: 0 <= k < |ds| ==> NoGaps(chain, dbs[k]) ==> IsRun(chain, dbs[k], ds[k], stops[k], dbs[k + 1])
    ensures NoGaps(chain, dbs[n])
  {
    if n == 0 {
      assert IndexKeysOf(map[]) == {};
    } else {
      AnyRunsLeaveNoGaps(chain, dbs, ds, stops, n - 1);
      hide NoGaps, IsRun;
      RunCovers(chain, dbs[n - 1], ds[n - 1], stops[n - 1], dbs[n]);
    }
  }

  /** No driver ever indexes height 0, where an entry could not be found again. */
  lemma RunsStayAboveZero(chain: seq<Block>, dbs: seq<Store>, ds: seq<Driver>, stops: seq<int>, n: nat, h: int64)
    requires ValidChain(chain) && n < |dbs| && |dbs| == |ds| + 1 == |stops| + 1 && dbs[0] == map[]
    requires forall k :: 0 <= k < |ds| ==> NoGaps(chain, dbs[k]) ==> IsRun(chain, dbs[k], ds[k], stops[k], dbs[k + 1])
    requires HasEntry(dbs[n], h)
    ensures 1 <= h <= |chain|
  {
    AnyRunsLeaveNoGaps(chain, dbs, ds, stops, n);
    hide IsRun, HasEntry, FirstIndexed, LastIndexed, WellKeyed, Indexed;
    FirstAndLast(dbs[n]);
  }

  // ----- the direction does not matter -----

  /** Blocks from, from - 1, ..., upTo. */
  function Downwards(chain: seq<Block>, from: int, upTo: int): seq<Block>
    requires from <= |chain| && 1 <= upTo
    decreases from - upTo
  {
    if from < upTo then [] else Downwards(chain, from, upTo + 1) + [At(chain, upTo)]
  }

  lemma RunOneMore(bs: seq<Block>, b: Block)
    ensures Run(bs + [b]) == PutAll(Run(bs), Entries(b))
  {
    assert (bs + [b])[..|bs|] == bs;
    PutAllAppend(map[], Log(bs), Entries(b));
  }

  lemma {:induction false} IndexUpIsRun(chain: seq<Block>, from: int, upTo: int)
    requires 1 <= from && from - 1 <= upTo <= |chain|
    ensures IndexUp(map[], chain, from, upTo) == Run(chain[from - 1..upTo])
    decreases upTo - from
  {
    hide Entries, PutAll, Log;
    if from <= upTo {
      IndexUpIsRun(chain, from, upTo - 1);
      RunOneMore(chain[from - 1..upTo - 1], At(chain, upTo));
      assert chain[from - 1..upTo - 1] + [At(chain, upTo)] == chain[from - 1..upTo];
    } else {
      assert chain[from - 1..upTo] == [];
      EmptyRunLog();
    }
  }

  lemma EmptyRunLog()
    ensures Run([]) == map[]
  {}

  lemma {:induction false} IndexDownIsRun(chain: seq<Block>, from: int, upTo: int)
    requires from <= |chain| && 1 <= upTo
    ensures IndexDown(map[], chain, from, upTo) == Run(Downwards(chain, from, upTo))
    decreases from - upTo
  {
    hide Entries, PutAll, Log;
    if upTo <= from {
      IndexDownIsRun(chain, from, upTo + 1);
      RunOneMore(Downwards(chain, from, upTo + 1), At(chain, upTo));
    } else {
      EmptyRunLog();
    }
  }

  lemma {:induction false} SameBlocks(chain: seq<Block>, from: int, upTo: int)
    requires 1 <= upTo <= from + 1 <= |chain| + 1
    ensures SetOf(Downwards(chain, from, upTo)) == SetOf(chain[upTo - 1..from])
    decreases from - upTo
  {
    if upTo <= from {
      SameBlocks(chain, from, upTo + 1);
      assert chain[upTo - 1..from] == [At(chain, upTo)] + chain[upTo..from];
      SetOfOneMore(Downwards(chain, from, upTo + 1), chain[upTo..from], At(chain, upTo));
    }
  }

  lemma SetOfOneMore(bs: seq<Block>, cs: seq<Block>, b: Block)
    requires SetOf(bs) == SetOf(cs)
    ensures SetOf(bs + [b]) == SetOf([b] + cs)
  {
    assert forall x :: x in bs <==> x in SetOf(bs);
    assert forall x :: x in cs <==> x in SetOf(cs);
  }

  /** Filling an empty store backward or forward over the same blocks leaves the same store. */
  lemma FillingsAgree(chain: seq<Block>, lo: int, hi: int)
    requires 1 <= lo <= hi + 1 <= |chain| + 1 && Compatible(SetOf(chain[lo - 1..hi]))
    ensures IndexUp(map[], chain, lo, hi) == IndexDown(map[], chain, hi, lo)
  {
    hide Compatible, Run;
    IndexUpIsRun(chain, lo, hi);
    IndexDownIsRun(chain, hi, lo);
    SameBlocks(chain, hi, lo);
    OrderDoesNotMatter(chain[lo - 1..hi], Downwards(chain, hi, lo));
  }

  lemma EmptyStore()
    ensures WellKeyed(map[]) && FirstIndexed(map[]) == LastIndexed(map[]) == Some(-1)
    ensures forall h: int64 :: !HasEntry(map[], h)
  {}

  /** On an empty store the backward command begins below the latest block: that block stays out. */
  lemma BackwardOnEmptyStoreSkipsLatest(chain: seq<Block>, height: nat, stop: int, db': Store)
    requires ValidChain(chain) && 1 <= height <= |chain|
    requires IsRun(chain, map[], Backward(height), stop, db')
    ensures StartOf(map[], Backward(height)) == height - 1
    ensures !HasEntry(db', height)
  {
    hide HasEntry, WellKeyed, Indexed, IndexDown, FirstIndexed, LastIndexed, NoGaps;
    EmptyStore();
    if stop <= height - 1 {
      DownRunCovers(chain, map[], height - 1, stop);
    } else {
      EmptyRun(chain, map[], height - 1, stop);
    }
  }

  lemma EmptyRun(chain: seq<Block>, db: Store, from: int, upTo: int)
    requires from <= |chain| && 1 <= upTo && from < upTo
    ensures IndexDown(db, chain, from, upTo) == db
  {}

  // ----- in other words -----

  /** Where the drivers start. Without any entry in the store: at block 1, right below the given height, right above
      the latest block. Otherwise right next to the blocks that have entries. */
  lemma StartPoints(db: Store, height: nat, latest: nat)
    requires WellKeyed(db)
    ensures (forall h: int64 :: !HasEntry(db, h)) ==>
              StartOf(db, Forward) == 1 && StartOf(db, Backward(height)) == height - 1 && StartOf(db, Service(latest)) == latest + 1
    ensures forall h: int64 :: HasEntry(db, h) && (forall g: int64 :: HasEntry(db, g) ==> g <= h) ==>
              StartOf(db, Forward) == StartOf(db, Service(latest)) == h + 1
    ensures forall h: int64 :: HasEntry(db, h) && (forall g: int64 :: HasEntry(db, g) ==> g >= h) ==>
              StartOf(db, Backward(height)) == h - 1
  {
    hide FirstIndexed, LastIndexed, HasEntry, WellKeyed;
    FirstAndLast(db);
  }

  /** Filling up to one block more, or down to one block less, indexes this block last. */
  lemma FillingSteps(db: Store, chain: seq<Block>, from: int, h: int)
    requires 1 <= h <= |chain| && 1 <= from <= |chain|
    ensures IndexUp(db, chain, from, from - 1) == db && IndexDown(db, chain, from, from + 1) == db
    ensures from <= h ==> IndexUp(db, chain, from, h) == PutAll(IndexUp(db, chain, from, h - 1), Entries(chain[h - 1]))
    ensures h <= from ==> IndexDown(db, chain, from, h) == PutAll(IndexDown(db, chain, from, h + 1), Entries(chain[h - 1]))
  {}

  /** What it means that there is no gap: every entry of every block between two heights that have one is in the
      store under its height and index, with its hash, and there is a record for this hash. */
  lemma NothingMissing(chain: seq<Block>, db: Store, a: int64, h: int64, b: int64, k: nat)
    requires ValidChain(chain) && NoGaps(chain, db) && HasEntry(db, a) && HasEntry(db, b) && a <= h <= b
    ensures 1 <= h <= |chain|
    ensures k < |Entries(chain[h - 1])| <= TWO_32 ==>
              && TxIndexKey(h, I32(k)) in db && db[TxIndexKey(h, I32(k))] == Entries(chain[h - 1])[k].hash
              && TxHashKey(Entries(chain[h - 1])[k].hash) in db
  {
    hide FirstIndexed, LastIndexed, HasEntry, WellKeyed, Entries, TxIndexKey, TxHashKey, I32, Indexed;
    FirstAndLast(db);
    assert Indexed(db, At(chain, h));
    if k < |Entries(chain[h - 1])| <= TWO_32 {
      KeysInOverlay(At(chain, h), k);
      KeyspacesApart(Entries(chain[h - 1])[k].hash, h, I32(k));
      InStore(db, At(chain, h), TxIndexKey(h, I32(k)));
      InStore(db, At(chain, h), TxHashKey(Entries(chain[h - 1])[k].hash));
    }
  }

  lemma InStore(db: Store, b: Block, key: seq<byte>)
    requires Indexed(db, b) && key in Overlay(b)
    ensures key in db && (InIndexRange(key) ==> db[key] == Overlay(b)[key])
  {}

  lemma KeysInOverlay(b: Block, k: nat)
    requires k < |Entries(b)| <= TWO_32
    ensures TxIndexKey(b.height, I32(k)) in Overlay(b) && Overlay(b)[TxIndexKey(b.height, I32(k))] == Entries(b)[k].hash
    ensures TxHashKey(Entries(b)[k].hash) in Overlay(b)
  {
    hide Entries, TxIndexKey, TxHashKey, I32, PutAll, LastByIndex, LastByHash;
    var es, e := Entries(b), Entries(b)[k];
    BlockEntriesAreDense(b);
    forall x | x in es && x.rec.height == e.rec.height && x.rec.ethTxIndex == e.rec.ethTxIndex
      ensures x == e
    {
      var r: nat :| r < |es| && es[r] == x;
      I32Injective(k, r);
    }
    OnlyByIndex(es, e);
    PutAllByIndex(es, b.height, I32(k));
    PutAllByHash(es, e.hash);
    var q := LastByHashPosition(es, k);
  }

  // ----- the command -----

  /** index-eth-tx forward. loadFails and the two store oracles say at which heights a step fails. It reaches the
      latest block unless a step fails, and then stops right below the first height with a failing step. */
  method IndexForward(idx: KVIndexer, chain: seq<Block>, height: nat, loadFails: int -> bool,
                      setFails: (int, nat) -> bool, writeFails: int -> bool)
    returns (err: bool, ghost stop: int)
    requires ValidChain(chain) && height <= |chain| && NoGaps(chain, idx.db)
    modifies idx
    ensures IsRun(chain, old(idx.db), Forward, stop, idx.db) && NoGaps(chain, idx.db)
    ensures 1 <= StartOf(old(idx.db), Forward) <= |chain| + 1
    ensures err <==> exists h: int :: StartOf(old(idx.db), Forward) <= h <= height
                       && (loadFails(h) || writeFails(h) || exists n: nat :: n < 2 * |Entries(At(chain, h))| && setFails(h, n))
    ensures err ==> exists h: int :: StartOf(old(idx.db), Forward) <= h <= height && stop == h - 1
                      && (loadFails(h) || writeFails(h) || exists n: nat :: n < 2 * |Entries(At(chain, h))| && setFails(h, n))
    ensures err ==> forall h: int :: StartOf(old(idx.db), Forward) <= h <= stop ==>
                      !loadFails(h) && !writeFails(h) && forall n: nat :: n < 2 * |Entries(At(chain, h))| ==> !setFails(h, n)
    ensures err ==> idx.db == IndexUp(old(idx.db), chain, StartOf(old(idx.db), Forward), stop)
    ensures !err ==> idx.db == IndexUp(old(idx.db), chain, StartOf(old(idx.db), Forward), height)
                     && stop == if StartOf(old(idx.db), Forward) <= height then height else StartOf(old(idx.db), Forward) - 1
  {
    hide NoGaps, Entries, PutAll, FirstIndexed, LastIndexed, HasEntry;
    ghost var db := idx.db;
    Ends(chain, db);
    var last := idx.LastIndexedBlock();
    if last.None? {
      assert false;
    }
    var latest := last.value;
    if latest == -1 {
      latest := 0;
    }
    var i := latest + 1;
    err := false;
    while i <= height
      invariant 1 <= latest + 1 <= i <= |chain| + 1 && (i <= height || i == latest + 1 || i == height + 1)
      invariant idx.db == IndexUp(db, chain, latest + 1, i - 1)
      invariant forall h: int :: latest + 1 <= h < i && h <= height ==>
                  !loadFails(h) && !writeFails(h) && forall n: nat :: n < 2 * |Entries(At(chain, h))| ==> !setFails(h, n)
      decreases height - i
    {
      if loadFails(i) {
        err := true;
        break;
      }
      var fails := (n: nat) => setFails(i, n);
      err := idx.IndexBlock(chain[i - 1], fails, writeFails(i));
      assert forall n: nat :: fails(n) == setFails(i, n);
      if err {
        break;
      }
      i := i + 1;
    }
    stop := i - 1;
    assert IsRun(chain, db, Forward, stop, idx.db);
    RunCovers(chain, db, Forward, stop, idx.db);
  }

  /** index-eth-tx backward: down to block 1, unless a step fails. */
  method IndexBackward(idx: KVIndexer, chain: seq<Block>, height: nat, loadFails: int -> bool,
                       setFails: (int, nat) -> bool, writeFails: int -> bool)
    returns (err: bool, ghost stop: int)
    requires ValidChain(chain) && height <= |chain| && NoGaps(chain, idx.db)
    modifies idx
    ensures IsRun(chain, old(idx.db), Backward(height), stop, idx.db) && NoGaps(chain, idx.db)
    ensures StartOf(old(idx.db), Backward(height)) <= |chain|
    ensures err <==> exists h: int :: 1 <= h <= StartOf(old(idx.db), Backward(height))
                       && (loadFails(h) || writeFails(h) || exists n: nat :: n < 2 * |Entries(At(chain, h))| && setFails(h, n))
    ensures err ==> exists h: int :: 1 <= h <= StartOf(old(idx.db), Backward(height)) && stop == h + 1
                      && (loadFails(h) || writeFails(h) || exists n: nat :: n < 2 * |Entries(At(chain, h))| && setFails(h, n))
    ensures err ==> forall h: int :: stop <= h <= StartOf(old(idx.db), Backward(height)) ==>
                      !loadFails(h) && !writeFails(h) && forall n: nat :: n < 2 * |Entries(At(chain, h))| ==> !setFails(h, n)
    ensures err ==> idx.db == IndexDown(old(idx.db), chain, StartOf(old(idx.db), Backward(height)), stop)
    ensures !err ==> stop == 1 && idx.db == IndexDown(old(idx.db), chain, StartOf(old(idx.db), Backward(height)), 1)
  {
    hide NoGaps, Entries, PutAll, FirstIndexed, LastIndexed, HasEntry;
    ghost var db := idx.db;
    Ends(chain, db);
    var head := idx.FirstIndexedBlock();
    if head.None? {
      assert false;
    }
    var first: int := head.value;
    if first == -1 {
      first := height;
    }
    var i := first - 1;
    err := false;
    while i > 0
      invariant i < first <= |chain| + 1 && (i >= 0 || i == first - 1)
      invariant idx.db == IndexDown(db, chain, first - 1, if i < 0 then 1 else i + 1)
      invariant forall h: int :: 1 <= h && i < h < first ==>
                  !loadFails(h) && !writeFails(h) && forall n: nat :: n < 2 * |Entries(At(chain, h))| ==> !setFails(h, n)
      decreases i
    {
      if loadFails(i) {
        err := true;
        break;
      }
      var fails := (n: nat) => setFails(i, n);
      err := idx.IndexBlock(chain[i - 1], fails, writeFails(i));
      assert forall n: nat :: fails(n) == setFails(i, n);
      if err {
        break;
      }
      i := i - 1;
    }
    stop := if i < 0 then 1 else i + 1;
    assert IsRun(chain, db, Backward(height), stop, idx.db);
    RunCovers(chain, db, Backward(height), stop, idx.db);
  }

  lemma Ends(chain: seq<Block>, db: Store)
    requires ValidChain(chain) && NoGaps(chain, db)
    ensures WellKeyed(db) && FirstIndexed(db).Some? && LastIndexed(db).Some?
    ensures -1 <= LastIndexed(db).value <= |chain| && -1 <= FirstIndexed(db).value <= |chain|
    ensures FirstIndexed(db).value != 0 && LastIndexed(db).value != 0
  {
    FirstAndLast(db);
    hide FirstIndexed, LastIndexed, HasEntry, WellKeyed, Indexed;
  }
}
