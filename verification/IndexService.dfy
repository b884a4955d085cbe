/** The indexer service as an interleaved step system: a goroutine that raises latestBlock whenever a
    header arrives, and a loop that catches up with it. */
module IndexService {
  import opened Bytes
  import opened IndexKeys
  import opened TxIndexLog
  import opened KVIndexer
  import opened IndexDrivers

  /** latest and last are the shared variables latestBlock and lastBlock; next is the loop variable
      while the catch-up loop is running. */
  datatype State = State(db: Store, latest: nat, last: int, next: Option<int>)

  /** One atomic step of one of the two goroutines. Waiting and the wake-up signal change none of the
      variables and are left to the scheduler. */
  datatype Step =
    | Header(height: nat)
    | EnterLoop
    | FetchFails
    | IndexSucceeds
    | IndexFails
    | LeaveLoop

  ghost predicate Init(db0: Store, latest0: nat, s: State) {
    WellKeyed(db0) && s == State(db0, latest0, StartOf(db0, Service(latest0)) - 1, None)
  }

  ghost predicate Next(chain: seq<Block>, s: State, a: Step, s': State) {
    match a
    case Header(h) => h <= |chain| && s' == if h > s.latest then s.(latest := h) else s
    case EnterLoop => s.next.None? && s.latest > s.last && s' == s.(next := Some(s.last + 1))
    case FetchFails => Looping(s) && s' == s.(next := None)
    case IndexSucceeds =>
      Looping(s) && 1 <= s.next.value <= |chain|
      && s' == State(PutAll(s.db, Entries(At(chain, s.next.value))), s.latest, s.next.value, Some(s.next.value + 1))
    case IndexFails => Looping(s) && s' == s.(last := s.next.value, next := Some(s.next.value + 1))
    case LeaveLoop => s.next.Some? && s.next.value > s.latest && s' == s.(next := None)
  }

  predicate Looping(s: State) { s.next.Some? && s.next.value <= s.latest }

  /** What holds in every state while no IndexBlock has failed: the blocks from the starting point up to
      lastBlock were indexed in order, and the next block to index is the one after lastBlock. */
  ghost predicate Inv(chain: seq<Block>, db0: Store, start: int, s: State) {
    && 1 <= start <= s.last + 1 <= |chain| + 1 && s.latest <= |chain|
    && s.db == IndexUp(db0, chain, start, s.last)
    && (s.next.Some? ==> s.next.value == s.last + 1)
  }

  lemma InitInv(chain: seq<Block>, db0: Store, latest0: nat, s: State)
    requires ValidChain(chain) && NoGaps(chain, db0) && latest0 <= |chain| && Init(db0, latest0, s)
    ensures Inv(chain, db0, StartOf(db0, Service(latest0)), s)
  {
    Ends(chain, db0);
    hide NoGaps, FirstIndexed, LastIndexed, WellKeyed;
  }

  lemma NextInv(chain: seq<Block>, db0: Store, start: int, s: State, a: Step, s': State)
    requires Inv(chain, db0, start, s) && Next(chain, s, a, s') && a != IndexFails
    ensures Inv(chain, db0, start, s')
  {
    hide IndexUp, PutAll, Entries, At;
    if a.IndexSucceeds? {
      OneMoreUp(chain, db0, start, s.last + 1);
    }
  }

  lemma OneMoreUp(chain: seq<Block>, db: Store, from: int, upTo: int)
    requires 1 <= from <= upTo <= |chain|
    ensures IndexUp(db, chain, from, upTo) == PutAll(IndexUp(db, chain, from, upTo - 1), Entries(At(chain, upTo)))
  {}

  ghost predicate Trace(chain: seq<Block>, db0: Store, latest0: nat, ss: seq<State>, actions: seq<Step>) {
    |ss| == |actions| + 1 && Init(db0, latest0, ss[0])
    && forall k :: 0 <= k < |actions| ==> Next(chain, ss[k], actions[k], ss[k + 1])
  }

  /** Wherever a service run is stopped, the store is that of a run of the service driver: blocks were
      indexed one after the other, so a failed fetch skipped no height and no gap is left. */
  lemma {:induction false} ServiceIsRun(chain: seq<Block>, db0: Store, latest0: nat, ss: seq<State>,
                                        actions: seq<Step>, n: nat)
    requires ValidChain(chain) && NoGaps(chain, db0) && latest0 <= |chain|
    requires Trace(chain, db0, latest0, ss, actions) && n < |ss|
    requires forall k :: 0 <= k < |actions| ==> actions[k] != IndexFails
    ensures Inv(chain, db0, StartOf(db0, Service(latest0)), ss[n])
    ensures IsRun(chain, db0, Service(latest0), ss[n].last, ss[n].db) && NoGaps(chain, ss[n].db)
  {
    hide NoGaps, StartOf;
    if n == 0 {
      InitInv(chain, db0, latest0, ss[0]);
    } else {
      ServiceIsRun(chain, db0, latest0, ss, actions, n - 1);
      NextInv(chain, db0, StartOf(db0, Service(latest0)), ss[n - 1], actions[n - 1], ss[n]);
    }
    RunCovers(chain, db0, Service(latest0), ss[n].last, ss[n].db);
  }

  /** latestBlock is the greatest of the first latest block and the heights of the headers that arrived. */
  lemma {:induction false} LatestIsGreatest(chain: seq<Block>, db0: Store, latest0: nat, ss: seq<State>,
                                            actions: seq<Step>, n: nat)
    requires Trace(chain, db0, latest0, ss, actions) && n < |ss|
    ensures ss[n].latest >= latest0 && forall k :: 0 <= k < n && actions[k].Header? ==> ss[n].latest >= actions[k].height
    ensures ss[n].latest == latest0 || exists k :: 0 <= k < n && actions[k].Header? && ss[n].latest == actions[k].height
  {
    hide StartOf, PutAll, Entries;
    if n > 0 {
      LatestIsGreatest(chain, db0, latest0, ss, actions, n - 1);
      assert Next(chain, ss[n - 1], actions[n - 1], ss[n]);
    }
  }

  /** Once the loop leaves off, it has caught up: everything from its starting point to the latest block is indexed. */
  lemma CaughtUp(chain: seq<Block>, db0: Store, latest0: nat, ss: seq<State>, actions: seq<Step>, n: nat)
    requires ValidChain(chain) && NoGaps(chain, db0) && latest0 <= |chain|
    requires Trace(chain, db0, latest0, ss, actions) && n < |actions| && actions[n] == LeaveLoop
    requires forall k :: 0 <= k < |actions| ==> actions[k] != IndexFails
    ensures ss[n].latest <= |chain|
    ensures forall h :: StartOf(db0, Service(latest0)) <= h <= ss[n].latest ==> 1 <= h && Indexed(ss[n].db, At(chain, h))
  {
    ServiceIsRun(chain, db0, latest0, ss, actions, n);
    assert Next(chain, ss[n], actions[n], ss[n + 1]);
    hide NoGaps, StartOf, Indexed, IsRun, IndexUp, Trace;
    RunCovers(chain, db0, Service(latest0), ss[n].last, ss[n].db);
  }

  /** A failed fetch ends the loop at its height, and the loop enters again at this height. */
  lemma FetchIsRetried(chain: seq<Block>, db0: Store, start: int, s: State, s1: State, s2: State, h: int)
    requires Inv(chain, db0, start, s) && s.next == Some(h)
    requires Next(chain, s, FetchFails, s1) && Next(chain, s1, EnterLoop, s2)
    ensures s1.next == None && s1.last == s.last && s2.next == Some(h) && s2.db == s.db
  {
    hide IndexUp;
  }

  // ----- with failures of IndexBlock -----

  /** The heights whose IndexBlock failed in the first n steps. */
  function FailedHeights(ss: seq<State>, actions: seq<Step>, n: nat): set<int>
    requires n <= |actions| < |ss|
  {
    if n == 0 then {}
    else
      FailedHeights(ss, actions, n - 1)
      + if actions[n - 1].IndexFails? && ss[n - 1].next.Some? then {ss[n - 1].next.value} else {}
  }

  /** What holds in every state: the loop went through start, ..., lastBlock once each. What it indexed is
      indexed, what failed has no entry, and what was there before is there still. */
  ghost predicate Progress(chain: seq<Block>, db0: Store, start: int, s: State, failed: set<int>) {
    && 1 <= start <= s.last + 1 <= |chain| + 1 && s.latest <= |chain|
    && (s.next.Some? ==> s.next.value == s.last + 1)
    && WellKeyed(s.db) && (forall f :: f in failed ==> start <= f <= s.last)
    && (forall h :: start <= h <= s.last && h !in failed ==> Indexed(s.db, At(chain, h)))
    && (forall h: int64 :: h in failed ==> !HasEntry(s.db, h))
    && (forall h: int64 :: HasEntry(s.db, h) ==> HasEntry(db0, h) || start <= h <= s.last)
    && (forall h: int64 :: HasEntry(db0, h) ==> HasEntry(s.db, h))
    && (forall h :: 1 <= h < start ==> Indexed(db0, At(chain, h)) ==> Indexed(s.db, At(chain, h)))
  }

  lemma InitProgress(chain: seq<Block>, db0: Store, latest0: nat, s: State)
    requires ValidChain(chain) && NoGaps(chain, db0) && latest0 <= |chain| && Init(db0, latest0, s)
    ensures Progress(chain, db0, StartOf(db0, Service(latest0)), s, {})
  {
    Ends(chain, db0);
    hide NoGaps, FirstIndexed, LastIndexed, WellKeyed, HasEntry, Indexed;
  }

  lemma NextProgress(chain: seq<Block>, db0: Store, start: int, s: State, a: Step, s': State, failed: set<int>)
    requires ValidChain(chain) && Progress(chain, db0, start, s, failed) && Next(chain, s, a, s')
    requires forall h: int64 :: HasEntry(db0, h) ==> h < start
    ensures Progress(chain, db0, start, s', if a.IndexFails? then failed + {s.next.value} else failed)
  {
    hide WellKeyed, HasEntry, Indexed, PutAll, Entries;
    if a.IndexSucceeds? {
      IndexOne(s.db, At(chain, s.next.value));
    }
  }

  lemma {:induction false} TraceProgress(chain: seq<Block>, db0: Store, latest0: nat, ss: seq<State>,
                                         actions: seq<Step>, n: nat)
    requires ValidChain(chain) && NoGaps(chain, db0) && latest0 <= |chain|
    requires Trace(chain, db0, latest0, ss, actions) && n < |ss|
    ensures Progress(chain, db0, StartOf(db0, Service(latest0)), ss[n], FailedHeights(ss, actions, n))
  {
    hide NoGaps, Progress;
    if n == 0 {
      assert FailedHeights(ss, actions, 0) == {};
      InitProgress(chain, db0, latest0, ss[0]);
    } else {
      TraceProgress(chain, db0, latest0, ss, actions, n - 1);
      StartIsAbove(chain, db0, latest0);
      assert Next(chain, ss[n - 1], actions[n - 1], ss[n]);
      assert actions[n - 1].IndexFails? ==> ss[n - 1].next.Some?;
      hide StartOf, Next;
      var before := FailedHeights(ss, actions, n - 1);
      assert FailedHeights(ss, actions, n) == if actions[n - 1].IndexFails? then before + {ss[n - 1].next.value} else before;
      NextProgress(chain, db0, StartOf(db0, Service(latest0)), ss[n - 1], actions[n - 1], ss[n], before);
    }
  }

  /** The service starts above everything that has an entry, and right above it unless the store is empty. */
  lemma StartIsAbove(chain: seq<Block>, db0: Store, latest0: nat)
    requires ValidChain(chain) && NoGaps(chain, db0) && latest0 <= |chain|
    ensures forall h: int64 :: HasEntry(db0, h) ==>
              1 <= h < StartOf(db0, Service(latest0)) == LastIndexed(db0).value + 1 && FirstIndexed(db0).value <= h
    ensures FirstIndexed(db0).value == -1 ==> forall h: int64 :: !HasEntry(db0, h)
  {
    FirstAndLast(db0);
    hide FirstIndexed, LastIndexed, WellKeyed, HasEntry, Indexed;
  }

  /** A block with entries, between two heights that have one in the store. */
  ghost predicate MissingInside(chain: seq<Block>, db: Store, f: int) {
    1 <= f <= |chain| && Entries(At(chain, f)) != [] && exists a: int64, b: int64 :: a < f < b && HasEntry(db, a) && HasEntry(db, b)
  }

  /** With failures: wherever a service run is stopped, it has left a gap if and only if a block that has
      entries failed and lies between two heights that have one. */
  lemma FailuresLeaveGaps(chain: seq<Block>, db0: Store, latest0: nat, ss: seq<State>, actions: seq<Step>, n: nat)
    requires ValidChain(chain) && NoGaps(chain, db0) && latest0 <= |chain|
    requires Trace(chain, db0, latest0, ss, actions) && n < |ss|
    ensures NoGaps(chain, ss[n].db) <==> forall f :: f in FailedHeights(ss, actions, n) ==> !MissingInside(chain, ss[n].db, f)
  {
    var start, failed, db := StartOf(db0, Service(latest0)), FailedHeights(ss, actions, n), ss[n].db;
    TraceProgress(chain, db0, latest0, ss, actions, n);
    StartIsAbove(chain, db0, latest0);
    hide StartOf, Trace, FailedHeights;
    if NoGaps(chain, db) {
      forall f | f in failed ensures !MissingInside(chain, db, f) {
        NoGapNoMissing(chain, db, f);
      }
    }
    if forall f :: f in failed ==> !MissingInside(chain, db, f) {
      NoMissingNoGap(chain, db0, start, ss[n], failed);
    }
  }

  lemma NoGapNoMissing(chain: seq<Block>, db: Store, f: int)
    requires ValidChain(chain) && NoGaps(chain, db) && 1 <= f <= |chain| && !HasEntry(db, f)
    ensures !MissingInside(chain, db, f)
  {
    FirstAndLast(db);
    hide FirstIndexed, LastIndexed, WellKeyed, HasEntry, Indexed, Entries;
    if MissingInside(chain, db, f) {
      assert Indexed(db, At(chain, f));
      HasOwnEntry(db, At(chain, f));
    }
  }

  lemma NoMissingNoGap(chain: seq<Block>, db0: Store, start: int, s: State, failed: set<int>)
    requires ValidChain(chain) && NoGaps(chain, db0) && Progress(chain, db0, start, s, failed)
    requires forall h: int64 :: HasEntry(db0, h) ==> 1 <= h < start == LastIndexed(db0).value + 1 && FirstIndexed(db0).value <= h
    requires FirstIndexed(db0).value == -1 ==> forall h: int64 :: !HasEntry(db0, h)
    requires forall f :: f in failed ==> !MissingInside(chain, s.db, f)
    ensures NoGaps(chain, s.db)
  {
    FirstAndLast(s.db);
    var first, last := FirstIndexed(s.db).value, LastIndexed(s.db).value;
    hide FirstIndexed, LastIndexed, WellKeyed, HasEntry, Indexed, Entries;
    if first != -1 {
      assert 1 <= first <= last <= |chain|;
      forall h: int64 | first <= h <= last ensures Indexed(s.db, At(chain, h)) {
        InBetween(chain, db0, start, s, failed, first, h, last);
      }
    }
  }

  lemma InBetween(chain: seq<Block>, db0: Store, start: int, s: State, failed: set<int>, first: int64,
                  h: int64, last: int64)
    requires ValidChain(chain) && NoGaps(chain, db0) && Progress(chain, db0, start, s, failed)
    requires forall h: int64 :: HasEntry(db0, h) ==> 1 <= h < start == LastIndexed(db0).value + 1 && FirstIndexed(db0).value <= h
    requires FirstIndexed(db0).value == -1 ==> forall h: int64 :: !HasEntry(db0, h)
    requires 1 <= first <= h <= last <= |chain| && HasEntry(s.db, first) && HasEntry(s.db, last)
    requires h in failed ==> !MissingInside(chain, s.db, h)
    ensures Indexed(s.db, At(chain, h))
  {
    hide FirstIndexed, LastIndexed, WellKeyed, HasEntry, Indexed, Entries;
    if h in failed {
      assert first < h < last;
      NothingToIndex(s.db, At(chain, h));
    } else if h < start {
      assert HasEntry(db0, first);
      assert Indexed(db0, At(chain, h));
    }
  }

  lemma NothingToIndex(db: Store, b: Block)
    ensures Entries(b) == [] ==> Indexed(db, b)
  {}

  /** A run that leaves a gap: three blocks with a transaction each, the second of which fails. */
  lemma GapTrace(hash: Hash) returns (chain: seq<Block>, ss: seq<State>, actions: seq<Step>)
    ensures ValidChain(chain) && NoGaps(chain, map[]) && Trace(chain, map[], 0, ss, actions)
    ensures !NoGaps(chain, ss[|ss| - 1].db)
  {
    var b1, b2, b3 := Block(1, [FreeTx(hash)]), Block(2, [FreeTx(hash)]), Block(3, [FreeTx(hash)]);
    FreeTxEntry(1, hash);
    FreeTxEntry(2, hash);
    FreeTxEntry(3, hash);
    EmptyStore();
    hide Entries, PutAll, FirstIndexed, LastIndexed, WellKeyed, HasEntry, Indexed, FreeTx, MissingInside;
    chain := [b1, b2, b3];
    assert ValidChain(chain) && NoGaps(chain, map[]);
    assert At(chain, 2) == b2;
    hide ValidChain, NoGaps, At, Trace, FailedHeights;
    ss, actions := FailSecond(b1, b2, b3);
    MissingSecond(chain, b1, b3);
    FailuresLeaveGaps(chain, map[], 0, ss, actions, 5);
  }

  /** A header for block 3 arrives, then block 1 is indexed, block 2 fails and block 3 is indexed. */
  lemma FailSecond(b1: Block, b2: Block, b3: Block) returns (ss: seq<State>, actions: seq<Step>)
    requires WellKeyed(map[]) && FirstIndexed(map[]) == LastIndexed(map[]) == Some(-1)
    ensures Trace([b1, b2, b3], map[], 0, ss, actions) && |ss| == 6
    ensures ss[5].db == PutAll(PutAll(map[], Entries(b1)), Entries(b3)) && 2 in FailedHeights(ss, actions, 5)
  {
    hide Entries, PutAll, FirstIndexed, LastIndexed, WellKeyed;
    var chain, db1 := [b1, b2, b3], PutAll(map[], Entries(b1));
    var s0, s1, s2 := State(map[], 0, 0, None), State(map[], 3, 0, None), State(map[], 3, 0, Some(1));
    var s3, s4, s5 := State(db1, 3, 1, Some(2)), State(db1, 3, 2, Some(3)), State(PutAll(db1, Entries(b3)), 3, 3, Some(4));
    ss, actions := [s0, s1, s2, s3, s4, s5], [Header(3), EnterLoop, IndexSucceeds, IndexFails, IndexSucceeds];
    assert Init(map[], 0, s0);
    assert Next(chain, s0, Header(3), s1) && Next(chain, s1, EnterLoop, s2) && Next(chain, s2, IndexSucceeds, s3);
    assert Next(chain, s3, IndexFails, s4) && Next(chain, s4, IndexSucceeds, s5);
    hide Next, Init;
    assert 2 in FailedHeights(ss, actions, 4);
  }

  lemma MissingSecond(chain: seq<Block>, b1: Block, b3: Block)
    requires |chain| >= 2 && Entries(At(chain, 2)) != [] && Entries(b1) != [] && Entries(b3) != []
    requires b1.height == 1 && b3.height == 3
    ensures MissingInside(chain, PutAll(PutAll(map[], Entries(b1)), Entries(b3)), 2)
  {
    hide Entries, PutAll, HasEntry, Indexed;
    var db1 := PutAll(map[], Entries(b1));
    IndexOne(map[], b1);
    HasOwnEntry(db1, b1);
    IndexOne(db1, b3);
    HasOwnEntry(PutAll(db1, Entries(b3)), b3);
  }
}
