/** The allocations of an ICS-20 transfer authorization: a spend limit for each channel, and the loop that
    takes an amount out of one. */
module Ics20Limits {
  import opened Bytes
  import opened Coins

  datatype Channel = Channel(port: string, id: string)

  datatype Allocation = Allocation(channel: Channel, spendLimit: seq<Coin>, allowList: seq<string>, allowedPacketData: seq<string>)

  // ----- allocations -----

  /** Where the allocation of a channel is; |allocs| when there is none. */
  function AllocationOf(allocs: seq<Allocation>, ch: Channel): (i: nat)
    ensures i <= |allocs|
    ensures i < |allocs| ==> allocs[i].channel == ch
    ensures forall j :: 0 <= j < i ==> allocs[j].channel != ch
  {
    if allocs == [] || allocs[0].channel == ch then 0 else 1 + AllocationOf(allocs[1..], ch)
  }

  /** How much may be sent through a channel; nothing when there is no allocation for it. */
  function LimitOf(allocs: seq<Allocation>, ch: Channel, denom: Denom): int {
    var i := AllocationOf(allocs, ch);
    if i < |allocs| then AmountOf(allocs[i].spendLimit, denom) else 0
  }

  predicate UniqueChannels(allocs: seq<Allocation>) {
    forall i, j :: 0 <= i < j < |allocs| ==> allocs[i].channel != allocs[j].channel
  }

  /** TransferAuthorization.ValidateBasic, as far as channels and limits go. */
  predicate ValidAllocations(allocs: seq<Allocation>) {
    allocs != [] && UniqueChannels(allocs) && forall i :: 0 <= i < |allocs| ==> ValidCoins(allocs[i].spendLimit)
  }

  /** Both lists are the same, but for one amount in the limit of channel ch. */
  ghost predicate SetsLimit(allocs: seq<Allocation>, allocs': seq<Allocation>, ch: Channel, denom: Denom, v: int) {
    var i := AllocationOf(allocs, ch);
    && i < |allocs| == |allocs'|
    && allocs' == allocs[i := allocs[i].(spendLimit := allocs'[i].spendLimit)]
    && ValidCoins(allocs'[i].spendLimit)
    && forall d :: AmountOf(allocs'[i].spendLimit, d) == if d == denom then v else AmountOf(allocs[i].spendLimit, d)
  }

  lemma ChannelAt(allocs: seq<Allocation>, i: nat)
    requires UniqueChannels(allocs) && i < |allocs|
    ensures AllocationOf(allocs, allocs[i].channel) == i
  {}

  /** Seen through all its limits: only the addressed one changes, and the list stays valid. */
  lemma OnlyThisLimitChanges(allocs: seq<Allocation>, allocs': seq<Allocation>, ch: Channel, denom: Denom, v: int)
    requires ValidAllocations(allocs) && SetsLimit(allocs, allocs', ch, denom, v)
    ensures ValidAllocations(allocs')
    ensures forall c, d :: LimitOf(allocs', c, d) == if c == ch && d == denom then v else LimitOf(allocs, c, d)
  {
    hide AmountOf, ValidCoins;
    assert forall j :: 0 <= j < |allocs| ==> allocs'[j].channel == allocs[j].channel;
    forall c ensures AllocationOf(allocs', c) == AllocationOf(allocs, c) {
      var j := AllocationOf(allocs', c);
      if j < |allocs| { ChannelAt(allocs, j); }
    }
  }

  /** A valid coin list is determined by its amounts. */
  lemma {:induction false} SameAmountsSameCoins(a: seq<Coin>, b: seq<Coin>)
    requires ValidCoins(a) && ValidCoins(b) && forall d :: AmountOf(a, d) == AmountOf(b, d)
    ensures a == b
  {
    BothEmpty(a, b);
    if a != [] {
      SameFirst(a, b);
      SortedTail(a);
      SortedTail(b);
      forall d ensures AmountOf(a[1..], d) == AmountOf(b[1..], d) {
        AmountOfCons(a[0], a[1..], d);
        AmountOfCons(b[0], b[1..], d);
        assert a == [a[0]] + a[1..] && b == [b[0]] + b[1..];
      }
      hide AmountOf;
      SameAmountsSameCoins(a[1..], b[1..]);
      assert a == [a[0]] + a[1..] && b == [b[0]] + b[1..];
    }
  }

  lemma BothEmpty(a: seq<Coin>, b: seq<Coin>)
    requires ValidCoins(a) && ValidCoins(b) && forall d :: AmountOf(a, d) == AmountOf(b, d)
    ensures a == [] <==> b == []
  {
    if a != [] { CoinAt(a, 0); }
    if b != [] { CoinAt(b, 0); }
  }

  lemma SameFirst(a: seq<Coin>, b: seq<Coin>)
    requires ValidCoins(a) && ValidCoins(b) && forall d :: AmountOf(a, d) == AmountOf(b, d)
    requires a != [] && b != []
    ensures a[0] == b[0]
  {
    hide Less, AmountOf;
    CoinAt(a, 0);
    CoinAt(b, 0);
    HasIsPositive(a, b[0].denom);
    HasIsPositive(b, a[0].denom);
    LessTotal(a[0].denom, b[0].denom);
    if Less(a[0].denom, b[0].denom) {
      BelowFirst(b, a[0].denom);
    }
  }

  /** Setting a limit and setting it back restores the list. */
  lemma SetBack(a: seq<Allocation>, b: seq<Allocation>, c: seq<Allocation>, ch: Channel, denom: Denom, v: int)
    requires ValidAllocations(a) && SetsLimit(a, b, ch, denom, v) && SetsLimit(b, c, ch, denom, LimitOf(a, ch, denom))
    ensures c == a
  {
    var i := AllocationOf(a, ch);
    assert AllocationOf(b, ch) == i by {
      OnlyThisLimitChanges(a, b, ch, denom, v);
      ChannelAt(b, i);
    }
    hide AllocationOf, AmountOf;
    SameAmountsSameCoins(a[i].spendLimit, c[i].spendLimit);
  }

  /** Adding to or taking from a coin that is there keeps a list valid as long as the amount stays in range. */
  lemma AddInRange(cs: seq<Coin>, c: Coin)
    requires ValidCoins(cs) && 0 <= AmountOf(cs, c.denom) + c.amount < TWO_256
    ensures ValidCoins(AddCoin(cs, c))
    ensures forall d :: AmountOf(AddCoin(cs, c), d) == AmountOf(cs, d) + if d == c.denom then c.amount else 0
  {
    hide Sorted, Less, AmountOf, Has, AddCoin;
    var r := AddCoin(cs, c);
    AddCoinSorted(cs, c);
    forall d ensures AmountOf(r, d) == AmountOf(cs, d) + (if d == c.denom then c.amount else 0) {
      AddCoinLaw(cs, c, d);
    }
    forall i | 0 <= i < |r| ensures 0 < r[i].amount < TWO_256 {
      CoinAt(r, i);
      AddCoinLaw(cs, c, r[i].denom);
      HasIsPositive(cs, r[i].denom);
    }
  }

  // ----- the loop that deletes from the list it ranges over -----

  predicate DuplicateFree(cs: seq<Coin>) {
    forall i, j :: 0 <= i < j < |cs| ==> cs[i].denom != cs[j].denom
  }

  /** The list with the coin of one denomination reduced, or taken out when nothing is left of it. */
  function Reduced(cs: seq<Coin>, denom: Denom, expense: int): seq<Coin> {
    var i := IndexOf(cs, denom);
    if i == |cs| then cs
    else if cs[i].amount <= expense then cs[..i] + cs[i + 1..]
    else cs[i := Coin(denom, cs[i].amount - expense)]
  }

  lemma ReducedCons(cs: seq<Coin>, denom: Denom, expense: int)
    requires cs != [] && cs[0].denom != denom
    ensures Reduced(cs, denom, expense) == [cs[0]] + Reduced(cs[1..], denom, expense)
    ensures Has(cs, denom) <==> Has(cs[1..], denom)
    ensures AmountOf(cs, denom) == AmountOf(cs[1..], denom)
  {
    var tail := cs[1..];
    var i, j := IndexOf(cs, denom), IndexOf(tail, denom);
    assert i == j + 1;
    hide IndexOf;
    if j < |tail| {
      var c := Coin(denom, tail[j].amount - expense);
      assert cs[..i] + cs[i + 1..] == [cs[0]] + (tail[..j] + tail[j + 1..]);
      assert cs[i := c] == [cs[0]] + tail[j := c];
    } else {
      assert cs == [cs[0]] + tail;
    }
  }

  lemma {:induction false} ReducedIsSub(cs: seq<Coin>, denom: Denom, expense: int)
    requires Sorted(cs) && Has(cs, denom) && 0 <= expense <= AmountOf(cs, denom)
    ensures Reduced(cs, denom, expense) == AddCoin(cs, Coin(denom, -expense))
  {
    if cs[0].denom != denom {
      SortedTail(cs);
      if Less(denom, cs[0].denom) { BelowFirst(cs, denom); }
      ReducedCons(cs, denom, expense);
      hide Less, Sorted, Has, AmountOf, Reduced;
      ReducedIsSub(cs[1..], denom, expense);
    }
  }

  /** append(s[:i], s[i+1:]...) on the slice of length len over the backing array a. */
  method DeleteAt(a: array<Coin>, i: nat, len: nat)
    requires i < len <= a.Length
    modifies a
    ensures a[..] == old(a[..])[..i] + old(a[..])[i + 1..len] + old(a[..])[len - 1..]
  {
    for j := i to len - 1
      invariant forall k :: 0 <= k < a.Length ==> a[k] == if i <= k < j then old(a[k + 1]) else old(a[k])
    {
      a[j] := a[j + 1];
    }
  }

  /** The backing array and the slice length after the first i coins of a duplicate-free list. */
  ghost predicate AfterStep(s: seq<Coin>, a: seq<Coin>, len: nat, denom: Denom, expense: int, i: nat) {
    var p := IndexOf(s, denom);
    |a| == |s| && i <= |s| && if i <= p then a == s && len == |s|
    else if s[p].amount <= expense then len == |s| - 1 && a == s[..p] + s[p + 1..] + s[|s| - 1..]
    else len == |s| && a == Reduced(s, denom, expense)
  }

  /** Only one coin that the loop reads has the denomination, and the shift does not hide it. */
  lemma StepReads(s: seq<Coin>, a: seq<Coin>, len: nat, denom: Denom, expense: int, i: nat)
    requires DuplicateFree(s) && AfterStep(s, a, len, denom, expense, i) && i < |s|
    ensures a[i].denom == denom <==> i == IndexOf(s, denom)
    ensures if a[i].denom == denom then len == |s| && a == s else AfterStep(s, a, len, denom, expense, i + 1)
  {}

  lemma StepChanges(s: seq<Coin>, denom: Denom, expense: int, i: nat)
    requires i == IndexOf(s, denom) < |s|
    ensures s[i].amount <= expense ==> AfterStep(s, s[..i] + s[i + 1..] + s[|s| - 1..], |s| - 1, denom, expense, i + 1)
    ensures s[i].amount > expense ==> AfterStep(s, s[i := Coin(denom, s[i].amount - expense)], |s|, denom, expense, i + 1)
  {}

  lemma StepsEnd(s: seq<Coin>, a: seq<Coin>, len: nat, denom: Denom, expense: int)
    requires AfterStep(s, a, len, denom, expense, |s|)
    ensures len <= |s| && a[..len] == Reduced(s, denom, expense)
  {}

  /** The loop of DecreaseAllowance. a is the backing array of the spend limit, len the length of the slice
      as it shrinks; the range runs over all of a, reading what is there by then. */
  method TakeFromLimit(a: array<Coin>, denom: Denom, expense: int) returns (len: nat, panicked: bool)
    modifies a
    ensures len <= a.Length
    ensures DuplicateFree(old(a[..])) ==> !panicked && a[..len] == Reduced(old(a[..]), denom, expense)
  {
    ghost var s := a[..];
    len, panicked := a.Length, false;
    assert AfterStep(s, s, |s|, denom, expense, 0);
    hide AfterStep, Reduced, IndexOf, DuplicateFree;
    for i := 0 to a.Length
      invariant len <= a.Length && !panicked
      invariant DuplicateFree(s) ==> AfterStep(s, a[..], len, denom, expense, i)
    {
      var coin := a[i];
      ghost var before := a[..];
      if DuplicateFree(s) {
        StepReads(s, before, len, denom, expense, i);
        if coin.denom == denom {
          StepChanges(s, denom, expense, i);
        }
      }
      if coin.denom == denom {
        var coinDiff := coin.amount - expense;
        if i >= len {
          return len, true;
        }
        if coinDiff <= 0 {
          DeleteAt(a, i, len);
          assert before[i + 1..|before|] == before[i + 1..];
          len := len - 1;
        } else {
          a[i] := Coin(coin.denom, coinDiff);
          assert a[..] == before[i := Coin(denom, coinDiff)];
        }
      }
    }
    if DuplicateFree(s) {
      StepsEnd(s, a[..], len, denom, expense);
    }
  }
}
