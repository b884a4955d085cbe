/** Coin lists as the Cosmos SDK keeps them: sorted by denomination, without zero amounts. The functions
    here are the stated assumptions about the SDK; the laws below them are what the precompiles rely on. */
module Coins {
  import opened Bytes

  /** A Go string, compared byte by byte. */
  type Denom = seq<byte>

  datatype Coin = Coin(denom: Denom, amount: int)

  /** 2^256; sdk Ints hold absolute values below it. */
  const TWO_256: int := 0x1_0000_0000_0000_0000_0000_0000_0000_0000_0000_0000_0000_0000_0000_0000_0000_0000

  predicate Sorted(cs: seq<Coin>) {
    forall i, j :: 0 <= i < j < |cs| ==> Less(cs[i].denom, cs[j].denom)
  }

  predicate InRange(cs: seq<Coin>) {
    forall i :: 0 <= i < |cs| ==> 0 < cs[i].amount < TWO_256
  }

  /** Coins.Validate */
  predicate ValidCoins(cs: seq<Coin>) { Sorted(cs) && InRange(cs) }

  /** Where the coin of a denomination is; |cs| when it is not there. */
  function IndexOf(cs: seq<Coin>, d: Denom): (i: nat)
    ensures i <= |cs|
    ensures i < |cs| ==> cs[i].denom == d
    ensures forall j :: 0 <= j < i ==> cs[j].denom != d
  {
    if cs == [] then 0 else if cs[0].denom == d then 0 else 1 + IndexOf(cs[1..], d)
  }

  /** Coins.Find reports whether there is a coin. */
  predicate Has(cs: seq<Coin>, d: Denom) { IndexOf(cs, d) < |cs| }

  /** AmountOfNoDenomValidation */
  function AmountOf(cs: seq<Coin>, d: Denom): int {
    if Has(cs, d) then cs[IndexOf(cs, d)].amount else 0
  }

  /** Coins.Add with one coin, which may be negative: SafeSub adds the negated coin. */
  function AddCoin(cs: seq<Coin>, c: Coin): seq<Coin> {
    if cs == [] then (if c.amount == 0 then [] else [c])
    else if cs[0].denom == c.denom then
      (if cs[0].amount + c.amount == 0 then cs[1..] else [Coin(c.denom, cs[0].amount + c.amount)] + cs[1..])
    else if Less(c.denom, cs[0].denom) then (if c.amount == 0 then cs else [c] + cs)
    else [cs[0]] + AddCoin(cs[1..], c)
  }

  /** SafeSub of one coin: the difference, and whether it has a negative amount. */
  function SubCoin(cs: seq<Coin>, c: Coin): seq<Coin> { AddCoin(cs, Coin(c.denom, -c.amount)) }

  predicate HasNegative(cs: seq<Coin>) { exists i :: 0 <= i < |cs| && cs[i].amount < 0 }

  /** big.Int BitLen above 256. */
  predicate Overflows(x: int) { x >= TWO_256 || x <= -TWO_256 }

  /** cmn.SafeAdd */
  function SafeAdd(a: int, b: int): (int, bool) { (a + b, Overflows(a + b)) }

  // ----- laws -----

  /** A sum is refused exactly when its absolute value does not fit 256 bits. */
  lemma SafeAddLaw(a: int, b: int)
    ensures TWO_256 == 0x1_0000_0000_0000_0000 * 0x1_0000_0000_0000_0000 * 0x1_0000_0000_0000_0000 * 0x1_0000_0000_0000_0000
    ensures SafeAdd(a, b) == (a + b, !(-TWO_256 < a + b < TWO_256))
  {}

  /** The amount of a denomination is that of its first coin, and zero when there is none. */
  lemma {:induction false} AmountOfLaw(cs: seq<Coin>, d: Denom)
    ensures forall i :: 0 <= i < |cs| && cs[i].denom == d && (forall j :: 0 <= j < i ==> cs[j].denom != d)
                        ==> Has(cs, d) && AmountOf(cs, d) == cs[i].amount
    ensures (forall i :: 0 <= i < |cs| ==> cs[i].denom != d) ==> !Has(cs, d) && AmountOf(cs, d) == 0
  {}

  lemma SortedIndex(cs: seq<Coin>, i: nat)
    requires Sorted(cs) && i < |cs|
    ensures IndexOf(cs, cs[i].denom) == i
  {
    var j := IndexOf(cs, cs[i].denom);
    if j < i { LessIrreflexive(cs[i].denom); }
  }

  lemma SortedTail(cs: seq<Coin>)
    requires Sorted(cs) && cs != []
    ensures Sorted(cs[1..]) && !Has(cs[1..], cs[0].denom)
  {
    var i := IndexOf(cs[1..], cs[0].denom);
    if i < |cs[1..]| {
      LessIrreflexive(cs[0].denom);
    }
  }

  /** A denomination below the first one is not in a sorted list. */
  lemma BelowFirst(cs: seq<Coin>, d: Denom)
    requires Sorted(cs) && cs != [] && Less(d, cs[0].denom)
    ensures !Has(cs, d)
  {
    var i := IndexOf(cs, d);
    if i < |cs| {
      LessIrreflexive(d);
      if i > 0 { LessTransitive(d, cs[0].denom, cs[i].denom); }
    }
  }

  lemma AmountOfCons(c: Coin, cs: seq<Coin>, d: Denom)
    ensures Has([c] + cs, d) <==> c.denom == d || Has(cs, d)
    ensures AmountOf([c] + cs, d) == if c.denom == d then c.amount else AmountOf(cs, d)
  {}

  lemma SortedCons(c: Coin, cs: seq<Coin>)
    requires Sorted(cs) && forall i :: 0 <= i < |cs| ==> Less(c.denom, cs[i].denom)
    ensures Sorted([c] + cs)
  {}

  lemma {:induction false} AddCoinSorted(cs: seq<Coin>, c: Coin)
    requires Sorted(cs)
    ensures Sorted(AddCoin(cs, c))
    ensures forall i :: 0 <= i < |AddCoin(cs, c)| ==>
              AddCoin(cs, c)[i].denom == c.denom || exists j :: 0 <= j < |cs| && cs[j].denom == AddCoin(cs, c)[i].denom
  {
    hide Less;
    if cs != [] {
      var head, tail := cs[0], cs[1..];
      SortedTail(cs);
      if head.denom == c.denom {
        SortedCons(Coin(c.denom, head.amount + c.amount), tail);
      } else if Less(c.denom, head.denom) {
        forall i | 0 <= i < |cs| ensures Less(c.denom, cs[i].denom) {
          if i > 0 { LessTransitive(c.denom, head.denom, cs[i].denom); }
        }
        SortedCons(c, cs);
      } else {
        var r := AddCoin(tail, c);
        LessTotal(c.denom, head.denom);
        AddCoinSorted(tail, c);
        forall i | 0 <= i < |r| ensures Less(head.denom, r[i].denom) {
          if r[i].denom != c.denom {
            var j :| 0 <= j < |tail| && tail[j].denom == r[i].denom;
            assert cs[j + 1].denom == r[i].denom;
          }
        }
        SortedCons(head, r);
        forall i | 0 <= i < |r|
          ensures r[i].denom == c.denom || exists j :: 0 <= j < |cs| && cs[j].denom == r[i].denom
        {
          if r[i].denom != c.denom {
            var j :| 0 <= j < |tail| && tail[j].denom == r[i].denom;
            assert cs[j + 1].denom == r[i].denom;
          }
        }
      }
    }
  }

  /** Adding a coin changes the amount of its denomination and of no other, and leaves a coin out exactly
      when its amount becomes zero. */
  lemma {:induction false} AddCoinLaw(cs: seq<Coin>, c: Coin, d: Denom)
    requires Sorted(cs)
    ensures var r := AddCoin(cs, c);
            && AmountOf(r, d) == AmountOf(cs, d) + (if d == c.denom then c.amount else 0)
            && (d != c.denom ==> (Has(r, d) <==> Has(cs, d)))
            && (d == c.denom && (Has(cs, d) ==> AmountOf(cs, d) != 0) ==> (Has(r, d) <==> AmountOf(r, d) != 0))
  {
    hide Less, AmountOf, Has;
    if cs == [] {
      AmountOfNil(d);
      AmountOfCons(c, [], d);
      assert [c] + [] == [c];
    } else {
      var head, tail := cs[0], cs[1..];
      assert cs == [head] + tail;
      SortedTail(cs);
      AmountOfNot(tail, head.denom);
      AmountOfCons(head, tail, d);
      if head.denom == c.denom {
        AmountOfCons(Coin(c.denom, head.amount + c.amount), tail, d);
      } else if Less(c.denom, head.denom) {
        BelowFirst(cs, c.denom);
        AmountOfNot(cs, c.denom);
        AmountOfCons(c, cs, d);
      } else {
        AddCoinLaw(tail, c, d);
        AmountOfCons(head, AddCoin(tail, c), d);
      }
    }
  }

  lemma AmountOfNil(d: Denom)
    ensures !Has([], d) && AmountOf([], d) == 0
  {}

  lemma AmountOfNot(cs: seq<Coin>, d: Denom)
    requires !Has(cs, d)
    ensures AmountOf(cs, d) == 0
  {}

  /** Replacing the amount of a coin that is there. */
  lemma ReplaceLaw(cs: seq<Coin>, i: nat, c: Coin, d: Denom)
    requires Sorted(cs) && i < |cs| && cs[i].denom == c.denom
    ensures Sorted(cs[i := c])
    ensures AmountOf(cs[i := c], d) == if d == c.denom then c.amount else AmountOf(cs, d)
    ensures Has(cs[i := c], d) <==> Has(cs, d)
  {
    var r := cs[i := c];
    SortedIndex(cs, i);
    SortedIndex(r, i);
    var j, j' := IndexOf(cs, d), IndexOf(r, d);
    if j < |cs| { assert r[j].denom == d; }
    if j' < |r| { assert cs[j'].denom == d; SortedIndex(cs, j'); }
  }

  /** In a valid list a coin is there exactly when its amount is positive. */
  lemma HasIsPositive(cs: seq<Coin>, d: Denom)
    requires InRange(cs)
    ensures 0 <= AmountOf(cs, d) < TWO_256
    ensures Has(cs, d) <==> AmountOf(cs, d) > 0
  {}

  /** Every coin of a sorted list, seen through its amount. */
  lemma CoinAt(cs: seq<Coin>, i: nat)
    requires Sorted(cs) && i < |cs|
    ensures Has(cs, cs[i].denom) && AmountOf(cs, cs[i].denom) == cs[i].amount
  {
    SortedIndex(cs, i);
  }

  lemma HasCoin(cs: seq<Coin>, d: Denom) returns (i: nat)
    requires Has(cs, d)
    ensures i < |cs| && cs[i] == Coin(d, AmountOf(cs, d))
  {
    i := IndexOf(cs, d);
  }

  lemma SubCoinAmounts(cs: seq<Coin>, c: Coin, d: Denom)
    requires ValidCoins(cs) && c.amount > 0
    ensures Sorted(SubCoin(cs, c))
    ensures AmountOf(SubCoin(cs, c), d) == AmountOf(cs, d) - (if d == c.denom then c.amount else 0)
    ensures Has(SubCoin(cs, c), d) <==> AmountOf(SubCoin(cs, c), d) != 0
  {
    hide Sorted, AddCoin, AmountOf, Has, InRange;
    AddCoinSorted(cs, Coin(c.denom, -c.amount));
    AddCoinLaw(cs, Coin(c.denom, -c.amount), d);
    HasIsPositive(cs, d);
  }

  /** Subtracting at most what is there keeps a list valid; more than that shows as a negative amount. */
  lemma SubCoinLaw(cs: seq<Coin>, c: Coin)
    requires ValidCoins(cs) && c.amount > 0
    ensures HasNegative(SubCoin(cs, c)) <==> c.amount > AmountOf(cs, c.denom)
    ensures c.amount <= AmountOf(cs, c.denom) ==> ValidCoins(SubCoin(cs, c))
  {
    hide Sorted, AmountOf, Has, SubCoin;
    var r := SubCoin(cs, c);
    SubCoinAmounts(cs, c, c.denom);
    forall i | 0 <= i < |r|
      ensures r[i].amount == AmountOf(cs, r[i].denom) - (if r[i].denom == c.denom then c.amount else 0)
      ensures r[i].amount != 0 && r[i].amount < TWO_256 && (r[i].denom != c.denom ==> r[i].amount > 0)
    {
      CoinAt(r, i);
      SubCoinAmounts(cs, c, r[i].denom);
      HasIsPositive(cs, r[i].denom);
    }
    if c.amount > AmountOf(cs, c.denom) {
      var i := HasCoin(r, c.denom);
      assert r[i].amount < 0;
    }
  }

  // ----- precompiles/erc20/types.go -----

  /** updateOrAddCoin */
  method UpdateOrAddCoin(coins: seq<Coin>, coin: Coin) returns (r: seq<Coin>)
    requires Sorted(coins)
    ensures Sorted(r) && (coin.amount != 0 ==> Has(r, coin.denom))
    ensures AmountOf(r, coin.denom) == coin.amount
    ensures forall d :: d != coin.denom ==> AmountOf(r, d) == AmountOf(coins, d) && (Has(r, d) <==> Has(coins, d))
    ensures ValidCoins(coins) && 0 < coin.amount < TWO_256 ==> ValidCoins(r)
  {
    hide Less;
    for idx := 0 to |coins|
      invariant forall j :: 0 <= j < idx ==> coins[j].denom != coin.denom
    {
      if coins[idx].denom == coin.denom {
        r := coins[idx := coin];
        forall d ensures AmountOf(r, d) == (if d == coin.denom then coin.amount else AmountOf(coins, d))
                      && (Has(r, d) <==> Has(coins, d))
        {
          ReplaceLaw(coins, idx, coin, d);
        }
        ReplaceLaw(coins, idx, coin, coin.denom);
        SortedIndex(coins, idx);
        return r;
      }
    }
    r := AddCoin(coins, coin);
    forall d ensures AmountOf(r, d) == AmountOf(coins, d) + (if d == coin.denom then coin.amount else 0)
                  && (d != coin.denom ==> (Has(r, d) <==> Has(coins, d)))
    {
      AddCoinLaw(coins, coin, d);
    }
    AddCoinSorted(coins, coin);
    assert !Has(coins, coin.denom);
    hide AddCoin;
    if ValidCoins(coins) && 0 < coin.amount < TWO_256 {
      forall i | 0 <= i < |r| ensures 0 < r[i].amount < TWO_256 {
        SortedIndex(r, i);
        HasIsPositive(coins, r[i].denom);
      }
    }
  }
}
