/** The ICS-20 limits in terms of the grants in the store: what a limit is, when a call succeeds, what a
    transfer does to an authorization, and what each event of a run does to every limit. */
module Ics20Effects {
  import opened Bytes
  import opened Coins
  import opened Ics20Limits
  import opened Ics20

  /** The limit is the amount of the denomination in the allocation of the channel, in a transfer grant that has not
      expired; without such a grant or such an allocation it is zero. A grant is live through its last second. */
  lemma LimitMeans(gs: Grants, now: int, key: GrantKey, ch: Channel, denom: Denom)
    ensures Live(gs, now, key) <==> key in gs && (gs[key].expiration.None? || now <= gs[key].expiration.value)
    ensures !Live(gs, now, key) || gs[key].auth.OtherAuthorization? ==> LimitAt(gs, now, key, ch, denom) == 0
    ensures Live(gs, now, key) && gs[key].auth.Transfer? && ValidGrants(gs) ==>
              && (forall a :: a in gs[key].auth.allocations && a.channel == ch
                              ==> LimitAt(gs, now, key, ch, denom) == AmountOf(a.spendLimit, denom))
              && ((forall a :: a in gs[key].auth.allocations ==> a.channel != ch) ==> LimitAt(gs, now, key, ch, denom) == 0)
  {
    hide AmountOf, ValidCoins;
    NotFound([], ch, denom);
    if Live(gs, now, key) && gs[key].auth.Transfer? && ValidGrants(gs) {
      var allocs := gs[key].auth.allocations;
      forall a | a in allocs && a.channel == ch ensures LimitOf(allocs, ch, denom) == AmountOf(a.spendLimit, denom) {
        var i :| 0 <= i < |allocs| && allocs[i] == a;
        FoundAt(allocs, i, denom);
      }
      if forall a :: a in allocs ==> a.channel != ch {
        NotFound(allocs, ch, denom);
      }
    }
  }

  /** When a limit can be increased and decreased, in terms of the limit and of the grant's date. */
  lemma WhenLimitsChange(gs: Grants, now: int, key: GrantKey, ch: Channel, denom: Denom, amount: Uint256)
    requires ValidGrants(gs)
    ensures var limit := LimitAt(gs, now, key, ch, denom);
            && 0 <= limit < TWO_256
            && (CanIncrease(gs, now, key, ch, denom, amount)
                <==> 0 < limit < TWO_256 - amount && (gs[key].expiration.None? || gs[key].expiration.value > now))
            && (CanDecrease(gs, now, key, ch, denom, amount)
                <==> 0 < limit && amount <= limit && (gs[key].expiration.None? || gs[key].expiration.value > now))
  {
    HasLimitIsPositive(gs, now, key, ch, denom);
    LimitMeans(gs, now, key, ch, denom);
    hide ValidGrants, LimitAt;
  }

  /** What changing a limit leaves as it was: all other grants, this grant's date, its channels and what they allow
      beside the limit, and every other limit at any time. */
  lemma ChangesLimitMeans(gs: Grants, gs': Grants, key: GrantKey, ch: Channel, denom: Denom, v: int)
    requires ValidGrants(gs) && ChangesLimit(gs, gs', key, ch, denom, v)
    ensures forall k :: k != key ==> (k in gs' <==> k in gs) && (k in gs' ==> gs'[k] == gs[k])
    ensures key in gs && gs[key].auth.Transfer? && key in gs' && gs'[key].auth.Transfer? && gs'[key].expiration == gs[key].expiration
    ensures var old', new' := gs[key].auth.allocations, gs'[key].auth.allocations;
            |old'| == |new'| && forall i :: 0 <= i < |old'| ==>
              && new'[i].channel == old'[i].channel && new'[i].allowList == old'[i].allowList
              && new'[i].allowedPacketData == old'[i].allowedPacketData
              && (old'[i].channel != ch ==> new'[i] == old'[i])
    ensures forall t :: LimitAt(gs', t, key, ch, denom)
              == if gs[key].expiration.Some? && gs[key].expiration.value < t then 0 else v
    ensures forall t, k, c, d :: k != key || c != ch || d != denom ==> LimitAt(gs', t, k, c, d) == LimitAt(gs, t, k, c, d)
  {
    ChangedLimit(gs, gs', key, ch, denom, v);
    forall t | gs[key].expiration.Some? && gs[key].expiration.value < t ensures LimitAt(gs', t, key, ch, denom) == 0 {
      LimitMeans(gs', t, key, ch, denom);
    }
    hide LimitAt, ValidGrants, AmountOf, ValidCoins;
  }

  /** What Accept answers to a transfer that is within the limit of allocation i: nothing changes when the limit is
      2^256 - 1; the allocation goes when its only coin is used up, and the grant with the last allocation; otherwise
      the limit is lowered. */
  lemma AcceptAnswer(allocs: seq<Allocation>, i: nat, token: Coin)
    requires ValidAllocations(allocs) && i < |allocs| && 0 < token.amount <= AmountOf(allocs[i].spendLimit, token.denom)
    ensures var before := AmountOf(allocs[i].spendLimit, token.denom);
            Accept(allocs, allocs[i].channel, token, true)
            == Some(if before == TWO_256 - 1 then AcceptResponse(true, false, None)
                    else if allocs[i].spendLimit != [token] then
                      AcceptResponse(true, false, Some(allocs[i := allocs[i].(spendLimit := SubCoin(allocs[i].spendLimit, token))]))
                    else if |allocs| > 1 then AcceptResponse(true, false, Some(allocs[..i] + allocs[i + 1..]))
                    else AcceptResponse(true, true, None))
  {
    var limit := allocs[i].spendLimit;
    ChannelAt(allocs, i);
    HasIsPositive(limit, token.denom);
    SubCoinLaw(limit, token);
    OnlyCoin(limit, token);
    hide ValidAllocations, AmountOf, SubCoin, HasNegative, AllocationOf;
  }

  lemma OnlyCoin(limit: seq<Coin>, token: Coin)
    requires ValidCoins(limit) && 0 < token.amount <= AmountOf(limit, token.denom)
    ensures SubCoin(limit, token) == [] <==> limit == [token]
  {
    if SubCoin(limit, token) == [] {
      forall d ensures AmountOf(limit, d) == AmountOf([token], d) {
        SubCoinAmounts(limit, token, d);
        AmountOfNil(d);
        AmountOfCons(token, [], d);
        assert [token] + [] == [token];
      }
      SubCoinAmounts(limit, token, token.denom);
      assert AmountOf(limit, token.denom) == token.amount;
      hide AmountOf, SubCoin;
      HasIsPositive(limit, token.denom);
      assert ValidCoins([token]);
      SameAmountsSameCoins(limit, [token]);
    }
  }

  // ----- events -----

  /** Each transfer and each grant of a limit counts with its own amount, in the order of the run. */
  lemma EventsCount(es: seq<Event>, n: nat, key: GrantKey, ch: Channel, d: Denom)
    requires n < |es|
    ensures TotalSent(es, 0, key, ch, d) == 0 && TotalGranted(es, 0, key, ch, d) == 0
    ensures TotalSent(es, n + 1, key, ch, d)
         == TotalSent(es, n, key, ch, d)
            + match es[n]
              case Sent(k, c, token) => if k == key && c == ch && token.denom == d && token.amount > 0 then token.amount else 0
              case _ => 0
    ensures TotalGranted(es, n + 1, key, ch, d)
         == TotalGranted(es, n, key, ch, d)
            + match es[n]
              case Approved(k, allocs, _) => if k == key then LimitOf(allocs, ch, d) else 0
              case Increased(k, c, denom, x) => if k == key && c == ch && denom == d then x else 0
              case _ => 0
  {
    hide LimitOf;
  }

  /** What each event does to every limit at its time; only the passing of time does more than this. */
  lemma EventSetsLimit(s: State, e: Event, s': State, key: GrantKey, ch: Channel, denom: Denom)
    requires ValidGrants(s.grants) && Effect(s, e, s') && !e.Tick?
    ensures var before, after := Limit(s, key, ch, denom), Limit(s', key, ch, denom);
            match e
            case Approved(k, allocs, exp) =>
              after == if k != key then before else if exp.Some? && exp.value < s.now then 0 else LimitOf(allocs, ch, denom)
            case Revoked(k) => after == if k == key then 0 else before
            case Increased(k, c, d, x) => after == before + if k == key && c == ch && d == denom then x else 0
            case Decreased(k, c, d, x) => after == before - if k == key && c == ch && d == denom then x else 0
            case Sent(k, c, token) =>
              after == before - if k == key && c == ch && token.denom == denom then token.amount else 0
            case _ => after == before
  {
    hide ValidGrants, LimitAt, Sets, Sends;
    match e
    case Approved(k, allocs, exp) => StoredLimit(s.grants, s.now, k, allocs, exp, key, ch, denom);
    case Revoked(k) => StoredLimit(s.grants, s.now, k, [], None, key, ch, denom);
    case Increased(k, c, d, x) => SetLimits(s, s', k, c, d, Limit(s, k, c, d) + x, key, ch, denom);
    case Decreased(k, c, d, x) => SetLimits(s, s', k, c, d, Limit(s, k, c, d) - x, key, ch, denom);
    case Sent(k, c, token) => SentLimits(s, s', k, c, token, key, ch, denom);
    case SentUnbounded(k, c, token) => SentLimits(s, s', k, c, token, key, ch, denom);
    case _ =>
  }

  lemma StoredLimit(gs: Grants, now: int, k: GrantKey, allocs: seq<Allocation>, exp: Option<int>, key: GrantKey,
                    ch: Channel, denom: Denom)
    ensures LimitAt(gs[k := Grant(Transfer(allocs), exp)], now, key, ch, denom)
         == if k != key then LimitAt(gs, now, key, ch, denom)
            else if exp.Some? && exp.value < now then 0 else LimitOf(allocs, ch, denom)
    ensures LimitAt(gs - {k}, now, key, ch, denom) == if k == key then 0 else LimitAt(gs, now, key, ch, denom)
  {
    NotFound([], ch, denom);
    hide LimitOf;
  }
}
