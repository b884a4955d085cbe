/** The ICS-20 precompile: one authz grant per (grantee, granter) holds a spend limit for each channel the
    granter lets the grantee send through. */
module Ics20 {
  import opened Bytes
  import opened Coins
  import opened Ics20Limits
  import Allowances

  type Address = Allowances.Address

  datatype GrantKey = GrantKey(grantee: Address, granter: Address)

  /** An authorization for MsgTransfer: a TransferAuthorization or some other type. */
  datatype Authorization = Transfer(allocations: seq<Allocation>) | OtherAuthorization

  datatype Grant = Grant(auth: Authorization, expiration: Option<int>)

  type Grants = map<GrantKey, Grant>

  /** An ABI uint256. */
  type Uint256 = x: int | 0 <= x < TWO_256

  datatype Error =
    | InvalidAuthorization
    | ChannelNotFound
    | InvalidExpiration
    | NoAuthorization
    | UnknownAuthorizationType
    | NoMatchingAllocation
    | IntegerOverflow
    | NegativeAmount
    | NotAccepted
    | TransferFailed

  /** An IBCTransferAuthorization log. */
  datatype Log = Log(grantee: Address, granter: Address, allocations: seq<Allocation>)

  // ----- the grants -----

  /** A grant is seen until it expires. */
  predicate Live(gs: Grants, now: int, key: GrantKey) {
    key in gs && !Allowances.ExpiredAt(gs[key].expiration, now)
  }

  /** The allocations of a live transfer authorization; none otherwise. */
  function AllocationsAt(gs: Grants, now: int, key: GrantKey): seq<Allocation> {
    if Live(gs, now, key) && gs[key].auth.Transfer? then gs[key].auth.allocations else []
  }

  /** How much a grantee may send through a channel. */
  function LimitAt(gs: Grants, now: int, key: GrantKey, ch: Channel, denom: Denom): int {
    LimitOf(AllocationsAt(gs, now, key), ch, denom)
  }

  ghost predicate ValidGrants(gs: Grants) {
    forall k :: k in gs && gs[k].auth.Transfer? ==> ValidAllocations(gs[k].auth.allocations)
  }

  /** The store changes in one grant only, which keeps its date, and there in one limit only. */
  ghost predicate ChangesLimit(gs: Grants, gs': Grants, key: GrantKey, ch: Channel, denom: Denom, v: int) {
    && key in gs && gs[key].auth.Transfer? && key in gs' && gs'[key].auth.Transfer?
    && gs' == gs[key := Grant(gs'[key].auth, gs[key].expiration)]
    && SetsLimit(gs[key].auth.allocations, gs'[key].auth.allocations, ch, denom, v)
  }

  lemma ChangedLimit(gs: Grants, gs': Grants, key: GrantKey, ch: Channel, denom: Denom, v: int)
    requires ValidGrants(gs) && ChangesLimit(gs, gs', key, ch, denom, v)
    ensures ValidGrants(gs')
    ensures forall t, k, c, d :: LimitAt(gs', t, k, c, d)
              == if k == key && c == ch && d == denom && Live(gs, t, k) then v else LimitAt(gs, t, k, c, d)
  {
    OnlyThisLimitChanges(gs[key].auth.allocations, gs'[key].auth.allocations, ch, denom, v);
    hide SetsLimit, ValidAllocations, LimitOf;
  }

  /** checkAllocationExists finds a coin of the denomination in a live limit. */
  predicate HasLimit(gs: Grants, now: int, key: GrantKey, ch: Channel, denom: Denom) {
    var allocs := AllocationsAt(gs, now, key);
    var i := AllocationOf(allocs, ch);
    i < |allocs| && Has(allocs[i].spendLimit, denom)
  }

  /** In stored grants a coin is there exactly when something may be sent. */
  lemma HasLimitIsPositive(gs: Grants, now: int, key: GrantKey, ch: Channel, denom: Denom)
    requires ValidGrants(gs)
    ensures HasLimit(gs, now, key, ch, denom) <==> LimitAt(gs, now, key, ch, denom) > 0
    ensures 0 <= LimitAt(gs, now, key, ch, denom) < TWO_256
  {}

  predicate CanSave(gs: Grants, now: int, key: GrantKey) {
    key in gs && Allowances.CanSave(gs[key].expiration, now)
  }

  /** increaseAllowance needs something left to add to, and room for the sum. */
  predicate CanIncrease(gs: Grants, now: int, key: GrantKey, ch: Channel, denom: Denom, amount: Uint256) {
    LimitAt(gs, now, key, ch, denom) > 0 && LimitAt(gs, now, key, ch, denom) + amount < TWO_256 && CanSave(gs, now, key)
  }

  /** decreaseAllowance needs something left, and at least the amount. */
  predicate CanDecrease(gs: Grants, now: int, key: GrantKey, ch: Channel, denom: Denom, amount: Uint256) {
    LimitAt(gs, now, key, ch, denom) > 0 && LimitAt(gs, now, key, ch, denom) >= amount && CanSave(gs, now, key)
  }

  // ----- the operations -----

  class Keeper {
    var grants: Grants

    constructor ()
      ensures grants == map[] && ValidGrants(grants)
    {
      grants := map[];
    }

    /** The state a run goes through. */
    function Snapshot(now: int): State
      reads this
    {
      State(now, grants)
    }

    method SaveGrant(now: int, key: GrantKey, auth: Authorization, expiration: Option<int>) returns (err: Option<Error>)
      modifies this
      ensures err.None? <==> Allowances.CanSave(expiration, now)
      ensures grants == if err.None? then old(grants)[key := Grant(auth, expiration)] else old(grants)
    {
      if expiration.Some? && expiration.value <= now {
        return Some(InvalidExpiration);
      }
      grants := grants[key := Grant(auth, expiration)];
      return None;
    }

    /** CheckAuthzExists and the type assertion on what it returns. */
    method GetTransferAuthorization(now: int, key: GrantKey)
      returns (err: Option<Error>, allocs: seq<Allocation>, expiration: Option<int>)
      ensures err.None? <==> Live(grants, now, key) && grants[key].auth.Transfer?
      ensures err.None? ==> allocs == AllocationsAt(grants, now, key) && expiration == grants[key].expiration
      ensures err.Some? ==> AllocationsAt(grants, now, key) == []
    {
      if !Live(grants, now, key) {
        return Some(NoAuthorization), [], None;
      }
      var grant := grants[key];
      if !grant.auth.Transfer? {
        return Some(UnknownAuthorizationType), [], None;
      }
      return None, grant.auth.allocations, grant.expiration;
    }
  }

  /** checkAllocationExists */
  method CheckAllocationExists(allocs: seq<Allocation>, ch: Channel, denom: Denom)
    returns (err: Option<Error>, limit: Coin, allocationIdx: nat)
    ensures var i := AllocationOf(allocs, ch);
            err.None? <==> i < |allocs| && Has(allocs[i].spendLimit, denom)
    ensures err.None? ==> allocationIdx == AllocationOf(allocs, ch) && limit == Coin(denom, LimitOf(allocs, ch, denom))
  {
    for i := 0 to |allocs|
      invariant forall j :: 0 <= j < i ==> allocs[j].channel != ch
    {
      if allocs[i].channel.port != ch.port || allocs[i].channel.id != ch.id {
        continue;
      }
      assert AllocationOf(allocs, ch) == i;
      var spendLimit := allocs[i].spendLimit;
      if !Has(spendLimit, denom) {
        return Some(NoMatchingAllocation), Coin(denom, 0), 0;
      }
      return None, spendLimit[IndexOf(spendLimit, denom)], i;
    }
    return Some(NoMatchingAllocation), Coin(denom, 0), 0;
  }

  /** convertToAllocation: the allocations copied, coin by coin, into what an event holds. */
  method ConvertToAllocation(allocs: seq<Allocation>) returns (r: seq<Allocation>)
    ensures r == allocs
  {
    var allocations := new Allocation[|allocs|];
    for i := 0 to |allocs|
      invariant allocations[..i] == allocs[..i]
    {
      var limit := allocs[i].spendLimit;
      var spendLimit := new Coin[|limit|];
      for j := 0 to |limit|
        invariant allocations[..i] == allocs[..i]
        invariant spendLimit[..j] == limit[..j]
      {
        spendLimit[j] := Coin(limit[j].denom, limit[j].amount);
      }
      assert spendLimit[..] == limit;
      allocations[i] := Allocation(allocs[i].channel, spendLimit[..], allocs[i].allowList, allocs[i].allowedPacketData);
    }
    r := allocations[..];
  }

  /** approve(grantee, allocations): hasChannel is what the channel keeper knows; wellNamed says whether the
      identifiers and allow lists pass ValidateBasic. */
  method Approve(k: Keeper, now: int, duration: int, hasChannel: Channel -> bool, wellNamed: bool,
                 grantee: Address, origin: Address, allocs: seq<Allocation>)
    returns (err: Option<Error>, log: Option<Log>)
    requires ValidGrants(k.grants)
    modifies k
    ensures ValidGrants(k.grants)
    ensures err.None? <==>
              && wellNamed && ValidAllocations(allocs) && duration > 0
              && (forall i :: 0 <= i < |allocs| ==> hasChannel(allocs[i].channel))
    ensures err.None? ==> log == Some(Log(grantee, origin, allocs))
    ensures k.grants == if err.Some? then old(k.grants)
                        else old(k.grants)[GrantKey(grantee, origin) := Grant(Transfer(allocs), Some(now + duration))]
    ensures Effect(old(k.Snapshot(now)),
                   if err.Some? then Failed else Approved(GrantKey(grantee, origin), allocs, Some(now + duration)),
                   k.Snapshot(now))
  {
    log := None;
    if !ValidAllocations(allocs) || !wellNamed {
      return Some(InvalidAuthorization), None;
    }
    for i := 0 to |allocs|
      invariant k.grants == old(k.grants)
      invariant forall j :: 0 <= j < i ==> hasChannel(allocs[j].channel)
    {
      if !hasChannel(allocs[i].channel) {
        return Some(ChannelNotFound), None;
      }
    }
    hide ValidAllocations;
    err := k.SaveGrant(now, GrantKey(grantee, origin), Transfer(allocs), Some(now + duration));
    if err.Some? {
      return err, None;
    }
    var allocations := ConvertToAllocation(allocs);
    return None, Some(Log(grantee, origin, allocations));
  }

  /** revoke(grantee) */
  method Revoke(k: Keeper, now: int, grantee: Address, origin: Address) returns (err: Option<Error>, log: Option<Log>)
    requires ValidGrants(k.grants)
    modifies k
    ensures ValidGrants(k.grants)
    ensures err.None? <==> Live(old(k.grants), now, GrantKey(grantee, origin)) && old(k.grants)[GrantKey(grantee, origin)].auth.Transfer?
    ensures err.None? ==> log == Some(Log(grantee, origin, []))
    ensures k.grants == if err.Some? then old(k.grants) else old(k.grants) - {GrantKey(grantee, origin)}
    ensures Effect(old(k.Snapshot(now)), if err.Some? then Failed else Revoked(GrantKey(grantee, origin)), k.Snapshot(now))
  {
    var key := GrantKey(grantee, origin);
    var authErr, _, _ := k.GetTransferAuthorization(now, key);
    if authErr.Some? {
      return authErr, None;
    }
    k.grants := k.grants - {key};
    return None, Some(Log(grantee, origin, []));
  }

  /** increaseAllowance(grantee, port, channel, denom, amount) */
  method IncreaseAllowance(k: Keeper, now: int, grantee: Address, granter: Address, ch: Channel, denom: Denom,
                           amount: Uint256)
    returns (err: Option<Error>, log: Option<Log>)
    requires ValidGrants(k.grants)
    modifies k
    ensures ValidGrants(k.grants)
    ensures err.None? <==> CanIncrease(old(k.grants), now, GrantKey(grantee, granter), ch, denom, amount)
    ensures err.Some? ==> k.grants == old(k.grants) && log == None
    ensures err.None? ==>
              var key := GrantKey(grantee, granter);
              && ChangesLimit(old(k.grants), k.grants, key, ch, denom, LimitAt(old(k.grants), now, key, ch, denom) + amount)
              && log == Some(Log(grantee, granter, AllocationsAt(k.grants, now, key)))
    ensures Effect(old(k.Snapshot(now)),
                   if err.Some? then Failed else Increased(GrantKey(grantee, granter), ch, denom, amount),
                   k.Snapshot(now))
  {
    var key := GrantKey(grantee, granter);
    HasLimitIsPositive(k.grants, now, key, ch, denom);
    var authErr, allocs, expiration := k.GetTransferAuthorization(now, key);
    if authErr.Some? {
      return authErr, None;
    }
    var findErr, spendLimit, idx := CheckAllocationExists(allocs, ch, denom);
    if findErr.Some? {
      return findErr, None;
    }
    var (_, overflow) := SafeAdd(spendLimit.amount, amount);
    if overflow {
      return Some(IntegerOverflow), None;
    }
    var newLimit := AddCoin(allocs[idx].spendLimit, Coin(denom, amount));
    AddInRange(allocs[idx].spendLimit, Coin(denom, amount));
    hide AddCoin, AmountOf, ValidCoins;
    var newAllocs := allocs[idx := allocs[idx].(spendLimit := newLimit)];
    SavedAllocations(k.grants, now, key, ch, denom, LimitAt(k.grants, now, key, ch, denom) + amount, newAllocs);
    ghost var after := State(now, k.grants[key := Grant(Transfer(newAllocs), expiration)]);
    SetIsEvent(k.Snapshot(now), after, key, ch, denom, amount);
    assert Effect(k.Snapshot(now), Increased(key, ch, denom, amount), after);
    hide *;
    err := k.SaveGrant(now, key, Transfer(newAllocs), expiration);
    if err.Some? {
      return err, None;
    }
    var allocations := ConvertToAllocation(newAllocs);
    return None, Some(Log(grantee, granter, allocations));
  }

  lemma SavedAllocations(gs: Grants, now: int, key: GrantKey, ch: Channel, denom: Denom, v: int, allocs: seq<Allocation>)
    requires ValidGrants(gs) && Live(gs, now, key) && gs[key].auth.Transfer?
    requires SetsLimit(gs[key].auth.allocations, allocs, ch, denom, v)
    ensures var gs' := gs[key := Grant(Transfer(allocs), gs[key].expiration)];
            && ValidGrants(gs') && ChangesLimit(gs, gs', key, ch, denom, v) && AllocationsAt(gs', now, key) == allocs
            && (LimitAt(gs, now, key, ch, denom) > 0 ==> Sets(State(now, gs), State(now, gs'), key, ch, denom, v))
  {
    OnlyThisLimitChanges(gs[key].auth.allocations, allocs, ch, denom, v);
    hide SetsLimit, ValidAllocations, LimitAt;
  }

  /** The loop on a valid limit that can pay the expense. */
  method TakeFromValidLimit(a: array<Coin>, denom: Denom, expense: int) returns (len: nat)
    requires ValidCoins(a[..]) && Has(a[..], denom) && 0 <= expense <= AmountOf(a[..], denom)
    modifies a
    ensures len <= a.Length && ValidCoins(a[..len])
    ensures forall d :: AmountOf(a[..len], d) == old(AmountOf(a[..], d)) - if d == denom then expense else 0
  {
    SortedIsDuplicateFree(a[..]);
    ReducedIsSub(a[..], denom, expense);
    HasIsPositive(a[..], denom);
    AddInRange(a[..], Coin(denom, -expense));
    hide *;
    var panicked;
    len, panicked := TakeFromLimit(a, denom, expense);
  }

  /** decreaseAllowance(grantee, port, channel, denom, amount) */
  method DecreaseAllowance(k: Keeper, now: int, grantee: Address, granter: Address, ch: Channel, denom: Denom,
                           amount: Uint256)
    returns (err: Option<Error>, log: Option<Log>)
    requires ValidGrants(k.grants)
    modifies k
    ensures ValidGrants(k.grants)
    ensures err.None? <==> CanDecrease(old(k.grants), now, GrantKey(grantee, granter), ch, denom, amount)
    ensures err.Some? ==> k.grants == old(k.grants) && log == None
    ensures err.None? ==>
              var key := GrantKey(grantee, granter);
              && ChangesLimit(old(k.grants), k.grants, key, ch, denom, LimitAt(old(k.grants), now, key, ch, denom) - amount)
              && log == Some(Log(grantee, granter, AllocationsAt(k.grants, now, key)))
    ensures Effect(old(k.Snapshot(now)),
                   if err.Some? then Failed else Decreased(GrantKey(grantee, granter), ch, denom, amount),
                   k.Snapshot(now))
  {
    var key := GrantKey(grantee, granter);
    HasLimitIsPositive(k.grants, now, key, ch, denom);
    var authErr, allocs, expiration := k.GetTransferAuthorization(now, key);
    if authErr.Some? {
      return authErr, None;
    }
    var findErr, spendLimit, idx := CheckAllocationExists(allocs, ch, denom);
    if findErr.Some? {
      return findErr, None;
    }
    var expense: int := amount;
    if spendLimit.amount < expense {
      return Some(NegativeAmount), None;
    }
    var limit := new Coin[|allocs[idx].spendLimit|](i requires 0 <= i < |allocs[idx].spendLimit| => allocs[idx].spendLimit[i]);
    assert limit[..] == allocs[idx].spendLimit;
    assert AmountOf(allocs[idx].spendLimit, denom) == spendLimit.amount && ValidCoins(allocs[idx].spendLimit);
    var len := TakeFromValidLimit(limit, denom, expense);
    var newAllocs := allocs[idx := allocs[idx].(spendLimit := limit[..len])];
    hide AmountOf, ValidCoins;
    SavedAllocations(k.grants, now, key, ch, denom, LimitAt(k.grants, now, key, ch, denom) - amount, newAllocs);
    ghost var after := State(now, k.grants[key := Grant(Transfer(newAllocs), expiration)]);
    SetIsEvent(k.Snapshot(now), after, key, ch, denom, amount);
    assert Effect(k.Snapshot(now), Decreased(key, ch, denom, amount), after);
    hide *;
    err := k.SaveGrant(now, key, Transfer(newAllocs), expiration);
    if err.Some? {
      return err, None;
    }
    var allocations := ConvertToAllocation(newAllocs);
    return None, Some(Log(grantee, granter, allocations));
  }

  lemma SortedIsDuplicateFree(cs: seq<Coin>)
    requires Sorted(cs)
    ensures DuplicateFree(cs)
  {
    forall i, j | 0 <= i < j < |cs| ensures cs[i].denom != cs[j].denom {
      LessIrreflexive(cs[i].denom);
    }
  }

  // ----- transfers -----

  datatype AcceptResponse = AcceptResponse(accept: bool, delete: bool, updated: Option<seq<Allocation>>)

  /** The limit that TransferAuthorization.Accept takes for no limit at all. */
  const UNBOUNDED: int := TWO_256 - 1

  /** TransferAuthorization.Accept, as assumed of the library; allowed stands for its checks of the receiver
      and the memo. */
  function Accept(allocs: seq<Allocation>, ch: Channel, token: Coin, allowed: bool): Option<AcceptResponse> {
    var i := AllocationOf(allocs, ch);
    if i == |allocs| || !allowed then None
    else if AmountOf(allocs[i].spendLimit, token.denom) == UNBOUNDED then Some(AcceptResponse(true, false, None))
    else
      var limitLeft := SubCoin(allocs[i].spendLimit, token);
      if HasNegative(limitLeft) then None
      else if limitLeft != [] then Some(AcceptResponse(true, false, Some(allocs[i := allocs[i].(spendLimit := limitLeft)])))
      else if |allocs| == 1 then Some(AcceptResponse(true, true, None))
      else Some(AcceptResponse(true, false, Some(allocs[..i] + allocs[i + 1..])))
  }

  /** At any time from now on one limit is v, as long as its grant lives, and every other one is what it
      would have been. */
  ghost predicate SetsLimitAt(gs: Grants, gs': Grants, now: int, key: GrantKey, ch: Channel, denom: Denom, v: int) {
    forall t, k, c, d :: t >= now ==>
      LimitAt(gs', t, k, c, d)
      == if k == key && c == ch && d == denom then (if Live(gs, t, k) then v else 0) else LimitAt(gs, t, k, c, d)
  }

  lemma ChangesLimitAt(gs: Grants, gs': Grants, now: int, key: GrantKey, ch: Channel, denom: Denom, v: int)
    requires ValidGrants(gs) && ChangesLimit(gs, gs', key, ch, denom, v)
    ensures ValidGrants(gs') && SetsLimitAt(gs, gs', now, key, ch, denom, v)
  {
    ChangedLimit(gs, gs', key, ch, denom, v);
    hide ChangesLimit, ValidGrants;
  }

  /** What Accept leaves of the allocations. */
  function AfterAccept(allocs: seq<Allocation>, resp: AcceptResponse): seq<Allocation> {
    if resp.delete then [] else if resp.updated.Some? then resp.updated.value else allocs
  }

  lemma FoundAt(allocs: seq<Allocation>, i: nat, d: Denom)
    requires UniqueChannels(allocs) && i < |allocs|
    ensures LimitOf(allocs, allocs[i].channel, d) == AmountOf(allocs[i].spendLimit, d)
  {}

  lemma NotFound(allocs: seq<Allocation>, c: Channel, d: Denom)
    requires forall j :: 0 <= j < |allocs| ==> allocs[j].channel != c
    ensures LimitOf(allocs, c, d) == 0
  {}

  /** Without allocation i, seen through the limits. */
  lemma WithoutAllocation(allocs: seq<Allocation>, i: nat, c: Channel, d: Denom)
    requires UniqueChannels(allocs) && i < |allocs|
    ensures var rest := allocs[..i] + allocs[i + 1..];
            UniqueChannels(rest) && LimitOf(rest, c, d) == if c == allocs[i].channel then 0 else LimitOf(allocs, c, d)
  {
    hide AmountOf, LimitOf, AllocationOf;
    var rest := allocs[..i] + allocs[i + 1..];
    assert forall j :: 0 <= j < |rest| ==> rest[j] == allocs[if j < i then j else j + 1];
    var k := AllocationOf(allocs, c);
    if k < |allocs| && k != i {
      FoundAt(allocs, k, d);
      FoundAt(rest, if k < i then k else k - 1, d);
    } else {
      NotFound(rest, c, d);
      if k == |allocs| {
        NotFound(allocs, c, d);
      }
    }
  }

  /** Accept lets a transfer through exactly when its amount is within a limit, which it takes it out of
      unless the limit is unbounded; no other limit changes. */
  lemma AcceptSpends(allocs: seq<Allocation>, ch: Channel, token: Coin, allowed: bool, c: Channel, d: Denom)
    requires ValidAllocations(allocs) && 0 < token.amount < TWO_256
    ensures var before, resp := LimitOf(allocs, ch, token.denom), Accept(allocs, ch, token, allowed);
            && (resp.Some? <==> allowed && token.amount <= before)
            && (resp.Some? ==>
                  var after := AfterAccept(allocs, resp.value);
                  && resp.value.accept
                  && (resp.value.delete || ValidAllocations(after))
                  && LimitOf(after, c, d) == LimitOf(allocs, c, d)
                       - if c == ch && d == token.denom && before != TWO_256 - 1 then token.amount else 0)
  {
    hide AllocationOf, SubCoin, HasNegative, AmountOf, ValidCoins;
    var i := AllocationOf(allocs, ch);
    if i < |allocs| {
      var limit := allocs[i].spendLimit;
      var limitLeft := SubCoin(limit, token);
      CoinsLeft(limit, token, d);
      CoinsLeft(limit, token, token.denom);
      assert LimitOf(allocs, ch, d) == AmountOf(limit, d) && LimitOf(allocs, ch, token.denom) == AmountOf(limit, token.denom);
      assert UniqueChannels(allocs) && ValidAllocations(allocs);
      if limitLeft == [] {
        WithoutAllocation(allocs, i, c, d);
        NotFound([], c, d);
        if |allocs| > 1 {
          StaysValid(allocs, i);
        }
        assert |allocs| == 1 ==> allocs[..i] + allocs[i + 1..] == [];
      } else if token.amount <= AmountOf(limit, token.denom) {
        ReplacedLimit(allocs, i, limitLeft, c, d);
      }
      hide LimitOf, ValidAllocations, UniqueChannels;
    }
  }

  lemma StaysValid(allocs: seq<Allocation>, i: nat)
    requires ValidAllocations(allocs) && i < |allocs| && |allocs| > 1
    ensures ValidAllocations(allocs[..i] + allocs[i + 1..])
  {
    hide ValidCoins;
    var rest := allocs[..i] + allocs[i + 1..];
    assert forall j :: 0 <= j < |rest| ==> rest[j] == allocs[if j < i then j else j + 1];
  }

  /** What SafeSub leaves of a limit. */
  lemma CoinsLeft(limit: seq<Coin>, token: Coin, d: Denom)
    requires ValidCoins(limit) && 0 < token.amount < TWO_256
    ensures var left := SubCoin(limit, token);
            && (HasNegative(left) <==> token.amount > AmountOf(limit, token.denom))
            && (!HasNegative(left) ==> ValidCoins(left))
            && AmountOf(left, d) == AmountOf(limit, d) - (if d == token.denom then token.amount else 0)
            && (left == [] ==> AmountOf(left, d) == 0)
    ensures 0 <= AmountOf(limit, d) < TWO_256
  {
    SubCoinLaw(limit, token);
    SubCoinAmounts(limit, token, d);
    HasIsPositive(limit, d);
    AmountOfNil(d);
    hide SubCoin, ValidCoins, HasNegative, AmountOf;
  }

  lemma ReplacedLimit(allocs: seq<Allocation>, i: nat, limit: seq<Coin>, c: Channel, d: Denom)
    requires ValidAllocations(allocs) && i < |allocs| && ValidCoins(limit)
    ensures var allocs' := allocs[i := allocs[i].(spendLimit := limit)];
            && ValidAllocations(allocs')
            && LimitOf(allocs', c, d) == if c == allocs[i].channel then AmountOf(limit, d) else LimitOf(allocs, c, d)
  {
    hide AmountOf, ValidCoins;
    var allocs' := allocs[i := allocs[i].(spendLimit := limit)];
    assert forall j :: 0 <= j < |allocs| ==> allocs'[j].channel == allocs[j].channel;
    var j := AllocationOf(allocs', c);
    if j < |allocs| { ChannelAt(allocs, j); }
  }

  /** CheckAndAcceptAuthorizationIfNeeded with AcceptGrant. */
  method CheckAndAccept(k: Keeper, now: int, caller: Address, origin: Address, ch: Channel, token: Coin, allowed: bool)
    returns (err: Option<Error>, resp: Option<AcceptResponse>, expiration: Option<int>)
    ensures caller == origin ==> err == None && resp == None
    ensures caller != origin ==>
              var key := GrantKey(caller, origin);
              && (err.None? <==> Live(k.grants, now, key) && k.grants[key].auth.Transfer?
                                 && resp.Some? && resp == Accept(k.grants[key].auth.allocations, ch, token, allowed) && resp.value.accept)
              && (err.None? ==> expiration == k.grants[key].expiration)
              && (err.Some? ==> resp == None && (Live(k.grants, now, key) && k.grants[key].auth.Transfer? ==>
                                  var answer := Accept(k.grants[key].auth.allocations, ch, token, allowed);
                                  answer.None? || !answer.value.accept))
  {
    if caller == origin {
      return None, None, None;
    }
    var authErr, allocs, date := k.GetTransferAuthorization(now, GrantKey(caller, origin));
    if authErr.Some? {
      return authErr, None, None;
    }
    var answer := Accept(allocs, ch, token, allowed);
    if answer.None? || !answer.value.accept {
      return Some(NotAccepted), None, None;
    }
    return None, answer, date;
  }

  /** UpdateGrantIfNeeded with UpdateGrant. */
  method UpdateGrantIfNeeded(k: Keeper, now: int, caller: Address, origin: Address, expiration: Option<int>,
                             resp: Option<AcceptResponse>)
    returns (err: Option<Error>)
    requires caller != origin ==> resp.Some?
    modifies k
    ensures var key := GrantKey(caller, origin);
            if caller == origin then err == None && k.grants == old(k.grants)
            else if resp.value.delete then (err.None? <==> key in old(k.grants)) && k.grants == old(k.grants) - {key}
            else if resp.value.updated.None? then err == None && k.grants == old(k.grants)
            else (err.None? <==> Allowances.CanSave(expiration, now))
                 && k.grants == if err.Some? then old(k.grants)
                                else old(k.grants)[key := Grant(Transfer(resp.value.updated.value), expiration)]
  {
    err := None;
    var key := GrantKey(caller, origin);
    if caller != origin {
      if resp.value.delete {
        err := if key in k.grants then None else Some(NoAuthorization);
        k.grants := k.grants - {key};
      } else if resp.value.updated.Some? {
        err := k.SaveGrant(now, key, Transfer(resp.value.updated.value), expiration);
      }
    }
  }

  /** transfer(port, channel, token, ...) called by caller for origin; sent says whether IBC takes it. */
  method TransferTokens(k: Keeper, now: int, caller: Address, origin: Address, ch: Channel, token: Coin,
                        allowed: bool, sent: bool)
    returns (err: Option<Error>)
    requires ValidGrants(k.grants) && 0 < token.amount < TWO_256
    modifies k
    ensures ValidGrants(k.grants)
    ensures err.Some? || caller == origin ==> k.grants == old(k.grants)
    ensures caller == origin ==> (err.None? <==> sent)
    ensures var key := GrantKey(caller, origin);
            var before := LimitAt(old(k.grants), now, key, ch, token.denom);
            var answer := Accept(AllocationsAt(old(k.grants), now, key), ch, token, allowed);
            caller != origin ==>
              && (answer.Some? <==> allowed && token.amount <= before)
              && (err.None? <==> sent && answer.Some? && (answer.value.updated.Some? ==> CanSave(old(k.grants), now, key)))
              && (err.None? ==> SetsLimitAt(old(k.grants), k.grants, now, key, ch, token.denom,
                                            if before == TWO_256 - 1 then before else before - token.amount))
    ensures var key := GrantKey(caller, origin);
            Effect(old(k.Snapshot(now)),
                   if err.Some? then Failed
                   else if caller == origin then SentByOwner
                   else if LimitAt(old(k.grants), now, key, ch, token.denom) == UNBOUNDED then SentUnbounded(key, ch, token)
                   else Sent(key, ch, token),
                   k.Snapshot(now))
  {
    var key := GrantKey(caller, origin);
    HasLimitIsPositive(k.grants, now, key, ch, token.denom);
    var acceptErr, resp, expiration := CheckAndAccept(k, now, caller, origin, ch, token, allowed);
    if caller != origin {
      AcceptAnswers(k.grants, now, key, ch, token, allowed);
    }
    hide Accept, LimitAt, AllocationsAt, ValidGrants;
    if acceptErr.Some? {
      return acceptErr;
    }
    if !sent {
      return Some(TransferFailed);
    }
    if caller != origin {
      AcceptedTransfer(k.grants, now, key, ch, token, allowed, resp.value);
    }
    hide Effect, SetsLimitAt;
    err := UpdateGrantIfNeeded(k, now, caller, origin, expiration, resp);
    assert err.Some? ==> k.grants == old(k.grants);
  }

  /** When the grant lets a transfer through. */
  lemma AcceptAnswers(gs: Grants, now: int, key: GrantKey, ch: Channel, token: Coin, allowed: bool)
    requires ValidGrants(gs) && 0 < token.amount < TWO_256
    ensures Accept(AllocationsAt(gs, now, key), ch, token, allowed).Some? <==> allowed && token.amount <= LimitAt(gs, now, key, ch, token.denom)
    ensures Live(gs, now, key) && gs[key].auth.Transfer? ==> AllocationsAt(gs, now, key) == gs[key].auth.allocations
    ensures var resp := Accept(AllocationsAt(gs, now, key), ch, token, allowed);
            resp.Some? ==> resp.value.accept && Live(gs, now, key) && gs[key].auth.Transfer?
  {
    var allocs := AllocationsAt(gs, now, key);
    NotFound([], ch, token.denom);
    if allocs != [] {
      AcceptSpends(allocs, ch, token, allowed, ch, token.denom);
    }
    hide LimitOf, ValidAllocations, HasNegative, SubCoin, AmountOf;
  }

  lemma AcceptAllowed(allocs: seq<Allocation>, ch: Channel, token: Coin, allowed: bool)
    ensures Accept(allocs, ch, token, allowed).Some? ==> Accept(allocs, ch, token, allowed) == Accept(allocs, ch, token, true)
  {
    hide AllocationOf, AmountOf, SubCoin, HasNegative;
  }

  /** What the store is once the grant has let it through. */
  lemma AcceptedTransfer(gs: Grants, now: int, key: GrantKey, ch: Channel, token: Coin, allowed: bool, resp: AcceptResponse)
    requires ValidGrants(gs) && Live(gs, now, key) && gs[key].auth.Transfer? && 0 < token.amount < TWO_256
    requires Accept(gs[key].auth.allocations, ch, token, allowed) == Some(resp)
    ensures var gs', before := Spent(gs, key, resp), LimitAt(gs, now, key, ch, token.denom);
            && ValidGrants(gs')
            && SetsLimitAt(gs, gs', now, key, ch, token.denom, if before == UNBOUNDED then before else before - token.amount)
            && Effect(State(now, gs), if before == UNBOUNDED then SentUnbounded(key, ch, token) else Sent(key, ch, token),
                      State(now, gs'))
  {
    SpentGrant(gs, now, key, ch, token, allowed, resp);
    hide SetsLimitAt, ValidGrants, Accept, Spent, LimitAt, Live;
    AcceptAllowed(gs[key].auth.allocations, ch, token, allowed);
    var s, s' := State(now, gs), State(now, Spent(gs, key, resp));
    assert Sends(s, s', key, ch, token) && Limit(s, key, ch, token.denom) == LimitAt(gs, now, key, ch, token.denom);
    hide Sends, Effect, Limit;
    SendIsEvent(s, s', key, ch, token);
  }

  lemma SendIsEvent(s: State, s': State, key: GrantKey, ch: Channel, token: Coin)
    requires Sends(s, s', key, ch, token) && s'.now == s.now
    ensures Effect(s, if Limit(s, key, ch, token.denom) == UNBOUNDED then SentUnbounded(key, ch, token) else Sent(key, ch, token), s')
  {
    hide Sends, Limit;
  }

  lemma SetIsEvent(s: State, s': State, key: GrantKey, ch: Channel, denom: Denom, x: nat)
    requires s'.now == s.now
    ensures Sets(s, s', key, ch, denom, Limit(s, key, ch, denom) + x) ==> Effect(s, Increased(key, ch, denom, x), s')
    ensures Sets(s, s', key, ch, denom, Limit(s, key, ch, denom) - x) && x <= Limit(s, key, ch, denom)
            ==> Effect(s, Decreased(key, ch, denom, x), s')
  {
    hide Sets, Limit;
  }

  /** The store with what Accept leaves in place of the grant. */
  function Spent(gs: Grants, key: GrantKey, resp: AcceptResponse): Grants
    requires key in gs
  {
    if resp.delete then gs - {key}
    else if resp.updated.Some? then gs[key := Grant(Transfer(resp.updated.value), gs[key].expiration)]
    else gs
  }

  lemma SpentAllocations(gs: Grants, key: GrantKey, resp: AcceptResponse, t: int, k: GrantKey)
    requires key in gs && gs[key].auth.Transfer?
    ensures AllocationsAt(Spent(gs, key, resp), t, k)
         == if k == key then (if Live(gs, t, k) then AfterAccept(gs[key].auth.allocations, resp) else [])
            else AllocationsAt(gs, t, k)
  {}

  lemma SpentGrant(gs: Grants, now: int, key: GrantKey, ch: Channel, token: Coin, allowed: bool, resp: AcceptResponse)
    requires ValidGrants(gs) && Live(gs, now, key) && gs[key].auth.Transfer? && 0 < token.amount < TWO_256
    requires Accept(gs[key].auth.allocations, ch, token, allowed) == Some(resp)
    ensures var gs', before := Spent(gs, key, resp), LimitAt(gs, now, key, ch, token.denom);
            ValidGrants(gs') && SetsLimitAt(gs, gs', now, key, ch, token.denom,
                                            if before == UNBOUNDED then before else before - token.amount)
  {
    var allocs, gs' := gs[key].auth.allocations, Spent(gs, key, resp);
    hide Accept, ValidAllocations, LimitOf;
    AcceptSpends(allocs, ch, token, allowed, ch, token.denom);
    assert AllocationsAt(gs, now, key) == allocs && ValidGrants(gs');
    hide Spent, Live, AfterAccept, AllocationsAt, ValidGrants;
    forall t, k, c, d | t >= now
      ensures LimitOf(AllocationsAt(gs', t, k), c, d)
           == if k == key && c == ch && d == token.denom
              then (if Live(gs, t, k) then LimitOf(allocs, ch, d) - (if LimitOf(allocs, ch, d) == UNBOUNDED then 0 else token.amount) else 0)
              else LimitOf(AllocationsAt(gs, t, k), c, d)
    {
      SpentAllocations(gs, key, resp, t, k);
      AcceptSpends(allocs, ch, token, allowed, c, d);
      NotFound([], c, d);
      GrantLimits(gs, t, key);
    }
  }

  lemma GrantLimits(gs: Grants, t: int, key: GrantKey)
    requires key in gs && gs[key].auth.Transfer?
    ensures AllocationsAt(gs, t, key) == if Live(gs, t, key) then gs[key].auth.allocations else []
  {}

  // ----- runs -----

  datatype State = State(now: int, grants: Grants)

  /** What can happen in a run, for any grants. Failed stands for a call that returned an error, SentByOwner
      for a transfer that needs no grant. */
  datatype Event =
    | Tick
    | Failed
    | Approved(key: GrantKey, allocs: seq<Allocation>, expiration: Option<int>)
    | Revoked(key: GrantKey)
    | Increased(key: GrantKey, ch: Channel, denom: Denom, amount: nat)
    | Decreased(key: GrantKey, ch: Channel, denom: Denom, amount: nat)
    | Sent(key: GrantKey, ch: Channel, token: Coin)
    | SentUnbounded(key: GrantKey, ch: Channel, token: Coin)
    | SentByOwner

  function Limit(s: State, key: GrantKey, ch: Channel, denom: Denom): int {
    LimitAt(s.grants, s.now, key, ch, denom)
  }

  predicate HoldsTransfer(s: State, key: GrantKey) { Live(s.grants, s.now, key) && s.grants[key].auth.Transfer? }

  /** A limit that is not used up becomes v; nothing else in the store changes. */
  ghost predicate Sets(s: State, s': State, key: GrantKey, ch: Channel, denom: Denom, v: int) {
    HoldsTransfer(s, key) && Limit(s, key, ch, denom) > 0 && ChangesLimit(s.grants, s'.grants, key, ch, denom, v)
  }

  /** The grant accepts a transfer, and becomes what Accept leaves of it. */
  predicate Sends(s: State, s': State, key: GrantKey, ch: Channel, token: Coin) {
    && HoldsTransfer(s, key) && 0 < token.amount < TWO_256
    && var resp := Accept(s.grants[key].auth.allocations, ch, token, true);
       resp.Some? && s'.grants == Spent(s.grants, key, resp.value)
  }

  /** The effect of each kind of call on the store; every method above ensures the one of its event. */
  ghost predicate Effect(s: State, e: Event, s': State) {
    && s.now <= s'.now && (e.Tick? || s'.now == s.now)
    && match e
       case Tick => s'.grants == s.grants
       case Failed => s' == s
       case Approved(key, allocs, exp) => ValidAllocations(allocs) && s'.grants == s.grants[key := Grant(Transfer(allocs), exp)]
       case Revoked(key) => HoldsTransfer(s, key) && s'.grants == s.grants - {key}
       case Increased(key, ch, d, x) => Sets(s, s', key, ch, d, Limit(s, key, ch, d) + x)
       case Decreased(key, ch, d, x) => x <= Limit(s, key, ch, d) && Sets(s, s', key, ch, d, Limit(s, key, ch, d) - x)
       case Sent(key, ch, token) => Limit(s, key, ch, token.denom) != UNBOUNDED && Sends(s, s', key, ch, token)
       case SentUnbounded(key, ch, token) => Limit(s, key, ch, token.denom) == UNBOUNDED && Sends(s, s', key, ch, token)
       case SentByOwner => s' == s
  }

  ghost predicate IsRun(ss: seq<State>, es: seq<Event>) {
    |ss| == |es| + 1 && ValidGrants(ss[0].grants) && forall k :: 0 <= k < |es| ==> Effect(ss[k], es[k], ss[k + 1])
  }

  /** What an event sends through a channel within a limit, and what it grants for it. */
  function SentBy(e: Event, key: GrantKey, ch: Channel, denom: Denom): nat {
    if e.Sent? && e.key == key && e.ch == ch && e.token.denom == denom && e.token.amount > 0 then e.token.amount else 0
  }

  function GrantedBy(e: Event, key: GrantKey, ch: Channel, denom: Denom): int {
    match e
    case Approved(k, allocs, _) => if k == key then LimitOf(allocs, ch, denom) else 0
    case Increased(k, c, d, x) => if k == key && c == ch && d == denom then x else 0
    case _ => 0
  }

  function TotalSent(es: seq<Event>, n: nat, key: GrantKey, ch: Channel, denom: Denom): nat
    requires n <= |es|
  {
    if n == 0 then 0 else TotalSent(es, n - 1, key, ch, denom) + SentBy(es[n - 1], key, ch, denom)
  }

  function TotalGranted(es: seq<Event>, n: nat, key: GrantKey, ch: Channel, denom: Denom): int
    requires n <= |es|
  {
    if n == 0 then 0 else TotalGranted(es, n - 1, key, ch, denom) + GrantedBy(es[n - 1], key, ch, denom)
  }

  lemma LimitDecays(gs: Grants, now: int, later: int, key: GrantKey, ch: Channel, denom: Denom)
    requires ValidGrants(gs) && now <= later
    ensures 0 <= LimitAt(gs, later, key, ch, denom) <= LimitAt(gs, now, key, ch, denom)
  {
    HasLimitIsPositive(gs, now, key, ch, denom);
    HasLimitIsPositive(gs, later, key, ch, denom);
    hide ValidGrants, LimitOf;
    NotFound([], ch, denom);
  }

  lemma ApprovedLimits(gs: Grants, now: int, k: GrantKey, allocs: seq<Allocation>, exp: Option<int>,
                       key: GrantKey, ch: Channel, denom: Denom)
    requires ValidGrants(gs) && ValidAllocations(allocs)
    ensures var gs' := gs[k := Grant(Transfer(allocs), exp)];
            && ValidGrants(gs')
            && LimitAt(gs', now, key, ch, denom) <= if k == key then LimitOf(allocs, ch, denom) else LimitAt(gs, now, key, ch, denom)
    ensures LimitOf(allocs, ch, denom) >= 0
  {
    LimitInRange(allocs, ch, denom);
    hide LimitOf, ValidAllocations;
    NotFound([], ch, denom);
  }

  lemma LimitInRange(allocs: seq<Allocation>, ch: Channel, denom: Denom)
    requires ValidAllocations(allocs)
    ensures 0 <= LimitOf(allocs, ch, denom) < TWO_256
  {
    var i := AllocationOf(allocs, ch);
    if i < |allocs| {
      HasIsPositive(allocs[i].spendLimit, denom);
    }
  }

  /** One event keeps stored limits valid, and raises a limit by no more than what it grants, less what it
      sends. Only what is left can be increased. */
  ghost predicate Bounded(s: State, e: Event, s': State, key: GrantKey, ch: Channel, denom: Denom) {
    && ValidGrants(s'.grants)
    && Limit(s', key, ch, denom) + SentBy(e, key, ch, denom) <= Limit(s, key, ch, denom) + GrantedBy(e, key, ch, denom)
    && (GrantedBy(e, key, ch, denom) > 0 ==> (e.Approved? && e.key == key) || Limit(s, key, ch, denom) > 0)
  }

  lemma EffectOnLimit(s: State, e: Event, s': State, key: GrantKey, ch: Channel, denom: Denom)
    requires ValidGrants(s.grants) && Effect(s, e, s')
    ensures Bounded(s, e, s', key, ch, denom)
  {
    hide Effect, Bounded, ValidGrants;
    match e
    case Increased(_, _, _, _) => EffectOfSet(s, e, s', key, ch, denom);
    case Decreased(_, _, _, _) => EffectOfSet(s, e, s', key, ch, denom);
    case Sent(_, _, _) => EffectOfSend(s, e, s', key, ch, denom);
    case SentUnbounded(_, _, _) => EffectOfSend(s, e, s', key, ch, denom);
    case _ => EffectOnGrants(s, e, s', key, ch, denom);
  }

  lemma EffectOnGrants(s: State, e: Event, s': State, key: GrantKey, ch: Channel, denom: Denom)
    requires ValidGrants(s.grants) && Effect(s, e, s')
    requires e.Tick? || e.Failed? || e.SentByOwner? || e.Approved? || e.Revoked?
    ensures Bounded(s, e, s', key, ch, denom)
  {
    LimitDecays(s.grants, s.now, s'.now, key, ch, denom);
    hide ValidGrants, ValidAllocations, LimitAt, LimitOf, HoldsTransfer;
    match e
    case Approved(k, allocs, exp) => ApprovedLimits(s.grants, s.now, k, allocs, exp, key, ch, denom);
    case Revoked(k) => RevokedLimits(s.grants, s.now, k, key, ch, denom);
    case _ =>
  }

  lemma EffectOfSet(s: State, e: Event, s': State, key: GrantKey, ch: Channel, denom: Denom)
    requires ValidGrants(s.grants) && Effect(s, e, s') && (e.Increased? || e.Decreased?)
    ensures Bounded(s, e, s', key, ch, denom)
  {
    hide ValidGrants, Limit, Sets;
    var before := Limit(s, e.key, e.ch, e.denom);
    var v := if e.Increased? then before + e.amount else before - e.amount;
    SetLimits(s, s', e.key, e.ch, e.denom, v, key, ch, denom);
  }

  lemma EffectOfSend(s: State, e: Event, s': State, key: GrantKey, ch: Channel, denom: Denom)
    requires ValidGrants(s.grants) && Effect(s, e, s') && (e.Sent? || e.SentUnbounded?)
    ensures Bounded(s, e, s', key, ch, denom)
  {
    hide ValidGrants, Limit, Sends;
    SentLimits(s, s', e.key, e.ch, e.token, key, ch, denom);
  }

  lemma SetLimits(s: State, s': State, k: GrantKey, c: Channel, d: Denom, v: int, key: GrantKey, ch: Channel, denom: Denom)
    requires ValidGrants(s.grants) && Sets(s, s', k, c, d, v) && s'.now == s.now
    ensures ValidGrants(s'.grants) && Limit(s, k, c, d) > 0
    ensures Limit(s', key, ch, denom) == if k == key && c == ch && d == denom then v else Limit(s, key, ch, denom)
  {
    hide ValidGrants, LimitAt, ChangesLimit;
    ChangesLimitAt(s.grants, s'.grants, s.now, k, c, d, v);
  }

  lemma RevokedLimits(gs: Grants, now: int, k: GrantKey, key: GrantKey, ch: Channel, denom: Denom)
    requires ValidGrants(gs)
    ensures ValidGrants(gs - {k}) && LimitAt(gs - {k}, now, key, ch, denom) <= LimitAt(gs, now, key, ch, denom)
  {
    HasLimitIsPositive(gs, now, key, ch, denom);
    hide ValidAllocations, LimitOf;
    NotFound([], ch, denom);
  }

  lemma SentLimits(s: State, s': State, k: GrantKey, c: Channel, token: Coin, key: GrantKey, ch: Channel, denom: Denom)
    requires ValidGrants(s.grants) && Sends(s, s', k, c, token) && s'.now == s.now
    ensures ValidGrants(s'.grants) && token.amount > 0
    ensures var before := Limit(s, k, c, token.denom);
            Limit(s', key, ch, denom)
            == if k == key && c == ch && token.denom == denom && before != UNBOUNDED then before - token.amount
               else Limit(s, key, ch, denom)
  {
    SpentGrant(s.grants, s.now, k, c, token, true, Accept(s.grants[k].auth.allocations, c, token, true).value);
    hide ValidGrants, LimitAt, Accept, Spent;
  }

  /** In every state of a run channels are unique and limits sorted, positive and within 256 bits. */
  lemma {:induction false} RunKeepsGrantsValid(ss: seq<State>, es: seq<Event>, n: nat)
    requires IsRun(ss, es) && n < |ss|
    ensures ValidGrants(ss[n].grants)
  {
    hide ValidGrants;
    if n > 0 {
      RunKeepsGrantsValid(ss, es, n - 1);
      assert Effect(ss[n - 1], es[n - 1], ss[n]);
      hide Effect, Limit;
      EffectOnLimit(ss[n - 1], es[n - 1], ss[n], GrantKey(0, 0), Channel("", ""), []);
    }
  }

  /** Over any run, what was sent within the limit of a channel together with what remains of it never
      exceeds what it was at the start and all that was approved and added since. */
  lemma {:induction false} SendingIsBounded(ss: seq<State>, es: seq<Event>, n: nat, key: GrantKey, ch: Channel,
                                            denom: Denom)
    requires IsRun(ss, es) && n < |ss|
    ensures TotalSent(es, n, key, ch, denom) + Limit(ss[n], key, ch, denom)
         <= Limit(ss[0], key, ch, denom) + TotalGranted(es, n, key, ch, denom)
    ensures Limit(ss[n], key, ch, denom) >= 0
  {
    hide Limit, SentBy, GrantedBy, ValidGrants;
    LimitIsNatural(ss, es, n, key, ch, denom);
    if n > 0 {
      SendingIsBounded(ss, es, n - 1, key, ch, denom);
      OneEvent(ss, es, n - 1, key, ch, denom);
    }
    hide IsRun;
  }

  lemma LimitIsNatural(ss: seq<State>, es: seq<Event>, n: nat, key: GrantKey, ch: Channel, denom: Denom)
    requires IsRun(ss, es) && n < |ss|
    ensures Limit(ss[n], key, ch, denom) >= 0
  {
    RunKeepsGrantsValid(ss, es, n);
    HasLimitIsPositive(ss[n].grants, ss[n].now, key, ch, denom);
  }

  lemma OneEvent(ss: seq<State>, es: seq<Event>, k: nat, key: GrantKey, ch: Channel, denom: Denom)
    requires IsRun(ss, es) && k < |es|
    ensures Bounded(ss[k], es[k], ss[k + 1], key, ch, denom)
  {
    RunKeepsGrantsValid(ss, es, k);
    assert Effect(ss[k], es[k], ss[k + 1]);
    hide Effect, Bounded, ValidGrants;
    EffectOnLimit(ss[k], es[k], ss[k + 1], key, ch, denom);
  }

  // ----- what the operations undo -----

  /** Increasing a limit and decreasing it by the same amount restores the whole store. */
  lemma IncreaseThenDecreaseRestores(gs: Grants, mid: Grants, gs': Grants, now: int, later: int, key: GrantKey,
                                     ch: Channel, denom: Denom, amount: nat)
    requires ValidGrants(gs) && Live(gs, later, key) && now <= later
    requires ChangesLimit(gs, mid, key, ch, denom, LimitAt(gs, now, key, ch, denom) + amount)
    requires ChangesLimit(mid, gs', key, ch, denom, LimitAt(mid, later, key, ch, denom) - amount)
    ensures gs' == gs
  {
    var v := LimitOf(gs[key].auth.allocations, ch, denom);
    assert LimitAt(gs, now, key, ch, denom) == v;
    assert LimitAt(mid, later, key, ch, denom) == v + amount by {
      ChangedLimit(gs, mid, key, ch, denom, v + amount);
    }
    hide LimitAt, LimitOf, SetsLimit, ValidAllocations;
    SetBack(gs[key].auth.allocations, mid[key].auth.allocations, gs'[key].auth.allocations, ch, denom, v + amount);
  }

  /** Over any run, a limit that is used up stays so until the next approval for its grant, whatever else
      happens, and neither an increase nor a decrease of it succeeds. */
  lemma {:induction false} UsedUpIsFinal(ss: seq<State>, es: seq<Event>, m: nat, n: nat, key: GrantKey, ch: Channel,
                                         denom: Denom, amount: Uint256)
    requires IsRun(ss, es) && m <= n < |ss| && Limit(ss[m], key, ch, denom) == 0
    requires forall k :: m <= k < n ==> !(es[k].Approved? && es[k].key == key)
    ensures Limit(ss[n], key, ch, denom) == 0
    ensures !CanIncrease(ss[n].grants, ss[n].now, key, ch, denom, amount)
    ensures !CanDecrease(ss[n].grants, ss[n].now, key, ch, denom, amount)
    decreases n
  {
    LimitIsNatural(ss, es, n, key, ch, denom);
    if m < n {
      UsedUpIsFinal(ss, es, m, n - 1, key, ch, denom, amount);
      OneEvent(ss, es, n - 1, key, ch, denom);
      assert !(es[n - 1].Approved? && es[n - 1].key == key);
    }
    hide IsRun, LimitAt, CanSave, SentBy, GrantedBy, ValidGrants;
  }

  /** In particular after a decrease by all that was left. */
  lemma FullDecreaseIsFinal(ss: seq<State>, es: seq<Event>, m: nat, n: nat, key: GrantKey, ch: Channel, denom: Denom,
                            amount: Uint256)
    requires IsRun(ss, es) && m < n < |ss| && Limit(ss[m], key, ch, denom) >= 0
    requires es[m] == Decreased(key, ch, denom, Limit(ss[m], key, ch, denom))
    requires forall k :: m < k < n ==> !(es[k].Approved? && es[k].key == key)
    ensures Limit(ss[n], key, ch, denom) == 0
    ensures !CanIncrease(ss[n].grants, ss[n].now, key, ch, denom, amount)
    ensures !CanDecrease(ss[n].grants, ss[n].now, key, ch, denom, amount)
  {
    assert Effect(ss[m], es[m], ss[m + 1]);
    RunKeepsGrantsValid(ss, es, m);
    hide ValidGrants, LimitAt, Sets;
    SetLimits(ss[m], ss[m + 1], key, ch, denom, 0, key, ch, denom);
    hide Effect, Limit, CanIncrease, CanDecrease, IsRun;
    UsedUpIsFinal(ss, es, m + 1, n, key, ch, denom, amount);
  }
}
