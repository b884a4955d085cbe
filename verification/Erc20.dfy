/** The ERC-20 precompile: approvals and transfers of one token over the authz and bank stores that all
    tokens share. Every method is proved to act as its event does in module Allowances. */
module Erc20 {
  import opened Bytes
  import opened Coins
  import opened Allowances

  datatype Error =
    | SpenderIsOwner
    | NegativeAmount
    | IntegerOverflow
    | BigIntOutOfBound          // a panic of sdkmath.NewIntFromBigInt
    | UnknownAuthorizationType
    | NoAllowanceForToken
    | InvalidSpendLimit
    | InvalidExpiration
    | IncreaseNonPositive
    | DecreaseNonPositive
    | NoAuthorization
    | DecreasedBelowZero
    | ExecutionReverted
    | InvalidMessage
    | InsufficientAllowance
    | TransferExceedsBalance
    | TransferNotAllowed        // sends disabled or the recipient is blocked

  const MAX_UINT256 := TWO_256 - 1

  /** An Approval log. The source passes the precompile's own address as the owner in Approve,
      IncreaseAllowance and DecreaseAllowance, and the token owner in TransferFrom. */
  datatype Approval = Approval(owner: Address, spender: Address, value: int)

  /** The keepers all precompiles share. */
  class Keepers {
    var grants: Grants
    var balances: Balances

    constructor ()
      ensures grants == map[] && balances == map[] && ValidGrants(grants)
    {
      grants, balances := map[], map[];
    }

    method SaveGrant(now: int, key: GrantKey, auth: Authorization, expiration: Option<int>) returns (err: Option<Error>)
      modifies this`grants
      ensures err.None? <==> CanSave(expiration, now)
      ensures grants == if err.None? then old(grants)[key := Grant(auth, expiration)] else old(grants)
    {
      if expiration.Some? && expiration.value <= now {
        return Some(InvalidExpiration);
      }
      grants := grants[key := Grant(auth, expiration)];
      return None;
    }

    method DeleteGrant(key: GrantKey) returns (err: Option<Error>)
      modifies this`grants
      ensures err.None? <==> key in old(grants)
      ensures grants == old(grants) - {key}
    {
      if key !in grants {
        assert grants == grants - {key};
        return Some(NoAuthorization);
      }
      grants := grants - {key};
      return None;
    }

    /** The bank's message server; allowed says whether sends of the token to this recipient are. */
    method BankSend(denom: Denom, from: Address, recipient: Address, amount: nat, allowed: bool)
      returns (err: Option<Error>)
      modifies this`balances
      ensures err.None? <==> allowed && amount <= BalanceOf(old(balances), Account(from, denom))
      ensures err.None? ==> balances == Moved(old(balances), denom, from, recipient, amount)
      ensures err.Some? ==> balances == old(balances) && err.value in {TransferNotAllowed, TransferExceedsBalance}
    {
      if !allowed {
        return Some(TransferNotAllowed);
      }
      if BalanceOf(balances, Account(from, denom)) < amount {
        return Some(TransferExceedsBalance);
      }
      balances := balances[Account(from, denom) := BalanceOf(balances, Account(from, denom)) - amount];
      balances := balances[Account(recipient, denom) := BalanceOf(balances, Account(recipient, denom)) + amount];
      return None;
    }

    /** DispatchActions with one MsgSend: the grant is charged before the bank is asked. */
    method DispatchSend(now: int, key: GrantKey, denom: Denom, recipient: Address, amount: nat, allowed: bool)
      returns (err: Option<Error>)
      requires ValidGrants(grants) && 0 < amount < TWO_256
      requires GetAuthorization(grants, now, key).Some? && grants[key].auth.Send?
      modifies this
      ensures ValidGrants(grants)
      ensures var before := AllowanceAt(old(grants), now, key, denom);
              if before < amount then err == Some(InsufficientAllowance) && grants == old(grants) && balances == old(balances)
              else Updates(old(grants), grants, now, key, denom, before - amount, old(grants)[key].expiration)
      ensures err.None? <==> AllowanceAt(old(grants), now, key, denom) >= amount
                             && allowed && amount <= BalanceOf(old(balances), Account(key.granter, denom))
      ensures err.None? ==> balances == Moved(old(balances), denom, key.granter, recipient, amount)
      ensures err.Some? ==> balances == old(balances)
      ensures err.Some? && AllowanceAt(old(grants), now, key, denom) >= amount
              ==> err.value in {TransferNotAllowed, TransferExceedsBalance}
    {
      hide AddCoin, Moved;
      var grant := grants[key];
      var limit := grant.auth.spendLimit;
      var coin := Coin(denom, amount);
      var limitLeft := SubCoin(limit, coin);
      SubCoinLaw(limit, coin);
      if HasNegative(limitLeft) {
        return Some(InsufficientAllowance);
      }
      LimitLeft(grants, now, key, coin);
      StoreLimit(grants, now, key, denom, AllowanceAt(grants, now, key, denom) - amount, limitLeft, grant.expiration);
      if limitLeft == [] {
        grants := grants - {key};
      } else {
        grants := grants[key := Grant(Send(limitLeft), grant.expiration)];
      }
      assert ValidGrants(grants);
      hide ValidGrants, Updates, AllowanceAt;
      err := BankSend(denom, key.granter, recipient, amount, allowed);
    }
  }

  /** What is left of the live limit after a coin is taken out of it. */
  lemma LimitLeft(gs: Grants, now: int, key: GrantKey, coin: Coin)
    requires ValidGrants(gs) && GetAuthorization(gs, now, key).Some? && gs[key].auth.Send?
    requires 0 < coin.amount <= AllowanceAt(gs, now, key, coin.denom)
    ensures IsLimit(gs, now, key, coin.denom, AllowanceAt(gs, now, key, coin.denom) - coin.amount,
                    SubCoin(gs[key].auth.spendLimit, coin))
  {
    var limit := gs[key].auth.spendLimit;
    forall d ensures AmountOf(SubCoin(limit, coin), d) == AmountOf(limit, d) - (if d == coin.denom then coin.amount else 0) {
      SubCoinAmounts(limit, coin, d);
    }
    SubCoinLaw(limit, coin);
    hide SubCoin, ValidCoins, AmountOf;
  }

  /** The limit of a new grant. */
  lemma OneLimit(gs: Grants, now: int, key: GrantKey, denom: Denom, amount: int)
    requires GetAuthorization(gs, now, key).None? && 0 < amount < TWO_256
    ensures IsLimit(gs, now, key, denom, amount, [Coin(denom, amount)])
  {
    forall d ensures AmountOf([Coin(denom, amount)], d) == if d == denom then amount else 0 {
      AmountOfNil(d);
      AmountOfCons(Coin(denom, amount), [], d);
      assert [Coin(denom, amount)] + [] == [Coin(denom, amount)];
    }
  }

  /** SendAuthorization.ValidateBasic */
  predicate LimitIsValid(limit: seq<Coin>) {
    limit != [] && forall i :: 0 <= i < |limit| ==> limit[i].amount > 0
  }

  // ----- when a call succeeds -----

  /** approve: with no live grant, any amount from 0 up to 2^256 - 1; with one, an amount of zero needs a
      limit in this denomination, and a grant that stays must still be storable. */
  predicate CanApprove(gs: Grants, now: int, denom: Denom, duration: int, key: GrantKey, amount: int) {
    match GetAuthorization(gs, now, key)
    case None => amount == 0 || (0 < amount < TWO_256 && duration > 0)
    case Some(Grant(OtherAuthorization, _)) => false
    case Some(Grant(Send(limit), expiration)) =>
      if amount <= 0 then Has(limit, denom) && (|limit| == 1 || CanSave(expiration, now))
      else amount < TWO_256 && CanSave(expiration, now)
  }

  predicate CanIncrease(gs: Grants, now: int, denom: Denom, duration: int, key: GrantKey, added: int) {
    0 < added &&
    match GetAuthorization(gs, now, key)
    case None => added < TWO_256 && duration > 0
    case Some(Grant(OtherAuthorization, _)) => false
    case Some(Grant(Send(limit), expiration)) => AmountOf(limit, denom) + added < TWO_256 && CanSave(expiration, now)
  }

  predicate CanDecrease(gs: Grants, now: int, denom: Denom, key: GrantKey, subtracted: int) {
    0 < subtracted <= AllowanceAt(gs, now, key, denom)
    && (gs[key].auth == Send([Coin(denom, subtracted)]) || CanSave(gs[key].expiration, now))
  }

  predicate CanTransfer(gs: Grants, bs: Balances, now: int, denom: Denom, spender: Address, from: Address,
                        amount: int, allowed: bool)
  {
    0 < amount < TWO_256 && allowed && amount <= BalanceOf(bs, Account(from, denom))
    && (spender == from || amount <= AllowanceAt(gs, now, GrantKey(spender, from), denom))
  }

  /** The same conditions in terms of the grant in the store: expired or missing, of another type, or the bank's. */
  lemma WhenCallsSucceed(gs: Grants, bs: Balances, now: int, denom: Denom, duration: int, key: GrantKey, amount: int)
    requires ValidGrants(gs)
    ensures key !in gs || (gs[key].expiration.Some? && gs[key].expiration.value < now) ==>
              && (CanApprove(gs, now, denom, duration, key, amount) <==> 0 <= amount < TWO_256 && (amount > 0 ==> duration > 0))
              && (CanIncrease(gs, now, denom, duration, key, amount) <==> 0 < amount < TWO_256 && duration > 0)
              && !CanDecrease(gs, now, denom, key, amount)
              && ExpirationFor(gs, now, key, duration) == Some(now + duration)
    ensures key in gs && (gs[key].expiration.None? || gs[key].expiration.value >= now) ==>
              && ExpirationFor(gs, now, key, duration) == gs[key].expiration
              && match gs[key].auth
                 case OtherAuthorization =>
                   && !CanApprove(gs, now, denom, duration, key, amount)
                   && !CanIncrease(gs, now, denom, duration, key, amount)
                   && !CanDecrease(gs, now, denom, key, amount)
                 case Send(limit) =>
                   var allowance := AllowanceAt(gs, now, key, denom);
                   var outlives := gs[key].expiration.None? || gs[key].expiration.value > now;
                   && (CanApprove(gs, now, denom, duration, key, amount)
                       <==> if amount > 0 then amount < TWO_256 && outlives else allowance > 0 && (|limit| == 1 || outlives))
                   && (CanIncrease(gs, now, denom, duration, key, amount) <==> 0 < amount < TWO_256 - allowance && outlives)
                   && (CanDecrease(gs, now, denom, key, amount)
                       <==> 0 < amount <= allowance && ((amount == allowance && |limit| == 1) || outlives))
    ensures forall allowed ::
              CanTransfer(gs, bs, now, denom, key.grantee, key.granter, amount, allowed)
              <==> && allowed && 0 < amount < TWO_256 && amount <= BalanceOf(bs, Account(key.granter, denom))
                   && (key.grantee != key.granter ==> amount <= AllowanceAt(gs, now, key, denom))
  {
    if key in gs && gs[key].auth.Send? {
      HasIsPositive(gs[key].auth.spendLimit, denom);
      OneCoin(gs[key].auth.spendLimit, denom);
    }
    hide ValidCoins, AmountOf, IndexOf, BalanceOf;
  }

  // ----- the precompile of one token -----

  class Precompile {
    const denom: Denom
    const address: Address
    const approvalExpiration: int
    const keepers: Keepers

    constructor (denom: Denom, address: Address, approvalExpiration: int, keepers: Keepers)
      ensures this.denom == denom && this.address == address
      ensures this.approvalExpiration == approvalExpiration && this.keepers == keepers
    {
      this.denom, this.address := denom, address;
      this.approvalExpiration, this.keepers := approvalExpiration, keepers;
    }

    method CreateAuthorization(now: int, key: GrantKey, amount: int) returns (err: Option<Error>)
      requires ValidGrants(keepers.grants) && GetAuthorization(keepers.grants, now, key).None? && amount > 0
      modifies keepers`grants
      ensures ValidGrants(keepers.grants)
      ensures err.None? <==> amount < TWO_256 && approvalExpiration > 0
      ensures err.Some? ==> keepers.grants == old(keepers.grants)
      ensures err.None? ==>
                Updates(old(keepers.grants), keepers.grants, now, key, denom, amount, Some(now + approvalExpiration))
    {
      if Overflows(amount) {
        return Some(IntegerOverflow);
      }
      var coins := [Coin(denom, amount)];
      var expiration := now + approvalExpiration;
      if !LimitIsValid(coins) {
        return Some(InvalidSpendLimit);
      }
      if approvalExpiration > 0 {
        OneLimit(keepers.grants, now, key, denom, amount);
        hide IsLimit, ValidCoins;
        StoreLimit(keepers.grants, now, key, denom, amount, coins, Some(expiration));
      }
      hide Updates;
      err := keepers.SaveGrant(now, key, Send(coins), Some(expiration));
    }

    method UpdateAuthorization(now: int, key: GrantKey, amount: int) returns (err: Option<Error>)
      requires ValidGrants(keepers.grants) && amount > 0
      requires GetAuthorization(keepers.grants, now, key).Some? && keepers.grants[key].auth.Send?
      modifies keepers`grants
      ensures ValidGrants(keepers.grants)
      ensures err.None? <==> amount < TWO_256 && CanSave(old(keepers.grants)[key].expiration, now)
      ensures err.Some? ==> keepers.grants == old(keepers.grants)
      ensures err.None? ==>
                Updates(old(keepers.grants), keepers.grants, now, key, denom, amount, old(keepers.grants)[key].expiration)
    {
      var grant := keepers.grants[key];
      if Overflows(amount) {
        return Some(BigIntOutOfBound);
      }
      var spendLimit := UpdateOrAddCoin(grant.auth.spendLimit, Coin(denom, amount));
      if !LimitIsValid(spendLimit) {
        return Some(InvalidSpendLimit);
      }
      if amount < TWO_256 {
        assert IsLimit(keepers.grants, now, key, denom, amount, spendLimit);
        hide IsLimit, ValidCoins, AmountOf;
        StoreLimit(keepers.grants, now, key, denom, amount, spendLimit, grant.expiration);
      }
      hide Updates;
      err := keepers.SaveGrant(now, key, Send(spendLimit), grant.expiration);
    }

    method RemoveSpendLimitOrDeleteAuthorization(now: int, key: GrantKey) returns (err: Option<Error>)
      requires ValidGrants(keepers.grants) && GetAuthorization(keepers.grants, now, key).Some?
      modifies keepers`grants
      ensures ValidGrants(keepers.grants)
      ensures err.None? <==>
                match old(keepers.grants)[key].auth
                case OtherAuthorization => false
                case Send(limit) => Has(limit, denom) && (|limit| == 1 || CanSave(old(keepers.grants)[key].expiration, now))
      ensures err.Some? ==> keepers.grants == old(keepers.grants)
      ensures err.None? ==>
                Updates(old(keepers.grants), keepers.grants, now, key, denom, 0, old(keepers.grants)[key].expiration)
      ensures err.None? ==>
                var limit := old(keepers.grants)[key].auth.spendLimit;
                if |limit| == 1 then keepers.grants == old(keepers.grants) - {key}
                else key in keepers.grants && keepers.grants == old(keepers.grants)[key := keepers.grants[key]]
    {
      hide AddCoin;
      var grant := keepers.grants[key];
      if !grant.auth.Send? {
        return Some(UnknownAuthorizationType);
      }
      var limit := grant.auth.spendLimit;
      if !Has(limit, denom) {
        return Some(NoAllowanceForToken);
      }
      var denomCoins := limit[IndexOf(limit, denom)];
      var newSpendLimit := SubCoin(limit, denomCoins);
      SubCoinLaw(limit, denomCoins);
      LimitLeft(keepers.grants, now, key, denomCoins);
      EmptiedLimit(limit, denomCoins);
      hide SubCoin, IsLimit;
      StoreLimit(keepers.grants, now, key, denom, 0, newSpendLimit, grant.expiration);
      hide Updates;
      if HasNegative(newSpendLimit) {
        return Some(DecreasedBelowZero);
      }
      if newSpendLimit == [] {
        err := keepers.DeleteGrant(key);
        return;
      }
      err := keepers.SaveGrant(now, key, Send(newSpendLimit), grant.expiration);
    }

    /** The state a run goes through. */
    function Snapshot(now: int): State
      reads this, keepers
    {
      State(now, keepers.grants, keepers.balances)
    }

    /** approve(spender, amount), called by the owner. */
    method Approve(now: int, caller: Address, spender: Address, amount: int)
      returns (err: Option<Error>, log: Option<Approval>)
      requires ValidGrants(keepers.grants)
      modifies keepers`grants
      ensures ValidGrants(keepers.grants)
      ensures err.None? <==>
                && caller != spender
                && CanApprove(old(keepers.grants), now, denom, approvalExpiration, GrantKey(spender, caller), amount)
      ensures err.Some? ==> keepers.grants == old(keepers.grants) && log == None
      ensures err.None? ==> log == Some(Approval(address, spender, amount))
      ensures err.None? ==>
                var gs, key, v := old(keepers.grants), GrantKey(spender, caller), if amount > 0 then amount else 0;
                && AllowanceAt(keepers.grants, now, key, denom) == v
                && if v == 0 && GetAuthorization(gs, now, key).None? then keepers.grants == gs
                   else Updates(gs, keepers.grants, now, key, denom, v, ExpirationFor(gs, now, key, approvalExpiration))
      ensures Effect(old(Snapshot(now)),
                     if err.Some? then Failed else Approved(caller, spender, denom, if amount > 0 then amount else 0),
                     Snapshot(now))
    {
      log := None;
      if spender == caller {
        return Some(SpenderIsOwner), None;
      }
      var key := GrantKey(spender, caller);
      var authorization := GetAuthorization(keepers.grants, now, key);
      err := None;
      if authorization.None? && amount < 0 {
        err := Some(NegativeAmount);
      } else if authorization.None? && amount > 0 {
        err := CreateAuthorization(now, key, amount);
      } else if authorization.Some? && amount <= 0 {
        err := RemoveSpendLimitOrDeleteAuthorization(now, key);
      } else if authorization.Some? && amount > 0 {
        if !authorization.value.auth.Send? {
          return Some(UnknownAuthorizationType), None;
        }
        err := UpdateAuthorization(now, key, amount);
      }
      hide ValidGrants, Writes;
      if err.Some? {
        return err, None;
      }
      return None, Some(Approval(address, spender, amount));
    }

    /** increaseAllowance(spender, added) */
    method IncreaseAllowance(now: int, caller: Address, spender: Address, added: int)
      returns (err: Option<Error>, log: Option<Approval>)
      requires ValidGrants(keepers.grants)
      modifies keepers`grants
      ensures ValidGrants(keepers.grants)
      ensures err.None? <==>
                && caller != spender
                && CanIncrease(old(keepers.grants), now, denom, approvalExpiration, GrantKey(spender, caller), added)
      ensures err.Some? ==> keepers.grants == old(keepers.grants) && log == None
      ensures err.None? ==>
                var gs, key := old(keepers.grants), GrantKey(spender, caller);
                var v := AllowanceAt(gs, now, key, denom) + added;
                && AllowanceAt(keepers.grants, now, key, denom) == v && log == Some(Approval(address, spender, v))
                && Updates(gs, keepers.grants, now, key, denom, v, ExpirationFor(gs, now, key, approvalExpiration))
      ensures Effect(old(Snapshot(now)), if err.Some? then Failed else Increased(caller, spender, denom, added), Snapshot(now))
    {
      log := None;
      if spender == caller {
        return Some(SpenderIsOwner), None;
      }
      var key := GrantKey(spender, caller);
      var authorization := GetAuthorization(keepers.grants, now, key);
      var amount := 0;
      if added <= 0 {
        return Some(IncreaseNonPositive), None;
      }
      AllowanceInRange(keepers.grants, now, key, denom);
      if authorization.None? {
        amount := added;
        err := CreateAuthorization(now, key, added);
      } else {
        if !authorization.value.auth.Send? {
          return Some(UnknownAuthorizationType), None;
        }
        if Overflows(added) {
          return Some(BigIntOutOfBound), None;
        }
        var (sum, overflow) := SafeAdd(AmountOf(authorization.value.auth.spendLimit, denom), added);
        if overflow {
          return Some(ExecutionReverted), None;
        }
        amount := sum;
        err := UpdateAuthorization(now, key, amount);
      }
      hide ValidGrants, Writes, AmountOf;
      if err.Some? {
        return err, None;
      }
      return None, Some(Approval(address, spender, amount));
    }

    /** decreaseAllowance(spender, subtracted) */
    method DecreaseAllowance(now: int, caller: Address, spender: Address, subtracted: int)
      returns (err: Option<Error>, log: Option<Approval>)
      requires ValidGrants(keepers.grants)
      modifies keepers`grants
      ensures ValidGrants(keepers.grants)
      ensures err.None? <==>
                caller != spender && CanDecrease(old(keepers.grants), now, denom, GrantKey(spender, caller), subtracted)
      ensures err.Some? ==> keepers.grants == old(keepers.grants) && log == None
      ensures err.None? ==>
                var gs, key := old(keepers.grants), GrantKey(spender, caller);
                var v := AllowanceAt(gs, now, key, denom) - subtracted;
                && AllowanceAt(keepers.grants, now, key, denom) == v && log == Some(Approval(address, spender, v))
                && Updates(gs, keepers.grants, now, key, denom, v, gs[key].expiration)
      ensures Effect(old(Snapshot(now)), if err.Some? then Failed else Decreased(caller, spender, denom, subtracted),
                     Snapshot(now))
    {
      log := None;
      if spender == caller {
        return Some(SpenderIsOwner), None;
      }
      var key := GrantKey(spender, caller);
      var authErr, authorization, _, allowance := GetAuthzExpirationAndAllowance(now, key);
      AllowanceInRange(keepers.grants, now, key, denom);
      var amount := 0;
      if subtracted <= 0 {
        return Some(DecreaseNonPositive), None;
      }
      if authErr.Some? {
        return authErr, None;
      }
      HasIsPositive(authorization.spendLimit, denom);
      OneCoin(authorization.spendLimit, denom);
      if subtracted < allowance {
        amount := allowance - subtracted;
        err := UpdateAuthorization(now, key, amount);
      } else if subtracted == allowance {
        err := RemoveSpendLimitOrDeleteAuthorization(now, key);
        amount := 0;
      } else if allowance == 0 {
        return Some(NoAllowanceForToken), None;
      } else {
        return Some(DecreasedBelowZero), None;
      }
      hide ValidGrants, Writes, AmountOf;
      if err.Some? {
        return err, None;
      }
      return None, Some(Approval(address, spender, amount));
    }

    /** The common part of transfer and transferFrom. allowed says whether the bank lets the token go to
        this recipient. */
    method TransferTokens(now: int, caller: Address, from: Address, recipient: Address, amount: int,
                          isTransferFrom: bool, allowed: bool)
      returns (err: Option<Error>, log: Option<Approval>)
      requires ValidGrants(keepers.grants)
      modifies keepers
      ensures ValidGrants(keepers.grants)
      ensures err.None? <==>
                CanTransfer(old(keepers.grants), old(keepers.balances), now, denom, caller, from, amount, allowed)
      ensures var a, b := Account(from, denom), Account(recipient, denom);
              err.None? && from != recipient ==>
                && BalanceOf(keepers.balances, a) == BalanceOf(old(keepers.balances), a) - amount
                && BalanceOf(keepers.balances, b) == BalanceOf(old(keepers.balances), b) + amount
      ensures forall c: Account ::
                err.Some? || from == recipient || (c != Account(from, denom) && c != Account(recipient, denom))
                ==> BalanceOf(keepers.balances, c) == BalanceOf(old(keepers.balances), c)
      ensures err.Some? ==> keepers.balances == old(keepers.balances) && log == None
      ensures caller == from ==> keepers.grants == old(keepers.grants)
      ensures var gs, key := old(keepers.grants), GrantKey(caller, from);
              var before := AllowanceAt(gs, now, key, denom);
              caller != from ==>
                if 0 < amount < TWO_256 && amount <= before then
                  Updates(gs, keepers.grants, now, key, denom, before - amount, gs[key].expiration)
                else keepers.grants == gs
      ensures err.None? ==>
                log == if !isTransferFrom then None
                       else if caller == from then Some(Approval(from, caller, MAX_UINT256))
                       else Some(Approval(from, caller, AllowanceAt(keepers.grants, now, GrantKey(caller, from), denom)))
      ensures Effect(old(Snapshot(now)),
                     if err.None? then
                       (if caller == from then Sent(denom, from, recipient, amount) else Spent(from, caller, denom, recipient, amount))
                     else if caller != from && 0 < amount < TWO_256
                             && amount <= AllowanceAt(old(keepers.grants), now, GrantKey(caller, from), denom) then
                       Refused(from, caller, denom, amount)
                     else Failed,
                     Snapshot(now))
    {
      log := None;
      if Overflows(amount) {
        return Some(BigIntOutOfBound), None;
      }
      if amount <= 0 {
        return Some(InvalidMessage), None;
      }
      var key := GrantKey(caller, from);
      var prevAllowance := 0;
      if caller == from {
        err := keepers.BankSend(denom, from, recipient, amount, allowed);
      } else {
        var authErr, _, _, allowance := GetAuthzExpirationAndAllowance(now, key);
        if authErr.Some? {
          return Some(InsufficientAllowance), None;
        }
        prevAllowance := allowance;
        err := keepers.DispatchSend(now, key, denom, recipient, amount, allowed);
      }
      hide ValidGrants, Writes, AmountOf, Moved, BalanceOf;
      if err.Some? {
        return err, None;
      }
      MovedBalances(old(keepers.balances), denom, from, recipient, amount);
      if !isTransferFrom {
        return None, None;
      }
      if caller == from {
        return None, Some(Approval(from, caller, MAX_UINT256));
      }
      return None, Some(Approval(from, caller, prevAllowance - amount));
    }

    /** GetAuthzExpirationAndAllowance: a live grant of the bank's type, its date and the amount of this token. */
    method GetAuthzExpirationAndAllowance(now: int, key: GrantKey)
      returns (err: Option<Error>, authorization: Authorization, expiration: Option<int>, allowance: int)
      ensures err.None? <==> GetAuthorization(keepers.grants, now, key).Some? && keepers.grants[key].auth.Send?
      ensures err.None? ==> Grant(authorization, expiration) == keepers.grants[key]
      ensures err.Some? ==> err.value == NoAuthorization && allowance == 0
      ensures allowance == AllowanceAt(keepers.grants, now, key, denom)
    {
      var g := GetAuthorization(keepers.grants, now, key);
      if g.None? {
        return Some(NoAuthorization), OtherAuthorization, None, 0;
      }
      if !g.value.auth.Send? {
        return Some(NoAuthorization), OtherAuthorization, None, 0;
      }
      return None, g.value.auth, g.value.expiration, AmountOf(g.value.auth.spendLimit, denom);
    }

    /** allowance(owner, spender): errors read as zero. */
    method Allowance(now: int, owner: Address, spender: Address) returns (allowance: int)
      ensures owner == spender ==>
                allowance == 0xFFFF_FFFF_FFFF_FFFF_FFFF_FFFF_FFFF_FFFF_FFFF_FFFF_FFFF_FFFF_FFFF_FFFF_FFFF_FFFF
      ensures owner != spender ==> allowance == AllowanceAt(keepers.grants, now, GrantKey(spender, owner), denom)
    {
      if owner == spender {
        return MAX_UINT256;
      }
      var err, _, _, amount := GetAuthzExpirationAndAllowance(now, GrantKey(spender, owner));
      if err.Some? {
        return 0;
      }
      return amount;
    }
  }

  lemma EmptiedLimit(limit: seq<Coin>, c: Coin)
    requires ValidCoins(limit) && c in limit
    ensures SubCoin(limit, c) == [] <==> |limit| == 1
  {}

  lemma OneCoin(limit: seq<Coin>, d: Denom)
    requires ValidCoins(limit)
    ensures Has(limit, d) ==> (|limit| == 1 <==> limit == [Coin(d, AmountOf(limit, d))])
  {}

  /** EIP-20 lets approve(spender, 0) through at any time. The precompile refuses it to a grant that holds
      only other tokens, although the allowance it would set is the one already there. */
  lemma ApproveZeroNeedsALimit(gs: Grants, now: int, denom: Denom, duration: int, key: GrantKey)
    requires ValidGrants(gs) && GetAuthorization(gs, now, key).Some? && gs[key].auth.Send?
    ensures CanApprove(gs, now, denom, duration, key, 0)
            <==> AllowanceAt(gs, now, key, denom) > 0 && (|gs[key].auth.spendLimit| == 1 || CanSave(gs[key].expiration, now))
  {}
}
