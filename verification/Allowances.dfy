/** The authz store seen as EIP-20 allowances: one grant per (grantee, granter) holds a spend limit for
    many denominations, and each denomination is an allowance of its own. */
module Allowances {
  import opened Bytes
  import opened Coins

  type Address = a: nat | a < 0x1_0000_0000_0000_0000_0000_0000_0000_0000_0000_0000

  /** An authorization for MsgSend: the bank's SendAuthorization or some other type. */
  datatype Authorization = Send(spendLimit: seq<Coin>) | OtherAuthorization

  datatype Grant = Grant(auth: Authorization, expiration: Option<int>)

  datatype GrantKey = GrantKey(grantee: Address, granter: Address)

  type Grants = map<GrantKey, Grant>

  predicate ExpiredAt(expiration: Option<int>, now: int) {
    expiration.Some? && expiration.value < now
  }

  /** AuthzKeeper.GetAuthorization: an expired grant is as good as none. */
  function GetAuthorization(gs: Grants, now: int, key: GrantKey): Option<Grant> {
    if key in gs && !ExpiredAt(gs[key].expiration, now) then Some(gs[key]) else None
  }

  /** AuthzKeeper.SaveGrant refuses a grant that would not outlive the current block. */
  predicate CanSave(expiration: Option<int>, now: int) {
    expiration.Some? ==> expiration.value > now
  }

  /** The allowance at a time, as GetAuthzExpirationAndAllowance reads it; its errors read as zero. */
  function AllowanceAt(gs: Grants, now: int, key: GrantKey, denom: Denom): int {
    var g := GetAuthorization(gs, now, key);
    if g.Some? && g.value.auth.Send? then AmountOf(g.value.auth.spendLimit, denom) else 0
  }

  /** Stored limits are sorted, positive, within 256 bits, and never empty. */
  ghost predicate ValidGrants(gs: Grants) {
    forall k :: k in gs && gs[k].auth.Send? ==> ValidCoins(gs[k].auth.spendLimit) && gs[k].auth.spendLimit != []
  }

  /** When the grant that holds an allowance set now will expire: an update keeps the old date. */
  function ExpirationFor(gs: Grants, now: int, key: GrantKey, duration: int): Option<int> {
    var g := GetAuthorization(gs, now, key);
    if g.Some? then g.value.expiration else Some(now + duration)
  }

  /** From now on this allowance is v until the given date and 0 after it, and every other allowance, of
      any pair of accounts in any denomination, is at any time what it would have been. */
  ghost predicate SetsAllowance(gs: Grants, gs': Grants, now: int, key: GrantKey, denom: Denom, v: int,
                                expiration: Option<int>)
  {
    && !ExpiredAt(expiration, now)
    && (forall t :: t >= now ==> AllowanceAt(gs', t, key, denom) == if ExpiredAt(expiration, t) then 0 else v)
    && (forall t, k, d :: t >= now && (k != key || d != denom) ==> AllowanceAt(gs', t, k, d) == AllowanceAt(gs, t, k, d))
  }

  lemma AllowanceInRange(gs: Grants, now: int, key: GrantKey, denom: Denom)
    requires ValidGrants(gs)
    ensures 0 <= AllowanceAt(gs, now, key, denom) < TWO_256
  {}

  /** The allowance is the amount of the denomination's coin in the limit of a grant that has not expired; without
      such a grant or such a coin it is zero. A grant is live through its last second. */
  lemma AllowanceMeans(gs: Grants, now: int, key: GrantKey, denom: Denom)
    ensures GetAuthorization(gs, now, key).Some? <==> key in gs && (gs[key].expiration.None? || now <= gs[key].expiration.value)
    ensures GetAuthorization(gs, now, key).Some? ==> GetAuthorization(gs, now, key).value == gs[key]
    ensures GetAuthorization(gs, now, key).None? || gs[key].auth.OtherAuthorization? ==> AllowanceAt(gs, now, key, denom) == 0
    ensures ValidGrants(gs) && GetAuthorization(gs, now, key).Some? && gs[key].auth.Send? ==>
              && (forall c :: c in gs[key].auth.spendLimit && c.denom == denom
                              ==> AllowanceAt(gs, now, key, denom) == c.amount > 0)
              && ((forall c :: c in gs[key].auth.spendLimit ==> c.denom != denom) ==> AllowanceAt(gs, now, key, denom) == 0)
  {
    if ValidGrants(gs) && GetAuthorization(gs, now, key).Some? && gs[key].auth.Send? {
      var limit := gs[key].auth.spendLimit;
      forall c | c in limit && c.denom == denom ensures AmountOf(limit, denom) == c.amount > 0 {
        var i :| 0 <= i < |limit| && limit[i] == c;
        SortedIndex(limit, i);
      }
    }
  }

  // ----- what a call writes -----

  /** The limit that holds, at a time, what the live grant does, but for one amount. */
  ghost predicate IsLimit(gs: Grants, now: int, key: GrantKey, denom: Denom, v: int, limit: seq<Coin>) {
    ValidCoins(limit) && forall d :: AmountOf(limit, d) == if d == denom then v else AllowanceAt(gs, now, key, d)
  }

  /** The store with this limit in the grant; without the grant when the limit is empty. */
  function Stored(gs: Grants, key: GrantKey, limit: seq<Coin>, expiration: Option<int>): Grants {
    if limit == [] then gs - {key} else gs[key := Grant(Send(limit), expiration)]
  }

  /** The whole store after an allowance was set to v: one grant is written, under the date it had if it
      was live, or deleted when nothing is left in it; a live grant of another type is never touched. */
  ghost predicate Writes(gs: Grants, gs': Grants, now: int, key: GrantKey, denom: Denom, v: int, expiration: Option<int>) {
    && (GetAuthorization(gs, now, key).Some? ==> gs[key].auth.Send? && gs[key].expiration == expiration)
    && !ExpiredAt(expiration, now)
    && exists limit :: IsLimit(gs, now, key, denom, v, limit) && gs' == Stored(gs, key, limit, expiration)
  }

  /** What a write does to the allowances: it keeps all others at any later time, and the store valid. */
  lemma WritesSets(gs: Grants, gs': Grants, now: int, key: GrantKey, denom: Denom, v: int, expiration: Option<int>)
    requires ValidGrants(gs) && Writes(gs, gs', now, key, denom, v, expiration)
    ensures ValidGrants(gs')
    ensures SetsAllowance(gs, gs', now, key, denom, v, if v == 0 then None else expiration)
  {
    var limit: seq<Coin> :| IsLimit(gs, now, key, denom, v, limit) && gs' == Stored(gs, key, limit, expiration);
    var exp := if v == 0 then None else expiration;
    assert ValidGrants(gs') by { hide AmountOf, ValidCoins; }
    hide ValidGrants, IsLimit, Stored, AllowanceAt, AmountOf;
    forall t, k, d | t >= now
      ensures AllowanceAt(gs', t, k, d)
           == if k == key && d == denom then (if ExpiredAt(exp, t) then 0 else v) else AllowanceAt(gs, t, k, d)
    {
      StoredAllowance(gs, now, key, denom, v, limit, expiration, t, k, d);
    }
  }

  /** What is stored, read at a later time. */
  lemma StoredAllowance(gs: Grants, now: int, key: GrantKey, denom: Denom, v: int, limit: seq<Coin>,
                        expiration: Option<int>, t: int, k: GrantKey, d: Denom)
    requires IsLimit(gs, now, key, denom, v, limit) && t >= now
    requires GetAuthorization(gs, now, key).Some? ==> gs[key].auth.Send? && gs[key].expiration == expiration
    ensures AllowanceAt(Stored(gs, key, limit, expiration), t, k, d)
         == if k == key && d == denom then (if ExpiredAt(expiration, t) then 0 else v) else AllowanceAt(gs, t, k, d)
  {
    assert AmountOf(limit, d) == if d == denom then v else AllowanceAt(gs, now, key, d);
    hide ValidCoins, IsLimit;
    if limit == [] {
      AmountOfNil(d);
    }
    hide AmountOf;
  }

  /** All that a successful call does to the grants. */
  ghost predicate Updates(gs: Grants, gs': Grants, now: int, key: GrantKey, denom: Denom, v: int, expiration: Option<int>) {
    && ValidGrants(gs') && Writes(gs, gs', now, key, denom, v, expiration)
    && SetsAllowance(gs, gs', now, key, denom, v, if v == 0 then None else expiration)
  }

  /** What such a call leaves behind, in full: this allowance, for as long as the grant lives, and everything else as
      it was, at this time and at any later one. */
  lemma UpdatesMean(gs: Grants, gs': Grants, now: int, key: GrantKey, denom: Denom, v: int, expiration: Option<int>)
    requires Updates(gs, gs', now, key, denom, v, expiration)
    ensures forall t :: t >= now ==>
              AllowanceAt(gs', t, key, denom) == if expiration.Some? && expiration.value < t then 0 else v
    ensures forall t, k, d :: t >= now && (k != key || d != denom) ==> AllowanceAt(gs', t, k, d) == AllowanceAt(gs, t, k, d)
    ensures forall k :: k != key ==> (k in gs' <==> k in gs) && (k in gs' ==> gs'[k] == gs[k])
    ensures key in gs' ==>
              && gs'[key].expiration == expiration && gs'[key].auth.Send? && gs'[key].auth.spendLimit != []
              && (expiration.Some? ==> now <= expiration.value)
              && forall c :: c in gs'[key].auth.spendLimit ==> 0 < c.amount < TWO_256
    ensures GetAuthorization(gs, now, key).Some? ==> gs[key].auth.Send? && expiration == gs[key].expiration
  {
    hide AllowanceAt, AmountOf, IsLimit;
  }

  lemma StoreLimit(gs: Grants, now: int, key: GrantKey, denom: Denom, v: int, limit: seq<Coin>, expiration: Option<int>)
    requires ValidGrants(gs) && IsLimit(gs, now, key, denom, v, limit) && !ExpiredAt(expiration, now)
    requires GetAuthorization(gs, now, key).Some? ==> gs[key].auth.Send? && gs[key].expiration == expiration
    ensures Updates(gs, Stored(gs, key, limit, expiration), now, key, denom, v, expiration)
  {
    hide ValidGrants, IsLimit, SetsAllowance, AllowanceAt;
    assert Writes(gs, Stored(gs, key, limit, expiration), now, key, denom, v, expiration);
    WritesSets(gs, Stored(gs, key, limit, expiration), now, key, denom, v, expiration);
  }

  /** The grant goes exactly when no allowance is left in it, and no other grant is touched. */
  lemma GrantGoesWithLastLimit(gs: Grants, gs': Grants, now: int, key: GrantKey, denom: Denom, v: int,
                               expiration: Option<int>)
    requires ValidGrants(gs) && Writes(gs, gs', now, key, denom, v, expiration)
    ensures key !in gs' <==> forall d :: AllowanceAt(gs', now, key, d) == 0
    ensures key in gs' ==> gs'[key].auth.Send? && gs'[key].expiration == expiration
    ensures gs' - {key} == gs - {key}
  {
    var limit: seq<Coin> :| IsLimit(gs, now, key, denom, v, limit) && gs' == Stored(gs, key, limit, expiration);
    if limit != [] {
      CoinAt(limit, 0);
      assert AllowanceAt(gs', now, key, limit[0].denom) > 0;
    }
  }

  // ----- runs over all tokens -----

  datatype Account = Account(owner: Address, denom: Denom)

  type Balances = map<Account, nat>

  function BalanceOf(bs: Balances, a: Account): nat { if a in bs then bs[a] else 0 }

  /** Bank send: subtract, then add. */
  function Moved(bs: Balances, denom: Denom, from: Address, recipient: Address, amount: nat): Balances
    requires amount <= BalanceOf(bs, Account(from, denom))
  {
    var bs' := bs[Account(from, denom) := BalanceOf(bs, Account(from, denom)) - amount];
    bs'[Account(recipient, denom) := BalanceOf(bs', Account(recipient, denom)) + amount]
  }

  /** What is sent leaves one account and arrives at the other, and no other account changes. */
  lemma MovedLaw(bs: Balances, denom: Denom, from: Address, recipient: Address, amount: nat, a: Account)
    requires amount <= BalanceOf(bs, Account(from, denom))
    ensures BalanceOf(Moved(bs, denom, from, recipient, amount), a)
         == BalanceOf(bs, a) as int - (if a == Account(from, denom) then amount else 0)
            + (if a == Account(recipient, denom) then amount else 0)
  {}

  /** The sum of a denomination over a list of accounts. */
  function Total(bs: Balances, denom: Denom, owners: seq<Address>): nat {
    if owners == [] then 0 else BalanceOf(bs, Account(owners[0], denom)) + Total(bs, denom, owners[1..])
  }

  lemma MovedBalances(bs: Balances, denom: Denom, from: Address, recipient: Address, amount: nat)
    requires amount <= BalanceOf(bs, Account(from, denom))
    ensures var bs', a, b := Moved(bs, denom, from, recipient, amount), Account(from, denom), Account(recipient, denom);
            && (from != recipient ==>
                  BalanceOf(bs', a) == BalanceOf(bs, a) - amount && BalanceOf(bs', b) == BalanceOf(bs, b) + amount)
            && forall c: Account :: from == recipient || (c != a && c != b) ==> BalanceOf(bs', c) == BalanceOf(bs, c)
  {
    hide Moved, BalanceOf;
    forall c: Account
      ensures BalanceOf(Moved(bs, denom, from, recipient, amount), c)
           == BalanceOf(bs, c) as int - (if c == Account(from, denom) then amount else 0)
              + (if c == Account(recipient, denom) then amount else 0)
    {
      MovedLaw(bs, denom, from, recipient, amount, c);
    }
  }

  /** An account without a record has nothing; a total adds up one balance after the other. */
  lemma TotalOf(bs: Balances, denom: Denom, owner: Address, owners: seq<Address>)
    ensures Account(owner, denom) in bs ==>
              Total(bs, denom, [owner] + owners) == bs[Account(owner, denom)] + Total(bs, denom, owners)
    ensures Account(owner, denom) !in bs ==> Total(bs, denom, [owner] + owners) == Total(bs, denom, owners)
    ensures Total(bs, denom, [owner]) == BalanceOf(bs, Account(owner, denom))
  {
    assert ([owner] + owners)[1..] == owners;
  }

  predicate Distinct(owners: seq<Address>) {
    forall i, j :: 0 <= i < j < |owners| ==> owners[i] != owners[j]
  }

  lemma {:induction false} TotalUpdate(bs: Balances, a: Account, v: nat, denom: Denom, owners: seq<Address>)
    requires Distinct(owners)
    ensures Total(bs[a := v], denom, owners)
         == Total(bs, denom, owners) + (if a.denom == denom && a.owner in owners then v - BalanceOf(bs, a) else 0)
  {
    if owners != [] {
      TotalUpdate(bs, a, v, denom, owners[1..]);
      assert owners == [owners[0]] + owners[1..];
    }
  }

  /** A transfer keeps the total of every denomination over any accounts that include both ends. */
  lemma TransferConserves(bs: Balances, denom: Denom, from: Address, recipient: Address, amount: nat, d: Denom,
                          owners: seq<Address>)
    requires amount <= BalanceOf(bs, Account(from, denom)) && Distinct(owners)
    requires from in owners && recipient in owners
    ensures Total(Moved(bs, denom, from, recipient, amount), d, owners) == Total(bs, d, owners)
  {
    hide Distinct, Total;
    var a, b := Account(from, denom), Account(recipient, denom);
    var bs' := bs[a := BalanceOf(bs, a) - amount];
    TotalUpdate(bs, a, BalanceOf(bs, a) - amount, d, owners);
    TotalUpdate(bs', b, BalanceOf(bs', b) + amount, d, owners);
  }

  datatype State = State(now: int, grants: Grants, balances: Balances)

  /** What can happen in a run, for any token and any accounts. Failed stands for a call that returned
      an error; a transferFrom refused by the bank has used up allowance all the same. */
  datatype Event =
    | Tick
    | Failed
    | Approved(owner: Address, spender: Address, denom: Denom, value: nat)
    | Increased(owner: Address, spender: Address, denom: Denom, added: nat)
    | Decreased(owner: Address, spender: Address, denom: Denom, subtracted: nat)
    | Sent(denom: Denom, from: Address, recipient: Address, amount: nat)
    | Spent(owner: Address, spender: Address, denom: Denom, recipient: Address, amount: nat)
    | Refused(owner: Address, spender: Address, denom: Denom, amount: nat)

  function Allowed(s: State, owner: Address, spender: Address, denom: Denom): int {
    AllowanceAt(s.grants, s.now, GrantKey(spender, owner), denom)
  }

  ghost predicate Sets(s: State, s': State, owner: Address, spender: Address, denom: Denom, v: int) {
    exists exp :: Writes(s.grants, s'.grants, s.now, GrantKey(spender, owner), denom, v, exp)
  }

  /** Approving nothing where there is no live grant leaves the store alone. */
  predicate NothingApproved(s: State, s': State, owner: Address, spender: Address, v: int) {
    v == 0 && GetAuthorization(s.grants, s.now, GrantKey(spender, owner)).None? && s'.grants == s.grants
  }

  predicate Moves(s: State, s': State, denom: Denom, from: Address, recipient: Address, amount: nat) {
    amount <= BalanceOf(s.balances, Account(from, denom)) && s'.balances == Moved(s.balances, denom, from, recipient, amount)
  }

  /** The effect each kind of call has; every method of class Precompile ensures the one of its event. */
  ghost predicate Effect(s: State, e: Event, s': State) {
    && s.now <= s'.now && (e.Tick? || s'.now == s.now)
    && match e
       case Tick => s'.grants == s.grants && s'.balances == s.balances
       case Failed => s' == s
       case Approved(o, p, d, v) => s'.balances == s.balances && (Sets(s, s', o, p, d, v) || NothingApproved(s, s', o, p, v))
       case Increased(o, p, d, v) => s'.balances == s.balances && Sets(s, s', o, p, d, Allowed(s, o, p, d) + v)
       case Decreased(o, p, d, v) =>
         s'.balances == s.balances && v <= Allowed(s, o, p, d) && Sets(s, s', o, p, d, Allowed(s, o, p, d) - v)
       case Sent(d, from, recipient, v) => s'.grants == s.grants && Moves(s, s', d, from, recipient, v)
       case Spent(o, p, d, recipient, v) =>
         v <= Allowed(s, o, p, d) && Sets(s, s', o, p, d, Allowed(s, o, p, d) - v) && Moves(s, s', d, o, recipient, v)
       case Refused(o, p, d, v) =>
         s'.balances == s.balances && v <= Allowed(s, o, p, d) && Sets(s, s', o, p, d, Allowed(s, o, p, d) - v)
  }

  ghost predicate IsRun(ss: seq<State>, es: seq<Event>) {
    |ss| == |es| + 1 && ValidGrants(ss[0].grants) && forall k :: 0 <= k < |es| ==> Effect(ss[k], es[k], ss[k + 1])
  }

  /** What an event spends of an allowance, and what it grants for it. */
  function SpentBy(e: Event, owner: Address, spender: Address, denom: Denom): nat {
    if e.Spent? && e.owner == owner && e.spender == spender && e.denom == denom then e.amount else 0
  }

  function GrantedBy(e: Event, owner: Address, spender: Address, denom: Denom): nat {
    match e
    case Approved(o, p, d, v) => if o == owner && p == spender && d == denom then v else 0
    case Increased(o, p, d, v) => if o == owner && p == spender && d == denom then v else 0
    case _ => 0
  }

  /** The sums over the first n events. */
  function TotalSpent(es: seq<Event>, n: nat, owner: Address, spender: Address, denom: Denom): nat
    requires n <= |es|
  {
    if n == 0 then 0 else TotalSpent(es, n - 1, owner, spender, denom) + SpentBy(es[n - 1], owner, spender, denom)
  }

  function TotalGranted(es: seq<Event>, n: nat, owner: Address, spender: Address, denom: Denom): nat
    requires n <= |es|
  {
    if n == 0 then 0 else TotalGranted(es, n - 1, owner, spender, denom) + GrantedBy(es[n - 1], owner, spender, denom)
  }

  /** Each spending and each grant of an allowance counts with its own amount, in the order of the run. */
  lemma EventsCount(es: seq<Event>, n: nat, o: Address, p: Address, d: Denom)
    requires n < |es|
    ensures TotalSpent(es, 0, o, p, d) == 0 && TotalGranted(es, 0, o, p, d) == 0
    ensures forall r, v :: es[n] == Spent(o, p, d, r, v) ==> TotalSpent(es, n + 1, o, p, d) == TotalSpent(es, n, o, p, d) + v
    ensures (forall r, v :: es[n] != Spent(o, p, d, r, v)) ==> TotalSpent(es, n + 1, o, p, d) == TotalSpent(es, n, o, p, d)
    ensures forall v :: es[n] == Approved(o, p, d, v) || es[n] == Increased(o, p, d, v)
                        ==> TotalGranted(es, n + 1, o, p, d) == TotalGranted(es, n, o, p, d) + v
    ensures (forall v :: es[n] != Approved(o, p, d, v) && es[n] != Increased(o, p, d, v))
            ==> TotalGranted(es, n + 1, o, p, d) == TotalGranted(es, n, o, p, d)
  {
    if es[n].Spent? && es[n].owner == o && es[n].spender == p && es[n].denom == d {
      assert es[n] == Spent(o, p, d, es[n].recipient, es[n].amount);
    }
    if es[n].Approved? && es[n].owner == o && es[n].spender == p && es[n].denom == d {
      assert es[n] == Approved(o, p, d, es[n].value);
    }
    if es[n].Increased? && es[n].owner == o && es[n].spender == p && es[n].denom == d {
      assert es[n] == Increased(o, p, d, es[n].added);
    }
  }

  /** What an event of a run does to every balance. */
  lemma EventMovesTokens(s: State, e: Event, s': State, a: Account)
    requires Effect(s, e, s')
    ensures match e
            case Sent(d, from, recipient, v) =>
              BalanceOf(s'.balances, a) == BalanceOf(s.balances, a) as int - (if a == Account(from, d) then v else 0)
                                           + (if a == Account(recipient, d) then v else 0)
            case Spent(owner, _, d, recipient, v) =>
              BalanceOf(s'.balances, a) == BalanceOf(s.balances, a) as int - (if a == Account(owner, d) then v else 0)
                                           + (if a == Account(recipient, d) then v else 0)
            case _ => s'.balances == s.balances
  {
    hide Sets, BalanceOf, Moved;
    if e.Sent? {
      MovedLaw(s.balances, e.denom, e.from, e.recipient, e.amount, a);
    } else if e.Spent? {
      MovedLaw(s.balances, e.denom, e.owner, e.recipient, e.amount, a);
    }
  }

  /** What an event of a run does to every allowance; only the passing of time does more than this. */
  lemma EventSetsAllowance(s: State, e: Event, s': State, owner: Address, spender: Address, denom: Denom)
    requires ValidGrants(s.grants) && Effect(s, e, s') && !e.Tick?
    ensures var before, after := Allowed(s, owner, spender, denom), Allowed(s', owner, spender, denom);
            match e
            case Approved(o, p, d, v) => after == if o == owner && p == spender && d == denom then v else before
            case Increased(o, p, d, v) => after == before + if o == owner && p == spender && d == denom then v else 0
            case Decreased(o, p, d, v) => after == before - if o == owner && p == spender && d == denom then v else 0
            case Spent(o, p, d, _, v) => after == before - if o == owner && p == spender && d == denom then v else 0
            case Refused(o, p, d, v) => after == before - if o == owner && p == spender && d == denom then v else 0
            case _ => after == before
  {
    var key := GrantKey(spender, owner);
    hide ValidGrants, Sets, Moves;
    match e
    case Approved(o, p, d, v) => if !NothingApproved(s, s', o, p, v) { SetsNow(s, s', o, p, d, v, key, denom); }
    case Increased(o, p, d, v) => SetsNow(s, s', o, p, d, Allowed(s, o, p, d) + v, key, denom);
    case Decreased(o, p, d, v) => SetsNow(s, s', o, p, d, Allowed(s, o, p, d) - v, key, denom);
    case Spent(o, p, d, _, v) => SetsNow(s, s', o, p, d, Allowed(s, o, p, d) - v, key, denom);
    case Refused(o, p, d, v) => SetsNow(s, s', o, p, d, Allowed(s, o, p, d) - v, key, denom);
    case _ =>
  }

  /** A write, seen through the allowances of the moment; it keeps stored limits valid. */
  lemma SetsNow(s: State, s': State, owner: Address, spender: Address, denom: Denom, v: int, k: GrantKey, d: Denom)
    requires ValidGrants(s.grants) && Sets(s, s', owner, spender, denom, v)
    ensures ValidGrants(s'.grants)
    ensures AllowanceAt(s'.grants, s.now, k, d)
         == if k == GrantKey(spender, owner) && d == denom then v else AllowanceAt(s.grants, s.now, k, d)
  {
    var exp :| Writes(s.grants, s'.grants, s.now, GrantKey(spender, owner), denom, v, exp);
    hide Writes, ValidGrants, AllowanceAt;
    WritesSets(s.grants, s'.grants, s.now, GrantKey(spender, owner), denom, v, exp);
  }

  /** As time passes an allowance stays or drops to zero. */
  lemma AllowanceDecays(gs: Grants, now: int, later: int, key: GrantKey, denom: Denom)
    requires ValidGrants(gs) && now <= later
    ensures 0 <= AllowanceAt(gs, later, key, denom) <= AllowanceAt(gs, now, key, denom)
  {
    AllowanceInRange(gs, now, key, denom);
  }

  /** One event keeps stored limits valid, and raises an allowance by no more than what it grants, less what
      it spends. */
  lemma EffectOnAllowance(s: State, e: Event, s': State, owner: Address, spender: Address, denom: Denom)
    requires ValidGrants(s.grants) && Effect(s, e, s')
    ensures ValidGrants(s'.grants)
    ensures Allowed(s', owner, spender, denom) + SpentBy(e, owner, spender, denom)
         <= Allowed(s, owner, spender, denom) + GrantedBy(e, owner, spender, denom)
  {
    var key := GrantKey(spender, owner);
    AllowanceDecays(s.grants, s.now, s'.now, key, denom);
    hide ValidGrants, AllowanceAt, Sets, Moves;
    match e
    case Approved(o, p, d, v) => if !NothingApproved(s, s', o, p, v) { SetsNow(s, s', o, p, d, v, key, denom); }
    case Increased(o, p, d, v) => SetsNow(s, s', o, p, d, Allowed(s, o, p, d) + v, key, denom);
    case Decreased(o, p, d, v) => SetsNow(s, s', o, p, d, Allowed(s, o, p, d) - v, key, denom);
    case Spent(o, p, d, _, v) => SetsNow(s, s', o, p, d, Allowed(s, o, p, d) - v, key, denom);
    case Refused(o, p, d, v) => SetsNow(s, s', o, p, d, Allowed(s, o, p, d) - v, key, denom);
    case _ =>
  }

  /** In every state of a run stored limits are sorted, positive, within 256 bits and not empty. */
  lemma {:induction false} RunKeepsGrantsValid(ss: seq<State>, es: seq<Event>, n: nat)
    requires IsRun(ss, es) && n < |ss|
    ensures ValidGrants(ss[n].grants)
  {
    hide ValidGrants;
    if n > 0 {
      RunKeepsGrantsValid(ss, es, n - 1);
      assert Effect(ss[n - 1], es[n - 1], ss[n]);
      hide Effect;
      EffectOnAllowance(ss[n - 1], es[n - 1], ss[n], 0, 0, []);
    }
  }

  /** Over any run, what a spender spent of an owner's tokens together with the allowance that remains
      never exceeds the allowance at the start and all that was approved and added since. */
  lemma {:induction false} SpendingIsBounded(ss: seq<State>, es: seq<Event>, n: nat, owner: Address,
                                             spender: Address, denom: Denom)
    requires IsRun(ss, es) && n < |ss|
    ensures TotalSpent(es, n, owner, spender, denom) + Allowed(ss[n], owner, spender, denom)
         <= Allowed(ss[0], owner, spender, denom) + TotalGranted(es, n, owner, spender, denom)
    ensures Allowed(ss[n], owner, spender, denom) >= 0
  {
    assert |es| + 1 == |ss|;
    NothingYet(es, owner, spender, denom);
    hide *;
    AllowanceIsNatural(ss, es, n, owner, spender, denom);
    if n > 0 {
      SpendingIsBounded(ss, es, n - 1, owner, spender, denom);
      OneEvent(ss, es, n - 1, owner, spender, denom);
      TotalsStep(es, n - 1, owner, spender, denom);
    }
  }

  lemma NothingYet(es: seq<Event>, owner: Address, spender: Address, denom: Denom)
    ensures TotalSpent(es, 0, owner, spender, denom) == 0 == TotalGranted(es, 0, owner, spender, denom)
  {}

  lemma TotalsStep(es: seq<Event>, n: nat, owner: Address, spender: Address, denom: Denom)
    requires n < |es|
    ensures TotalSpent(es, n + 1, owner, spender, denom) == TotalSpent(es, n, owner, spender, denom) + SpentBy(es[n], owner, spender, denom)
    ensures TotalGranted(es, n + 1, owner, spender, denom)
         == TotalGranted(es, n, owner, spender, denom) + GrantedBy(es[n], owner, spender, denom)
  {
    hide SpentBy, GrantedBy;
  }

  lemma AllowanceIsNatural(ss: seq<State>, es: seq<Event>, n: nat, owner: Address, spender: Address, denom: Denom)
    requires IsRun(ss, es) && n < |ss|
    ensures Allowed(ss[n], owner, spender, denom) >= 0
  {
    RunKeepsGrantsValid(ss, es, n);
    AllowanceInRange(ss[n].grants, ss[n].now, GrantKey(spender, owner), denom);
  }

  lemma OneEvent(ss: seq<State>, es: seq<Event>, k: nat, owner: Address, spender: Address, denom: Denom)
    requires IsRun(ss, es) && k < |es|
    ensures Allowed(ss[k + 1], owner, spender, denom) + SpentBy(es[k], owner, spender, denom)
         <= Allowed(ss[k], owner, spender, denom) + GrantedBy(es[k], owner, spender, denom)
  {
    RunKeepsGrantsValid(ss, es, k);
    assert Effect(ss[k], es[k], ss[k + 1]);
    EffectOnAllowance(ss[k], es[k], ss[k + 1], owner, spender, denom);
  }

  /** The accounts an event moves tokens between are among owners. */
  predicate Touches(e: Event, owners: seq<Address>) {
    match e
    case Sent(_, from, recipient, _) => from in owners && recipient in owners
    case Spent(o, _, _, recipient, _) => o in owners && recipient in owners
    case _ => true
  }

  /** Over any run the total of every denomination is constant. */
  lemma {:induction false} TotalsAreConstant(ss: seq<State>, es: seq<Event>, n: nat, denom: Denom, owners: seq<Address>)
    requires IsRun(ss, es) && n < |ss| && Distinct(owners)
    requires forall k :: 0 <= k < |es| ==> Touches(es[k], owners)
    ensures Total(ss[n].balances, denom, owners) == Total(ss[0].balances, denom, owners)
  {
    hide Total, Distinct, Moved;
    if n > 0 {
      TotalsAreConstant(ss, es, n - 1, denom, owners);
      var s, e := ss[n - 1], es[n - 1];
      assert Effect(s, e, ss[n]) && Touches(e, owners);
      if e.Sent? {
        TransferConserves(s.balances, e.denom, e.from, e.recipient, e.amount, denom, owners);
      } else if e.Spent? {
        TransferConserves(s.balances, e.denom, e.owner, e.recipient, e.amount, denom, owners);
      }
    }
  }
}
