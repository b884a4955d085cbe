/** Gas for signature verification: the mutual recursion over nested multisig keys, charging a meter whose
    counter is a uint64. */
module SigGas {
  import opened Bytes

  const SECP256K1_VERIFY_COST: int := 21000

  datatype PubKey = EthSecp256k1 | Ed25519 | Multisig(keys: seq<PubKey>) | OtherKey

  /** One bit for each key of the multisig, one signature for each bit that is set. */
  datatype SigData = Single | Multi(bits: seq<bool>, signatures: seq<SigData>)

  datatype Error = Ed25519Unsupported | UnknownPubKey | ExpectedMultisignature

  /** How a call ends: it returns nil or an error, or it panics. */
  datatype Outcome = Ok | Err(error: Error) | GasOverflow | IndexOutOfRange

  // ----- the meter -----

  const U64_MAX: int := 0xFFFF_FFFF_FFFF_FFFF

  /** addUint64Overflow */
  function AddUint64Overflow(a: uint64, b: uint64): (uint64, bool) {
    if U64_MAX - a < b then (0, true) else (a + b, false)
  }

  class Meter {
    var consumed: uint64
    const limit: uint64

    constructor (limit: uint64)
      ensures consumed == 0 && this.limit == limit
    {
      this.consumed, this.limit := 0, limit;
    }

    /** On overflow the counter is zero by the time of the panic. */
    method ConsumeGas(amount: uint64) returns (panicked: bool)
      modifies this
      ensures panicked <==> old(consumed) + amount > U64_MAX
      ensures consumed == if panicked then 0 else old(consumed) + amount
    {
      var (sum, overflow) := AddUint64Overflow(consumed, amount);
      consumed := sum;
      return overflow;
    }

    /** Refunding more than was consumed panics and changes nothing. */
    method RefundGas(amount: uint64) returns (panicked: bool)
      modifies this
      ensures panicked <==> old(consumed) < amount
      ensures consumed == if panicked then old(consumed) else old(consumed) - amount
    {
      if consumed < amount {
        return true;
      }
      consumed := consumed - amount;
      return false;
    }
  }

  // ----- what the recursion comes down to -----

  /** What the recursion does at a key that is no multisig, or where it can go no further. */
  datatype Leaf = EthLeaf | Ed25519Leaf | BadLeaf(error: Error) | MissingLeaf

  /** The positions of the bits that are set. */
  function SetBits(bits: seq<bool>): (r: seq<nat>)
    ensures |r| <= |bits| && forall j :: 0 <= j < |r| ==> r[j] < |bits| && bits[r[j]]
  {
    if bits == [] then []
    else
      var n := |bits| - 1;
      SetBits(bits[..n]) + if bits[n] then [n] else []
  }

  /** The leaves in the order the recursion gets to them. */
  function Leaves(key: PubKey, data: SigData): seq<Leaf>
    decreases key, 2
  {
    match key
    case EthSecp256k1 => [EthLeaf]
    case Ed25519 => [Ed25519Leaf]
    case OtherKey => [BadLeaf(UnknownPubKey)]
    case Multisig(_) => if data.Multi? then LeavesOf(key, data, |SetBits(data.bits)|) else [BadLeaf(ExpectedMultisignature)]
  }

  /** The leaves under the first n bits that are set. */
  function LeavesOf(key: PubKey, data: SigData, n: nat): seq<Leaf>
    requires key.Multisig? && data.Multi? && n <= |SetBits(data.bits)|
    decreases key, 1, n
  {
    if n == 0 then [] else LeavesOf(key, data, n - 1) + LeavesAt(key, data, n - 1)
  }

  /** Signature j belongs to the key at set bit j. */
  function LeavesAt(key: PubKey, data: SigData, j: nat): seq<Leaf>
    requires key.Multisig? && data.Multi? && j < |SetBits(data.bits)|
    decreases key, 0
  {
    var i := SetBits(data.bits)[j];
    if i < |key.keys| && j < |data.signatures| then Leaves(key.keys[i], data.signatures[j]) else [MissingLeaf]
  }

  /** A single pass over the leaves: the outcome and the counter afterwards. */
  function Charge(leaves: seq<Leaf>, consumed: uint64, ed25519Cost: uint64): (Outcome, uint64) {
    if leaves == [] then (Ok, consumed)
    else match leaves[0]
      case EthLeaf =>
        if consumed + SECP256K1_VERIFY_COST > U64_MAX then (GasOverflow, 0)
        else Charge(leaves[1..], consumed + SECP256K1_VERIFY_COST, ed25519Cost)
      case Ed25519Leaf =>
        if consumed + ed25519Cost > U64_MAX then (GasOverflow, 0) else (Err(Ed25519Unsupported), consumed + ed25519Cost)
      case BadLeaf(e) => (Err(e), consumed)
      case MissingLeaf => (IndexOutOfRange, consumed)
  }

  lemma {:induction false} ChargeConcat(a: seq<Leaf>, b: seq<Leaf>, consumed: uint64, cost: uint64)
    ensures var (r, c) := Charge(a, consumed, cost);
            Charge(a + b, consumed, cost) == if r == Ok then Charge(b, c, cost) else (r, c)
  {
    if a == [] {
      assert a + b == b;
    } else {
      assert (a + b)[1..] == a[1..] + b;
      if a[0].EthLeaf? && consumed + SECP256K1_VERIFY_COST <= U64_MAX {
        ChargeConcat(a[1..], b, consumed + SECP256K1_VERIFY_COST, cost);
      }
    }
  }

  lemma Associative(a: seq<Leaf>, b: seq<Leaf>, c: seq<Leaf>)
    ensures (a + b) + c == a + (b + c)
  {}

  lemma {:induction false} LeavesOfPrefix(key: PubKey, data: SigData, n: nat, m: nat) returns (rest: seq<Leaf>)
    requires key.Multisig? && data.Multi? && n <= m <= |SetBits(data.bits)|
    ensures LeavesOf(key, data, m) == LeavesOf(key, data, n) + rest
  {
    if n == m {
      rest := [];
    } else {
      assert LeavesOf(key, data, m) == LeavesOf(key, data, m - 1) + LeavesAt(key, data, m - 1);
      hide LeavesAt, LeavesOf, SetBits;
      rest := LeavesOfPrefix(key, data, n, m - 1);
      Associative(LeavesOf(key, data, n), rest, LeavesAt(key, data, m - 1));
      rest := rest + LeavesAt(key, data, m - 1);
    }
  }

  lemma {:induction false} SetBitsPrefix(bits: seq<bool>, i: nat)
    requires i <= |bits|
    ensures SetBits(bits[..i]) <= SetBits(bits)
  {
    if i < |bits| {
      var n := |bits| - 1;
      SetBitsPrefix(bits[..n], i);
      assert bits[..n][..i] == bits[..i];
    } else {
      assert bits[..i] == bits;
    }
  }

  lemma SetBitsStep(bits: seq<bool>, i: nat)
    requires i < |bits|
    ensures |SetBits(bits[..i + 1])| == |SetBits(bits[..i])| + (if bits[i] then 1 else 0) <= |SetBits(bits)|
    ensures bits[i] ==> |SetBits(bits[..i])| < |SetBits(bits)| && SetBits(bits)[|SetBits(bits[..i])|] == i
  {
    assert bits[..i + 1][..i] == bits[..i];
    SetBitsPrefix(bits, i + 1);
    if bits[i] {
      assert SetBits(bits[..i + 1])[|SetBits(bits[..i])|] == i;
    }
  }

  /** Every bit that is set is listed, in order. */
  lemma {:induction false} SetBitsAscend(bits: seq<bool>)
    ensures forall i :: 0 <= i < |bits| && bits[i] ==> i in SetBits(bits)
    ensures forall j, k :: 0 <= j < k < |SetBits(bits)| ==> SetBits(bits)[j] < SetBits(bits)[k]
  {
    if bits != [] {
      SetBitsAscend(bits[..|bits| - 1]);
    }
  }

  /** What one signature of a multisig adds to the pass: the whole pass ends where this one does not succeed. */
  lemma OneSignature(key: PubKey, data: SigData, n: nat, before: uint64, consumed: uint64, cost: uint64)
    requires key.Multisig? && data.Multi? && n < |SetBits(data.bits)|
    requires Charge(LeavesOf(key, data, n), before, cost) == (Ok, consumed)
    ensures var (r, c) := Charge(LeavesAt(key, data, n), consumed, cost);
            && (r == Ok ==> Charge(LeavesOf(key, data, n + 1), before, cost) == (r, c))
            && (r != Ok ==> Charge(LeavesOf(key, data, |SetBits(data.bits)|), before, cost) == (r, c))
    ensures var i := SetBits(data.bits)[n];
            if i < |key.keys| && n < |data.signatures| then LeavesAt(key, data, n) == Leaves(key.keys[i], data.signatures[n])
            else Charge(LeavesAt(key, data, n), consumed, cost) == (IndexOutOfRange, consumed)
  {
    assert LeavesOf(key, data, n + 1) == LeavesOf(key, data, n) + LeavesAt(key, data, n);
    assert Charge([MissingLeaf], consumed, cost) == (IndexOutOfRange, consumed);
    var rest := LeavesOfPrefix(key, data, n + 1, |SetBits(data.bits)|);
    hide Charge, LeavesOf, LeavesAt;
    ChargeConcat(LeavesOf(key, data, n), LeavesAt(key, data, n), before, cost);
    ChargeConcat(LeavesOf(key, data, n + 1), rest, before, cost);
  }

  // ----- app/ante/sigverify.go -----

  /** SigVerificationGasConsumer */
  method SigVerificationGasConsumer(meter: Meter, key: PubKey, data: SigData, ed25519Cost: uint64) returns (r: Outcome)
    modifies meter
    ensures (r, meter.consumed) == Charge(Leaves(key, data), old(meter.consumed), ed25519Cost)
    ensures key == EthSecp256k1 ==>
              (r, meter.consumed) == if old(meter.consumed) + 21000 > U64_MAX then (GasOverflow, 0)
                                     else (Ok, old(meter.consumed) + 21000)
    ensures key == Ed25519 ==>
              (r, meter.consumed) == if old(meter.consumed) + ed25519Cost > U64_MAX then (GasOverflow, 0)
                                     else (Err(Ed25519Unsupported), old(meter.consumed) + ed25519Cost)
    ensures key == OtherKey ==> r == Err(UnknownPubKey) && meter.consumed == old(meter.consumed)
    ensures key.Multisig? && data == Single ==> r == Err(ExpectedMultisignature) && meter.consumed == old(meter.consumed)
    decreases key, 1
  {
    match key
    case EthSecp256k1 =>
      var panicked := meter.ConsumeGas(SECP256K1_VERIFY_COST);
      return if panicked then GasOverflow else Ok;
    case Ed25519 =>
      var panicked := meter.ConsumeGas(ed25519Cost);
      return if panicked then GasOverflow else Err(Ed25519Unsupported);
    case Multisig(_) =>
      if !data.Multi? {
        return Err(ExpectedMultisignature);
      }
      r := ConsumeMultisignatureVerificationGas(meter, data, key, ed25519Cost);
    case OtherKey =>
      return Err(UnknownPubKey);
  }

  /** ConsumeMultisignatureVerificationGas */
  method ConsumeMultisignatureVerificationGas(meter: Meter, sig: SigData, pubkey: PubKey, ed25519Cost: uint64)
    returns (r: Outcome)
    requires sig.Multi? && pubkey.Multisig?
    modifies meter
    ensures (r, meter.consumed) == Charge(LeavesOf(pubkey, sig, |SetBits(sig.bits)|), old(meter.consumed), ed25519Cost)
    decreases pubkey, 0
  {
    var size := |sig.bits|;
    var sigIndex := 0;
    ghost var before, all := meter.consumed, |SetBits(sig.bits)|;
    assert SetBits(sig.bits[..0]) == [];
    assert Charge([], before, ed25519Cost) == (Ok, before);
    assert LeavesOf(pubkey, sig, 0) == [];
    hide Charge, LeavesOf, LeavesAt, Leaves, SetBits;
    for i := 0 to size
      invariant sigIndex == |SetBits(sig.bits[..i])| <= all
      invariant Charge(LeavesOf(pubkey, sig, sigIndex), before, ed25519Cost) == (Ok, meter.consumed)
    {
      SetBitsStep(sig.bits, i);
      if !sig.bits[i] {
        continue;
      }
      OneSignature(pubkey, sig, sigIndex, before, meter.consumed, ed25519Cost);
      if i >= |pubkey.keys| || sigIndex >= |sig.signatures| {
        return IndexOutOfRange;
      }
      var err := SigVerificationGasConsumer(meter, pubkey.keys[i], sig.signatures[sigIndex], ed25519Cost);
      if err != Ok {
        return err;
      }
      sigIndex := sigIndex + 1;
    }
    assert sig.bits[..size] == sig.bits;
    return Ok;
  }

  // ----- key by key, and bit by bit -----

  /** The pass for each kind of key that is no multisig, and for a multisig key without a multisignature. */
  lemma ChargeByKind(keys: seq<PubKey>, data: SigData, consumed: uint64, cost: uint64)
    ensures Charge(Leaves(EthSecp256k1, data), consumed, cost)
         == if consumed + 21000 > 0xFFFF_FFFF_FFFF_FFFF then (GasOverflow, 0) else (Ok, consumed + 21000)
    ensures Charge(Leaves(Ed25519, data), consumed, cost)
         == if consumed + cost > 0xFFFF_FFFF_FFFF_FFFF then (GasOverflow, 0) else (Err(Ed25519Unsupported), consumed + cost)
    ensures Charge(Leaves(OtherKey, data), consumed, cost) == (Err(UnknownPubKey), consumed)
    ensures Charge(Leaves(Multisig(keys), Single), consumed, cost) == (Err(ExpectedMultisignature), consumed)
  {}

  lemma {:induction false} SetBitsCount(bits: seq<bool>)
    ensures |SetBits(bits)| == multiset(bits)[true]
  {
    if bits != [] {
      SetBitsCount(bits[..|bits| - 1]);
      assert bits == bits[..|bits| - 1] + [bits[|bits| - 1]];
    }
  }

  lemma SetBitsAppend(bits: seq<bool>, b: bool)
    ensures SetBits(bits + [b]) == SetBits(bits) + if b then [|bits|] else []
  {
    assert (bits + [b])[..|bits|] == bits;
  }

  lemma {:induction false} LeavesOfMoreBits(keys: seq<PubKey>, bits: seq<bool>, b: bool, sigs: seq<SigData>, n: nat)
    requires n <= |SetBits(bits)|
    ensures |SetBits(bits)| <= |SetBits(bits + [b])|
    ensures LeavesOf(Multisig(keys), Multi(bits + [b], sigs), n) == LeavesOf(Multisig(keys), Multi(bits, sigs), n)
  {
    SetBitsAppend(bits, b);
    hide SetBits;
    if n > 0 {
      LeavesOfMoreBits(keys, bits, b, sigs, n - 1);
    }
  }

  /** The pass of a multisig bit by bit: without bits nothing is charged; a bit that is not set changes nothing; a bit
      that is set, if all went well before, goes on with the key of its position and the next signature, or is out of
      range when one of them is missing. */
  lemma ChargeByBit(keys: seq<PubKey>, bits: seq<bool>, sigs: seq<SigData>, consumed: uint64, cost: uint64)
    ensures Charge(Leaves(Multisig(keys), Multi([], sigs)), consumed, cost) == (Ok, consumed)
    ensures Charge(Leaves(Multisig(keys), Multi(bits + [false], sigs)), consumed, cost)
         == Charge(Leaves(Multisig(keys), Multi(bits, sigs)), consumed, cost)
    ensures var (r, c) := Charge(Leaves(Multisig(keys), Multi(bits, sigs)), consumed, cost);
            var next := multiset(bits)[true];
            Charge(Leaves(Multisig(keys), Multi(bits + [true], sigs)), consumed, cost)
            == if r != Ok then (r, c)
               else if |bits| < |keys| && next < |sigs| then Charge(Leaves(keys[|bits|], sigs[next]), c, cost)
               else (IndexOutOfRange, c)
  {
    NothingToCharge(consumed, cost);
    assert SetBits([]) == [] && LeavesOf(Multisig(keys), Multi([], sigs), 0) == [];
    ChargeUnsetBit(keys, bits, sigs);
    ChargeSetBit(keys, bits, sigs, consumed, cost);
    hide Charge, LeavesOf, LeavesAt;
  }

  lemma ChargeUnsetBit(keys: seq<PubKey>, bits: seq<bool>, sigs: seq<SigData>)
    ensures Leaves(Multisig(keys), Multi(bits + [false], sigs)) == Leaves(Multisig(keys), Multi(bits, sigs))
  {
    SetBitsAppend(bits, false);
    LeavesOfMoreBits(keys, bits, false, sigs, |SetBits(bits)|);
    hide SetBits, LeavesOf;
  }

  lemma ChargeSetBit(keys: seq<PubKey>, bits: seq<bool>, sigs: seq<SigData>, consumed: uint64, cost: uint64)
    ensures var (r, c) := Charge(Leaves(Multisig(keys), Multi(bits, sigs)), consumed, cost);
            var next := multiset(bits)[true];
            Charge(Leaves(Multisig(keys), Multi(bits + [true], sigs)), consumed, cost)
            == if r != Ok then (r, c)
               else if |bits| < |keys| && next < |sigs| then Charge(Leaves(keys[|bits|], sigs[next]), c, cost)
               else (IndexOutOfRange, c)
  {
    var key, n, all := Multisig(keys), |SetBits(bits)|, Multi(bits + [true], sigs);
    SetBitsAppend(bits, true);
    SetBitsCount(bits);
    LeavesOfMoreBits(keys, bits, true, sigs, n);
    assert Leaves(key, all) == LeavesOf(key, all, n) + LeavesAt(key, all, n);
    MissingIsOutOfRange(Charge(Leaves(key, Multi(bits, sigs)), consumed, cost).1, cost);
    hide Charge, SetBits, LeavesOf;
    ChargeConcat(LeavesOf(key, all, n), LeavesAt(key, all, n), consumed, cost);
  }

  lemma MissingIsOutOfRange(consumed: uint64, cost: uint64)
    ensures Charge([MissingLeaf], consumed, cost) == (IndexOutOfRange, consumed)
  {}

  lemma NothingToCharge(consumed: uint64, cost: uint64)
    ensures Charge([], consumed, cost) == (Ok, consumed)
  {}

  // ----- what is charged -----

  /** One key for each bit and one signature for each set bit, at every level. */
  predicate WellFormed(key: PubKey, data: SigData)
    decreases key
  {
    key.Multisig? && data.Multi? ==>
      && |data.bits| == |key.keys| && |data.signatures| == |SetBits(data.bits)|
      && forall j :: 0 <= j < |data.signatures| ==> WellFormed(key.keys[SetBits(data.bits)[j]], data.signatures[j])
  }

  /** Ethereum keys only, at the leaves under set bits. */
  predicate OnlyEthKeys(key: PubKey, data: SigData)
    decreases key
  {
    match key
    case EthSecp256k1 => true
    case Multisig(keys) =>
      data.Multi? && forall j :: 0 <= j < |data.signatures| && j < |SetBits(data.bits)| && SetBits(data.bits)[j] < |keys| ==>
        OnlyEthKeys(keys[SetBits(data.bits)[j]], data.signatures[j])
    case _ => false
  }

  /** How many ethereum keys there are at the leaves under set bits. */
  function EthKeys(key: PubKey, data: SigData): nat
    requires WellFormed(key, data)
    decreases key
  {
    match key
    case EthSecp256k1 => 1
    case Multisig(_) => if data.Multi? then EthKeysOf(key, data, |data.signatures|) else 0
    case _ => 0
  }

  function EthKeysOf(key: PubKey, data: SigData, n: nat): nat
    requires key.Multisig? && data.Multi? && WellFormed(key, data) && n <= |data.signatures|
    decreases key, n
  {
    if n == 0 then 0
    else EthKeysOf(key, data, n - 1) + EthKeys(key.keys[SetBits(data.bits)[n - 1]], data.signatures[n - 1])
  }

  function EthLeaves(leaves: seq<Leaf>): nat {
    if leaves == [] then 0 else EthLeaves(leaves[..|leaves| - 1]) + if leaves[|leaves| - 1].EthLeaf? then 1 else 0
  }

  lemma {:induction false} EthLeavesConcat(a: seq<Leaf>, b: seq<Leaf>)
    ensures EthLeaves(a + b) == EthLeaves(a) + EthLeaves(b)
  {
    if b == [] {
      assert a + b == a;
    } else {
      EthLeavesConcat(a, b[..|b| - 1]);
      assert (a + b)[..|a + b| - 1] == a + b[..|b| - 1];
    }
  }

  /** A well-formed multisig has a leaf for each key it gets to, and none is missing. */
  lemma {:induction false} WellFormedLeaves(key: PubKey, data: SigData)
    requires WellFormed(key, data)
    ensures MissingLeaf !in Leaves(key, data)
    ensures EthLeaves(Leaves(key, data)) == EthKeys(key, data)
    ensures OnlyEthKeys(key, data) ==> forall l :: l in Leaves(key, data) ==> l == EthLeaf
    decreases key, 1
  {
    match key
    case Multisig(_) => if data.Multi? { WellFormedLeavesOf(key, data, |data.signatures|); }
    case _ =>
  }

  lemma {:induction false} WellFormedLeavesOf(key: PubKey, data: SigData, n: nat)
    requires key.Multisig? && data.Multi? && WellFormed(key, data) && n <= |data.signatures|
    ensures MissingLeaf !in LeavesOf(key, data, n)
    ensures EthLeaves(LeavesOf(key, data, n)) == EthKeysOf(key, data, n)
    ensures OnlyEthKeys(key, data) ==> forall l :: l in LeavesOf(key, data, n) ==> l == EthLeaf
    decreases key, 0, n
  {
    if n > 0 {
      var sub, sig := key.keys[SetBits(data.bits)[n - 1]], data.signatures[n - 1];
      WellFormedLeavesOf(key, data, n - 1);
      WellFormedLeaves(sub, sig);
      EthLeavesConcat(LeavesOf(key, data, n - 1), Leaves(sub, sig));
    }
  }

  /** How many ethereum leaves come before anything else. */
  function EthPrefix(leaves: seq<Leaf>): (n: nat)
    ensures n <= |leaves| && (n < |leaves| ==> !leaves[n].EthLeaf?)
    ensures forall i :: 0 <= i < n ==> leaves[i] == EthLeaf
  {
    if leaves == [] || !leaves[0].EthLeaf? then 0 else 1 + EthPrefix(leaves[1..])
  }

  /** The pass in closed form: 21000 for each ethereum key before the first leaf of another kind, and
      whatever that leaf brings about. */
  lemma {:induction false} ChargeClosed(leaves: seq<Leaf>, consumed: uint64, cost: uint64)
    ensures var n := EthPrefix(leaves);
            var total := consumed + SECP256K1_VERIFY_COST * n;
            Charge(leaves, consumed, cost)
            == if total > U64_MAX then (GasOverflow, 0)
               else if n == |leaves| then (Ok, total)
               else match leaves[n]
                 case BadLeaf(e) => (Err(e), total)
                 case MissingLeaf => (IndexOutOfRange, total)
                 case _ => if total + cost > U64_MAX then (GasOverflow, 0) else (Err(Ed25519Unsupported), total + cost)
  {
    if leaves != [] && leaves[0].EthLeaf? && consumed + SECP256K1_VERIFY_COST <= U64_MAX {
      ChargeClosed(leaves[1..], consumed + SECP256K1_VERIFY_COST, cost);
    }
  }

  lemma {:induction false} AllEthLeaves(leaves: seq<Leaf>)
    requires forall i :: 0 <= i < |leaves| ==> leaves[i] == EthLeaf
    ensures EthLeaves(leaves) == EthPrefix(leaves) == |leaves|
  {
    if leaves != [] {
      AllEthLeaves(leaves[..|leaves| - 1]);
    }
  }

  /** For a well-formed multisig of any depth over ethereum keys: it succeeds exactly when the counter does
      not overflow, and then has charged 21000 for each key under a set bit. */
  lemma MultisigCharge(key: PubKey, data: SigData, consumed: uint64, cost: uint64)
    requires WellFormed(key, data) && OnlyEthKeys(key, data)
    ensures var total := consumed + SECP256K1_VERIFY_COST * EthKeys(key, data);
            Charge(Leaves(key, data), consumed, cost) == if total > U64_MAX then (GasOverflow, 0) else (Ok, total)
  {
    WellFormedLeaves(key, data);
    var leaves := Leaves(key, data);
    assert forall i :: 0 <= i < |leaves| ==> leaves[i] in leaves;
    AllEthLeaves(leaves);
    ChargeClosed(Leaves(key, data), consumed, cost);
  }

  /** In particular, a multisig over ethereum keys with a bit for each key and a signature for each bit that is set pays
      for its signatures. */
  lemma FlatMultisigCharge(keys: seq<PubKey>, bits: seq<bool>, sigs: seq<SigData>, consumed: uint64, cost: uint64)
    requires |bits| == |keys| && |sigs| == multiset(bits)[true] && forall i :: 0 <= i < |keys| ==> keys[i] == EthSecp256k1
    ensures Charge(Leaves(Multisig(keys), Multi(bits, sigs)), consumed, cost)
         == if consumed + 21000 * |sigs| > 0xFFFF_FFFF_FFFF_FFFF then (GasOverflow, 0) else (Ok, consumed + 21000 * |sigs|)
  {
    var key, data := Multisig(keys), Multi(bits, sigs);
    SetBitsCount(bits);
    hide Charge, Leaves;
    FlatKeys(key, data, |sigs|);
    MultisigCharge(key, data, consumed, cost);
  }

  lemma {:induction false} FlatKeys(key: PubKey, data: SigData, n: nat)
    requires key.Multisig? && data.Multi? && WellFormed(key, data) && n <= |data.signatures|
    requires forall i :: 0 <= i < |key.keys| ==> key.keys[i] == EthSecp256k1
    ensures EthKeysOf(key, data, n) == n
  {
    if n > 0 {
      FlatKeys(key, data, n - 1);
    }
  }

  /** A well-formed multisig of whatever keys is never indexed out of range. On success all its leaves are
      ethereum keys and paid for. On an error exactly the n ethereum keys before the offending leaf were paid
      for, and that leaf as well if it is an ed25519 key. */
  lemma WellFormedCharge(key: PubKey, data: SigData, consumed: uint64, cost: uint64)
    requires WellFormed(key, data)
    ensures var leaves := Leaves(key, data);
            var (r, c), n := Charge(leaves, consumed, cost), EthPrefix(leaves);
            && r != IndexOutOfRange
            && (r == Ok ==> OnlyEthLeaves(key, data) && c == consumed + SECP256K1_VERIFY_COST * EthKeys(key, data))
            && (r.Err? ==>
                  && n < |leaves| && n <= EthKeys(key, data)
                  && c == consumed + SECP256K1_VERIFY_COST * n + if leaves[n].Ed25519Leaf? then cost else 0)
  {
    var leaves := Leaves(key, data);
    WellFormedLeaves(key, data);
    ChargeClosed(leaves, consumed, cost);
    EthPrefixAtMost(leaves);
    hide Leaves, EthKeys, EthLeaves, Charge, WellFormed;
    var n := EthPrefix(leaves);
    if n < |leaves| { assert leaves[n] in leaves; }
  }

  lemma {:induction false} EthPrefixAtMost(leaves: seq<Leaf>)
    ensures EthPrefix(leaves) <= EthLeaves(leaves)
    ensures EthPrefix(leaves) == |leaves| ==> EthLeaves(leaves) == |leaves|
  {
    if leaves != [] && leaves[0].EthLeaf? {
      EthPrefixAtMost(leaves[1..]);
      EthLeavesConcat([EthLeaf], leaves[1..]);
      assert leaves == [EthLeaf] + leaves[1..];
      assert [EthLeaf][..0] == [] && EthLeaves([EthLeaf]) == 1;
    }
  }

  ghost predicate OnlyEthLeaves(key: PubKey, data: SigData) { forall l :: l in Leaves(key, data) ==> l == EthLeaf }
}
