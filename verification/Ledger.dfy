/** Balances stored as big-endian 64-bit numbers under prefixed keys, and the transfer action. An address is its printed
    form, which is what the key is built from. */
module Ledger {
  import opened Bytes
  import opened Views

  type Address = bytes

  const BALANCE_PREFIX: byte := 0
  const MAX_MEMO_SIZE := 256

  datatype Error = ValueZero | MemoTooLarge | InsufficientBalance | CorruptBalance | Overflow

  datatype Result<+T> = Ok(value: T) | Err(error: Error)

  datatype Transfer = Transfer(to: Address, value: uint64, memo: bytes)

  datatype Receipt = Receipt(senderBalance: uint64, receiverBalance: uint64)

  function BalanceKey(a: Address): bytes {
    [BALANCE_PREFIX] + a
  }

  lemma BalanceKeyIsInjective(a: Address, b: Address)
    requires BalanceKey(a) == BalanceKey(b)
    ensures a == b
  {
    assert BalanceKey(a)[1..] == a && BalanceKey(b)[1..] == b;
  }

  // ---- the operations as functions of the state ----

  function Balance(st: View, a: Address): Result<uint64> {
    var k := BalanceKey(a);
    if k !in st then Ok(0)
    else if |st[k]| < 8 then Err(CorruptBalance)
    else Ok(Uint64(st[k]))
  }

  function Debited(st: View, a: Address, amount: uint64): (View, Result<uint64>) {
    match Balance(st, a)
    case Err(e) => (st, Err(e))
    case Ok(b) =>
      if b < amount then (st, Err(InsufficientBalance))
      else if b == amount then (st - {BalanceKey(a)}, Ok(0))
      else (st[BalanceKey(a) := PutUint64(b - amount)], Ok(b - amount))
  }

  function Credited(st: View, a: Address, amount: uint64): (View, Result<uint64>) {
    match Balance(st, a)
    case Err(e) => (st, Err(e))
    case Ok(b) =>
      var sum := (b + amount) % TWO64;
      if sum < b then (st, Err(Overflow)) else (st[BalanceKey(a) := PutUint64(sum)], Ok(sum))
  }

  function Transferred(st: View, actor: Address, t: Transfer): (View, Result<Receipt>) {
    if t.value == 0 then (st, Err(ValueZero))
    else if |t.memo| > MAX_MEMO_SIZE then (st, Err(MemoTooLarge))
    else
      var (st', sender) := Debited(st, actor, t.value);
      if sender.Err? then (st', Err(sender.error))
      else
        var (st'', receiver) := Credited(st', t.to, t.value);
        if receiver.Err? then (st'', Err(receiver.error)) else (st'', Ok(Receipt(sender.value, receiver.value)))
  }

  // ---- the operations on mutable state ----

  method GetBalance(mu: Mutable, a: Address) returns (r: Result<uint64>)
    ensures r == Balance(mu.kv, a)
    ensures BalanceKey(a) !in mu.kv ==> r == Ok(0)
    ensures BalanceKey(a) in mu.kv && |mu.kv[BalanceKey(a)]| < 8 ==> r == Err(CorruptBalance)
    ensures BalanceKey(a) in mu.kv && |mu.kv[BalanceKey(a)]| >= 8 ==>
              r == Ok(FromBigEndian(mu.kv[BalanceKey(a)][..8]))
  {
    if BalanceKey(a) !in mu.kv {
      return Ok(0);
    }
    var val := mu.kv[BalanceKey(a)];
    if |val| < 8 {
      return Err(CorruptBalance);
    }
    return Ok(Uint64(val));
  }

  method SetBalance(mu: Mutable, a: Address, balance: uint64)
    modifies mu
    ensures mu.kv == old(mu.kv)[BalanceKey(a) := PutUint64(balance)]
    ensures Balance(mu.kv, a) == Ok(balance)
  {
    mu.kv := mu.kv[BalanceKey(a) := PutUint64(balance)];
  }

  method SubBalance(mu: Mutable, a: Address, amount: uint64) returns (r: Result<uint64>)
    modifies mu
    ensures (mu.kv, r) == Debited(old(mu.kv), a, amount)
  {
    var b := GetBalance(mu, a);
    if b.Err? {
      return b;
    }
    if b.value < amount {
      return Err(InsufficientBalance);
    }
    var left: uint64 := b.value - amount;
    if left == 0 {
      mu.kv := mu.kv - {BalanceKey(a)};
      return Ok(0);
    }
    SetBalance(mu, a, left);
    return Ok(left);
  }

  method AddBalance(mu: Mutable, a: Address, amount: uint64) returns (r: Result<uint64>)
    modifies mu
    ensures (mu.kv, r) == Credited(old(mu.kv), a, amount)
  {
    var b := GetBalance(mu, a);
    if b.Err? {
      return b;
    }
    var sum: uint64 := (b.value + amount) % TWO64;
    if sum < b.value {
      return Err(Overflow);
    }
    SetBalance(mu, a, sum);
    return Ok(sum);
  }

  method ExecuteTransfer(mu: Mutable, actor: Address, t: Transfer) returns (r: Result<Receipt>)
    modifies mu
    ensures (mu.kv, r) == Transferred(old(mu.kv), actor, t)
  {
    if t.value == 0 {
      return Err(ValueZero);
    }
    if |t.memo| > MAX_MEMO_SIZE {
      return Err(MemoTooLarge);
    }
    var sender := SubBalance(mu, actor, t.value);
    if sender.Err? {
      return Err(sender.error);
    }
    var receiver := AddBalance(mu, t.to, t.value);
    if receiver.Err? {
      return Err(receiver.error);
    }
    return Ok(Receipt(sender.value, receiver.value));
  }

  // ---- what a transfer does to the balances ----

  /** The account has no entry, or one that decodes. */
  predicate Readable(st: View, a: Address) {
    Balance(st, a).Ok?
  }

  /** What an account decodes to; an unreadable entry holds nothing that could be moved. */
  function Held(st: View, a: Address): uint64 {
    var b := Balance(st, a);
    if b.Ok? then b.value else 0
  }

  /** Every stored balance is readable and none is zero. */
  ghost predicate WellFormed(st: View) {
    forall a :: BalanceKey(a) in st ==> EntryOk(st, a)
  }

  ghost predicate EntryOk(st: View, a: Address)
    requires BalanceKey(a) in st
  {
    |st[BalanceKey(a)]| >= 8 && Uint64(st[BalanceKey(a)]) > 0
  }

  ghost predicate SameElsewhere(st: View, st': View, a: Address) {
    forall k :: k != BalanceKey(a) ==> Lookup(st', k) == Lookup(st, k)
  }

  lemma ElsewhereWellFormed(st: View, st': View, a: Address)
    requires WellFormed(st) && SameElsewhere(st, st', a) && (BalanceKey(a) in st' ==> EntryOk(st', a))
    ensures WellFormed(st')
  {
    forall b | BalanceKey(b) in st' ensures EntryOk(st', b) {
      if BalanceKey(b) != BalanceKey(a) {
        assert Lookup(st', BalanceKey(b)) == Lookup(st, BalanceKey(b));
        assert EntryOk(st, b);
      }
    }
  }

  predicate Covers(st: View, a: Address, amount: uint64) {
    Readable(st, a) && Held(st, a) >= amount
  }

  predicate Fits(st: View, a: Address, amount: uint64) {
    Readable(st, a) && Held(st, a) + amount < TWO64
  }

  /** A debit lowers one readable, covering balance, removing it at zero; otherwise it fails without effect. */
  lemma DebitEffect(st: View, a: Address, amount: uint64)
    ensures var (st', r) := Debited(st, a, amount);
            && SameElsewhere(st, st', a) && (Readable(st', a) <==> Readable(st, a))
            && (Covers(st, a, amount) ==> r == Ok(Held(st, a) - amount) && Held(st', a) == Held(st, a) - amount)
            && (Covers(st, a, amount) && Held(st, a) == amount ==> BalanceKey(a) !in st')
            && (!Covers(st, a, amount) ==> st' == st && r.Err?)
  {
  }

  lemma DebitKeepsWellFormed(st: View, a: Address, amount: uint64)
    requires WellFormed(st)
    ensures WellFormed(Debited(st, a, amount).0)
  {
    DebitEffect(st, a, amount);
    assert BalanceKey(a) in st ==> EntryOk(st, a);
    ElsewhereWellFormed(st, Debited(st, a, amount).0, a);
  }

  /** The wrap-around check of Go's addition detects exactly the sums beyond 64 bits. */
  lemma WrapsExactly(b: uint64, amount: uint64)
    ensures (b + amount) % TWO64 == if b + amount < TWO64 then b + amount else b + amount - TWO64
    ensures (b + amount) % TWO64 < b <==> b + amount >= TWO64
  {
  }

  /** A credit raises one readable balance that stays within 64 bits; otherwise it fails without effect. */
  lemma CreditEffect(st: View, a: Address, amount: uint64)
    ensures var (st', r) := Credited(st, a, amount);
            && SameElsewhere(st, st', a) && (Readable(st', a) <==> Readable(st, a))
            && (Fits(st, a, amount) ==> r == Ok(Held(st, a) + amount) && Held(st', a) == Held(st, a) + amount)
            && (!Fits(st, a, amount) ==> st' == st && r == Err(if Readable(st, a) then Overflow else CorruptBalance))
  {
    WrapsExactly(Held(st, a), amount);
  }

  lemma CreditKeepsWellFormed(st: View, a: Address, amount: uint64)
    requires WellFormed(st) && amount > 0
    ensures WellFormed(Credited(st, a, amount).0)
  {
    WrapsExactly(Held(st, a), amount);
    CreditEffect(st, a, amount);
    assert BalanceKey(a) in st ==> EntryOk(st, a);
    ElsewhereWellFormed(st, Credited(st, a, amount).0, a);
  }

  lemma HeldElsewhere(st: View, st': View, a: Address, b: Address)
    requires SameElsewhere(st, st', a) && a != b
    ensures Balance(st', b) == Balance(st, b)
  {
    if BalanceKey(a) == BalanceKey(b) { BalanceKeyIsInjective(a, b); }
    assert Lookup(st', BalanceKey(b)) == Lookup(st, BalanceKey(b));
  }

  /** The balance of an account after a completed transfer, by account alone. */
  function Expected(st: View, actor: Address, t: Transfer, a: Address): int {
    Held(st, a) - (if a == actor then t.value else 0) + (if a == t.to then t.value else 0)
  }

  /** The sender's side is in order. */
  predicate Charged(st: View, actor: Address, t: Transfer) {
    t.value > 0 && |t.memo| <= MAX_MEMO_SIZE && Covers(st, actor, t.value)
  }

  predicate Permitted(st: View, actor: Address, t: Transfer) {
    Charged(st, actor, t) && (actor == t.to || Fits(st, t.to, t.value))
  }

  /** The sender is charged for a credit that then fails. */
  predicate Burns(st: View, actor: Address, t: Transfer) {
    Charged(st, actor, t) && actor != t.to && !Fits(st, t.to, t.value)
  }

  lemma ChargedEffect(st: View, actor: Address, t: Transfer) returns (mid: View)
    requires Charged(st, actor, t)
    ensures mid == Debited(st, actor, t.value).0 && SameElsewhere(st, mid, actor)
    ensures Readable(mid, actor) && Held(mid, actor) == Held(st, actor) - t.value
    ensures Fits(mid, t.to, t.value) <==> actor == t.to || Fits(st, t.to, t.value)
    ensures Readable(mid, t.to) <==> Readable(st, t.to)
    ensures Transferred(st, actor, t).0 == Credited(mid, t.to, t.value).0
  {
    mid := Debited(st, actor, t.value).0;
    DebitEffect(st, actor, t.value);
    if actor != t.to { HeldElsewhere(st, mid, actor, t.to); }
  }

  /** On every state: a transfer completes exactly when it is permitted, with the balances it reports; a burning one
      fails after the debit; any other leaves the state alone. Stored balances stay non-zero throughout. */
  lemma TransferExactly(st: View, actor: Address, t: Transfer)
    ensures var (st', r) := Transferred(st, actor, t);
            && (r.Ok? <==> Permitted(st, actor, t))
            && (r.Ok? ==> r.value == Receipt(Held(st, actor) - t.value, Held(st', t.to)))
            && (Burns(st, actor, t) ==> st' == Debited(st, actor, t.value).0
                                        && r == Err(if Readable(st, t.to) then Overflow else CorruptBalance))
            && (!Charged(st, actor, t) ==> st' == st && r.Err?)
            && (r == Err(ValueZero) <==> t.value == 0)
            && (r == Err(MemoTooLarge) <==> t.value > 0 && |t.memo| > 256)
            && (r == Err(InsufficientBalance) <==>
                t.value > 0 && |t.memo| <= MAX_MEMO_SIZE && Readable(st, actor) && Held(st, actor) < t.value)
            && (r == Err(CorruptBalance) <==>
                t.value > 0 && |t.memo| <= MAX_MEMO_SIZE &&
                (!Readable(st, actor) || (Held(st, actor) >= t.value && !Readable(st, t.to))))
            && (WellFormed(st) ==> WellFormed(st'))
  {
    if Charged(st, actor, t) {
      var mid := ChargedEffect(st, actor, t);
      DebitEffect(st, actor, t.value);
      CreditEffect(mid, t.to, t.value);
      if WellFormed(st) {
        DebitKeepsWellFormed(st, actor, t.value);
        CreditKeepsWellFormed(mid, t.to, t.value);
      }
    }
  }

  /** A completed transfer moves exactly the value, self-transfers included, and touches no other account. */
  lemma TransferMoves(st: View, actor: Address, t: Transfer, a: Address)
    requires Permitted(st, actor, t)
    ensures Held(Transferred(st, actor, t).0, a) == Expected(st, actor, t, a)
  {
    var mid := ChargedEffect(st, actor, t);
    CreditEffect(mid, t.to, t.value);
    if actor != a { HeldElsewhere(st, mid, actor, a); }
    if actor != t.to { HeldElsewhere(st, mid, actor, t.to); }
    if t.to != a { HeldElsewhere(mid, Transferred(st, actor, t).0, t.to, a); }
  }

  /** No transfer makes an account readable or unreadable. */
  lemma ReadabilityIsKept(st: View, actor: Address, t: Transfer, a: Address)
    ensures Readable(Transferred(st, actor, t).0, a) <==> Readable(st, a)
  {
    TransferExactly(st, actor, t);
    if Charged(st, actor, t) {
      var mid := ChargedEffect(st, actor, t);
      DebitEffect(st, actor, t.value);
      CreditEffect(mid, t.to, t.value);
      if actor != a { HeldElsewhere(st, mid, actor, a); }
      if t.to != a { HeldElsewhere(mid, Transferred(st, actor, t).0, t.to, a); }
    }
  }

  function StateKeys(actor: Address, t: Transfer): set<bytes> {
    {BalanceKey(actor), BalanceKey(t.to)}
  }

  /** Whatever happens, a transfer writes only where StateKeys says. */
  lemma TransferStaysInStateKeys(st: View, actor: Address, t: Transfer, k: bytes)
    requires k !in StateKeys(actor, t)
    ensures Lookup(Transferred(st, actor, t).0, k) == Lookup(st, k)
  {
  }

  // ---- total supply ----

  predicate IsBalanceKey(k: bytes) {
    k != [] && k[0] == BALANCE_PREFIX
  }

  function Holders(st: View): set<Address> {
    set k | k in st && IsBalanceKey(k) :: k[1..]
  }

  ghost function Sum(holders: set<Address>, st: View): nat {
    if holders == {} then 0
    else
      var a :| a in holders;
      Held(st, a) + Sum(holders - {a}, st)
  }

  lemma {:induction false} SumPick(holders: set<Address>, st: View, a: Address)
    requires a in holders
    ensures Sum(holders, st) == Held(st, a) + Sum(holders - {a}, st)
    decreases |holders|
  {
    var b :| b in holders && Sum(holders, st) == Held(st, b) + Sum(holders - {b}, st);
    if b != a {
      SumPick(holders - {b}, st, a);
      SumPick(holders - {a}, st, b);
      assert holders - {b} - {a} == holders - {a} - {b};
    }
  }

  lemma {:induction false} SumSame(holders: set<Address>, st: View, st': View)
    requires forall a :: a in holders ==> Held(st', a) == Held(st, a)
    ensures Sum(holders, st') == Sum(holders, st)
    decreases |holders|
  {
    if holders != {} {
      var a :| a in holders;
      SumPick(holders, st, a);
      SumPick(holders, st', a);
      SumSame(holders - {a}, st, st');
    }
  }

  lemma {:induction false} SumOfNothing(holders: set<Address>, st: View)
    requires forall a :: a in holders ==> Held(st, a) == 0
    ensures Sum(holders, st) == 0
    decreases |holders|
  {
    if holders != {} {
      var a :| a in holders;
      SumPick(holders, st, a);
      SumOfNothing(holders - {a}, st);
    }
  }

  lemma {:induction false} SumOfMore(holders: set<Address>, more: set<Address>, st: View)
    requires holders <= more && forall a :: a in more && a !in holders ==> Held(st, a) == 0
    ensures Sum(more, st) == Sum(holders, st)
    decreases |more|
  {
    if more != holders {
      var a :| a in more && a !in holders;
      SumPick(more, st, a);
      SumOfMore(holders, more - {a}, st);
    }
  }

  /** The sum of all decoded balances. */
  ghost function Supply(st: View): nat {
    Sum(Holders(st), st)
  }

  lemma HolderKey(st: View, a: Address)
    ensures a in Holders(st) <==> BalanceKey(a) in st
  {
    if BalanceKey(a) in st {
      assert BalanceKey(a)[1..] == a && IsBalanceKey(BalanceKey(a));
    }
    if a in Holders(st) {
      var k :| k in st && IsBalanceKey(k) && k[1..] == a;
      assert k == [k[0]] + k[1..] == BalanceKey(a);
    }
  }

  /** Accounts without an entry hold nothing, so any larger set of accounts has the same sum. */
  lemma SupplyOver(st: View, more: set<Address>)
    requires Holders(st) <= more
    ensures Sum(more, st) == Supply(st)
  {
    forall a | a in more && a !in Holders(st) ensures Held(st, a) == 0 {
      HolderKey(st, a);
    }
    SumOfMore(Holders(st), more, st);
  }

  lemma MovedSum(all: set<Address>, st: View, st': View, actor: Address, t: Transfer)
    requires actor in all && t.to in all
    requires forall a :: a in all ==> Held(st', a) == Expected(st, actor, t, a)
    ensures Sum(all, st') == Sum(all, st)
  {
    SumPick(all, st, actor);
    SumPick(all, st', actor);
    if actor == t.to {
      SumSame(all - {actor}, st, st');
    } else {
      SumPick(all - {actor}, st, t.to);
      SumPick(all - {actor}, st', t.to);
      SumSame(all - {actor} - {t.to}, st, st');
    }
  }

  lemma TransferConserves(st: View, actor: Address, t: Transfer)
    requires Permitted(st, actor, t)
    ensures Supply(Transferred(st, actor, t).0) == Supply(st)
  {
    var st' := Transferred(st, actor, t).0;
    var all := Holders(st) + Holders(st') + {actor, t.to};
    forall a | a in all ensures Held(st', a) == Expected(st, actor, t, a) {
      TransferMoves(st, actor, t, a);
    }
    MovedSum(all, st, st', actor, t);
    SupplyOver(st, all);
    SupplyOver(st', all);
  }

  lemma DebitSupply(st: View, a: Address, amount: uint64)
    requires Covers(st, a, amount)
    ensures Supply(Debited(st, a, amount).0) == Supply(st) - amount
  {
    var st' := Debited(st, a, amount).0;
    DebitEffect(st, a, amount);
    var all := Holders(st) + Holders(st') + {a};
    forall b | b in all - {a} ensures Held(st', b) == Held(st, b) {
      HeldElsewhere(st, st', a, b);
    }
    SumSame(all - {a}, st, st');
    SumPick(all, st, a);
    SumPick(all, st', a);
    SupplyOver(st, all);
    SupplyOver(st', all);
  }

  function Burned(st: View, actor: Address, t: Transfer): nat {
    if Burns(st, actor, t) then t.value else 0
  }

  /** On every state, one transfer leaves the supply alone or, when it burns, lowers it by the value. */
  lemma StepSupply(st: View, actor: Address, t: Transfer)
    ensures Supply(Transferred(st, actor, t).0) == Supply(st) - Burned(st, actor, t)
  {
    TransferExactly(st, actor, t);
    if Burns(st, actor, t) {
      DebitSupply(st, actor, t.value);
    } else if Permitted(st, actor, t) {
      TransferConserves(st, actor, t);
    }
  }

  /** A credit overflows exactly when the sender covers the value and the readable receiver would exceed 64 bits; the
      debit has then already happened. */
  lemma OverflowExactly(st: View, actor: Address, t: Transfer)
    ensures var (st', r) := Transferred(st, actor, t);
            && (r == Err(Overflow) <==>
                Charged(st, actor, t) && actor != t.to && Readable(st, t.to) && Held(st, t.to) + t.value >= TWO64)
            && (r == Err(Overflow) ==> st' == Debited(st, actor, t.value).0)
  {
    TransferExactly(st, actor, t);
  }

  /** While the supply fits in 64 bits, no credit can overflow: a transfer then burns exactly for an unreadable
      receiver. */
  lemma BoundedSupplyNeverOverflows(st: View, actor: Address, t: Transfer)
    requires Supply(st) < TWO64
    ensures Transferred(st, actor, t).1 != Err(Overflow)
    ensures Burns(st, actor, t) <==> Charged(st, actor, t) && !Readable(st, t.to)
  {
    OverflowExactly(st, actor, t);
    var all := Holders(st) + {actor, t.to};
    SupplyOver(st, all);
    SumPick(all, st, actor);
    if actor != t.to { SumPick(all - {actor}, st, t.to); }
  }

  /** The input family of the second kind: an entry under eight bytes, which a cross-region Set can leave under any key,
      swallows what is sent to it. */
  lemma UnreadableReceiverBurns(actor: Address, to: Address)
    requires actor != to
    ensures var st := map[BalanceKey(actor) := PutUint64(10), BalanceKey(to) := [1]];
            var t := Transfer(to, 4, []);
            && Transferred(st, actor, t).1 == Err(CorruptBalance)
            && Held(Transferred(st, actor, t).0, actor) == 6
            && Supply(Transferred(st, actor, t).0) == Supply(st) - 4
  {
    if BalanceKey(actor) == BalanceKey(to) { BalanceKeyIsInjective(actor, to); }
    var st := map[BalanceKey(actor) := PutUint64(10), BalanceKey(to) := [1]];
    var t := Transfer(to, 4, []);
    assert Balance(st, actor) == Ok(10) && !Readable(st, to);
    TransferExactly(st, actor, t);
    DebitEffect(st, actor, 4);
    StepSupply(st, actor, t);
  }

  // ---- runs ----

  datatype Request = Request(actor: Address, transfer: Transfer)

  function Run(st: View, requests: seq<Request>): View
    decreases |requests|
  {
    if requests == [] then st
    else Run(Transferred(st, requests[0].actor, requests[0].transfer).0, requests[1..])
  }

  function Results(st: View, requests: seq<Request>): seq<Result<Receipt>>
    decreases |requests|
  {
    if requests == [] then []
    else
      var (st', r) := Transferred(st, requests[0].actor, requests[0].transfer);
      [r] + Results(st', requests[1..])
  }

  /** No request of the run meets the guard of a burning transfer when its turn comes. */
  predicate NeverBurns(st: View, requests: seq<Request>)
    decreases |requests|
  {
    requests == [] ||
    (!Burns(st, requests[0].actor, requests[0].transfer) &&
     NeverBurns(Transferred(st, requests[0].actor, requests[0].transfer).0, requests[1..]))
  }

  function TotalBurned(st: View, requests: seq<Request>): nat
    decreases |requests|
  {
    if requests == [] then 0
    else
      Burned(st, requests[0].actor, requests[0].transfer) +
      TotalBurned(Transferred(st, requests[0].actor, requests[0].transfer).0, requests[1..])
  }

  /** Over any run from any state the supply falls by exactly the values of the burning transfers, so it is conserved
      exactly when none burns; stored balances that were non-zero stay so. */
  lemma {:induction false} RunConservesExactly(st: View, requests: seq<Request>)
    ensures Supply(Run(st, requests)) == Supply(st) - TotalBurned(st, requests)
    ensures Supply(Run(st, requests)) == Supply(st) <==> NeverBurns(st, requests)
    ensures WellFormed(st) ==> WellFormed(Run(st, requests))
    decreases |requests|
  {
    if requests != [] {
      var q := requests[0];
      StepSupply(st, q.actor, q.transfer);
      TransferExactly(st, q.actor, q.transfer);
      RunConservesExactly(Transferred(st, q.actor, q.transfer).0, requests[1..]);
    }
  }

  ghost predicate ReadableReceivers(st: View, requests: seq<Request>) {
    forall i :: 0 <= i < |requests| ==> Readable(st, requests[i].transfer.to)
  }

  ghost predicate NeverOverflows(results: seq<Result<Receipt>>) {
    forall i :: 0 <= i < |results| ==> results[i] != Err(Overflow)
  }

  /** From a supply that fits in 64 bits no run of transfers overflows; it conserves the supply when its receivers are
      readable at the start. */
  lemma {:induction false} RunConserves(st: View, requests: seq<Request>)
    requires Supply(st) < TWO64
    ensures NeverOverflows(Results(st, requests))
    ensures ReadableReceivers(st, requests) ==> NeverBurns(st, requests) && Supply(Run(st, requests)) == Supply(st)
    decreases |requests|
  {
    if requests != [] {
      var q, rest := requests[0], requests[1..];
      var st' := Transferred(st, q.actor, q.transfer).0;
      StepSupply(st, q.actor, q.transfer);
      BoundedSupplyNeverOverflows(st, q.actor, q.transfer);
      if ReadableReceivers(st, requests) {
        assert Readable(st, requests[0].transfer.to);
        forall i | 0 <= i < |rest| ensures Readable(st', rest[i].transfer.to) {
          assert rest[i] == requests[i+1];
          ReadabilityIsKept(st, q.actor, q.transfer, rest[i].transfer.to);
        }
      }
      RunConserves(st', rest);
    }
  }

  lemma {:induction false} BystandersKeepTheirState(st: View, requests: seq<Request>, k: bytes)
    requires forall i :: 0 <= i < |requests| ==> k !in StateKeys(requests[i].actor, requests[i].transfer)
    ensures Lookup(Run(st, requests), k) == Lookup(st, k)
    decreases |requests|
  {
    if requests != [] {
      var q := requests[0];
      TransferStaysInStateKeys(st, q.actor, q.transfer, k);
      BystandersKeepTheirState(Transferred(st, q.actor, q.transfer).0, requests[1..], k);
    }
  }
}
