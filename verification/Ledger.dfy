/** The ledger as the source runs it: purses and recovery sets are objects
    that every operation updates in place, and the index from payments to
    recovery sets shares those sets with the purses.

    `View` is the value the objects stand for.  Every method is proved to do
    the step of `LedgerSpec` of the same name, so all that is proved there for
    steps and runs holds of these objects. */
module Ledger {
  import opened Wrappers
  import opened AmountMath
  import opened IssuerKit
  import opened LedgerSpec
  import opened LedgerRuns

  /** A payment is nothing but its identity. */
  class Payment {
    constructor () {}
  }

  class SetStore {
    var keys: set<Payment>

    constructor ()
      ensures keys == {}
    {
      keys := {};
    }

    /** Adding a key that is there already is allowed. */
    method Add(k: Payment)
      modifies this
      ensures keys == old(keys) + {k}
    {
      keys := keys + {k};
    }

    /** Deleting a key that is not there throws. */
    method Delete(k: Payment) returns (ok: bool)
      modifies this
      ensures ok <==> k in old(keys)
      ensures keys == old(keys) - {k}
    {
      ok := k in keys;
      keys := keys - {k};
    }
  }

  /** A purse's state record, with the amount store on its balance. */
  class Purse {
    const info: AssetInfo
    const recoverySet: SetStore
    var currentBalance: Amount

    constructor (info: AssetInfo)
      ensures this.info == info && fresh(recoverySet)
      ensures recoverySet.keys == {} && currentBalance == MakeEmpty(info.brand, info.kind)
    {
      this.info := info;
      recoverySet := new SetStore();
      currentBalance := MakeEmpty(info.brand, info.kind);
    }

    /** The state record takes only amounts of the shape. */
    method Increment(delta: Amount) returns (ok: bool)
      modifies this`currentBalance
      ensures ok <==>
        var sum := AmountMath.Add(old(currentBalance), delta, None);
        sum.Success? && Fits(info, sum.value)
      ensures currentBalance ==
        if ok then AmountMath.Add(old(currentBalance), delta, None).value else old(currentBalance)
    {
      var sum := AmountMath.Add(currentBalance, delta, None);
      ok := sum.Success? && Fits(info, sum.value);
      if ok {
        currentBalance := sum.value;
      }
    }

    method Decrement(delta: Amount) returns (ok: Result<bool, MathError>)
      requires Fits(info, currentBalance)
      modifies this`currentBalance
      ensures ok == IsGTE(old(currentBalance), delta, None)
      ensures currentBalance ==
        if ok == Success(true) then Subtract(old(currentBalance), delta, None).value else old(currentBalance)
    {
      ok := IsGTE(currentBalance, delta, None);
      if ok == Success(true) {
        var rest := Subtract(currentBalance, delta, None);
        currentBalance := rest.value;
      }
    }
  }

  /** The index leads from exactly the payments in a recovery set to the set
      they are in. */
  ghost predicate Indexed(index: map<Payment, SetStore>, origin: map<Payment, Purse>,
                          recovery: map<Purse, set<Payment>>)
  {
    && (forall q | q in index ::
          q in origin && origin[q] in recovery
          && index[q] == origin[q].recoverySet && q in recovery[origin[q]])
    && (forall p, q | p in recovery && q in recovery[p] :: q in index && q in origin && origin[q] == p)
  }

  lemma IndexedAfterInit(index: map<Payment, SetStore>, origin: map<Payment, Purse>,
                         recovery: map<Purse, set<Payment>>, q: Payment, home: Purse)
    requires Indexed(index, origin, recovery) && q !in origin && home in recovery
    ensures Indexed(index, origin[q := home], recovery)
    ensures Indexed(index[q := home.recoverySet], origin[q := home], recovery[home := recovery[home] + {q}])
  {
  }

  lemma IndexedAfterPurse(index: map<Payment, SetStore>, origin: map<Payment, Purse>,
                          recovery: map<Purse, set<Payment>>, p: Purse)
    requires Indexed(index, origin, recovery) && p !in recovery
    ensures Indexed(index, origin, recovery[p := {}])
  {
  }

  lemma IndexedAfterDelete(index: map<Payment, SetStore>, origin: map<Payment, Purse>,
                           recovery: map<Purse, set<Payment>>, q: Payment)
    requires Indexed(index, origin, recovery)
    ensures Indexed(index - {q}, origin, map p | p in recovery :: recovery[p] - {q})
  {
  }

  class PaymentLedger {
    const info: AssetInfo
    const mintRecoveryPurse: Purse
    const stored: Option<RecoverySetsOption>
    var recoverySetsState: RecoverySetsOption
    var paymentLedger: map<Payment, Amount>
    var paymentRecoverySets: map<Payment, SetStore>
    ghost var purses: set<Purse>
    ghost var issued: set<Payment>
    ghost var origin: map<Payment, Purse>
    ghost var minted: multiset<Key>
    ghost var burned: multiset<Key>

    /** The recovery sets of all purses. */
    ghost function Stores(): set<SetStore>
      reads this
    {
      set p | p in purses :: p.recoverySet
    }

    ghost function View(): State<Purse, Payment>
      reads this, purses, Stores()
    {
      State(info, stored, recoverySetsState, mintRecoveryPurse,
            map p | p in purses :: p.currentBalance,
            paymentLedger,
            map p | p in purses :: p.recoverySet.keys,
            issued, origin, minted, burned)
    }

    /** Every purse has a recovery set of its own. */
    ghost predicate OwnStores()
      reads this
    {
      && mintRecoveryPurse in purses
      && (forall p | p in purses :: p.info == info)
      && (forall p, p' | p in purses && p' in purses && p != p' :: p.recoverySet != p'.recoverySet)
    }

    ghost predicate IndexExact()
      reads this, purses, Stores()
    {
      Indexed(paymentRecoverySets, origin, View().recovery)
    }

    /** What holds even after a deposit that failed past its commit point. */
    ghost predicate Intact()
      reads this, purses, Stores()
    {
      OwnStores() && IndexExact() && Sound(View())
    }

    ghost predicate Valid()
      reads this, purses, Stores()
    {
      OwnStores() && IndexExact() && Inv(View())
    }

    /** What the comment on the index claims: a payment is a key of the index
        with some set as its value if and only if it is in that set, and it is
        in one set at most. */
    lemma IndexAgrees(p: Purse, q: Payment)
      requires OwnStores() && IndexExact() && p in purses
      ensures q in p.recoverySet.keys <==> q in paymentRecoverySets && paymentRecoverySets[q] == p.recoverySet
      ensures forall o | o in purses && o != p :: q in p.recoverySet.keys ==> q !in o.recoverySet.keys
    {
      assert forall o | o in purses :: View().recovery[o] == o.recoverySet.keys;
    }

    constructor (info: AssetInfo, mode: RecoverySetsOption)
      ensures Valid() && fresh(purses) && fresh(Stores())
      ensures View() == Initial(info, mode, mintRecoveryPurse)
    {
      this.info := info;
      stored := Some(mode);
      recoverySetsState := mode;
      paymentLedger, paymentRecoverySets := map[], map[];
      issued, origin, minted, burned := {}, map[], multiset{}, multiset{};
      var p := new Purse(info);
      mintRecoveryPurse := p;
      purses := {p};
      new;
      InitialInv<Purse, Payment>(info, mode, p);
      assert View().balances == map[p := MakeEmpty(info.brand, info.kind)];
      assert View().recovery == map[p := {}];
      assert View() == Initial(info, mode, p);
    }

    // ------------------------------------------------- store primitives

    /** The only place that adds to the payment ledger.  Fails on a key that is
        there already, on an amount of the wrong shape, and when handed a
        recovery set while they are off. */
    method InitPayment(payment: Payment, amount: Amount, optRecoverySet: SetStore?) returns (ok: bool)
      requires Natural(amount.value)
      modifies `paymentLedger, `paymentRecoverySets
      modifies if optRecoverySet == null then {} else {optRecoverySet}
      ensures ok <==>
        && (recoverySetsState == NoRecoverySets ==> optRecoverySet == null)
        && payment !in old(paymentLedger) && Fits(info, amount)
        && (optRecoverySet != null && Rights(amount.value) != multiset{} ==>
              payment !in old(paymentRecoverySets))
      ensures ok ==> paymentLedger == old(paymentLedger)[payment := amount]
      ensures ok && (optRecoverySet == null || Rights(amount.value) == multiset{}) ==>
        paymentRecoverySets == old(paymentRecoverySets)
        && (optRecoverySet != null ==> optRecoverySet.keys == old(optRecoverySet.keys))
      ensures ok && optRecoverySet != null && Rights(amount.value) != multiset{} ==>
        paymentRecoverySets == old(paymentRecoverySets)[payment := optRecoverySet]
        && optRecoverySet.keys == old(optRecoverySet.keys) + {payment}
    {
      if recoverySetsState == NoRecoverySets && optRecoverySet != null {
        return false;
      }
      var empty := IsEmpty(amount);
      if optRecoverySet != null && empty == Success(false) {
        optRecoverySet.Add(payment);
        if payment in paymentRecoverySets {
          return false;
        }
        paymentRecoverySets := paymentRecoverySets[payment := optRecoverySet];
      }
      if payment in paymentLedger || !Fits(info, amount) {
        return false;
      }
      paymentLedger := paymentLedger[payment := amount];
      return true;
    }

    /** The only place that deletes from the payment ledger.  Fails on a key
        that is not there, and when the index leads to a set that does not
        have the payment. */
    method DeletePayment(payment: Payment) returns (ok: bool)
      modifies `paymentLedger, `paymentRecoverySets
      modifies if payment in paymentRecoverySets then {paymentRecoverySets[payment]} else {}
      ensures ok <==>
        && payment in old(paymentLedger)
        && (payment in old(paymentRecoverySets) ==> payment in old(paymentRecoverySets[payment].keys))
      ensures ok ==>
        && paymentLedger == old(paymentLedger) - {payment}
        && paymentRecoverySets == old(paymentRecoverySets) - {payment}
        && (payment in old(paymentRecoverySets) ==>
              old(paymentRecoverySets)[payment].keys == old(paymentRecoverySets[payment].keys) - {payment})
    {
      if payment !in paymentLedger {
        return false;
      }
      paymentLedger := paymentLedger - {payment};
      if payment in paymentRecoverySets {
        var recoverySet := paymentRecoverySets[payment];
        paymentRecoverySets := paymentRecoverySets - {payment};
        ok := recoverySet.Delete(payment);
        return;
      }
      return true;
    }

    // ----------------------------------------------------- operations

    /** While the index is exact, deleting a live payment cannot fail. */
    method DeleteLive(payment: Payment)
      requires OwnStores() && IndexExact() && payment in paymentLedger
      modifies `paymentLedger, `paymentRecoverySets, Stores()
      ensures OwnStores() && IndexExact()
      ensures View() == LedgerSpec.DeletePayment(old(View()), payment)
    {
      ghost var s := View();
      var ok := DeletePayment(payment);
      assert ok;
      forall p | p in purses ensures p.recoverySet.keys == s.recovery[p] - {payment} {
        assert payment in s.recovery[p] ==> old(paymentRecoverySets)[payment] == p.recoverySet;
      }
      AllStores(s, payment);
      IndexedAfterDelete(old(paymentRecoverySets), s.origin, s.recovery, payment);
    }

    /** What the ledger looks like when a payment is gone from every set. */
    lemma AllStores(s: State<Purse, Payment>, payment: Payment)
      requires s.recovery.Keys == purses && s.balances.Keys == purses
      requires forall p | p in purses :: p.currentBalance == s.balances[p]
      requires forall p | p in purses :: p.recoverySet.keys == s.recovery[p] - {payment}
      ensures View().balances == s.balances && View().recovery == LedgerSpec.DeletePayment(s, payment).recovery
    {
    }

    /** The effect on the whole ledger of setting one balance. */
    twostate lemma OneBalance(purse: Purse)
      requires old(OwnStores()) && purse in purses
      requires unchanged(this) && unchanged(Stores()) && unchanged(purses - {purse})
      ensures View() == old(View()).(balances := old(View()).balances[purse := purse.currentBalance])
    {
      assert View().recovery == old(View()).recovery;
      assert View().balances == old(View()).balances[purse := purse.currentBalance];
    }

    method DepositInternal(purse: Purse, src: Payment, expected: Option<Amount -> bool>)
      returns (r: Result<Amount, LedgerError>)
      requires OwnStores() && IndexExact() && purse in purses
      modifies `paymentLedger, `paymentRecoverySets, purse`currentBalance, Stores()
      ensures OwnStores() && IndexExact()
      ensures (View(), r) == LedgerSpec.Deposit(old(View()), purse, src, expected)
    {
      if src !in paymentLedger {
        return Failure(NotLive);
      }
      var srcBalance := paymentLedger[src];
      if !Consistent(srcBalance, expected) {
        return Failure(AmountMismatch);
      }
      DeleteLive(src);
      ghost var s := View();
      label deleted:
      var ok := purse.Increment(srcBalance);
      OneBalance@deleted(purse);
      assert !ok ==> s.balances[purse := purse.currentBalance] == s.balances;
      r := if ok then Success(srcBalance) else Failure(Shutdown);
    }

    /** A deposit keeps the stores sound however it ends, and conserves rights
        unless it fails past its commit point. */
    method Deposit(purse: Purse, src: Payment, expected: Option<Amount -> bool>)
      returns (r: Result<Amount, LedgerError>)
      requires Intact() && purse in purses
      modifies `paymentLedger, `paymentRecoverySets, purse`currentBalance, Stores()
      ensures Intact()
      ensures (View(), r) == LedgerSpec.Deposit(old(View()), purse, src, expected)
      ensures old(Conserved(View())) && r != Failure(Shutdown) ==> Valid()
    {
      ghost var s := View();
      DepositSound(s, purse, src, expected);
      if Conserved(s) {
        DepositConserves(s, purse, src, expected);
      }
      r := DepositInternal(purse, src, expected);
    }

    /** A payment that is new to the ledger can always be added, on its own ... */
    method InitRaw(payment: Payment, amount: Amount)
      requires OwnStores() && IndexExact() && Fits(info, amount) && payment !in paymentLedger
      modifies `paymentLedger, `paymentRecoverySets, `issued
      ensures OwnStores() && IndexExact()
      ensures View() == LedgerSpec.InitPayment(old(View()), payment, amount, None)
    {
      ghost var s := View();
      var ok := InitPayment(payment, amount, null);
      assert ok;
      issued := issued + {payment};
      assert View().balances == s.balances && View().recovery == s.recovery;
    }

    /** The effect on the whole ledger of changing one recovery set. */
    twostate lemma OneStore(home: Purse)
      requires old(OwnStores()) && home in purses && purses == old(purses)
      requires unchanged(purses) && unchanged(Stores() - {home.recoverySet})
      ensures View().balances == old(View()).balances
      ensures View().recovery == old(View()).recovery[home := home.recoverySet.keys]
    {
      assert forall p | p in purses && p != home :: p.recoverySet.keys == old(p.recoverySet.keys);
    }

    /** ... or to the recovery set of a purse. */
    method InitRecoverable(payment: Payment, amount: Amount, home: Purse)
      requires OwnStores() && IndexExact() && Fits(info, amount)
      requires payment !in paymentLedger && payment !in paymentRecoverySets && payment !in origin
      requires home in purses && recoverySetsState == HasRecoverySets
      modifies `paymentLedger, `paymentRecoverySets, `issued, `origin, home.recoverySet
      ensures OwnStores() && IndexExact()
      ensures View() == LedgerSpec.InitPayment(old(View()), payment, amount, Some(home))
    {
      ghost var s := View();
      var ok := InitPayment(payment, amount, home.recoverySet);
      assert ok;
      issued := issued + {payment};
      origin := origin[payment := home];
      OneStore(home);
      IndexedAfterInit(old(paymentRecoverySets), s.origin, s.recovery, payment, home);
      if Rights(amount.value) == multiset{} {
        assert s.recovery[home := s.recovery[home]] == s.recovery;
        assert IndexExact();
      } else {
        assert IndexExact();
      }
    }

    method MaybeRecoverySet(purse: Purse) returns (ok: bool, optRecoverySet: SetStore?)
      ensures ok <==> recoverySetsState == NoRecoverySets ==> purse.recoverySet.keys == {}
      ensures optRecoverySet == if recoverySetsState == HasRecoverySets then purse.recoverySet else null
    {
      if recoverySetsState == HasRecoverySets {
        return true, purse.recoverySet;
      }
      return purse.recoverySet.keys == {}, null;
    }

    /** Takes an amount out of a purse, if it is there. */
    method TakeOut(purse: Purse, amount: Amount) returns (enough: Result<bool, MathError>)
      requires OwnStores() && IndexExact() && purse in purses && Fits(info, purse.currentBalance)
      modifies purse`currentBalance
      ensures OwnStores() && IndexExact()
      ensures enough == IsGTE(old(purse.currentBalance), amount, None)
      ensures View() == if enough != Success(true) then old(View()) else
                old(View()).(balances :=
                  old(View()).balances[purse := Subtract(old(purse.currentBalance), amount, None).value])
    {
      ghost var s := View();
      label before:
      enough := purse.Decrement(amount);
      OneBalance@before(purse);
      assert enough != Success(true) ==> s.balances[purse := purse.currentBalance] == s.balances;
    }

    /** Adds a new payment, to the purse's recovery set if there is one. */
    method InitWithdrawn(payment: Payment, amount: Amount, purse: Purse, optRecoverySet: SetStore?)
      requires OwnStores() && IndexExact() && Fits(info, amount) && purse in purses
      requires payment !in paymentLedger && payment !in paymentRecoverySets && payment !in origin
      requires optRecoverySet == if recoverySetsState == HasRecoverySets then purse.recoverySet else null
      modifies `paymentLedger, `paymentRecoverySets, `issued, `origin, purse.recoverySet
      ensures OwnStores() && IndexExact()
      ensures View() == LedgerSpec.InitPayment(old(View()), payment, amount,
                                               if recoverySetsState == HasRecoverySets then Some(purse) else None)
    {
      if optRecoverySet == null {
        InitRaw(payment, amount);
      } else {
        InitRecoverable(payment, amount, purse);
      }
    }

    method WithdrawInternal(purse: Purse, amount: Amount) returns (r: Result<Payment, LedgerError>)
      requires OwnStores() && IndexExact() && purse in purses
      requires Fits(info, purse.currentBalance)
      modifies `paymentLedger, `paymentRecoverySets, `issued, `origin, purse`currentBalance, Stores()
      ensures OwnStores() && IndexExact()
      ensures r.Success? ==>
        && fresh(r.value)
        && (View(), r) == LedgerSpec.Withdraw(old(View()), purse, amount, r.value)
      ensures r.Failure? ==>
        View() == old(View()) && WithdrawRefusal(old(View()), purse, amount) == Some(r.error)
    {
      var ok, store := MaybeRecoverySet(purse);
      if !ok {
        return Failure(RecoverySetInUse);
      }
      var coerced := Coerce(info.brand, amount);
      if coerced.Failure? {
        return Failure(Math(coerced.error));
      }
      r := WithdrawCoerced(purse, coerced.value, store);
    }

    /** The rest of a withdrawal, once the amount has been looked at. */
    method WithdrawCoerced(purse: Purse, amount: Amount, optRecoverySet: SetStore?)
      returns (r: Result<Payment, LedgerError>)
      requires OwnStores() && IndexExact() && purse in purses
      requires Fits(info, purse.currentBalance) && Coerce(info.brand, amount) == Success(amount)
      requires optRecoverySet == if recoverySetsState == HasRecoverySets then purse.recoverySet else null
      requires recoverySetsState == NoRecoverySets ==> View().recovery[purse] == {}
      modifies `paymentLedger, `paymentRecoverySets, `issued, `origin, purse`currentBalance, Stores()
      ensures OwnStores() && IndexExact()
      ensures r.Success? ==>
        && fresh(r.value)
        && (View(), r) == LedgerSpec.Withdraw(old(View()), purse, amount, r.value)
      ensures r.Failure? ==>
        View() == old(View()) && WithdrawRefusal(old(View()), purse, amount) == Some(r.error)
    {
      var payment := new Payment();
      ghost var balance := purse.currentBalance;
      var enough := TakeOut(purse, amount);
      if enough != Success(true) {
        return Failure(if enough.Failure? then Math(enough.error) else Insufficient);
      }
      FitsBelow(info, balance, amount);
      InitWithdrawn(payment, amount, purse, optRecoverySet);
      return Success(payment);
    }

    method Withdraw(purse: Purse, amount: Amount) returns (r: Result<Payment, LedgerError>)
      requires Valid() && purse in purses
      modifies `paymentLedger, `paymentRecoverySets, `issued, `origin, purse`currentBalance, Stores()
      ensures Valid() && r != Failure(Shutdown)
      ensures r.Success? ==>
        && fresh(r.value)
        && (View(), r) == LedgerSpec.Withdraw(old(View()), purse, amount, r.value)
      ensures r.Failure? ==>
        && View() == old(View())
        && forall q :: LedgerSpec.Withdraw(old(View()), purse, amount, q).1 == r
      ensures r.Success? <==>
        && (recoverySetsState == NoRecoverySets ==> old(purse.recoverySet.keys) == {})
        && Compatible(old(purse.currentBalance), amount, None)
        && Rights(amount.value) <= Rights(old(purse.currentBalance).value)
    {
      ghost var s := View();
      assert purse.currentBalance == s.balances[purse];
      assert purse.recoverySet.keys == s.recovery[purse];
      RefusalOutcome(s, purse, amount);
      r := WithdrawInternal(purse, amount);
      if r.Success? {
        WithdrawKeeps(s, purse, amount, r.value);
      }
    }

    method BurnLive(payment: Payment, expected: Option<Amount -> bool>) returns (r: Result<Amount, LedgerError>)
      requires OwnStores() && IndexExact()
      modifies `paymentLedger, `paymentRecoverySets, `burned, Stores()
      ensures OwnStores() && IndexExact()
      ensures (View(), r) == LedgerSpec.Burn(old(View()), payment, expected)
    {
      if payment !in paymentLedger {
        return Failure(NotLive);
      }
      var balance := paymentLedger[payment];
      if !Consistent(balance, expected) {
        return Failure(AmountMismatch);
      }
      DeleteLive(payment);
      RecordBurned(Rights(balance.value));
      return Success(balance);
    }

    ghost method RecordBurned(rights: multiset<Key>)
      requires OwnStores() && IndexExact()
      modifies `burned
      ensures OwnStores() && IndexExact()
      ensures View() == old(View()).(burned := old(burned) + rights)
    {
      ghost var s := View();
      burned := burned + rights;
      assert View().balances == s.balances && View().recovery == s.recovery;
    }

    method Burn(payment: Payment, expected: Option<Amount -> bool>) returns (r: Result<Amount, LedgerError>)
      requires Valid()
      modifies `paymentLedger, `paymentRecoverySets, `burned, Stores()
      ensures Valid() && (View(), r) == LedgerSpec.Burn(old(View()), payment, expected)
      ensures r.Success? <==> payment in old(paymentLedger) && Consistent(old(paymentLedger)[payment], expected)
      ensures r.Success? ==>
        && r.value == old(paymentLedger)[payment] && paymentLedger == old(paymentLedger) - {payment}
        && burned == old(burned) + Rights(r.value.value)
        && forall p | p in purses :: p.recoverySet.keys == old(p.recoverySet.keys) - {payment}
      ensures r.Failure? ==> View() == old(View())
    {
      ghost var s := View();
      assert forall p | p in purses :: s.recovery[p] == p.recoverySet.keys;
      BurnKeeps(s, payment, expected);
      BurnOutcome(s, payment, expected);
      r := BurnLive(payment, expected);
      assert forall p | p in purses :: View().recovery[p] == p.recoverySet.keys;
    }

    /** One turn of the loop: the payment it meets is the one that leaves the
        recovery set. */
    method DepositNext(purse: Purse, payment: Payment, amount: Amount) returns (r: Result<Amount, LedgerError>)
      requires OwnStores() && IndexExact() && purse in purses
      modifies `paymentLedger, `paymentRecoverySets, purse`currentBalance, Stores()
      ensures OwnStores() && IndexExact()
      ensures (View(), r) == DepositTurn(old(View()), purse, payment, amount)
      ensures r.Success? ==> purse.recoverySet.keys == old(purse.recoverySet.keys) - {payment}
    {
      assert View().recovery[purse] == purse.recoverySet.keys;
      var delta := DepositInternal(purse, payment, None);
      if delta.Failure? {
        return delta;
      }
      assert View().recovery[purse] == purse.recoverySet.keys;
      var sum := AmountMath.Add(amount, delta.value, Some(info.brand));
      r := if sum.Failure? then Failure(Math(sum.error)) else Success(sum.value);
    }

    /** The loop of `recoverAll`.  The iteration is over the recovery set
        itself, from which every deposit deletes: a turn meets some key that is
        in the set at that time and has not been met before. */
    method DepositEach(purse: Purse) returns (r: Result<Amount, LedgerError>, ghost order: seq<Payment>)
      requires OwnStores() && IndexExact() && purse in purses
      modifies `paymentLedger, `paymentRecoverySets, purse`currentBalance, Stores()
      ensures OwnStores() && IndexExact() && ListsSet(old(purse.recoverySet.keys), order)
      ensures (View(), r) == DepositAll(old(View()), purse, order, MakeEmpty(info.brand, info.kind))
      ensures r.Success? ==> purse.recoverySet.keys == {}
    {
      var amount := MakeEmpty(info.brand, info.kind);
      var met: set<Payment> := {};
      order := [];
      ghost var s0, empty, keys0 := View(), amount, purse.recoverySet.keys;
      while purse.recoverySet.keys - met != {}
        invariant OwnStores() && IndexExact()
        invariant Meeting(old(purse.recoverySet.keys), met, purse.recoverySet.keys, order)
        invariant DepositedSoFar(s0, purse, order, empty) == (View(), Success(amount))
        decreases purse.recoverySet.keys
      {
        var payment :| payment in purse.recoverySet.keys - met;
        ghost var left := purse.recoverySet.keys;
        NextTurn(s0, purse, order, payment, empty);
        r := DepositNext(purse, payment, amount);
        if r.Failure? {
          ghost var rest := MeetingBroken(keys0, met, left, order, payment);
          DepositAllGoesOn(s0, purse, order + [payment], rest, empty);
          order := order + [payment] + rest;
          return;
        }
        MeetingNext(keys0, met, left, order, payment);
        met := met + {payment};
        order := order + [payment];
        amount := r.value;
      }
      MeetingDone(keys0, met, purse.recoverySet.keys, order);
      DepositAllGoesOn(s0, purse, order, [], empty);
      assert View().recovery[purse] == purse.recoverySet.keys;
      r := if purse.recoverySet.keys != {} then Failure(Internal) else Success(amount);
    }

    method RecoverEach(purse: Purse) returns (r: Result<Amount, LedgerError>, ghost order: seq<Payment>)
      requires OwnStores() && IndexExact() && purse in purses
      modifies `paymentLedger, `paymentRecoverySets, purse`currentBalance, Stores()
      ensures OwnStores() && IndexExact() && Lists(old(View()), purse, order)
      ensures (View(), r) == LedgerSpec.RecoverAll(old(View()), purse, order)
    {
      assert View().recovery[purse] == purse.recoverySet.keys;
      var ok, optRecoverySet := MaybeRecoverySet(purse);
      order := Listing(purse.recoverySet.keys);
      if !ok {
        r := Failure(RecoverySetInUse);
      } else if optRecoverySet == null {
        r := Success(MakeEmpty(info.brand, info.kind));
      } else {
        r, order := DepositEach(purse);
      }
    }

    method RecoverAll(purse: Purse) returns (r: Result<Amount, LedgerError>, ghost order: seq<Payment>)
      requires Valid() && purse in purses
      modifies `paymentLedger, `paymentRecoverySets, purse`currentBalance, Stores()
      ensures Lists(old(View()), purse, order)
      ensures (View(), r) == LedgerSpec.RecoverAll(old(View()), purse, order)
      ensures r != Failure(Shutdown) ==> Valid()
    {
      r, order := RecoverEach(purse);
      RecoverAllKeeps(old(View()), purse, order);
    }

    method MakeEmptyPurse() returns (purse: Purse)
      requires Valid()
      modifies `purses
      ensures Valid() && fresh(purse) && purse !in old(purses) && purses == old(purses) + {purse}
      ensures View() == MakePurse(old(View()), purse)
    {
      purse := AddPurse();
      MakePurseKeeps(old(View()), purse);
    }

    /** What the ledger looks like with one more purse. */
    lemma PurseAdded(s: State<Purse, Payment>, purse: Purse)
      requires purse in purses && s.balances.Keys == purses - {purse} && s.recovery.Keys == purses - {purse}
      requires forall p | p in s.balances :: p.currentBalance == s.balances[p] && p.recoverySet.keys == s.recovery[p]
      requires purse.currentBalance == MakeEmpty(s.info.brand, s.info.kind) && purse.recoverySet.keys == {}
      ensures View().balances == MakePurse(s, purse).balances && View().recovery == s.recovery[purse := {}]
    {
    }

    method AddPurse() returns (purse: Purse)
      requires OwnStores() && IndexExact()
      modifies `purses
      ensures OwnStores() && IndexExact()
      ensures fresh(purse) && purse !in old(purses) && purses == old(purses) + {purse}
      ensures View() == MakePurse(old(View()), purse)
    {
      ghost var s := View();
      purse := new Purse(info);
      purses := purses + {purse};
      PurseAdded(s, purse);
      IndexedAfterPurse(paymentRecoverySets, origin, s.recovery, purse);
    }

    /** A new incarnation works on the same stores, in the mode it is given. */
    method UpgradeIssuer(option: Option<RecoverySetsOption>) returns (r: Result<RecoverySetsOption, IssuerError>)
      requires Valid()
      modifies `recoverySetsState
      ensures Valid() && r == ModeAfterUpgrade(stored, option)
      ensures View() == Upgrade(old(View()), option)
    {
      UpgradeKeeps(View(), option);
      r := SetMode(option);
    }

    method SetMode(option: Option<RecoverySetsOption>) returns (r: Result<RecoverySetsOption, IssuerError>)
      requires OwnStores() && IndexExact()
      modifies `recoverySetsState
      ensures OwnStores() && IndexExact() && r == ModeAfterUpgrade(stored, option)
      ensures View() == Upgrade(old(View()), option)
    {
      ghost var s := View();
      r := ModeAfterUpgrade(stored, option);
      if r.Success? {
        recoverySetsState := r.value;
      }
      assert View().balances == s.balances && View().recovery == s.recovery;
    }

    /** The live non-empty payments withdrawn from this purse. */
    method GetRecoverySet(purse: Purse) returns (r: Result<set<Payment>, LedgerError>)
      requires Valid() && purse in purses
      ensures r.Success? && recoverySetsState == HasRecoverySets ==>
        forall q :: q in r.value <==> Valuable(paymentLedger, q) && q in origin && origin[q] == purse
      ensures r.Failure? <==> recoverySetsState == NoRecoverySets && View().recovery[purse] != {}
      ensures recoverySetsState == NoRecoverySets && r.Success? ==> r.value == {}
    {
      assert View().recovery[purse] == purse.recoverySet.keys;
      RecoverySetIs(paymentLedger, origin, View().recovery, purse);
      var ok, optRecoverySet := MaybeRecoverySet(purse);
      if !ok {
        return Failure(RecoverySetInUse);
      }
      return Success(if optRecoverySet == null then {} else optRecoverySet.keys);
    }

    method StartMint(rawPayment: Payment, amount: Amount)
      requires OwnStores() && IndexExact() && Fits(info, amount) && rawPayment !in paymentLedger
      modifies `paymentLedger, `paymentRecoverySets, `issued, `minted
      ensures OwnStores() && IndexExact()
      ensures View() == MintRaw(old(View()), amount, rawPayment)
    {
      ghost var s := View();
      minted := minted + Rights(amount.value);
      assert View().balances == s.balances && View().recovery == s.recovery;
      InitRaw(rawPayment, amount);
    }

    method MintIntoPurse(amount: Amount) returns (d: Result<Amount, LedgerError>, rawPayment: Payment)
      requires OwnStores() && IndexExact() && Fits(info, amount)
      modifies `paymentLedger, `paymentRecoverySets, `issued, `minted
      modifies mintRecoveryPurse`currentBalance, Stores()
      ensures OwnStores() && IndexExact() && fresh(rawPayment)
      ensures (View(), d) == MintDeposit(old(View()), amount, rawPayment)
    {
      ghost var s := View();
      rawPayment := new Payment();
      assert View() == s;
      StartMint(rawPayment, amount);
      assert View() == MintRaw(s, amount, rawPayment);
      d := DepositInternal(mintRecoveryPurse, rawPayment, Exactly(amount));
      assert (View(), d) == MintDeposit(s, amount, rawPayment);
    }

    /** The other half: the payment to hand out leaves the purse as it was. */
    method MintOutOfPurse(amount: Amount, before: Amount) returns (r: Result<Payment, LedgerError>)
      requires OwnStores() && IndexExact() && amount.brand == info.brand
      requires Fits(info, mintRecoveryPurse.currentBalance)
      requires AmountMath.Add(before, amount, None) == Success(mintRecoveryPurse.currentBalance)
      modifies `paymentLedger, `paymentRecoverySets, `issued, `origin
      modifies mintRecoveryPurse`currentBalance, Stores()
      ensures OwnStores() && IndexExact()
      ensures r.Success? ==>
        fresh(r.value) && (View(), r) == MintWithdraw(old(View()), before, amount, r.value)
      ensures r.Failure? ==>
        forall q :: MintWithdraw(old(View()), before, amount, q) == (View(), r)
    {
      ghost var s := View();
      assert s.balances[mintRecoveryPurse] == mintRecoveryPurse.currentBalance;
      RefusalOutcome(s, mintRecoveryPurse, amount);
      r := WithdrawInternal(mintRecoveryPurse, amount);
      assert mintRecoveryPurse.currentBalance == View().balances[mintRecoveryPurse];
      if r.Success? {
        MintWithdrawOutcome(s, before, amount, r.value);
        if mintRecoveryPurse.currentBalance != before {
          assert false;
        }
      }
    }

    method MintInternal(newAmount: Amount) returns (r: Result<Payment, LedgerError>, ghost raw: Payment?)
      requires OwnStores() && IndexExact()
      modifies `paymentLedger, `paymentRecoverySets, `issued, `origin, `minted
      modifies mintRecoveryPurse`currentBalance, Stores()
      ensures OwnStores() && IndexExact()
      ensures raw == null ==> View() == old(View()) && r.Failure? && r.error != Shutdown
      ensures raw == null <==> !Fits(info, newAmount)
      ensures raw != null && r.Success? ==>
        && fresh(raw) && fresh(r.value) && raw != r.value
        && (View(), r) == Mint(old(View()), newAmount, raw, r.value)
      ensures raw != null && r.Failure? ==>
        fresh(raw) && forall q :: Mint(old(View()), newAmount, raw, q) == (View(), r)
    {
      var coerced := Coerce(info.brand, newAmount);
      if coerced.Failure? {
        return Failure(Math(coerced.error)), null;
      }
      var amount := coerced.value;
      if !Fits(info, amount) {
        return Failure(ShapeMismatch), null;
      }
      ghost var s := View();
      var before := mintRecoveryPurse.currentBalance;
      assert before == s.balances[mintRecoveryPurse];
      var d, rawPayment := MintIntoPurse(amount);
      raw := rawPayment;
      if d.Failure? {
        return Failure(d.error), rawPayment;
      }
      ghost var s' := View();
      assert mintRecoveryPurse.currentBalance == s'.balances[mintRecoveryPurse];
      MintDepositBalance(s, amount, rawPayment);
      r := MintOutOfPurse(amount, before);
    }

    /** The final check of the source, that the recovery purse is as before,
        is the dead branch of `MintOutOfPurse`. */
    method MintPayment(newAmount: Amount) returns (r: Result<Payment, LedgerError>, ghost raw: Payment?)
      requires Valid()
      modifies `paymentLedger, `paymentRecoverySets, `issued, `origin, `minted
      modifies mintRecoveryPurse`currentBalance, Stores()
      ensures r != Failure(Shutdown) ==> Valid()
      ensures raw == null <==> !Fits(info, newAmount)
      ensures raw == null ==> View() == old(View()) && r.Failure? && r.error != Shutdown
      ensures raw != null && r.Success? ==>
        && fresh(raw) && fresh(r.value) && raw != r.value
        && (View(), r) == Mint(old(View()), newAmount, raw, r.value)
      ensures raw != null && r.Failure? ==>
        fresh(raw) && forall q :: Mint(old(View()), newAmount, raw, q) == (View(), r)
    {
      ghost var s := View();
      r, raw := MintInternal(newAmount);
      if raw != null {
        if r.Success? {
          MintKeeps(s, newAmount, raw, r.value);
        } else {
          MintFailureKeeps(s, newAmount, raw, raw);
        }
      }
    }
  }
}
