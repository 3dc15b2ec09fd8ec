/** The helpers `claim`, `combine`, `split` and `splitMany`, working on the
    ledger's objects.  Each is proved to do what `LegacySpec` says of it, where
    it is proved what that means. */
module LegacyHelpers {
  import opened Wrappers
  import opened AmountMath
  import opened LedgerSpec
  import opened Ledger
  import opened LegacySpec

  /** All deposits are made before any result is looked at. */
  method DepositInputs(l: PaymentLedger, purse: Purse, srcs: seq<Payment>)
    returns (ds: seq<Result<Amount, LedgerError>>)
    requires l.Intact() && purse in l.purses
    modifies l`paymentLedger, l`paymentRecoverySets, purse`currentBalance, l.Stores()
    ensures l.Intact() && (l.View(), ds) == DepositEvery(old(l.View()), purse, srcs)
  {
    ds := [];
    for i := 0 to |srcs|
      invariant l.Intact() && (l.View(), ds) == DepositEvery(old(l.View()), purse, srcs[..i])
    {
      Taken(srcs, i);
      var d := l.Deposit(purse, srcs[i], None);
      ds := ds + [d];
    }
    TakenAll(srcs);
  }

  lemma Taken<T>(s: seq<T>, i: nat)
    requires i < |s|
    ensures s[..i + 1] != [] && Init(s[..i + 1]) == s[..i] && Last(s[..i + 1]) == s[i]
  {
  }

  lemma TakenAll<T>(s: seq<T>)
    ensures s[..|s|] == s
  {
  }

  /** A withdrawal that fails makes no payment, and its name is `any`. */
  method WithdrawNamed(l: PaymentLedger, purse: Purse, amount: Amount, ghost any: Payment)
    returns (w: Result<Payment, LedgerError>, ghost q: Payment)
    requires l.Valid() && purse in l.purses
    modifies l`paymentLedger, l`paymentRecoverySets, l`issued, l`origin, purse`currentBalance, l.Stores()
    ensures l.Valid() && (w.Success? ==> q !in old(l.issued))
    ensures (l.View(), w) == Withdraw(old(l.View()), purse, amount, q)
  {
    ghost var s := l.View();
    w := l.Withdraw(purse, amount);
    q := if w.Success? then w.value else any;
    WithdrawFrame(s, purse, amount, q);
  }

  /** All withdrawals are made before any result is looked at. */
  method WithdrawOutputs(l: PaymentLedger, purse: Purse, amounts: seq<Amount>, ghost any: Payment)
    returns (ws: seq<Result<Payment, LedgerError>>, ghost names: seq<Payment>)
    requires l.Valid() && purse in l.purses
    modifies l`paymentLedger, l`paymentRecoverySets, l`issued, l`origin, purse`currentBalance, l.Stores()
    ensures l.Valid() && |names| == |amounts| && New(old(l.View()), purse, amounts, names)
    ensures (l.View(), ws) == WithdrawEvery(old(l.View()), purse, amounts, names)
  {
    ws, names := [], [];
    ghost var s0 := l.View();
    for i := 0 to |amounts|
      invariant l.Valid() && |names| == i && New(s0, purse, amounts[..i], names)
      invariant (l.View(), ws) == WithdrawEvery(s0, purse, amounts[..i], names)
    {
      Taken(amounts, i);
      ghost var q;
      var w;
      w, q := WithdrawNamed(l, purse, amounts[i], any);
      WithdrawNext(s0, purse, amounts[..i + 1], names, q);
      ws, names := ws + [w], names + [q];
    }
    TakenAll(amounts);
  }

  /** Moves all of `srcPayment` into a new payment, by way of the purse. */
  method Claim(l: PaymentLedger, purse: Purse, srcPayment: Payment, expected: Option<Amount -> bool>)
    returns (r: Result<Payment, LedgerError>)
    requires l.Valid() && purse in l.purses
    modifies l`paymentLedger, l`paymentRecoverySets, l`issued, l`origin, purse`currentBalance, l.Stores()
    ensures if r == Failure(Shutdown) then l.Intact() else l.Valid()
    ensures r.Success? ==>
      fresh(r.value) && (l.View(), r) == ClaimSpec(old(l.View()), purse, srcPayment, expected, r.value)
    ensures r.Failure? ==>
      forall q :: ClaimSpec(old(l.View()), purse, srcPayment, expected, q) == (l.View(), r)
  {
    var amount := l.Deposit(purse, srcPayment, expected);
    if amount.Failure? {
      return Failure(amount.error);
    }
    ghost var s := l.View();
    r := l.Withdraw(purse, amount.value);
    forall q ensures Withdraw(s, purse, amount.value, q).1.Failure? ==>
      Withdraw(s, purse, amount.value, q).0 == s
    {
      WithdrawFrame(s, purse, amount.value, q);
    }
  }

  /** Makes one payment of many. */
  method Combine(l: PaymentLedger, purse: Purse, srcPayments: seq<Payment>, expected: Option<Amount -> bool>)
    returns (r: Result<Payment, LedgerError>)
    requires l.Valid() && purse in l.purses
    modifies l`paymentLedger, l`paymentRecoverySets, l`issued, l`origin, purse`currentBalance, l.Stores()
    ensures if Doubled(l.info, Stake(old(l.View()), purse, Members(srcPayments))) then l.Intact() else l.Valid()
    ensures r.Success? ==>
      fresh(r.value) && (l.View(), r) == CombineSpec(old(l.View()), purse, srcPayments, expected, r.value)
    ensures r.Failure? ==>
      forall q :: CombineSpec(old(l.View()), purse, srcPayments, expected, q) == (l.View(), r)
  {
    ManyDeposits(l.View(), purse, srcPayments);
    var ds := DepositInputs(l, purse, srcPayments);
    var amounts := AllOf(ds);
    if amounts.Failure? {
      return Failure(amounts.error);
    }
    var total := SumAmounts(l.info, amounts.value);
    if total.Failure? {
      return Failure(Math(total.error));
    }
    if !Consistent(total.value, expected) {
      return Failure(AmountMismatch);
    }
    ghost var s := l.View();
    r := l.Withdraw(purse, total.value);
    forall q ensures Withdraw(s, purse, total.value, q).1.Failure? ==>
      Withdraw(s, purse, total.value, q).0 == s
    {
      WithdrawFrame(s, purse, total.value, q);
    }
  }

  /** The withdrawals of a division, unless there is nothing to divide into. */
  method WithdrawPlan(l: PaymentLedger, purse: Purse, amounts: Result<seq<Amount>, LedgerError>,
                      ghost n: nat, ghost any: Payment)
    returns (r: Result<seq<Payment>, LedgerError>, ghost names: seq<Payment>, ghost made: set<Payment>)
    requires l.Valid() && purse in l.purses && (amounts.Success? ==> |amounts.value| == n)
    modifies l`paymentLedger, l`paymentRecoverySets, l`issued, l`origin, purse`currentBalance, l.Stores()
    ensures l.Valid() && |names| == n && ReusedPlanned(old(l.View()), purse, amounts, names) == {}
    ensures (l.View(), r, made) == WithdrawPlanned(old(l.View()), purse, amounts, names)
  {
    if amounts.Failure? {
      return Failure(amounts.error), seq(n, _ => any), {};
    }
    var ws;
    ws, names := WithdrawOutputs(l, purse, amounts.value, any);
    r, made := AllOf(ws), MadeBy(ws);
  }

  /** Splits a payment in two: the given amount and the remainder.  The
      remainder is computed after the deposit, so that a payment that is too
      small ends up in the purse. */
  method Split(l: PaymentLedger, purse: Purse, srcPayment: Payment, amountA: Amount)
    returns (r: Result<seq<Payment>, LedgerError>, ghost names: seq<Payment>, ghost made: set<Payment>)
    requires l.Valid() && purse in l.purses
    modifies l`paymentLedger, l`paymentRecoverySets, l`issued, l`origin, purse`currentBalance, l.Stores()
    ensures |names| == 2 && ReusedIn(old(l.View()), purse, srcPayment, SplitPlan(amountA), names) == {}
    ensures (l.View(), r, made) == Divide(old(l.View()), purse, srcPayment, SplitPlan(amountA), names)
    ensures if r == Failure(Shutdown) then l.Intact() else l.Valid()
  {
    names, made := [srcPayment, srcPayment], {};
    DepositFrame(l.View(), purse, srcPayment);
    var srcAmount := l.Deposit(purse, srcPayment, None);
    if srcAmount.Failure? {
      return Failure(srcAmount.error), names, made;
    }
    r, names, made := WithdrawPlan(l, purse, WithRest(srcAmount.value, amountA), 2, srcPayment);
  }

  /** Splits a payment into payments of the given amounts, if they add up to
      what it holds. */
  method SplitMany(l: PaymentLedger, purse: Purse, srcPayment: Payment, amounts: seq<Amount>)
    returns (r: Result<seq<Payment>, LedgerError>, ghost names: seq<Payment>, ghost made: set<Payment>)
    requires l.Valid() && purse in l.purses
    modifies l`paymentLedger, l`paymentRecoverySets, l`issued, l`origin, purse`currentBalance, l.Stores()
    ensures |names| == |amounts|
    ensures ReusedIn(old(l.View()), purse, srcPayment, SplitManyPlan(l.info, amounts), names) == {}
    ensures (l.View(), r, made) == Divide(old(l.View()), purse, srcPayment, SplitManyPlan(l.info, amounts), names)
    ensures if r == Failure(Shutdown) then l.Intact() else l.Valid()
  {
    names, made := seq(|amounts|, _ => srcPayment), {};
    DepositFrame(l.View(), purse, srcPayment);
    var srcAmount := l.Deposit(purse, srcPayment, None);
    if srcAmount.Failure? {
      return Failure(srcAmount.error), names, made;
    }
    var conserved := RightsConserved(l.info, srcAmount.value, amounts);
    r, names, made := WithdrawPlan(l, purse, conserved, |amounts|, srcPayment);
  }
}
