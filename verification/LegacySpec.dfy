/** The helpers `claim`, `combine`, `split` and `splitMany` on values.

    Each deposits some payments in a recovery purse, looks at what that gave,
    and makes withdrawals.  Any of these may fail, and none is undone.  It is
    proved exactly when each helper succeeds, and what becomes of the purse,
    the input payments and the new payments on every exit. */
module LegacySpec {
  import opened Wrappers
  import opened AmountMath
  import opened IssuerKit
  import opened LedgerSpec
  import opened LedgerRuns

  function Init<T>(s: seq<T>): seq<T>
    requires s != []
  {
    s[..|s| - 1]
  }

  function Last<T>(s: seq<T>): T
    requires s != []
  {
    s[|s| - 1]
  }

  /** What a purse and some payments hold between them. */
  ghost function Stake<P, Q>(s: State<P, Q>, p: P, qs: set<Q>): multiset<Key>
    requires p in s.balances
  {
    Rights(s.balances[p].value) + Total(Held(s.live, qs))
  }

  /** Nothing but the purse `p` and the payments `qs` has changed. */
  ghost predicate Apart<P, Q>(s: State<P, Q>, s': State<P, Q>, p: P, qs: set<Q>) {
    && s'.info == s.info && s'.mode == s.mode && s'.minted == s.minted && s'.burned == s.burned
    && s'.balances - {p} == s.balances - {p}
    && s'.live - qs == s.live - qs
  }

  /** The purse and the inputs have turned into the purse, the inputs and the
      new payments `outs`, and nothing else has changed. */
  ghost predicate NothingLost<P, Q>(s: State<P, Q>, s': State<P, Q>, p: P, ins: set<Q>, outs: set<Q>) {
    && p in s.balances && p in s'.balances
    && Apart(s, s', p, ins + outs)
    && outs !! s.issued && s.issued + outs <= s'.issued
    && Stake(s', p, ins + outs) == Stake(s, p, ins)
  }

  lemma StakeIn<Q>(b: Amount, b': Amount, live: map<Q, Amount>, qs: set<Q>, q: Q)
    requires q in qs && q in live && Rights(b'.value) == Rights(b.value) + Rights(live[q].value)
    ensures Rights(b'.value) + Total(Held(live - {q}, qs)) == Rights(b.value) + Total(Held(live, qs))
  {
    HeldStep(live, qs, q, Rights(b.value));
    assert Held(live - {q}, qs - {q}) == Held(live - {q}, qs);
  }

  lemma StakeOut<Q>(b: Amount, b': Amount, live: map<Q, Amount>, qs: set<Q>, q: Q, a: Amount)
    requires q !in qs && Rights(b.value) == Rights(b'.value) + Rights(a.value)
    ensures Rights(b'.value) + Total(Held(live[q := a], qs + {q})) == Rights(b.value) + Total(Held(live, qs))
  {
    assert Held(live[q := a], qs + {q}) == Held(live, qs)[q := a];
    TotalGrows(Held(live, qs), q, a, Rights(a.value));
  }

  lemma DepositKeepsStake<P, Q>(s: State<P, Q>, p: P, q: Q, expected: Option<Amount -> bool>, qs: set<Q>)
    requires Sound(s) && p in s.balances && q in qs && Deposit(s, p, q, expected).1.Success?
    ensures Stake(Deposit(s, p, q, expected).0, p, qs) == Stake(s, p, qs)
  {
    DepositOutcome(s, p, q, expected);
    StakeIn(s.balances[p], Deposit(s, p, q, expected).0.balances[p], s.live, qs, q);
  }

  lemma DepositApart<P, Q>(s: State<P, Q>, p: P, q: Q, expected: Option<Amount -> bool>, qs: set<Q>)
    requires p in s.balances && q in qs && Deposit(s, p, q, expected).1 != Failure(Shutdown)
    ensures Apart(s, Deposit(s, p, q, expected).0, p, qs)
    ensures Deposit(s, p, q, expected).0.issued == s.issued
  {
    var s' := Deposit(s, p, q, expected).0;
    assert s'.balances - {p} == s.balances - {p};
    assert s.live - {q} - qs == s.live - qs;
  }

  lemma InitEffects<P, Q>(s: State<P, Q>, q: Q, a: Amount, home: Option<P>)
    requires home.Some? ==> home.value in s.recovery
    ensures
      var s' := InitPayment(s, q, a, home);
      s'.live == s.live[q := a] && s'.issued == s.issued + {q} && s'.balances == s.balances
      && s'.info == s.info && s'.mode == s.mode && s'.minted == s.minted && s'.burned == s.burned
  {
  }

  lemma WithdrawEffects<P, Q>(s: State<P, Q>, p: P, amount: Amount, q: Q)
    requires p in s.balances && p in s.recovery && Withdraw(s, p, amount, q).1.Success?
    ensures
      var s' := Withdraw(s, p, amount, q).0;
      && s'.live == s.live[q := amount] && s'.issued == s.issued + {q}
      && s'.info == s.info && s'.mode == s.mode && s'.minted == s.minted && s'.burned == s.burned
      && p in s'.balances && s'.balances == s.balances[p := s'.balances[p]]
      && Rights(amount.value) <= Rights(s.balances[p].value)
      && Rights(s'.balances[p].value) == Rights(s.balances[p].value) - Rights(amount.value)
  {
    var rest := Subtract(s.balances[p], amount, None).value;
    InitEffects(s.(balances := s.balances[p := rest]), q, amount,
                if s.mode == HasRecoverySets then Some(p) else None);
  }

  lemma WithdrawKeepsStake<P, Q>(s: State<P, Q>, p: P, amount: Amount, q: Q, qs: set<Q>)
    requires p in s.balances && p in s.recovery && q !in qs && Withdraw(s, p, amount, q).1.Success?
    ensures Stake(Withdraw(s, p, amount, q).0, p, qs + {q}) == Stake(s, p, qs)
  {
    WithdrawEffects(s, p, amount, q);
    StakeOut(s.balances[p], Withdraw(s, p, amount, q).0.balances[p], s.live, qs, q, amount);
  }

  lemma Overwritten<K>(m: map<K, Amount>, ks: set<K>, k: K, a: Amount)
    requires k in ks
    ensures m[k := a] - ks == m - ks
  {
  }

  lemma WithdrawApart<P, Q>(s: State<P, Q>, p: P, amount: Amount, q: Q, qs: set<Q>)
    requires p in s.balances && p in s.recovery && Withdraw(s, p, amount, q).1.Success?
    ensures Apart(s, Withdraw(s, p, amount, q).0, p, qs + {q})
    ensures Withdraw(s, p, amount, q).0.issued == s.issued + {q}
  {
    WithdrawEffects(s, p, amount, q);
    Overwritten(s.balances, {p}, p, Withdraw(s, p, amount, q).0.balances[p]);
    Overwritten(s.live, qs + {q}, q, amount);
  }

  lemma ApartChain<P, Q>(s: State<P, Q>, s': State<P, Q>, s'': State<P, Q>, p: P, qs: set<Q>, qs': set<Q>)
    requires Apart(s, s', p, qs) && Apart(s', s'', p, qs') && qs <= qs'
    ensures Apart(s, s'', p, qs')
  {
    assert s.live - qs' == (s.live - qs) - qs';
    assert s'.live - qs' == (s'.live - qs) - qs';
  }

  lemma OneMore<Q>(ins: set<Q>, outs: set<Q>, q: Q)
    ensures ins + outs + {q} == ins + (outs + {q})
  {
  }

  lemma DepositLosesNothing<P, Q>(s: State<P, Q>, p: P, q: Q, expected: Option<Amount -> bool>)
    requires Sound(s) && p in s.balances
    ensures Deposit(s, p, q, expected).1 != Failure(Shutdown) ==>
              NothingLost(s, Deposit(s, p, q, expected).0, p, {q}, {})
  {
    var r := Deposit(s, p, q, expected).1;
    if r != Failure(Shutdown) {
      DepositOutcome(s, p, q, expected);
      if r.Success? {
        DepositKeepsStake(s, p, q, expected, {q});
      }
      DepositApart(s, p, q, expected, {q});
      assert {q} + {} == {q};
    }
  }

  /** What a deposit does to the recovery set of the purse: a payment that is
      used up leaves it. */
  lemma DepositUnlists<P, Q>(s: State<P, Q>, p: P, q: Q, expected: Option<Amount -> bool>)
    requires Sound(s) && p in s.balances
    ensures
      var (s', r) := Deposit(s, p, q, expected);
      p in s'.recovery && s'.recovery[p] == if r == Failure(AmountMismatch) then s.recovery[p] else s.recovery[p] - {q}
  {
    if q !in s.live {
      assert forall o | o in s.recovery[p] :: Valuable(s.live, o);
    }
  }

  lemma WithdrawLosesNothing<P, Q>(s0: State<P, Q>, s: State<P, Q>, p: P, amount: Amount, q: Q,
                                   ins: set<Q>, outs: set<Q>)
    requires p in s.recovery && NothingLost(s0, s, p, ins, outs) && q !in s.issued && q !in ins
    ensures Withdraw(s, p, amount, q).1.Success? ==>
              NothingLost(s0, Withdraw(s, p, amount, q).0, p, ins, outs + {q})
  {
    var (s', r) := Withdraw(s, p, amount, q);
    if r.Success? {
      WithdrawKeepsStake(s, p, amount, q, ins + outs);
      WithdrawApart(s, p, amount, q, ins + outs);
      WithdrawEffects(s, p, amount, q);
      StillNothingLost(s0, s, s', p, q, ins, outs);
    }
  }

  lemma StillNothingLost<P, Q>(s0: State<P, Q>, s: State<P, Q>, s': State<P, Q>, p: P, q: Q, ins: set<Q>, outs: set<Q>)
    requires NothingLost(s0, s, p, ins, outs) && q !in s.issued && p in s'.balances
    requires Apart(s, s', p, ins + outs + {q}) && s'.issued == s.issued + {q}
    requires Stake(s', p, ins + outs + {q}) == Stake(s, p, ins + outs)
    ensures NothingLost(s0, s', p, ins, outs + {q})
  {
    OneMore(ins, outs, q);
    ApartChain(s0, s, s', p, ins + outs, ins + (outs + {q}));
  }

  // ---------------------------------------------------------------- sums

  ghost function SumRights(amounts: seq<Amount>): multiset<Key> {
    if amounts == [] then multiset{}
    else SumRights(amounts[..|amounts| - 1]) + Rights(amounts[|amounts| - 1].value)
  }

  ghost function Members<Q>(srcs: seq<Q>): set<Q> {
    set q | q in srcs
  }

  lemma MembersNext<Q>(srcs: seq<Q>, last: Q)
    requires last !in srcs
    ensures last in Members(srcs + [last]) && Members(srcs + [last]) - {last} == Members(srcs)
  {
    assert (srcs + [last])[|srcs|] == last;
    forall q | q in srcs ensures q in srcs + [last] {
      var j :| 0 <= j < |srcs| && srcs[j] == q;
      assert (srcs + [last])[j] == q;
    }
  }

  lemma HeldWithout<Q>(live: map<Q, Amount>, qs: set<Q>, q: Q)
    requires q in qs && q in live
    ensures Total(Held(live, qs)) == Rights(live[q].value) + Total(Held(live, qs - {q}))
  {
    TotalSplits(Held(live, qs), q);
    assert Held(live, qs) - {q} == Held(live, qs - {q});
  }

  lemma {:induction false} SumIsTotal<Q>(live: map<Q, Amount>, srcs: seq<Q>, amounts: seq<Amount>)
    requires |srcs| == |amounts| && Distinct(srcs)
    requires forall j | 0 <= j < |srcs| :: srcs[j] in live && live[srcs[j]] == amounts[j]
    ensures SumRights(amounts) == Total(Held(live, Members(srcs)))
    decreases |srcs|
  {
    if srcs == [] {
      assert Held(live, Members(srcs)) == map[];
    } else {
      var n := |srcs| - 1;
      SumIsTotal(live, srcs[..n], amounts[..n]);
      assert srcs[..n] + [srcs[n]] == srcs;
      MembersNext(srcs[..n], srcs[n]);
      HeldWithout(live, Members(srcs), srcs[n]);
    }
  }

  /** Adds up amounts from the left, starting with nothing. */
  function SumAmounts(info: AssetInfo, amounts: seq<Amount>): (total: Result<Amount, MathError>)
    ensures total.Success? ==>
      && total.value.brand == info.brand && KindOf(total.value.value) == info.kind && Natural(total.value.value)
      && Rights(total.value.value) == SumRights(amounts)
  {
    if amounts == [] then Success(MakeEmpty(info.brand, info.kind))
    else
      var sum :- SumAmounts(info, amounts[..|amounts| - 1]);
      AmountMath.Add(sum, amounts[|amounts| - 1], Some(info.brand))
  }

  /** The sum of amounts that do not overlap exists. */
  lemma {:induction false} SumExists(info: AssetInfo, amounts: seq<Amount>)
    requires forall j | 0 <= j < |amounts| :: Fits(info, amounts[j])
    requires SetLike(info.kind) ==> NoDuplicates(SumRights(amounts))
    ensures SumAmounts(info, amounts).Success?
  {
    if amounts == [] {
    } else {
      var n := |amounts| - 1;
      assert forall k :: SumRights(amounts[..n])[k] <= SumRights(amounts)[k];
      SumExists(info, amounts[..n]);
      Overlapping(SumRights(amounts[..n]), Rights(amounts[n].value), SumRights(amounts));
    }
  }

  lemma Overlapping(a: multiset<Key>, b: multiset<Key>, all: multiset<Key>)
    requires a + b <= all
    ensures NoDuplicates(all) ==> a !! b
  {
    if NoDuplicates(all) {
      forall k ensures k !in a || k !in b {
        assert (a + b)[k] <= all[k];
      }
    }
  }

  lemma MembersLast<Q>(srcs: seq<Q>)
    requires srcs != []
    ensures Members(srcs) == Members(Init(srcs)) + {Last(srcs)}
  {
    assert srcs == Init(srcs) + [Last(srcs)];
  }

  // -------------------------------------------------------- many deposits

  /** Every deposit is tried, whatever became of the ones before it, even if
      one failed past its commit point. */
  ghost function DepositEvery<P, Q>(s: State<P, Q>, p: P, srcs: seq<Q>)
    : (r: (State<P, Q>, seq<Result<Amount, LedgerError>>))
    requires p in s.balances
    ensures p in r.0.balances && |r.1| == |srcs|
    decreases |srcs|
  {
    if srcs == [] then (s, [])
    else
      var (s1, ds) := DepositEvery(s, p, Init(srcs));
      var (s', d) := Deposit(s1, p, Last(srcs), None);
      (s', ds + [d])
  }

  /** All the values, or the first failure. */
  function AllOf<T>(rs: seq<Result<T, LedgerError>>): (r: Result<seq<T>, LedgerError>)
    ensures r.Success? ==> |r.value| == |rs|
  {
    if rs == [] then Success([])
    else
      var values :- AllOf(Init(rs));
      var value :- Last(rs);
      Success(values + [value])
  }

  lemma {:induction false} AllOfExactly<T>(rs: seq<Result<T, LedgerError>>)
    ensures AllOf(rs).Success? ==> forall i | 0 <= i < |rs| :: rs[i] == Success(AllOf(rs).value[i])
    ensures AllOf(rs).Failure? ==>
      exists i | 0 <= i < |rs| :: rs[i] == Failure(AllOf(rs).error) && forall j | 0 <= j < i :: rs[j].Success?
    decreases |rs|
  {
    if rs != [] {
      AllOfExactly(Init(rs));
      if AllOf(Init(rs)).Failure? {
        var i :|
          0 <= i < |Init(rs)| && Init(rs)[i] == Failure(AllOf(rs).error) && forall j | 0 <= j < i :: rs[j].Success?;
        assert rs[i] == Failure(AllOf(rs).error);
      } else {
        assert forall j | 0 <= j < |rs| - 1 :: Init(rs)[j] == rs[j];
        assert rs[|rs| - 1] == Last(rs);
      }
    }
  }

  predicate AnyShutdown(ds: seq<Result<Amount, LedgerError>>) {
    ds != [] && (AnyShutdown(Init(ds)) || Last(ds) == Failure(Shutdown))
  }

  lemma Appended<T>(rs: seq<T>, r: T)
    ensures Init(rs + [r]) == rs && Last(rs + [r]) == r
  {
  }

  /** `srcs` are different payments, all live. */
  ghost predicate AllThere<Q>(live: map<Q, Amount>, srcs: seq<Q>) {
    Distinct(srcs) && forall q | q in srcs :: q in live
  }

  lemma ThereLast<Q>(live: map<Q, Amount>, srcs: seq<Q>)
    requires srcs != []
    ensures AllThere(live, srcs) <==> AllThere(live, Init(srcs)) && Last(srcs) in live - Members(Init(srcs))
  {
    var init, q := Init(srcs), Last(srcs);
    assert srcs == init + [q];
    if AllThere(live, srcs) {
      assert q in srcs;
      forall i | 0 <= i < |init| ensures init[i] != q && init[i] in live {
        assert srcs[i] == init[i] && srcs[i] in srcs;
      }
    }
    if AllThere(live, init) && q in live - Members(init) {
      forall i, j | 0 <= i < j < |srcs| ensures srcs[i] != srcs[j] {
        assert srcs[i] == init[i] && init[i] in init;
      }
    }
  }

  /** What the inputs hold, one by one. */
  ghost function AmountsOf<Q>(live: map<Q, Amount>, srcs: seq<Q>): (amounts: seq<Amount>)
    requires AllThere(live, srcs)
    ensures |amounts| == |srcs|
    ensures forall i | 0 <= i < |srcs| :: srcs[i] in live && amounts[i] == live[srcs[i]]
  {
    assert forall i | 0 <= i < |srcs| :: srcs[i] in srcs;
    seq(|srcs|, i requires 0 <= i < |srcs| => live[srcs[i]])
  }

  /** A deposit without an expected amount uses the payment up, whatever it
      says. */
  lemma DepositFrame<P, Q>(s: State<P, Q>, p: P, q: Q)
    requires p in s.balances
    ensures
      var (s', d) := Deposit(s, p, q, None);
      && s'.info == s.info && s'.mode == s.mode && s'.minted == s.minted && s'.burned == s.burned
      && s'.issued == s.issued && s'.balances - {p} == s.balances - {p} && s'.live == s.live - {q}
      && (d.Success? ==> q in s.live && d.value == s.live[q])
      && (d.Failure? ==> s'.balances == s.balances && (d.error == NotLive || d.error == Shutdown))
      && (d == Failure(NotLive) <==> q !in s.live)
  {
    var s' := Deposit(s, p, q, None).0;
    assert s'.balances - {p} == s.balances - {p};
    if q !in s.live {
      assert s.live - {q} == s.live;
    }
  }

  /** Every input is used up, and of the rest of the ledger only the balance
      of the purse can change. */
  lemma {:induction false} EveryFrame<P, Q>(s: State<P, Q>, p: P, srcs: seq<Q>)
    requires p in s.balances
    ensures
      var s' := DepositEvery(s, p, srcs).0;
      && s'.info == s.info && s'.mode == s.mode && s'.minted == s.minted && s'.burned == s.burned
      && s'.issued == s.issued && s'.balances - {p} == s.balances - {p} && s'.live == s.live - Members(srcs)
    decreases |srcs|
  {
    if srcs == [] {
      assert s.live - Members(srcs) == s.live;
    } else {
      var s1 := DepositEvery(s, p, Init(srcs)).0;
      EveryFrame(s, p, Init(srcs));
      DepositFrame(s1, p, Last(srcs));
      MembersLast(srcs);
      assert s.live - Members(Init(srcs)) - {Last(srcs)} == s.live - Members(srcs);
    }
  }

  lemma {:induction false} EverySound<P, Q>(s: State<P, Q>, p: P, srcs: seq<Q>)
    requires Sound(s) && p in s.balances
    ensures Sound(DepositEvery(s, p, srcs).0)
    decreases |srcs|
  {
    if srcs == [] {
    } else {
      EverySound(s, p, Init(srcs));
      DepositSound(DepositEvery(s, p, Init(srcs)).0, p, Last(srcs), None);
    }
  }

  lemma {:induction false} EveryUnlists<P, Q>(s: State<P, Q>, p: P, srcs: seq<Q>)
    requires Sound(s) && p in s.balances
    ensures
      var s' := DepositEvery(s, p, srcs).0;
      p in s.recovery && p in s'.recovery && s'.recovery[p] == s.recovery[p] - Members(srcs)
    decreases |srcs|
  {
    if srcs == [] {
    } else {
      var s1 := DepositEvery(s, p, Init(srcs)).0;
      EveryUnlists(s, p, Init(srcs));
      EverySound(s, p, Init(srcs));
      DepositUnlists(s1, p, Last(srcs), None);
      DepositFrame(s1, p, Last(srcs));
      MembersLast(srcs);
    }
  }

  /** What the deposits that failed past their commit point used up. */
  ghost function Lost<P, Q>(s: State<P, Q>, p: P, srcs: seq<Q>): multiset<Key>
    requires p in s.balances
    decreases |srcs|
  {
    if srcs == [] then multiset{}
    else Lost(s, p, Init(srcs)) + LostNext(DepositEvery(s, p, Init(srcs)).0, p, Last(srcs))
  }

  ghost function LostNext<P, Q>(s: State<P, Q>, p: P, q: Q): multiset<Key>
    requires p in s.balances
  {
    if Deposit(s, p, q, None).1 == Failure(Shutdown) then Rights(s.live[q].value) else multiset{}
  }

  lemma HeldLast<Q>(live: map<Q, Amount>, srcs: seq<Q>)
    requires srcs != []
    ensures
      var q, before := Last(srcs), Members(Init(srcs));
      Total(Held(live, Members(srcs))) ==
      Total(Held(live, before)) + if q in live - before then Rights(live[q].value) else multiset{}
  {
    var q, before := Last(srcs), Members(Init(srcs));
    MembersLast(srcs);
    if q in live - before {
      HeldWithout(live, Members(srcs), q);
      assert Members(srcs) - {q} == before;
    } else {
      assert Held(live, Members(srcs)) == Held(live, before);
    }
  }

  /** What one deposit adds to the purse and what it loses is what the payment
      held. */
  lemma DepositGains<P, Q>(s: State<P, Q>, p: P, q: Q)
    requires Sound(s) && p in s.balances
    ensures Rights(Deposit(s, p, q, None).0.balances[p].value) + LostNext(s, p, q) ==
            Rights(s.balances[p].value) + if q in s.live then Rights(s.live[q].value) else multiset{}
    ensures Deposit(s, p, q, None).1 == Failure(Shutdown) <==>
            q in s.live && Clashes(s.info, s.balances[p], s.live[q])
  {
    DepositOutcome(s, p, q, None);
  }

  /** The purse gains what the inputs held, except for what is lost. */
  lemma {:induction false} EveryGains<P, Q>(s: State<P, Q>, p: P, srcs: seq<Q>)
    requires Sound(s) && p in s.balances
    ensures Rights(DepositEvery(s, p, srcs).0.balances[p].value) + Lost(s, p, srcs) == Stake(s, p, Members(srcs))
    decreases |srcs|
  {
    if srcs == [] {
      assert Held(s.live, Members(srcs)) == map[];
    } else {
      EveryGains(s, p, Init(srcs));
      EverySound(s, p, Init(srcs));
      EveryFrame(s, p, Init(srcs));
      GainsNext(s.live, Members(Init(srcs)), DepositEvery(s, p, Init(srcs)).0, p, Last(srcs));
      GainsLast(s, p, srcs, DepositEvery(s, p, Init(srcs)).0);
    }
  }

  lemma GainsNext<P, Q>(live: map<Q, Amount>, qs: set<Q>, s: State<P, Q>, p: P, q: Q)
    requires Sound(s) && p in s.balances && s.live == live - qs
    ensures Rights(Deposit(s, p, q, None).0.balances[p].value) + LostNext(s, p, q) ==
            Rights(s.balances[p].value) + HeldNext(live, qs, q)
  {
    DepositGains(s, p, q);
  }

  lemma GainsLast<P, Q>(s: State<P, Q>, p: P, srcs: seq<Q>, s1: State<P, Q>)
    requires p in s.balances && srcs != [] && s1 == DepositEvery(s, p, Init(srcs)).0
    requires Rights(Deposit(s1, p, Last(srcs), None).0.balances[p].value) + LostNext(s1, p, Last(srcs)) ==
             Rights(s1.balances[p].value) + HeldNext(s.live, Members(Init(srcs)), Last(srcs))
    requires Rights(s1.balances[p].value) + Lost(s, p, Init(srcs)) == Stake(s, p, Members(Init(srcs)))
    ensures Rights(DepositEvery(s, p, srcs).0.balances[p].value) + Lost(s, p, srcs) == Stake(s, p, Members(srcs))
  {
    var q := Last(srcs);
    StakeLast(s, p, srcs);
    AddedUp(Rights(s1.balances[p].value), Lost(s, p, Init(srcs)), Stake(s, p, Members(Init(srcs))),
            Rights(Deposit(s1, p, q, None).0.balances[p].value), LostNext(s1, p, q),
            HeldNext(s.live, Members(Init(srcs)), q));
  }

  lemma AddedUp(b: multiset<Key>, l: multiset<Key>, all: multiset<Key>,
                b': multiset<Key>, l': multiset<Key>, x: multiset<Key>)
    requires b + l == all && b' + l' == b + x
    ensures b' + (l + l') == all + x
  {
    assert b' + (l + l') == (b' + l') + l == b + l + x;
  }

  /** What a payment adds to those held already. */
  ghost function HeldNext<Q>(live: map<Q, Amount>, qs: set<Q>, q: Q): multiset<Key> {
    if q in live - qs then Rights(live[q].value) else multiset{}
  }

  lemma StakeLast<P, Q>(s: State<P, Q>, p: P, srcs: seq<Q>)
    requires p in s.balances && srcs != []
    ensures Stake(s, p, Members(srcs)) ==
            Stake(s, p, Members(Init(srcs))) + HeldNext(s.live, Members(Init(srcs)), Last(srcs))
  {
    HeldLast(s.live, srcs);
  }

  /** Something set-like is in there twice. */
  ghost predicate Doubled(info: AssetInfo, m: multiset<Key>) {
    SetLike(info.kind) && !NoDuplicates(m)
  }

  lemma PartNotDoubled(info: AssetInfo, all: multiset<Key>, part: multiset<Key>)
    requires part <= all && Doubled(info, part)
    ensures Doubled(info, all)
  {
    var k :| part[k] > 1;
    assert part[k] <= all[k];
  }

  lemma StakeGrows<P, Q>(s: State<P, Q>, p: P, srcs: seq<Q>)
    requires p in s.balances && srcs != []
    ensures Stake(s, p, Members(Init(srcs))) <= Stake(s, p, Members(srcs))
  {
    HeldLast(s.live, srcs);
  }

  lemma {:induction false} ShutdownDoubles<P, Q>(s: State<P, Q>, p: P, srcs: seq<Q>)
    requires Sound(s) && p in s.balances && AnyShutdown(DepositEvery(s, p, srcs).1)
    ensures Doubled(s.info, Stake(s, p, Members(srcs)))
    decreases |srcs|
  {
    var (s1, ds) := DepositEvery(s, p, Init(srcs));
    Appended(ds, Deposit(s1, p, Last(srcs), None).1);
    if AnyShutdown(ds) {
      ShutdownDoubles(s, p, Init(srcs));
      StakeGrows(s, p, srcs);
      PartNotDoubled(s.info, Stake(s, p, Members(srcs)), Stake(s, p, Members(Init(srcs))));
    } else {
      LastClash(s, p, srcs);
    }
  }

  lemma PartOf(b: multiset<Key>, l: multiset<Key>, x: multiset<Key>)
    ensures b + x <= (b + l) + x
  {
  }

  lemma LastClash<P, Q>(s: State<P, Q>, p: P, srcs: seq<Q>)
    requires Sound(s) && p in s.balances && srcs != []
    requires Deposit(DepositEvery(s, p, Init(srcs)).0, p, Last(srcs), None).1 == Failure(Shutdown)
    ensures Doubled(s.info, Stake(s, p, Members(srcs)))
  {
    var s1 := DepositEvery(s, p, Init(srcs)).0;
    EverySound(s, p, Init(srcs));
    EveryFrame(s, p, Init(srcs));
    EveryGains(s, p, Init(srcs));
    DepositGains(s1, p, Last(srcs));
    StakeLast(s, p, srcs);
    PartOf(Rights(s1.balances[p].value), Lost(s, p, Init(srcs)), Rights(s1.live[Last(srcs)].value));
    ClashDuplicates(s.info, s1.balances[p], s1.live[Last(srcs)], Stake(s, p, Members(srcs)));
  }

  lemma {:induction false} LostExactly<P, Q>(s: State<P, Q>, p: P, srcs: seq<Q>)
    requires Sound(s) && p in s.balances
    ensures Lost(s, p, srcs) != multiset{} <==> AnyShutdown(DepositEvery(s, p, srcs).1)
    decreases |srcs|
  {
    if srcs == [] {
    } else {
      var (s1, ds) := DepositEvery(s, p, Init(srcs));
      LostExactly(s, p, Init(srcs));
      EverySound(s, p, Init(srcs));
      DepositGains(s1, p, Last(srcs));
      Appended(ds, Deposit(s1, p, Last(srcs), None).1);
    }
  }

  /** Some deposit fails past its commit point, and something is lost, if and
      only if the asset is set-like and the purse and the live inputs have
      something twice between them. */
  lemma ShutdownExactly<P, Q>(s: State<P, Q>, p: P, srcs: seq<Q>)
    requires Sound(s) && p in s.balances
    ensures AnyShutdown(DepositEvery(s, p, srcs).1) <==> Doubled(s.info, Stake(s, p, Members(srcs)))
    ensures Lost(s, p, srcs) != multiset{} <==> Doubled(s.info, Stake(s, p, Members(srcs)))
  {
    LostExactly(s, p, srcs);
    if AnyShutdown(DepositEvery(s, p, srcs).1) {
      ShutdownDoubles(s, p, srcs);
    } else {
      EveryGains(s, p, srcs);
      EverySound(s, p, srcs);
      EveryFrame(s, p, srcs);
      if SetLike(s.info.kind) {
        NoDuplicatesInSet(s.info, DepositEvery(s, p, srcs).0.balances[p]);
      }
    }
  }

  /** Every deposit succeeds if and only if none fails past its commit point
      and the inputs are different and live; the results are what they held. */
  lemma {:induction false} SuccessExactly<P, Q>(s: State<P, Q>, p: P, srcs: seq<Q>)
    requires p in s.balances
    ensures AllOf(DepositEvery(s, p, srcs).1).Success? <==>
            AllThere(s.live, srcs) && !AnyShutdown(DepositEvery(s, p, srcs).1)
    ensures AllOf(DepositEvery(s, p, srcs).1).Success? ==>
            AllOf(DepositEvery(s, p, srcs).1).value == AmountsOf(s.live, srcs)
    decreases |srcs|
  {
    if srcs == [] {
    } else {
      var (s1, ds) := DepositEvery(s, p, Init(srcs));
      var d := Deposit(s1, p, Last(srcs), None).1;
      Appended(ds, d);
      SuccessExactly(s, p, Init(srcs));
      EveryFrame(s, p, Init(srcs));
      DepositFrame(s1, p, Last(srcs));
      ThereLast(s.live, srcs);
      if AllThere(s.live, srcs) {
        AmountsLast(s.live, srcs);
      }
    }
  }

  lemma AmountsLast<Q>(live: map<Q, Amount>, srcs: seq<Q>)
    requires srcs != [] && AllThere(live, srcs) && AllThere(live, Init(srcs)) && Last(srcs) in live
    ensures AmountsOf(live, srcs) == AmountsOf(live, Init(srcs)) + [live[Last(srcs)]]
  {
  }

  /** If nothing is lost, rights are conserved. */
  lemma {:induction false} EveryConserves<P, Q>(s: State<P, Q>, p: P, srcs: seq<Q>)
    requires Inv(s) && p in s.balances && !AnyShutdown(DepositEvery(s, p, srcs).1)
    ensures Inv(DepositEvery(s, p, srcs).0)
    decreases |srcs|
  {
    if srcs == [] {
    } else {
      var (s1, ds) := DepositEvery(s, p, Init(srcs));
      Appended(ds, Deposit(s1, p, Last(srcs), None).1);
      EveryConserves(s, p, Init(srcs));
      DepositKeeps(s1, p, Last(srcs), None);
    }
  }

  lemma NothingLostInEvery<P, Q>(s: State<P, Q>, p: P, srcs: seq<Q>)
    requires Sound(s) && p in s.balances && !AnyShutdown(DepositEvery(s, p, srcs).1)
    ensures NothingLost(s, DepositEvery(s, p, srcs).0, p, Members(srcs), {})
  {
    var s' := DepositEvery(s, p, srcs).0;
    EveryFrame(s, p, srcs);
    EveryGains(s, p, srcs);
    LostExactly(s, p, srcs);
    NoneHeld(s, s', p, Members(srcs));
  }

  lemma NoneHeld<P, Q>(s: State<P, Q>, s': State<P, Q>, p: P, qs: set<Q>)
    requires p in s.balances && p in s'.balances && s'.issued == s.issued
    requires s'.info == s.info && s'.mode == s.mode && s'.minted == s.minted && s'.burned == s.burned
    requires s'.balances - {p} == s.balances - {p} && s'.live == s.live - qs
    requires Rights(s'.balances[p].value) == Stake(s, p, qs)
    ensures NothingLost(s, s', p, qs, {})
  {
    assert qs + {} == qs && s'.live - qs == s.live - qs;
    assert Held(s'.live, qs) == map[];
  }

  // ------------------------------------------------------ many withdrawals

  /** Every withdrawal is tried, whatever became of the ones before it.  The
      payments that are made are named in advance. */
  ghost function WithdrawEvery<P, Q>(s: State<P, Q>, p: P, amounts: seq<Amount>, names: seq<Q>)
    : (r: (State<P, Q>, seq<Result<Q, LedgerError>>))
    requires p in s.balances && p in s.recovery && |names| == |amounts|
    ensures p in r.0.balances && p in r.0.recovery && |r.1| == |amounts|
    decreases |amounts|
  {
    if amounts == [] then (s, [])
    else
      var (s1, ws) := WithdrawEvery(s, p, Init(amounts), Init(names));
      var (s', w) := Withdraw(s1, p, Last(amounts), Last(names));
      (s', ws + [w])
  }

  /** The names of payments that are made but were in use before. */
  ghost function Reused<P, Q>(s: State<P, Q>, p: P, amounts: seq<Amount>, names: seq<Q>): set<Q>
    requires p in s.balances && p in s.recovery && |names| == |amounts|
    decreases |amounts|
  {
    if amounts == [] then {}
    else
      var s1 := WithdrawEvery(s, p, Init(amounts), Init(names)).0;
      Reused(s, p, Init(amounts), Init(names)) +
      if Withdraw(s1, p, Last(amounts), Last(names)).1.Success? && Last(names) in s1.issued then {Last(names)} else {}
  }

  /** The names of payments that are made are new. */
  ghost predicate New<P, Q>(s: State<P, Q>, p: P, amounts: seq<Amount>, names: seq<Q>)
    requires p in s.balances && p in s.recovery && |names| == |amounts|
  {
    Reused(s, p, amounts, names) == {}
  }

  lemma WithdrawNext<P, Q>(s: State<P, Q>, p: P, amounts: seq<Amount>, names: seq<Q>, q: Q)
    requires p in s.balances && p in s.recovery && amounts != [] && |names| + 1 == |amounts|
    requires New(s, p, Init(amounts), names)
    requires var s1 := WithdrawEvery(s, p, Init(amounts), names).0;
             Withdraw(s1, p, Last(amounts), q).1.Success? ==> q !in s1.issued
    ensures New(s, p, amounts, names + [q])
    ensures
      var (s1, ws) := WithdrawEvery(s, p, Init(amounts), names);
      var (s', w) := Withdraw(s1, p, Last(amounts), q);
      WithdrawEvery(s, p, amounts, names + [q]) == (s', ws + [w])
  {
    Appended(names, q);
  }

  /** The payments that were made. */
  ghost function MadeBy<Q>(ws: seq<Result<Q, LedgerError>>): set<Q> {
    if ws == [] then {}
    else MadeBy(Init(ws)) + if Last(ws).Success? then {Last(ws).value} else {}
  }

  lemma {:induction false} WithdrawEveryKeeps<P, Q>(s: State<P, Q>, p: P, amounts: seq<Amount>, names: seq<Q>)
    requires Inv(s) && p in s.balances && |names| == |amounts| && New(s, p, amounts, names)
    ensures Inv(WithdrawEvery(s, p, amounts, names).0)
    decreases |amounts|
  {
    if amounts == [] {
    } else {
      var s1 := WithdrawEvery(s, p, Init(amounts), Init(names)).0;
      WithdrawEveryKeeps(s, p, Init(amounts), Init(names));
      if Withdraw(s1, p, Last(amounts), Last(names)).1.Success? {
        WithdrawKeeps(s1, p, Last(amounts), Last(names));
      } else {
        WithdrawOutcome(s1, p, Last(amounts), Last(names));
      }
    }
  }

  lemma WithdrawFrame<P, Q>(s: State<P, Q>, p: P, amount: Amount, q: Q)
    requires p in s.balances && p in s.recovery
    ensures
      var (s', w) := Withdraw(s, p, amount, q);
      && s'.info == s.info && s'.mode == s.mode && s.issued <= s'.issued
      && (s.mode == NoRecoverySets ==> s'.recovery == s.recovery)
      && (w.Failure? ==> s' == s) && (w.Success? ==> w.value == q)
  {
  }

  lemma {:induction false} WithdrawEveryFrame<P, Q>(s: State<P, Q>, p: P, amounts: seq<Amount>, names: seq<Q>)
    requires p in s.balances && p in s.recovery && |names| == |amounts|
    ensures
      var s' := WithdrawEvery(s, p, amounts, names).0;
      && s'.info == s.info && s'.mode == s.mode && s.issued <= s'.issued
      && (s.mode == NoRecoverySets ==> s'.recovery == s.recovery)
    decreases |amounts|
  {
    if amounts == [] {
    } else {
      WithdrawEveryFrame(s, p, Init(amounts), Init(names));
      WithdrawFrame(WithdrawEvery(s, p, Init(amounts), Init(names)).0, p, Last(amounts), Last(names));
    }
  }

  /** Whichever withdrawals fail, nothing is lost. */
  lemma {:induction false} WithdrawEveryLosesNothing<P, Q>(
    s0: State<P, Q>, s: State<P, Q>, p: P, ins: set<Q>, amounts: seq<Amount>, names: seq<Q>)
    requires p in s.balances && p in s.recovery && |names| == |amounts| && New(s, p, amounts, names)
    requires NothingLost(s0, s, p, ins, {}) && ins <= s.issued
    ensures
      var (s', ws) := WithdrawEvery(s, p, amounts, names);
      NothingLost(s0, s', p, ins, MadeBy(ws))
    decreases |amounts|
  {
    if amounts == [] {
    } else {
      var (s1, ws) := WithdrawEvery(s, p, Init(amounts), Init(names));
      var w := Withdraw(s1, p, Last(amounts), Last(names)).1;
      WithdrawEveryLosesNothing(s0, s, p, ins, Init(amounts), Init(names));
      WithdrawEveryFrame(s, p, Init(amounts), Init(names));
      WithdrawFrame(s1, p, Last(amounts), Last(names));
      Appended(ws, w);
      if w.Success? {
        WithdrawLosesNothing(s0, s1, p, Last(amounts), Last(names), ins, MadeBy(ws));
      } else {
        assert MadeBy(ws) + {} == MadeBy(ws);
      }
    }
  }

  /** Recovery sets are off, but this purse's is in use. */
  ghost predicate Blocked<P, Q>(s: State<P, Q>, p: P)
    requires p in s.recovery
  {
    s.mode == NoRecoverySets && s.recovery[p] != {}
  }

  /** What is live is what was live before and the new payments `made`. */
  ghost predicate Added<Q>(live0: map<Q, Amount>, live: map<Q, Amount>, made: set<Q>) {
    made !! live0.Keys && live - made == live0 && made <= live.Keys
  }

  lemma NewAdded<Q>(live0: map<Q, Amount>, live: map<Q, Amount>, made: set<Q>, q: Q, a: Amount)
    requires Added(live0, live, made) && q !in live
    ensures Added(live0, live[q := a], made + {q})
  {
    assert live[q := a] - (made + {q}) == live - made;
    assert q !in live - made;
  }

  /** `payments` are different new payments that hold `amounts`. */
  ghost predicate Made<Q>(live0: map<Q, Amount>, live: map<Q, Amount>, payments: seq<Q>, amounts: seq<Amount>) {
    && |payments| == |amounts| && Distinct(payments)
    && forall j | 0 <= j < |payments| ::
         payments[j] !in live0 && payments[j] in live && live[payments[j]] == amounts[j]
  }

  lemma MadeNext<Q>(live0: map<Q, Amount>, live: map<Q, Amount>, payments: seq<Q>, amounts: seq<Amount>,
                    q: Q, a: Amount)
    requires Made(live0, live, payments, amounts) && q !in live && q !in live0
    ensures Made(live0, live[q := a], payments + [q], amounts + [a])
  {
  }

  /** One withdrawal that the purse can afford. */
  lemma AffordableWithdrawal<P, Q>(s: State<P, Q>, p: P, amount: Amount, q: Q)
    requires p in s.balances && p in s.recovery && Fits(s.info, s.balances[p]) && s.live.Keys <= s.issued
    requires Withdraw(s, p, amount, q).1.Success? ==> q !in s.issued
    requires amount.brand == s.info.brand && KindOf(amount.value) == s.info.kind && Natural(amount.value)
    requires Rights(amount.value) <= Rights(s.balances[p].value)
    ensures
      var (s', w) := Withdraw(s, p, amount, q);
      && (w.Success? <==> !Blocked(s, p))
      && (w.Success? ==>
            && w.value == q && s'.live == s.live[q := amount] && q !in s.live
            && Rights(s'.balances[p].value) + Rights(amount.value) == Rights(s.balances[p].value))
  {
    WithdrawOutcome(s, p, amount, q);
    if Withdraw(s, p, amount, q).1.Success? {
      WithdrawEffects(s, p, amount, q);
    }
  }

  lemma Covers(b: multiset<Key>, b1: multiset<Key>, sum: multiset<Key>, a: multiset<Key>)
    requires sum + a <= b && b1 + sum == b
    ensures a <= b1
  {
    forall k ensures a[k] <= b1[k] {
      assert (sum + a)[k] <= b[k] == (b1 + sum)[k];
    }
  }

  lemma Takes(b: multiset<Key>, b1: multiset<Key>, b2: multiset<Key>, sum: multiset<Key>, a: multiset<Key>)
    requires b1 + sum == b && b2 + a == b1
    ensures b2 + (sum + a) == b
  {
    assert b2 + (sum + a) == (b2 + a) + sum;
  }

  /** Amounts that add up to no more than the purse has can all be withdrawn,
      unless the first one is blocked already. */
  lemma {:induction false} WithdrawEverySucceeds<P, Q>(s: State<P, Q>, p: P, amounts: seq<Amount>, names: seq<Q>)
    requires Inv(s) && p in s.balances && |names| == |amounts| && New(s, p, amounts, names)
    requires SumAmounts(s.info, amounts).Success? && SumRights(amounts) <= Rights(s.balances[p].value)
    ensures AllOf(WithdrawEvery(s, p, amounts, names).1).Success? <==> amounts == [] || !Blocked(s, p)
    ensures AllOf(WithdrawEvery(s, p, amounts, names).1).Success? ==>
              AllMade(s, p, amounts, names, WithdrawEvery(s, p, amounts, names).0)
              && AllOf(WithdrawEvery(s, p, amounts, names).1).value == names
    decreases |amounts|
  {
    if amounts == [] {
      assert s.live - {} == s.live;
    } else if Blocked(s, p) {
      AllBlocked(s, p, amounts, names);
    } else {
      var (s1, ws) := WithdrawEvery(s, p, Init(amounts), Init(names));
      SumRightsLast(amounts);
      WithdrawEverySucceeds(s, p, Init(amounts), Init(names));
      WithdrawEveryKeeps(s, p, Init(amounts), Init(names));
      WithdrawEveryFrame(s, p, Init(amounts), Init(names));
      assert Fits(s1.info, s1.balances[p]) && s1.live.Keys <= s1.issued;
      OneMoreWithdrawal(s, p, amounts, names);
    }
  }

  lemma OneMoreWithdrawal<P, Q>(s: State<P, Q>, p: P, amounts: seq<Amount>, names: seq<Q>)
    requires p in s.balances && p in s.recovery && |names| == |amounts| && amounts != []
    requires New(s, p, amounts, names)
    requires SumAmounts(s.info, amounts).Success? && SumRights(amounts) <= Rights(s.balances[p].value)
    requires
      var (s1, ws) := WithdrawEvery(s, p, Init(amounts), Init(names));
      && s1.info == s.info && !Blocked(s1, p) && Fits(s1.info, s1.balances[p]) && s1.live.Keys <= s1.issued
      && AllOf(ws) == Success(Init(names)) && AllMade(s, p, Init(amounts), Init(names), s1)
    ensures
      var (s', ws) := WithdrawEvery(s, p, amounts, names);
      AllOf(ws) == Success(names) && AllMade(s, p, amounts, names, s')
  {
    var (s1, ws) := WithdrawEvery(s, p, Init(amounts), Init(names));
    AllOfLast(ws, Withdraw(s1, p, Last(amounts), Last(names)).1);
    OneMoreSucceeds(s, p, amounts, names, s1);
    Rejoined(names);
  }

  lemma OneMoreSucceeds<P, Q>(s: State<P, Q>, p: P, amounts: seq<Amount>, names: seq<Q>, s1: State<P, Q>)
    requires amounts != [] && |names| == |amounts| && p in s.balances && s1.info == s.info
    requires p in s1.balances && p in s1.recovery && Fits(s1.info, s1.balances[p]) && s1.live.Keys <= s1.issued
    requires !Blocked(s1, p) && AllMade(s, p, Init(amounts), Init(names), s1)
    requires Withdraw(s1, p, Last(amounts), Last(names)).1.Success? ==> Last(names) !in s1.issued
    requires SumAmounts(s1.info, amounts).Success? && SumRights(amounts) <= Rights(s.balances[p].value)
    ensures
      var (s', w) := Withdraw(s1, p, Last(amounts), Last(names));
      w == Success(Last(names)) && p in s'.balances && AllMade(s, p, amounts, names, s')
  {
    LastSucceeds(Rights(s.balances[p].value), p, amounts, Last(names), s1);
    AllMadeNext(s, p, amounts, names, s1, Withdraw(s1, p, Last(amounts), Last(names)).0);
  }

  lemma AllOfLast<T>(rs: seq<Result<T, LedgerError>>, r: Result<T, LedgerError>)
    ensures AllOf(rs + [r]).Success? <==> AllOf(rs).Success? && r.Success?
    ensures AllOf(rs + [r]).Success? ==> AllOf(rs + [r]).value == AllOf(rs).value + [r.value]
  {
    Appended(rs, r);
  }

  lemma BlockedFails<P, Q>(s: State<P, Q>, p: P, amount: Amount, q: Q)
    requires p in s.balances && p in s.recovery && Blocked(s, p)
    ensures Withdraw(s, p, amount, q).1 == Failure(RecoverySetInUse)
  {
  }

  lemma Rejoined<T>(s: seq<T>)
    requires s != []
    ensures Init(s) + [Last(s)] == s
  {
  }

  lemma LastSucceeds<P, Q>(before: multiset<Key>, p: P, amounts: seq<Amount>, q: Q, s1: State<P, Q>)
    requires amounts != [] && p in s1.balances && p in s1.recovery && !Blocked(s1, p)
    requires Fits(s1.info, s1.balances[p]) && s1.live.Keys <= s1.issued
    requires Withdraw(s1, p, Last(amounts), q).1.Success? ==> q !in s1.issued
    requires SumAmounts(s1.info, amounts).Success? && SumRights(amounts) <= before
    requires Rights(s1.balances[p].value) + SumRights(Init(amounts)) == before
    ensures
      var (s', w) := Withdraw(s1, p, Last(amounts), q);
      && w == Success(q) && p in s'.balances && s'.live == s1.live[q := Last(amounts)] && q !in s1.live
      && Rights(s'.balances[p].value) + Rights(Last(amounts).value) == Rights(s1.balances[p].value)
  {
    SumRightsLast(amounts);
    Covers(before, Rights(s1.balances[p].value), SumRights(Init(amounts)), Rights(Last(amounts).value));
    AffordableWithdrawal(s1, p, Last(amounts), q);
  }

  lemma SumRightsLast(amounts: seq<Amount>)
    requires amounts != []
    ensures SumRights(amounts) == SumRights(Init(amounts)) + Rights(Last(amounts).value)
  {
  }

  /** All withdrawals were made: one new payment for each amount, out of the
      purse, and nothing else is new. */
  ghost predicate AllMade<P, Q>(s: State<P, Q>, p: P, amounts: seq<Amount>, names: seq<Q>, s': State<P, Q>)
    requires p in s.balances && p in s'.balances
  {
    && Made(s.live, s'.live, names, amounts) && Added(s.live, s'.live, Members(names))
    && Rights(s'.balances[p].value) + SumRights(amounts) == Rights(s.balances[p].value)
  }

  lemma AllMadeNext<P, Q>(s: State<P, Q>, p: P, amounts: seq<Amount>, names: seq<Q>, s1: State<P, Q>, s': State<P, Q>)
    requires amounts != [] && |names| == |amounts| && p in s.balances && p in s1.balances && p in s'.balances
    requires AllMade(s, p, Init(amounts), Init(names), s1)
    requires s'.live == s1.live[Last(names) := Last(amounts)] && Last(names) !in s1.live
    requires Rights(s'.balances[p].value) + Rights(Last(amounts).value) == Rights(s1.balances[p].value)
    ensures AllMade(s, p, amounts, names, s')
  {
    var q, a := Last(names), Last(amounts);
    assert names == Init(names) + [q] && amounts == Init(amounts) + [a];
    NewAdded(s.live, s1.live, Members(Init(names)), q, a);
    MembersLast(names);
    MadeNext(s.live, s1.live, Init(names), Init(amounts), q, a);
    Takes(Rights(s.balances[p].value), Rights(s1.balances[p].value), Rights(s'.balances[p].value),
          SumRights(Init(amounts)), Rights(a.value));
  }

  // ----------------------------------------------------------- the helpers

  /** The withdrawal of everything that went in. */
  lemma WithdrawBack<P, Q>(s: State<P, Q>, s1: State<P, Q>, p: P, ins: set<Q>, amount: Amount, q: Q)
    requires p in s.balances && Fits(s.info, s.balances[p])
    requires Inv(s1) && NothingLost(s, s1, p, ins, {}) && ins <= s1.issued
    requires amount.brand == s.info.brand && KindOf(amount.value) == s.info.kind && Natural(amount.value)
    requires Rights(s1.balances[p].value) == Rights(s.balances[p].value) + Rights(amount.value)
    requires Withdraw(s1, p, amount, q).1.Success? ==> q !in s1.issued
    ensures
      var (s', w) := Withdraw(s1, p, amount, q);
      && (w.Success? <==> !Blocked(s1, p))
      && (w.Failure? ==> s' == s1)
      && (w.Success? ==>
            && w.value == q && s'.live == s1.live[q := amount] && q !in s1.live
            && Inv(s') && NothingLost(s, s', p, ins, {q}) && s'.balances[p] == s.balances[p])
  {
    var (s', w) := Withdraw(s1, p, amount, q);
    AffordableWithdrawal(s1, p, amount, q);
    if w.Success? {
      NothingLostBack(s, s1, p, ins, amount, q);
      WithdrawKeeps(s1, p, amount, q);
      BalanceBack(s.info, s.balances[p], s1, p, amount, q);
    }
  }

  lemma NothingLostBack<P, Q>(s: State<P, Q>, s1: State<P, Q>, p: P, ins: set<Q>, amount: Amount, q: Q)
    requires p in s1.recovery && NothingLost(s, s1, p, ins, {}) && ins <= s1.issued && q !in s1.issued
    requires Withdraw(s1, p, amount, q).1.Success?
    ensures NothingLost(s, Withdraw(s1, p, amount, q).0, p, ins, {q})
  {
    WithdrawLosesNothing(s, s1, p, amount, q, ins, {});
    assert {} + {q} == {q};
  }

  lemma BalanceBack<P, Q>(info: AssetInfo, before: Amount, s1: State<P, Q>, p: P, amount: Amount, q: Q)
    requires p in s1.balances && p in s1.recovery && s1.info == info && Fits(info, before)
    requires Fits(info, s1.balances[p]) && Rights(s1.balances[p].value) == Rights(before.value) + Rights(amount.value)
    requires Withdraw(s1, p, amount, q).1.Success?
    ensures
      var s' := Withdraw(s1, p, amount, q).0;
      p in s'.balances && s'.balances[p] == before
  {
    WithdrawOutcome(s1, p, amount, q);
    WithdrawEffects(s1, p, amount, q);
    BackAgain(info, before, s1.balances[p], Withdraw(s1, p, amount, q).0.balances[p], Rights(amount.value));
  }

  /** What goes into a purse and comes out again leaves it as it was. */
  lemma BackAgain(info: AssetInfo, before: Amount, mid: Amount, after: Amount, d: multiset<Key>)
    requires Fits(info, before) && Fits(info, after)
    requires Rights(mid.value) == Rights(before.value) + d && Rights(after.value) + d == Rights(mid.value)
    ensures after == before
  {
    assert Rights(mid.value) - d == Rights(before.value) && Rights(mid.value) - d == Rights(after.value);
    RightsDetermineValue(before.value, after.value);
  }

  ghost function ClaimSpec<P, Q>(s: State<P, Q>, p: P, src: Q, expected: Option<Amount -> bool>, q: Q)
    : (State<P, Q>, Result<Q, LedgerError>)
    requires p in s.balances && p in s.recovery
  {
    var (s1, d) := Deposit(s, p, src, expected);
    if d.Failure? then (s1, Failure(d.error)) else Withdraw(s1, p, d.value, q)
  }

  /** The payment can be deposited in the purse. */
  ghost predicate Takes1<P, Q>(s: State<P, Q>, p: P, src: Q, expected: Option<Amount -> bool>)
    requires p in s.balances
  {
    src in s.live && Consistent(s.live[src], expected) && !Clashes(s.info, s.balances[p], s.live[src])
  }

  /** The payment passes the checks, but cannot be added to the purse. */
  ghost predicate Wrecks<P, Q>(s: State<P, Q>, p: P, src: Q, expected: Option<Amount -> bool>)
    requires p in s.balances
  {
    src in s.live && Consistent(s.live[src], expected) && Clashes(s.info, s.balances[p], s.live[src])
  }

  /** What one deposit at the start of a helper does. */
  lemma FirstDeposit<P, Q>(s: State<P, Q>, p: P, src: Q, expected: Option<Amount -> bool>)
    requires Inv(s) && p in s.balances
    ensures
      var (s1, d) := Deposit(s, p, src, expected);
      && (d == Failure(Shutdown) <==> Wrecks(s, p, src, expected))
      && (d.Success? <==> Takes1(s, p, src, expected))
      && (d == Failure(Shutdown) ==> s1 == DeletePayment(s, src) && Sound(s1))
      && (d.Failure? && d.error != Shutdown ==> s1 == s)
      && (d != Failure(Shutdown) ==> Inv(s1) && NothingLost(s, s1, p, {src}, {}))
      && (d.Success? ==>
            && d.value == s.live[src] && Fits(s.info, d.value) && s1.live == s.live - {src} && src in s1.issued
            && s1.info == s.info && s1.mode == s.mode
            && Rights(s1.balances[p].value) == Rights(s.balances[p].value) + Rights(d.value.value)
            && p in s1.recovery && (Blocked(s1, p) <==> s.mode == NoRecoverySets && !(s.recovery[p] <= {src})))
  {
    DepositOutcome(s, p, src, expected);
    DepositSound(s, p, src, expected);
    DepositConserves(s, p, src, expected);
    DepositLosesNothing(s, p, src, expected);
    DepositUnlists(s, p, src, expected);
    OnlyThese(s.recovery[p], {src});
  }

  lemma OnlyThese<Q>(qs: set<Q>, rs: set<Q>)
    ensures qs - rs == {} <==> qs <= rs
  {
    assert qs - rs == {} ==> forall q | q in qs :: q in rs || q in qs - rs;
  }

  /** `claim` succeeds exactly if the payment is live, as expected and does
      not clash with the purse, and withdrawals are not blocked by anything
      else.  It then turns the payment into a new one and leaves the purse as
      it was.  If it clashes the payment is used up and all that it held is
      lost; on every other exit nothing is. */
  lemma ClaimOutcome<P, Q>(s: State<P, Q>, p: P, src: Q, expected: Option<Amount -> bool>, q: Q)
    requires Inv(s) && p in s.balances && (ClaimSpec(s, p, src, expected, q).1.Success? ==> q !in s.issued)
    ensures
      var (s', r) := ClaimSpec(s, p, src, expected, q);
      && (r == Failure(Shutdown) <==> Wrecks(s, p, src, expected))
      && (r == Failure(Shutdown) ==> Sound(s') && s' == DeletePayment(s, src))
      && (r != Failure(Shutdown) ==> Inv(s') && NothingLost(s, s', p, {src}, if r.Success? then {q} else {}))
      && (r.Success? <==>
            Takes1(s, p, src, expected) && (s.mode == NoRecoverySets ==> s.recovery[p] <= {src}))
      && (r.Success? ==>
            r.value == q && s'.live == (s.live - {src})[q := s.live[src]] && s'.balances[p] == s.balances[p])
      && (src !in s.live || !Consistent(s.live[src], expected) ==> s' == s)
  {
    var (s1, d) := Deposit(s, p, src, expected);
    FirstDeposit(s, p, src, expected);
    if d.Success? {
      assert Fits(s.info, s.balances[p]);
      WithdrawBack(s, s1, p, {src}, d.value, q);
      WithdrawOutcome(s1, p, d.value, q);
    }
  }

  /** The other ways in which `claim` fails. */
  lemma ClaimRefusals<P, Q>(s: State<P, Q>, p: P, src: Q, expected: Option<Amount -> bool>, q: Q)
    requires Inv(s) && p in s.balances
    ensures
      var r := ClaimSpec(s, p, src, expected, q).1;
      && (r == Failure(NotLive) <==> src !in s.live)
      && (r == Failure(AmountMismatch) <==> src in s.live && !Consistent(s.live[src], expected))
      && (r == Failure(RecoverySetInUse) <==>
            Takes1(s, p, src, expected) && s.mode == NoRecoverySets && !(s.recovery[p] <= {src}))
      && (r.Failure? ==> r.error in {NotLive, AmountMismatch, Shutdown, RecoverySetInUse})
  {
    var (s1, d) := Deposit(s, p, src, expected);
    FirstDeposit(s, p, src, expected);
    DepositOutcome(s, p, src, expected);
    if d.Success? {
      assert Fits(s1.info, s1.balances[p]);
      RefusalOutcome(s1, p, d.value);
    }
  }

  /** A claim that loses what it claims: a set-like amount is minted twice, one
      of the two payments is deposited, and the other is claimed through the
      same purse. */
  lemma ClaimCanLose(info: AssetInfo, mode: RecoverySetsOption, a: Amount, q: nat) returns (s: State<nat, nat>)
    requires SetLike(info.kind) && Fits(info, a) && Rights(a.value) != multiset{}
    ensures Comes(Initial<nat, nat>(info, mode, 0),
                  [MintPayment(a, 0, 1)] + [MintPayment(a, 2, 3)] + [DepositPayment(0, 1, None)]) == Some((s, None))
    ensures 3 in s.live && s.live[3] == a && 0 in s.balances && 0 in s.recovery
    ensures
      var (s', r) := ClaimSpec(s, 0, 3, None, q);
      && r == Failure(Shutdown)
      && Total(s.balances) + Total(s.live) == Total(s'.balances) + Total(s'.live) + Rights(a.value)
  {
    s := PaidInOnce(info, mode, a);
    var k :| k in Rights(a.value);
    assert k in Rights(s.balances[0].value) && k in Rights(s.live[3].value);
    DepositOutcome(s, 0, 3, None);
    ShutdownLoses(s, 0, 3, None);
  }

  /** The deposits of `combine`, the total, and its withdrawal. */
  ghost function CombineSpec<P, Q>(s: State<P, Q>, p: P, srcs: seq<Q>, expected: Option<Amount -> bool>, q: Q)
    : (State<P, Q>, Result<Q, LedgerError>)
    requires p in s.balances && p in s.recovery
  {
    var (s1, ds) := DepositEvery(s, p, srcs);
    var amounts := AllOf(ds);
    if amounts.Failure? then (s1, Failure(amounts.error))
    else
      var total := SumAmounts(s.info, amounts.value);
      if total.Failure? then (s1, Failure(Math(total.error)))
      else if !Consistent(total.value, expected) then (s1, Failure(AmountMismatch))
      else if p !in s1.recovery then (s1, Failure(Internal))
      else Withdraw(s1, p, total.value, q)
  }

  /** Everything that the deposits of a helper do. */
  lemma ManyDeposits<P, Q>(s: State<P, Q>, p: P, srcs: seq<Q>)
    requires Inv(s) && p in s.balances
    ensures
      var (s1, ds) := DepositEvery(s, p, srcs);
      var doubled := Doubled(s.info, Stake(s, p, Members(srcs)));
      && (AllOf(ds).Success? <==> AllThere(s.live, srcs) && !doubled)
      && (AllOf(ds).Success? ==> AllOf(ds).value == AmountsOf(s.live, srcs))
      && Sound(s1) && (!doubled ==> Inv(s1) && NothingLost(s, s1, p, Members(srcs), {}))
      && s1.live == s.live - Members(srcs) && s1.issued == s.issued && s1.mode == s.mode && s1.info == s.info
      && p in s1.recovery && (Blocked(s1, p) <==> s.mode == NoRecoverySets && !(s.recovery[p] <= Members(srcs)))
  {
    SuccessExactly(s, p, srcs);
    ShutdownExactly(s, p, srcs);
    EveryFrame(s, p, srcs);
    EveryUnlists(s, p, srcs);
    EverySound(s, p, srcs);
    OnlyThese(s.recovery[p], Members(srcs));
    if !AnyShutdown(DepositEvery(s, p, srcs).1) {
      EveryConserves(s, p, srcs);
      NothingLostInEvery(s, p, srcs);
    }
  }

  /** Inputs that can all be deposited add up to what they hold. */
  lemma InputsAddUp<P, Q>(s: State<P, Q>, p: P, srcs: seq<Q>)
    requires Sound(s) && p in s.balances
    requires AllThere(s.live, srcs) && !Doubled(s.info, Stake(s, p, Members(srcs)))
    ensures
      var amounts := AmountsOf(s.live, srcs);
      && SumAmounts(s.info, amounts).Success?
      && SumRights(amounts) == Total(Held(s.live, Members(srcs)))
      && Rights(DepositEvery(s, p, srcs).0.balances[p].value) == Rights(s.balances[p].value) + SumRights(amounts)
    ensures Members(srcs) <= s.issued
  {
    var amounts := AmountsOf(s.live, srcs);
    assert forall q | q in Members(srcs) :: q in srcs;
    SumIsTotal(s.live, srcs, amounts);
    if Doubled(s.info, SumRights(amounts)) {
      PartNotDoubled(s.info, Stake(s, p, Members(srcs)), SumRights(amounts));
    }
    SumExists(s.info, amounts);
    EveryGains(s, p, srcs);
    ShutdownExactly(s, p, srcs);
  }

  /** The total is the expected one. */
  ghost predicate TotalExpected(info: AssetInfo, amounts: seq<Amount>, expected: Option<Amount -> bool>) {
    SumAmounts(info, amounts).Success? && Consistent(SumAmounts(info, amounts).value, expected)
  }

  /** `combine` succeeds exactly if the inputs are different and live, they and
      the purse have nothing set-like twice, the total is as expected, and the
      withdrawal is not blocked.  It then makes one payment that holds what all
      of them held and leaves the purse as it was.  Nothing is lost on any exit
      unless something is there twice. */
  lemma CombineOutcome<P, Q>(s: State<P, Q>, p: P, srcs: seq<Q>, expected: Option<Amount -> bool>, q: Q)
    requires Inv(s) && p in s.balances && (CombineSpec(s, p, srcs, expected, q).1.Success? ==> q !in s.issued)
    ensures
      var (s', r) := CombineSpec(s, p, srcs, expected, q);
      var doubled := Doubled(s.info, Stake(s, p, Members(srcs)));
      && Sound(s')
      && (doubled ==> s' == DepositEvery(s, p, srcs).0)
      && (!doubled ==> Inv(s') && NothingLost(s, s', p, Members(srcs), if r.Success? then {q} else {}))
      && (r.Success? <==>
            && AllThere(s.live, srcs) && !doubled
            && TotalExpected(s.info, AmountsOf(s.live, srcs), expected)
            && (s.mode == NoRecoverySets ==> s.recovery[p] <= Members(srcs)))
  {
    var (s1, ds) := DepositEvery(s, p, srcs);
    ManyDeposits(s, p, srcs);
    if AllOf(ds).Success? {
      InputsAddUp(s, p, srcs);
      var total := SumAmounts(s.info, AmountsOf(s.live, srcs)).value;
      if Consistent(total, expected) {
        assert Fits(s.info, s.balances[p]);
        WithdrawBack(s, s1, p, Members(srcs), total, q);
      }
    }
  }

  /** The ways in which `combine` fails: with the failure of the first deposit
      that has one, with a total that is not expected, or at the withdrawal. */
  lemma CombineRefusals<P, Q>(s: State<P, Q>, p: P, srcs: seq<Q>, expected: Option<Amount -> bool>, q: Q)
    requires Inv(s) && p in s.balances
    ensures
      var (s1, ds) := DepositEvery(s, p, srcs);
      var r := CombineSpec(s, p, srcs, expected, q).1;
      && (AllOf(ds).Failure? ==> r == Failure(AllOf(ds).error) && r.error in {NotLive, Shutdown})
      && (AllOf(ds).Success? ==>
            && (r == Failure(AmountMismatch) <==> !TotalExpected(s.info, AllOf(ds).value, expected))
            && (r == Failure(RecoverySetInUse) <==>
                  && TotalExpected(s.info, AllOf(ds).value, expected)
                  && s.mode == NoRecoverySets && !(s.recovery[p] <= Members(srcs)))
            && (r.Failure? ==> r.error in {AmountMismatch, RecoverySetInUse}))
  {
    var (s1, ds) := DepositEvery(s, p, srcs);
    ManyDeposits(s, p, srcs);
    DepositErrors(s, p, srcs);
    AllOfExactly(ds);
    if AllOf(ds).Success? {
      InputsAddUp(s, p, srcs);
      var total := SumAmounts(s.info, AmountsOf(s.live, srcs)).value;
      assert Fits(s1.info, s1.balances[p]);
      RefusalOutcome(s1, p, total);
    }
  }

  lemma {:induction false} DepositErrors<P, Q>(s: State<P, Q>, p: P, srcs: seq<Q>)
    requires p in s.balances
    ensures forall d | d in DepositEvery(s, p, srcs).1 :: d.Failure? ==> d.error in {NotLive, Shutdown}
    decreases |srcs|
  {
    if srcs != [] {
      DepositErrors(s, p, Init(srcs));
      DepositFrame(DepositEvery(s, p, Init(srcs)).0, p, Last(srcs));
    }
  }

  /** The payment that `combine` makes. */
  lemma CombineMakes<P, Q>(s: State<P, Q>, p: P, srcs: seq<Q>, expected: Option<Amount -> bool>, q: Q)
    requires Inv(s) && p in s.balances && CombineSpec(s, p, srcs, expected, q).1.Success? && q !in s.issued
    ensures
      var (s', r) := CombineSpec(s, p, srcs, expected, q);
      && r.value == q && q in s'.live && s'.live - {q} == s.live - Members(srcs) && p in s'.balances
      && s'.balances[p] == s.balances[p]
      && Rights(s'.live[q].value) == Total(Held(s.live, Members(srcs)))
      && Consistent(s'.live[q], expected)
  {
    var s1 := DepositEvery(s, p, srcs).0;
    ManyDeposits(s, p, srcs);
    InputsAddUp(s, p, srcs);
    CombineWithdraws(s, p, srcs, expected, q, AmountsOf(s.live, srcs));
    var total := SumAmounts(s.info, AmountsOf(s.live, srcs)).value;
    assert Fits(s.info, s.balances[p]);
    WithdrawBack(s, s1, p, Members(srcs), total, q);
    OneKeyMore(s1.live, q, total);
  }

  lemma CombineWithdraws<P, Q>(s: State<P, Q>, p: P, srcs: seq<Q>, expected: Option<Amount -> bool>, q: Q,
                               amounts: seq<Amount>)
    requires p in s.balances && p in s.recovery && CombineSpec(s, p, srcs, expected, q).1.Success?
    requires AllOf(DepositEvery(s, p, srcs).1) == Success(amounts)
    ensures
      var s1 := DepositEvery(s, p, srcs).0;
      && TotalExpected(s.info, amounts, expected) && p in s1.recovery
      && CombineSpec(s, p, srcs, expected, q) == Withdraw(s1, p, SumAmounts(s.info, amounts).value, q)
  {
  }

  lemma OneKeyMore<Q>(live: map<Q, Amount>, q: Q, a: Amount)
    requires q !in live
    ensures live[q := a] - {q} == live
  {
  }

  /** The withdrawals of a plan, unless there is none. */
  ghost function WithdrawPlanned<P, Q>(s: State<P, Q>, p: P, amounts: Result<seq<Amount>, LedgerError>, names: seq<Q>)
    : (State<P, Q>, Result<seq<Q>, LedgerError>, set<Q>)
    requires p in s.balances && p in s.recovery
    requires amounts.Success? ==> |amounts.value| == |names|
  {
    if amounts.Failure? then (s, Failure(amounts.error), {})
    else
      var (s', ws) := WithdrawEvery(s, p, amounts.value, names);
      (s', AllOf(ws), MadeBy(ws))
  }

  /** The names that it gives to its payments but were in use. */
  ghost function ReusedPlanned<P, Q>(s: State<P, Q>, p: P, amounts: Result<seq<Amount>, LedgerError>, names: seq<Q>)
    : set<Q>
    requires p in s.balances && p in s.recovery
    requires amounts.Success? ==> |amounts.value| == |names|
  {
    if amounts.Failure? then {} else Reused(s, p, amounts.value, names)
  }

  /** A deposit, and withdrawals of amounts that depend on what it gave. */
  ghost function Divide<P, Q>(s: State<P, Q>, p: P, src: Q, plan: Amount -> Result<seq<Amount>, LedgerError>,
                              names: seq<Q>)
    : (State<P, Q>, Result<seq<Q>, LedgerError>, set<Q>)
    requires p in s.balances && p in s.recovery
    requires src in s.live && plan(s.live[src]).Success? ==> |plan(s.live[src]).value| == |names|
  {
    var (s1, d) := Deposit(s, p, src, None);
    if d.Failure? then (s1, Failure(d.error), {}) else WithdrawPlanned(s1, p, plan(d.value), names)
  }

  /** The amount and what remains of the payment. */
  function WithRest(src: Amount, a: Amount): Result<seq<Amount>, LedgerError> {
    var b := Subtract(src, a, None);
    if b.Failure? then Failure(Math(b.error)) else Success([a, b.value])
  }

  function SplitPlan(a: Amount): Amount -> Result<seq<Amount>, LedgerError> {
    src => WithRest(src, a)
  }

  /** The amounts, if they add up to what the payment held. */
  function RightsConserved(info: AssetInfo, src: Amount, amounts: seq<Amount>): (r: Result<seq<Amount>, LedgerError>)
    ensures Fits(info, src) ==> (r.Success? <==> SumAmounts(info, amounts) == Success(src))
    ensures r.Success? ==> r.value == amounts
    ensures r.Failure? ==>
      r.error == if SumAmounts(info, amounts).Failure? then Math(SumAmounts(info, amounts).error) else AmountMismatch
  {
    var total := SumAmounts(info, amounts);
    if total.Failure? then Failure(Math(total.error))
    else if IsEqual(src, total.value, None) == Success(true) then Success(amounts)
    else Failure(AmountMismatch)
  }

  function SplitManyPlan(info: AssetInfo, amounts: seq<Amount>): Amount -> Result<seq<Amount>, LedgerError> {
    src => RightsConserved(info, src, amounts)
  }

  /** The plan divides what the payment holds. */
  ghost predicate Divides(info: AssetInfo, a: Amount, amounts: seq<Amount>) {
    SumAmounts(info, amounts).Success? && SumRights(amounts) == Rights(a.value)
  }

  ghost predicate Planned<P, Q>(s: State<P, Q>, src: Q, plan: Amount -> Result<seq<Amount>, LedgerError>) {
    src in s.live && plan(s.live[src]).Success?
  }

  /** The names that a division gives to its payments but were in use. */
  ghost function ReusedIn<P, Q>(s: State<P, Q>, p: P, src: Q, plan: Amount -> Result<seq<Amount>, LedgerError>,
                                names: seq<Q>): set<Q>
    requires p in s.balances
    requires src in s.live && plan(s.live[src]).Success? ==> |plan(s.live[src]).value| == |names|
  {
    var (s1, d) := Deposit(s, p, src, None);
    if d.Success? && p in s1.recovery then ReusedPlanned(s1, p, plan(d.value), names) else {}
  }

  lemma WithdrawNeverWrecks<P, Q>(s: State<P, Q>, p: P, amount: Amount, q: Q)
    requires p in s.balances && p in s.recovery
    ensures Withdraw(s, p, amount, q).1 != Failure(Shutdown)
  {
  }

  lemma {:induction false} WithdrawalsNeverWreck<P, Q>(s: State<P, Q>, p: P, amounts: seq<Amount>, names: seq<Q>)
    requires p in s.balances && p in s.recovery && |names| == |amounts|
    ensures AllOf(WithdrawEvery(s, p, amounts, names).1) != Failure(Shutdown)
    decreases |amounts|
  {
    if amounts == [] {
    } else {
      var (s1, ws) := WithdrawEvery(s, p, Init(amounts), Init(names));
      WithdrawalsNeverWreck(s, p, Init(amounts), Init(names));
      WithdrawNeverWrecks(s1, p, Last(amounts), Last(names));
      Appended(ws, Withdraw(s1, p, Last(amounts), Last(names)).1);
    }
  }

  /** What a division of a payment asks for. */
  ghost predicate Divisible<P, Q>(s: State<P, Q>, p: P, src: Q, plan: Amount -> Result<seq<Amount>, LedgerError>,
                                  names: seq<Q>)
    requires p in s.balances && p in s.recovery
  {
    PlanDivides(s, src, plan, |names|) && ReusedIn(s, p, src, plan, names) == {}
  }

  /** Plans divide the payment, in a known number of parts. */
  ghost predicate PlanDivides<P, Q>(s: State<P, Q>, src: Q, plan: Amount -> Result<seq<Amount>, LedgerError>, n: nat) {
    && (src in s.live ==> plan(s.live[src]) != Failure(Shutdown))
    && (Planned(s, src, plan) ==>
          && |plan(s.live[src]).value| == n
          && Divides(s.info, s.live[src], plan(s.live[src]).value))
  }

  /** If the payment clashes with the purse it is used up and what it held is
      lost.  On every other exit nothing is lost, however many of the
      withdrawals fail. */
  lemma DivideKeeps<P, Q>(s: State<P, Q>, p: P, src: Q, plan: Amount -> Result<seq<Amount>, LedgerError>,
                          names: seq<Q>)
    requires Inv(s) && p in s.balances && Divisible(s, p, src, plan, names)
    ensures
      var (s', r, made) := Divide(s, p, src, plan, names);
      && (r == Failure(Shutdown) <==> Wrecks(s, p, src, None))
      && (r == Failure(Shutdown) ==> Sound(s') && s' == DeletePayment(s, src) && made == {})
      && (r != Failure(Shutdown) ==> Inv(s') && NothingLost(s, s', p, {src}, made))
      && (made != {} ==> Takes1(s, p, src, None) && Planned(s, src, plan))
      && (src !in s.live ==> s' == s)
  {
    var (s1, d) := Deposit(s, p, src, None);
    FirstDeposit(s, p, src, None);
    if d.Success? && Planned(s, src, plan) {
      assert Fits(s.info, s.balances[p]);
      var amounts := plan(s.live[src]).value;
      DivideDeposited(s, s1, p, src, amounts, names);
      WithdrawalsNeverWreck(s1, p, amounts, names);
    }
  }

  /** A division succeeds exactly if the payment is live and does not clash
      with the purse, there is a plan, and withdrawals are not blocked.  It
      then makes one payment for each amount and leaves the purse as it was. */
  lemma DivideSucceeds<P, Q>(s: State<P, Q>, p: P, src: Q, plan: Amount -> Result<seq<Amount>, LedgerError>,
                             names: seq<Q>)
    requires Inv(s) && p in s.balances && Divisible(s, p, src, plan, names)
    ensures
      var (s', r, made) := Divide(s, p, src, plan, names);
      && (r.Success? <==>
            && Takes1(s, p, src, None) && Planned(s, src, plan)
            && (names == [] || (s.mode == NoRecoverySets ==> s.recovery[p] <= {src})))
      && (r.Success? ==>
            && r.value == names && p in s'.balances && s'.balances[p] == s.balances[p]
            && Made(s.live - {src}, s'.live, names, plan(s.live[src]).value)
            && Added(s.live - {src}, s'.live, Members(names)))
  {
    var (s1, d) := Deposit(s, p, src, None);
    FirstDeposit(s, p, src, None);
    if d.Success? && Planned(s, src, plan) {
      assert Fits(s.info, s.balances[p]);
      DivideDeposited(s, s1, p, src, plan(s.live[src]).value, names);
    }
  }

  lemma DivideDeposited<P, Q>(s: State<P, Q>, s1: State<P, Q>, p: P, src: Q, amounts: seq<Amount>, names: seq<Q>)
    requires p in s.balances && Fits(s.info, s.balances[p]) && src in s.live
    requires Inv(s1) && NothingLost(s, s1, p, {src}, {}) && src in s1.issued && s1.info == s.info
    requires Rights(s1.balances[p].value) == Rights(s.balances[p].value) + Rights(s.live[src].value)
    requires |amounts| == |names| && New(s1, p, amounts, names) && Divides(s.info, s.live[src], amounts)
    ensures
      var (s', ws) := WithdrawEvery(s1, p, amounts, names);
      && Inv(s') && NothingLost(s, s', p, {src}, MadeBy(ws))
      && (AllOf(ws).Success? <==> names == [] || !Blocked(s1, p))
      && (AllOf(ws).Success? ==>
            && AllOf(ws).value == names && s'.balances[p] == s.balances[p]
            && Made(s1.live, s'.live, names, amounts) && Added(s1.live, s'.live, Members(names)))
  {
    var (s', ws) := WithdrawEvery(s1, p, amounts, names);
    WithdrawEveryKeeps(s1, p, amounts, names);
    WithdrawEveryFrame(s1, p, amounts, names);
    WithdrawEveryLosesNothing(s, s1, p, {src}, amounts, names);
    WithdrawEverySucceeds(s1, p, amounts, names);
    if AllOf(ws).Success? {
      assert Fits(s'.info, s'.balances[p]);
      BackAgain(s.info, s.balances[p], s1.balances[p], s'.balances[p], SumRights(amounts));
    }
  }

  /** The two amounts of `split` divide the payment. */
  lemma SplitDivides(info: AssetInfo, src: Amount, a: Amount)
    requires Fits(info, src) && SplitPlan(a)(src).Success?
    ensures Divides(info, src, SplitPlan(a)(src).value) && |SplitPlan(a)(src).value| == 2
  {
    var b := Subtract(src, a, None).value;
    PairSum(a, b);
    assert Rights(a.value) + (Rights(src.value) - Rights(a.value)) == Rights(src.value);
    FitsBelow(info, src, a);
    FitsBelow(info, src, b);
    if SetLike(info.kind) {
      NoDuplicatesInSet(info, src);
    }
    PairExists(info, a, b);
  }

  lemma PairSum(a: Amount, b: Amount)
    ensures SumRights([a, b]) == Rights(a.value) + Rights(b.value)
  {
    assert [a, b][..1] == [a] && [a][..0] == [];
    assert SumRights([a]) == SumRights([]) + Rights(a.value);
  }

  lemma PairExists(info: AssetInfo, a: Amount, b: Amount)
    requires Fits(info, a) && Fits(info, b) && !Doubled(info, SumRights([a, b]))
    ensures SumAmounts(info, [a, b]).Success?
  {
    SumExists(info, [a, b]);
  }

  /** So do the amounts of `splitMany`, if they are found to add up to it. */
  lemma SplitManyDivides(info: AssetInfo, src: Amount, amounts: seq<Amount>)
    requires Fits(info, src)
    ensures SplitManyPlan(info, amounts)(src).Success? <==> SumAmounts(info, amounts) == Success(src)
    ensures SplitManyPlan(info, amounts)(src).Success? ==>
      SplitManyPlan(info, amounts)(src).value == amounts && Divides(info, src, amounts)
  {
  }

  /** `split`: what holds on every exit, and exactly when it succeeds. */
  lemma SplitOutcome<P, Q>(s: State<P, Q>, p: P, src: Q, a: Amount, names: seq<Q>)
    requires Inv(s) && p in s.balances && |names| == 2 && ReusedIn(s, p, src, SplitPlan(a), names) == {}
    ensures
      var (s', r, made) := Divide(s, p, src, SplitPlan(a), names);
      && (r == Failure(Shutdown) <==> Wrecks(s, p, src, None))
      && (r == Failure(Shutdown) ==> Sound(s') && s' == DeletePayment(s, src) && made == {})
      && (r != Failure(Shutdown) ==> Inv(s') && NothingLost(s, s', p, {src}, made))
      && (src !in s.live ==> s' == s)
      && (r.Success? <==>
            && Takes1(s, p, src, None) && Subtract(s.live[src], a, None).Success?
            && (s.mode == NoRecoverySets ==> s.recovery[p] <= {src}))
  {
    if src in s.live && SplitPlan(a)(s.live[src]).Success? {
      SplitDivides(s.info, s.live[src], a);
    }
    DivideKeeps(s, p, src, SplitPlan(a), names);
    DivideSucceeds(s, p, src, SplitPlan(a), names);
  }

  lemma {:induction false} AllBlocked<P, Q>(s: State<P, Q>, p: P, amounts: seq<Amount>, names: seq<Q>)
    requires p in s.balances && p in s.recovery && |names| == |amounts| && Blocked(s, p) && amounts != []
    ensures AllOf(WithdrawEvery(s, p, amounts, names).1) == Failure(RecoverySetInUse)
    decreases |amounts|
  {
    var (s1, ws) := WithdrawEvery(s, p, Init(amounts), Init(names));
    WithdrawEveryFrame(s, p, Init(amounts), Init(names));
    BlockedFails(s1, p, Last(amounts), Last(names));
    if Init(amounts) == [] {
      FirstFails<Q>([], RecoverySetInUse);
    } else {
      AllBlocked(s, p, Init(amounts), Init(names));
      FailsBefore(ws, Withdraw(s1, p, Last(amounts), Last(names)).1);
    }
  }

  lemma FirstFails<T>(rs: seq<Result<T, LedgerError>>, e: LedgerError)
    requires AllOf(rs).Success?
    ensures AllOf(rs + [Failure(e)]) == Failure(e)
  {
    Appended(rs, Failure(e));
  }

  lemma FailsBefore<T>(rs: seq<Result<T, LedgerError>>, r: Result<T, LedgerError>)
    requires AllOf(rs).Failure?
    ensures AllOf(rs + [r]) == Failure(AllOf(rs).error)
  {
    Appended(rs, r);
  }

  /** The ways in which a division fails: at the deposit, for want of a plan,
      or at its withdrawals. */
  lemma DivideRefusals<P, Q>(s: State<P, Q>, p: P, src: Q, plan: Amount -> Result<seq<Amount>, LedgerError>,
                             names: seq<Q>)
    requires Inv(s) && p in s.balances && Divisible(s, p, src, plan, names)
    ensures
      var r := Divide(s, p, src, plan, names).1;
      && (src !in s.live ==> r == Failure(NotLive))
      && (Takes1(s, p, src, None) && plan(s.live[src]).Failure? ==> r == Failure(plan(s.live[src]).error))
      && (Takes1(s, p, src, None) && Planned(s, src, plan) && r.Failure? ==> r == Failure(RecoverySetInUse))
  {
    var (s1, d) := Deposit(s, p, src, None);
    FirstDeposit(s, p, src, None);
    DivideSucceeds(s, p, src, plan, names);
    if Takes1(s, p, src, None) && Planned(s, src, plan) && Divide(s, p, src, plan, names).1.Failure? {
      AllBlocked(s1, p, plan(s.live[src]).value, names);
    }
  }

  /** The two payments that `split` makes: the amount, and the exact rest. */
  lemma SplitMakes<P, Q>(s: State<P, Q>, p: P, src: Q, a: Amount, names: seq<Q>)
    requires Inv(s) && p in s.balances && |names| == 2 && ReusedIn(s, p, src, SplitPlan(a), names) == {}
    requires Divide(s, p, src, SplitPlan(a), names).1.Success?
    ensures
      var (s', r, made) := Divide(s, p, src, SplitPlan(a), names);
      && r.value == names && src in s.live && names[0] != names[1]
      && names[0] in s'.live && s'.live[names[0]] == a
      && names[1] in s'.live && Subtract(s.live[src], a, None) == Success(s'.live[names[1]])
      && s'.live - {names[0], names[1]} == s.live - {src}
      && p in s'.balances && s'.balances[p] == s.balances[p]
  {
    if src in s.live && WithRest(s.live[src], a).Success? {
      SplitDivides(s.info, s.live[src], a);
    }
    DivideSucceeds(s, p, src, SplitPlan(a), names);
    MadeTwo(s.live - {src}, Divide(s, p, src, SplitPlan(a), names).0.live, names, SplitPlan(a)(s.live[src]).value);
  }

  lemma MadeTwo<Q>(live0: map<Q, Amount>, live: map<Q, Amount>, names: seq<Q>, amounts: seq<Amount>)
    requires |names| == 2 && Made(live0, live, names, amounts) && Added(live0, live, Members(names))
    ensures names[0] != names[1] && names[0] in live && names[1] in live
    ensures |amounts| == 2 && live[names[0]] == amounts[0] && live[names[1]] == amounts[1]
    ensures live - {names[0], names[1]} == live0
  {
    assert Members(names) == {names[0], names[1]};
  }

  /** The payment that was divided is not live afterwards. */
  lemma SourceGone<P, Q>(s: State<P, Q>, p: P, src: Q, plan: Amount -> Result<seq<Amount>, LedgerError>, names: seq<Q>)
    requires Inv(s) && p in s.balances && Divisible(s, p, src, plan, names)
    requires Divide(s, p, src, plan, names).1.Success?
    ensures src !in Divide(s, p, src, plan, names).0.live
  {
    var s1 := Deposit(s, p, src, None).0;
    FirstDeposit(s, p, src, None);
    NamesAreNew(s1, p, plan(s.live[src]).value, names, src);
  }

  lemma {:induction false} NamesAreNew<P, Q>(s: State<P, Q>, p: P, amounts: seq<Amount>, names: seq<Q>, q: Q)
    requires p in s.balances && p in s.recovery && |names| == |amounts| && New(s, p, amounts, names)
    requires q in s.issued && q !in s.live
    ensures q !in WithdrawEvery(s, p, amounts, names).0.live
    decreases |amounts|
  {
    if amounts == [] {
    } else {
      NamesAreNew(s, p, Init(amounts), Init(names), q);
      WithdrawEveryFrame(s, p, Init(amounts), Init(names));
      NameIsNew(WithdrawEvery(s, p, Init(amounts), Init(names)).0, p, Last(amounts), Last(names), q);
    }
  }

  lemma NameIsNew<P, Q>(s: State<P, Q>, p: P, amount: Amount, name: Q, q: Q)
    requires p in s.balances && p in s.recovery && q in s.issued && q !in s.live
    requires Withdraw(s, p, amount, name).1.Success? ==> name !in s.issued
    ensures q !in Withdraw(s, p, amount, name).0.live
  {
    if Withdraw(s, p, amount, name).1.Success? {
      WithdrawEffects(s, p, amount, name);
    } else {
      WithdrawFrame(s, p, amount, name);
    }
  }

  /** `splitMany`: what holds on every exit, and exactly when it succeeds; it
      then makes a payment for each amount, and nothing else is new. */
  lemma SplitManyOutcome<P, Q>(s: State<P, Q>, p: P, src: Q, amounts: seq<Amount>, names: seq<Q>)
    requires Inv(s) && p in s.balances && |names| == |amounts|
    requires ReusedIn(s, p, src, SplitManyPlan(s.info, amounts), names) == {}
    ensures
      var (s', r, made) := Divide(s, p, src, SplitManyPlan(s.info, amounts), names);
      && (r == Failure(Shutdown) <==> Wrecks(s, p, src, None))
      && (r == Failure(Shutdown) ==> Sound(s') && s' == DeletePayment(s, src) && made == {})
      && (r != Failure(Shutdown) ==> Inv(s') && NothingLost(s, s', p, {src}, made))
      && (src !in s.live ==> s' == s)
      && (made != {} ==> src in s.live && SumAmounts(s.info, amounts) == Success(s.live[src]))
      && (r.Success? <==>
            && Takes1(s, p, src, None) && SumAmounts(s.info, amounts) == Success(s.live[src])
            && (amounts == [] || (s.mode == NoRecoverySets ==> s.recovery[p] <= {src})))
      && (r.Success? ==>
            && r.value == names && p in s'.balances && s'.balances[p] == s.balances[p]
            && Made(s.live - {src}, s'.live, names, amounts) && Added(s.live - {src}, s'.live, Members(names)))
  {
    if src in s.live {
      SplitManyDivides(s.info, s.live[src], amounts);
    }
    DivideKeeps(s, p, src, SplitManyPlan(s.info, amounts), names);
    DivideSucceeds(s, p, src, SplitManyPlan(s.info, amounts), names);
  }

}
