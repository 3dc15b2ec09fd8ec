/** One issuer's ledger as a state machine on values.

    A state holds what the issuer and its purses store, together with the
    history needed to say what they promise: which payments were ever made,
    which purse a payment was withdrawn from, and everything minted and
    burned.  Every operation is a function to the next state, and what holds
    over whole runs is proved here.  Module `Ledger` proves that the methods
    working on shared mutable objects do exactly these steps. */
module LedgerSpec {
  import opened Wrappers
  import opened AmountMath
  import opened IssuerKit

  datatype LedgerError =
    | Math(error: MathError)
    | NotLive                // the payment is used up or foreign
    | AmountMismatch         // the payment's amount is not the expected one
    | ShapeMismatch          // not an amount of this issuer's brand, kind and elements
    | Insufficient           // the purse holds less than is to be withdrawn
    | RecoverySetInUse       // recovery sets are off but this purse's is not empty
    | Internal               // an assertion after the last commit point
    | Shutdown               // failed after the commit point

  /** What an issuer's amounts have in common. */
  datatype AssetInfo = AssetInfo(brand: Brand, kind: AssetKind, elementShape: Key -> bool)

  /** The amount shape, which the payment store and every purse enforce on
      what is written to them. */
  predicate Fits(info: AssetInfo, a: Amount) {
    && a.brand == info.brand
    && KindOf(a.value) == info.kind
    && Natural(a.value)
    && (a.value.Nat? || forall k | k in Rights(a.value) :: info.elementShape(k))
  }

  predicate Consistent(a: Amount, expected: Option<Amount -> bool>) {
    expected.Some? ==> expected.value(a)
  }

  datatype State<P(==), Q(==)> = State(
    info: AssetInfo,
    stored: Option<RecoverySetsOption>,
    mode: RecoverySetsOption,
    mintPurse: P,
    balances: map<P, Amount>,
    live: map<Q, Amount>,
    recovery: map<P, set<Q>>,
    issued: set<Q>,
    origin: map<Q, P>,
    minted: multiset<Key>,
    burned: multiset<Key>
  )

  // ------------------------------------------------------------- the steps

  ghost function DeletePayment<P, Q>(s: State<P, Q>, q: Q): State<P, Q> {
    s.(live := s.live - {q}, recovery := map p | p in s.recovery :: s.recovery[p] - {q})
  }

  /** A payment withdrawn while recovery sets are on names its purse; it is
      recoverable unless it is empty. */
  ghost function InitPayment<P, Q>(s: State<P, Q>, q: Q, a: Amount, home: Option<P>): State<P, Q>
    requires home.Some? ==> home.value in s.recovery
  {
    var s' := s.(live := s.live[q := a], issued := s.issued + {q});
    if home.None? then s'
    else if Rights(a.value) == multiset{} then s'.(origin := s.origin[q := home.value])
    else s'.(origin := s.origin[q := home.value],
             recovery := s.recovery[home.value := s.recovery[home.value] + {q}])
  }

  ghost function Deposit<P, Q>(s: State<P, Q>, p: P, q: Q, expected: Option<Amount -> bool>)
    : (State<P, Q>, Result<Amount, LedgerError>)
    requires p in s.balances
  {
    if q !in s.live then (s, Failure(NotLive))
    else if !Consistent(s.live[q], expected) then (s, Failure(AmountMismatch))
    else
      var s' := DeletePayment(s, q);
      var sum := Add(s.balances[p], s.live[q], None);
      if sum.Failure? || !Fits(s.info, sum.value) then (s', Failure(Shutdown))
      else (s'.(balances := s.balances[p := sum.value]), Success(s.live[q]))
  }

  /** Why a withdrawal is refused, if it is. */
  ghost function WithdrawRefusal<P, Q>(s: State<P, Q>, p: P, amount: Amount): (why: Option<LedgerError>)
    requires p in s.balances && p in s.recovery
    ensures why.None? ==> Subtract(s.balances[p], amount, None).Success?
  {
    if s.mode == NoRecoverySets && s.recovery[p] != {} then Some(RecoverySetInUse)
    else
      var a := Coerce(s.info.brand, amount);
      if a.Failure? then Some(Math(a.error))
      else
        var enough := IsGTE(s.balances[p], a.value, None);
        if enough.Failure? then Some(Math(enough.error))
        else if !enough.value then Some(Insufficient)
        else None
  }

  ghost function Withdraw<P, Q>(s: State<P, Q>, p: P, amount: Amount, q: Q)
    : (State<P, Q>, Result<Q, LedgerError>)
    requires p in s.balances && p in s.recovery
  {
    var why := WithdrawRefusal(s, p, amount);
    if why.Some? then (s, Failure(why.value))
    else
      var rest := Subtract(s.balances[p], amount, None).value;
      var home := if s.mode == HasRecoverySets then Some(p) else None;
      (InitPayment(s.(balances := s.balances[p := rest]), q, amount, home), Success(q))
  }

  ghost function Burn<P, Q>(s: State<P, Q>, q: Q, expected: Option<Amount -> bool>)
    : (State<P, Q>, Result<Amount, LedgerError>)
  {
    if q !in s.live then (s, Failure(NotLive))
    else if !Consistent(s.live[q], expected) then (s, Failure(AmountMismatch))
    else
      var s' := DeletePayment(s, q);
      (s'.(burned := s.burned + Rights(s.live[q].value)), Success(s.live[q]))
  }

  function Exactly(a: Amount): Option<Amount -> bool> {
    Some(x => x == a)
  }

  /** A raw payment, in no recovery set. */
  ghost function MintRaw<P, Q>(s: State<P, Q>, a: Amount, raw: Q): State<P, Q> {
    InitPayment(s.(minted := s.minted + Rights(a.value)), raw, a, None)
  }

  ghost function MintDeposit<P, Q>(s: State<P, Q>, a: Amount, raw: Q): (State<P, Q>, Result<Amount, LedgerError>)
    requires s.mintPurse in s.balances
  {
    Deposit(MintRaw(s, a, raw), s.mintPurse, raw, Exactly(a))
  }

  ghost function MintWithdraw<P, Q>(s: State<P, Q>, before: Amount, a: Amount, q: Q)
    : (State<P, Q>, Result<Q, LedgerError>)
    requires s.mintPurse in s.balances && s.mintPurse in s.recovery
  {
    var (s', w) := Withdraw(s, s.mintPurse, a, q);
    (s', if w.Success? && s'.balances[s.mintPurse] != before then Failure(Internal) else w)
  }

  /** Minting makes a raw payment, deposits it in the mint's recovery purse
      and withdraws the payment to hand out from there. */
  ghost function Mint<P, Q>(s: State<P, Q>, amount: Amount, raw: Q, q: Q)
    : (State<P, Q>, Result<Q, LedgerError>)
    requires s.mintPurse in s.balances && s.mintPurse in s.recovery
  {
    var a := Coerce(s.info.brand, amount);
    if a.Failure? then (s, Failure(Math(a.error)))
    else if !Fits(s.info, a.value) then (s, Failure(ShapeMismatch))
    else
      var (s', d) := MintDeposit(s, a.value, raw);
      if d.Failure? then (s', Failure(d.error))
      else MintWithdraw(s', s.balances[s.mintPurse], a.value, q)
  }

  /** The loop of `recoverAll`, for the order in which it meets the payments. */
  ghost function DepositAll<P, Q>(s: State<P, Q>, p: P, order: seq<Q>, sum: Amount)
    : (State<P, Q>, Result<Amount, LedgerError>)
    requires p in s.balances && p in s.recovery
    decreases |order|
  {
    if order == [] then
      (s, if s.recovery[p] == {} then Success(sum) else Failure(Internal))
    else
      var (s', d) := Deposit(s, p, order[0], None);
      if d.Failure? then (s', d)
      else
        var sum' := Add(sum, d.value, Some(s.info.brand));
        if sum'.Failure? then (s', Failure(Math(sum'.error)))
        else DepositAll(s', p, order[1..], sum'.value)
  }

  ghost function RecoverAll<P, Q>(s: State<P, Q>, p: P, order: seq<Q>)
    : (State<P, Q>, Result<Amount, LedgerError>)
    requires p in s.balances && p in s.recovery
  {
    var empty := MakeEmpty(s.info.brand, s.info.kind);
    if s.mode == NoRecoverySets then
      (s, if s.recovery[p] == {} then Success(empty) else Failure(RecoverySetInUse))
    else
      DepositAll(s, p, order, empty)
  }

  ghost function Upgrade<P, Q>(s: State<P, Q>, option: Option<RecoverySetsOption>): State<P, Q> {
    var mode := ModeAfterUpgrade(s.stored, option);
    if mode.Failure? then s else s.(mode := mode.value)
  }

  // ---------------------------------------------------------------- totals

  ghost function Pick<K>(m: map<K, Amount>): K
    requires m != map[]
    ensures Pick(m) in m
  {
    assert m.Keys != {};
    var k :| k in m;
    k
  }

  /** All the rights in the amounts of a map. */
  ghost function Total<K>(m: map<K, Amount>): multiset<Key>
    decreases |m|
  {
    if m == map[] then multiset{}
    else
      var k := Pick(m);
      Rights(m[k].value) + Total(m - {k})
  }

  lemma {:induction false} TotalSplits<K>(m: map<K, Amount>, k: K)
    requires k in m
    ensures Total(m) == Rights(m[k].value) + Total(m - {k})
    decreases |m|
  {
    var j := Pick(m);
    if j != k {
      TotalSplits(m - {j}, k);
      TotalSplits(m - {k}, j);
      assert m - {j} - {k} == m - {k} - {j};
    }
  }

  lemma TotalGrows<K>(m: map<K, Amount>, k: K, a: Amount, gain: multiset<Key>)
    requires k in m ==> Rights(a.value) == Rights(m[k].value) + gain
    requires k !in m ==> Rights(a.value) == gain
    ensures Total(m[k := a]) == Total(m) + gain
  {
    var m' := m[k := a];
    TotalSplits(m', k);
    if k in m {
      TotalSplits(m, k);
      assert m' - {k} == m - {k};
    } else {
      assert m' - {k} == m;
    }
  }

  lemma TotalShrinks<K>(m: map<K, Amount>, k: K, a: Amount, loss: multiset<Key>)
    requires k in m && Rights(m[k].value) == Rights(a.value) + loss
    ensures Total(m[k := a]) + loss == Total(m)
  {
    TotalGrows(m[k := a], k, m[k], loss);
    assert m[k := a][k := m[k]] == m;
  }

  /** Moving a payment into a purse keeps the sum. */
  lemma MoveIn<P, Q>(b: map<P, Amount>, p: P, sum: Amount, live: map<Q, Amount>, q: Q)
    requires p in b && q in live
    requires Rights(sum.value) == Rights(b[p].value) + Rights(live[q].value)
    ensures Total(b[p := sum]) + Total(live - {q}) == Total(b) + Total(live)
  {
    TotalSplits(live, q);
    TotalGrows(b, p, sum, Rights(live[q].value));
  }

  /** So does moving part of a purse out into a new payment. */
  lemma MoveOut<P, Q>(b: map<P, Amount>, p: P, rest: Amount, live: map<Q, Amount>, q: Q, a: Amount)
    requires p in b && q !in live
    requires Rights(b[p].value) == Rights(rest.value) + Rights(a.value)
    ensures Total(b[p := rest]) + Total(live[q := a]) == Total(b) + Total(live)
  {
    TotalShrinks(b, p, rest, Rights(a.value));
    TotalGrows(live, q, a, Rights(a.value));
  }

  // ------------------------------------------------------------- invariant

  ghost predicate AllFit<K>(info: AssetInfo, m: map<K, Amount>) {
    forall k | k in m :: Fits(info, m[k])
  }

  /** `q` is live and not empty. */
  ghost predicate Valuable<Q>(live: map<Q, Amount>, q: Q) {
    q in live && Rights(live[q].value) != multiset{}
  }

  /** A purse's recovery set holds exactly the live non-empty payments that
      were withdrawn from that purse with recovery sets on.  That the sets of
      two purses are disjoint follows. */
  ghost predicate RecoveryExact<P, Q>(live: map<Q, Amount>, origin: map<Q, P>, recovery: map<P, set<Q>>) {
    && (forall p, q | p in recovery && q in recovery[p] ::
          Valuable(live, q) && q in origin && origin[q] == p)
    && (forall q | q in origin ::
          origin[q] in recovery && (Valuable(live, q) ==> q in recovery[origin[q]]))
  }

  lemma RecoverySetIs<P, Q>(live: map<Q, Amount>, origin: map<Q, P>, recovery: map<P, set<Q>>, p: P)
    requires RecoveryExact(live, origin, recovery) && p in recovery
    ensures forall q :: q in recovery[p] <==> Valuable(live, q) && q in origin && origin[q] == p
  {
  }

  /** What was minted and not burned is in a purse or in a live payment. */
  ghost predicate Conserved<P, Q>(s: State<P, Q>) {
    Total(s.balances) + Total(s.live) + s.burned == s.minted
  }

  /** Everything stored belongs together; kept even by a failed step. */
  ghost predicate Sound<P, Q>(s: State<P, Q>) {
    && s.mintPurse in s.balances && s.recovery.Keys == s.balances.Keys
    && AllFit(s.info, s.balances) && AllFit(s.info, s.live)
    && RecoveryExact(s.live, s.origin, s.recovery)
    && s.live.Keys <= s.issued && s.origin.Keys <= s.issued
    && (s.stored == Some(NoRecoverySets) ==> s.mode == NoRecoverySets && s.origin == map[])
  }

  ghost predicate Inv<P, Q>(s: State<P, Q>) {
    Sound(s) && Conserved(s)
  }

  // ----------------------------------------------- what single steps do

  lemma ExactAfterDelete<P, Q>(live: map<Q, Amount>, origin: map<Q, P>, recovery: map<P, set<Q>>, q: Q)
    requires RecoveryExact(live, origin, recovery)
    ensures RecoveryExact(live - {q}, origin, map p | p in recovery :: recovery[p] - {q})
  {
    var live' := live - {q};
    assert forall o :: Valuable(live', o) <==> o != q && Valuable(live, o);
  }

  lemma ExactAfterInit<P, Q>(live: map<Q, Amount>, origin: map<Q, P>, recovery: map<P, set<Q>>,
                             q: Q, a: Amount, p: P)
    requires RecoveryExact(live, origin, recovery)
    requires q !in live && q !in origin && p in recovery
    ensures RecoveryExact(live[q := a], origin[q := p],
                          if Rights(a.value) == multiset{} then recovery
                          else recovery[p := recovery[p] + {q}])
  {
    var live' := live[q := a];
    assert forall o | o != q :: Valuable(live', o) <==> Valuable(live, o);
    assert Valuable(live', q) <==> Rights(a.value) != multiset{};
  }

  lemma ExactAfterRawInit<P, Q>(live: map<Q, Amount>, origin: map<Q, P>, recovery: map<P, set<Q>>,
                                q: Q, a: Amount)
    requires RecoveryExact(live, origin, recovery) && q !in live && q !in origin
    ensures RecoveryExact(live[q := a], origin, recovery)
  {
    var live' := live[q := a];
    assert forall o | o != q :: Valuable(live', o) <==> Valuable(live, o);
  }

  lemma SoundAfterDelete<P, Q>(s: State<P, Q>, q: Q)
    requires Sound(s)
    ensures Sound(DeletePayment(s, q))
  {
    ExactAfterDelete(s.live, s.origin, s.recovery, q);
  }

  lemma SoundAfterBalance<P, Q>(s: State<P, Q>, p: P, a: Amount)
    requires Sound(s) && p in s.balances && Fits(s.info, a)
    ensures Sound(s.(balances := s.balances[p := a]))
  {
  }

  lemma SoundAfterInit<P, Q>(s: State<P, Q>, q: Q, a: Amount, home: Option<P>)
    requires Sound(s) && q !in s.issued && Fits(s.info, a)
    requires home.Some? ==> home.value in s.recovery && s.stored != Some(NoRecoverySets)
    ensures Sound(InitPayment(s, q, a, home))
  {
    if home.Some? {
      ExactAfterInit(s.live, s.origin, s.recovery, q, a, home.value);
    } else {
      ExactAfterRawInit(s.live, s.origin, s.recovery, q, a);
    }
  }

  /** Whatever is contained in an amount of this issuer is one too. */
  lemma FitsBelow(info: AssetInfo, a: Amount, b: Amount)
    requires Fits(info, a) && Compatible(a, b, None) && Rights(b.value) <= Rights(a.value)
    ensures Fits(info, b)
  {
    assert forall k :: k in Rights(b.value) ==> k in Rights(a.value);
  }

  lemma SumFits(info: AssetInfo, a: Amount, b: Amount)
    requires Fits(info, a) && Fits(info, b)
    ensures Add(a, b, None).Success? ==> Fits(info, Add(a, b, None).value)
  {
  }

  /** The amounts cannot be added up: they are set-like and overlap. */
  ghost predicate Clashes(info: AssetInfo, a: Amount, b: Amount) {
    SetLike(info.kind) && !(Rights(a.value) !! Rights(b.value))
  }

  /** Only a live payment with the expected amount can be deposited.  Once
      that is checked, the deposit fails if and only if the asset is set-like
      and the payment holds something the purse already holds. */
  lemma DepositOutcome<P, Q>(s: State<P, Q>, p: P, q: Q, expected: Option<Amount -> bool>)
    requires Sound(s) && p in s.balances
    ensures
      var (s', r) := Deposit(s, p, q, expected);
      && (r == Failure(Shutdown) <==>
            && q in s.live && Consistent(s.live[q], expected)
            && Clashes(s.info, s.balances[p], s.live[q]))
      && (r == Failure(NotLive) <==> q !in s.live)
      && (r == Failure(AmountMismatch) <==> q in s.live && !Consistent(s.live[q], expected))
      && (r.Failure? && r.error != Shutdown ==> s' == s)
      && (r.Success? ==>
            && r.value == s.live[q]
            && Fits(s.info, s'.balances[p])
            && Rights(s'.balances[p].value) == Rights(s.balances[p].value) + Rights(r.value.value)
            && s' == DeletePayment(s, q).(balances := s.balances[p := s'.balances[p]]))
  {
    if q in s.live {
      SumFits(s.info, s.balances[p], s.live[q]);
    }
  }

  /** A deposit that fails after the commit point uses up the payment and does
      nothing else, so exactly what the payment held is lost. */
  lemma ShutdownLoses<P, Q>(s: State<P, Q>, p: P, q: Q, expected: Option<Amount -> bool>)
    requires p in s.balances && Deposit(s, p, q, expected).1 == Failure(Shutdown)
    ensures q in s.live && Deposit(s, p, q, expected).0 == DeletePayment(s, q)
    ensures
      var s' := Deposit(s, p, q, expected).0;
      Total(s.balances) + Total(s.live) == Total(s'.balances) + Total(s'.live) + Rights(s.live[q].value)
  {
    TotalSplits(s.live, q);
  }

  lemma DepositSound<P, Q>(s: State<P, Q>, p: P, q: Q, expected: Option<Amount -> bool>)
    requires Sound(s) && p in s.balances
    ensures Sound(Deposit(s, p, q, expected).0)
  {
    DepositOutcome(s, p, q, expected);
    SoundAfterDelete(s, q);
    var (s', r) := Deposit(s, p, q, expected);
    if r.Success? {
      SoundAfterBalance(DeletePayment(s, q), p, s'.balances[p]);
      assert Sound(s');
    }
  }

  lemma DepositConserves<P, Q>(s: State<P, Q>, p: P, q: Q, expected: Option<Amount -> bool>)
    requires Inv(s) && p in s.balances
    ensures Deposit(s, p, q, expected).1 != Failure(Shutdown) ==> Conserved(Deposit(s, p, q, expected).0)
  {
    DepositOutcome(s, p, q, expected);
    var (s', r) := Deposit(s, p, q, expected);
    if r.Success? {
      MoveIn(s.balances, p, s'.balances[p], s.live, q);
    }
  }

  lemma DepositKeeps<P, Q>(s: State<P, Q>, p: P, q: Q, expected: Option<Amount -> bool>)
    requires Inv(s) && p in s.balances
    ensures Deposit(s, p, q, expected).1 != Failure(Shutdown) ==> Inv(Deposit(s, p, q, expected).0)
  {
    DepositSound(s, p, q, expected);
    DepositConserves(s, p, q, expected);
  }

  lemma RefusalOutcome<P, Q>(s: State<P, Q>, p: P, amount: Amount)
    requires p in s.balances && p in s.recovery && Fits(s.info, s.balances[p])
    ensures WithdrawRefusal(s, p, amount) == Some(RecoverySetInUse) <==>
            s.mode == NoRecoverySets && s.recovery[p] != {}
    ensures WithdrawRefusal(s, p, amount) == Some(Insufficient) <==>
            && (s.mode == NoRecoverySets ==> s.recovery[p] == {})
            && Compatible(s.balances[p], amount, None)
            && !(Rights(amount.value) <= Rights(s.balances[p].value))
    ensures var why := WithdrawRefusal(s, p, amount);
            why.None? || why.value.Math? || why.value == RecoverySetInUse || why.value == Insufficient
    ensures WithdrawRefusal(s, p, amount).None? <==>
            && (s.mode == NoRecoverySets ==> s.recovery[p] == {})
            && Compatible(s.balances[p], amount, None)
            && Rights(amount.value) <= Rights(s.balances[p].value)
  {
  }

  /** The reasons a withdrawal is refused, each leaving everything as it was,
      and what a withdrawal does otherwise. */
  lemma WithdrawOutcome<P, Q>(s: State<P, Q>, p: P, amount: Amount, q: Q)
    requires p in s.balances && p in s.recovery && Fits(s.info, s.balances[p])
    ensures
      var (s', r) := Withdraw(s, p, amount, q);
      && (r.Success? <==>
            && (s.mode == NoRecoverySets ==> s.recovery[p] == {})
            && Compatible(s.balances[p], amount, None)
            && Rights(amount.value) <= Rights(s.balances[p].value))
      && (r.Failure? ==> s' == s && r.error != Shutdown)
      && (r.Success? ==>
            && r.value == q && Fits(s.info, amount)
            && Fits(s.info, s'.balances[p])
            && Rights(s'.balances[p].value) == Rights(s.balances[p].value) - Rights(amount.value)
            && s' == InitPayment(s.(balances := s.balances[p := s'.balances[p]]), q, amount,
                                 if s.mode == HasRecoverySets then Some(p) else None))
  {
    RefusalOutcome(s, p, amount);
    if Withdraw(s, p, amount, q).1.Success? {
      FitsBelow(s.info, s.balances[p], amount);
      FitsBelow(s.info, s.balances[p], Subtract(s.balances[p], amount, None).value);
    }
  }

  /** The payment `q` is new, holds `a`, and is recoverable by `home` unless it
      is empty; the other payments and recovery sets are as they were. */
  ghost predicate Stored<P, Q>(s: State<P, Q>, s': State<P, Q>, q: Q, a: Amount, home: Option<P>) {
    && s'.live == s.live[q := a]
    && s'.recovery.Keys == s.recovery.Keys
    && s'.origin == (if home.Some? then s.origin[q := home.value] else s.origin)
    && (forall p | p in s.recovery ::
          s'.recovery[p] ==
          s.recovery[p] + if home == Some(p) && Rights(a.value) != multiset{} then {q} else {})
  }

  lemma InitStores<P, Q>(s: State<P, Q>, q: Q, a: Amount, home: Option<P>)
    requires home.Some? ==> home.value in s.recovery
    ensures
      var s' := InitPayment(s, q, a, home);
      && Stored(s, s', q, a, home)
      && s' == s.(live := s'.live, recovery := s'.recovery, origin := s'.origin, issued := s.issued + {q})
  {
  }

  /** What a withdrawal stores: its payment, in the recovery set of the purse
      while recovery sets are on. */
  lemma WithdrawStores<P, Q>(s: State<P, Q>, p: P, amount: Amount, q: Q)
    requires p in s.balances && p in s.recovery && Withdraw(s, p, amount, q).1.Success?
    ensures
      var s' := Withdraw(s, p, amount, q).0;
      && Stored(s, s', q, amount, if s.mode == HasRecoverySets then Some(p) else None)
      && s'.issued == s.issued + {q} && s'.balances.Keys == s.balances.Keys
      && (forall o | o in s.balances && o != p :: s'.balances[o] == s.balances[o])
      && s' == s.(live := s'.live, recovery := s'.recovery, origin := s'.origin, issued := s'.issued,
                  balances := s'.balances)
  {
    var rest := Subtract(s.balances[p], amount, None).value;
    InitStores(s.(balances := s.balances[p := rest]), q, amount, if s.mode == HasRecoverySets then Some(p) else None);
  }

  lemma WithdrawSound<P, Q>(s: State<P, Q>, p: P, amount: Amount, q: Q)
    requires Inv(s) && p in s.balances && q !in s.issued
    ensures Sound(Withdraw(s, p, amount, q).0)
  {
    WithdrawOutcome(s, p, amount, q);
    var (s', r) := Withdraw(s, p, amount, q);
    if r.Success? {
      var t := s.(balances := s.balances[p := s'.balances[p]]);
      SoundAfterBalance(s, p, s'.balances[p]);
      SoundAfterInit(t, q, amount, if s.mode == HasRecoverySets then Some(p) else None);
      assert Sound(s');
    }
  }

  lemma WithdrawConserves<P, Q>(s: State<P, Q>, p: P, amount: Amount, q: Q)
    requires Inv(s) && p in s.balances && q !in s.issued
    ensures Conserved(Withdraw(s, p, amount, q).0)
  {
    WithdrawOutcome(s, p, amount, q);
    var (s', r) := Withdraw(s, p, amount, q);
    if r.Success? {
      MoveOut(s.balances, p, s'.balances[p], s.live, q, amount);
    }
  }

  lemma WithdrawKeeps<P, Q>(s: State<P, Q>, p: P, amount: Amount, q: Q)
    requires Inv(s) && p in s.balances && q !in s.issued
    ensures Inv(Withdraw(s, p, amount, q).0)
  {
    WithdrawSound(s, p, amount, q);
    WithdrawConserves(s, p, amount, q);
  }

  /** The reasons a burning is refused, each leaving everything as it was, and
      what it does otherwise: the payment is used up, and what it held is
      recorded as burned. */
  lemma BurnOutcome<P, Q>(s: State<P, Q>, q: Q, expected: Option<Amount -> bool>)
    ensures
      var (s', r) := Burn(s, q, expected);
      && (r == Failure(NotLive) <==> q !in s.live)
      && (r == Failure(AmountMismatch) <==> q in s.live && !Consistent(s.live[q], expected))
      && (r.Failure? ==> s' == s && (r.error == NotLive || r.error == AmountMismatch))
      && (r.Success? ==>
            && q in s.live && r.value == s.live[q]
            && s'.live == s.live - {q} && s'.burned == s.burned + Rights(s.live[q].value)
            && s'.recovery.Keys == s.recovery.Keys
            && (forall p | p in s.recovery :: s'.recovery[p] == s.recovery[p] - {q})
            && s' == s.(live := s'.live, recovery := s'.recovery, burned := s'.burned))
  {
  }

  /** Only a live payment with the expected amount can be burned, and a
      refusal leaves everything as it was. */
  lemma BurnKeeps<P, Q>(s: State<P, Q>, q: Q, expected: Option<Amount -> bool>)
    requires Inv(s)
    ensures Inv(Burn(s, q, expected).0)
    ensures Burn(s, q, expected).1.Failure? ==> Burn(s, q, expected).0 == s
    ensures Burn(s, q, expected).1.Success? <==> q in s.live && Consistent(s.live[q], expected)
  {
    if q in s.live && Consistent(s.live[q], expected) {
      SoundAfterDelete(s, q);
      TotalSplits(s.live, q);
    }
  }

  lemma MintRawKeeps<P, Q>(s: State<P, Q>, a: Amount, raw: Q)
    requires Inv(s) && Fits(s.info, a) && raw !in s.issued
    ensures Inv(MintRaw(s, a, raw))
  {
    var t := s.(minted := s.minted + Rights(a.value));
    assert Sound(t);
    SoundAfterInit(t, raw, a, None);
    assert Sound(MintRaw(s, a, raw));
    TotalGrows(s.live, raw, a, Rights(a.value));
    assert Conserved(MintRaw(s, a, raw));
  }

  /** What a minting leaves behind besides balances and live payments. */
  ghost function Minted<P, Q>(s: State<P, Q>, a: Amount, raw: Q): State<P, Q> {
    s.(minted := s.minted + Rights(a.value), issued := s.issued + {raw})
  }

  /** Depositing the raw payment uses it up. */
  lemma RawIsGone<P, Q>(s: State<P, Q>, a: Amount, raw: Q)
    requires Inv(s) && raw !in s.issued
    ensures DeletePayment(MintRaw(s, a, raw), raw) == Minted(s, a, raw)
  {
    assert forall p | p in s.recovery :: s.recovery[p] - {raw} == s.recovery[p];
    assert (map p | p in s.recovery :: s.recovery[p] - {raw}) == s.recovery;
    assert s.live[raw := a] - {raw} == s.live;
  }

  lemma MintDepositKeeps<P, Q>(s: State<P, Q>, a: Amount, raw: Q)
    requires Inv(s) && raw !in s.issued && Fits(s.info, a)
    ensures MintDeposit(s, a, raw).1 != Failure(Shutdown) ==> Inv(MintDeposit(s, a, raw).0)
  {
    MintRawKeeps(s, a, raw);
    DepositSound(MintRaw(s, a, raw), s.mintPurse, raw, Exactly(a));
    DepositConserves(MintRaw(s, a, raw), s.mintPurse, raw, Exactly(a));
    assert Sound(MintDeposit(s, a, raw).0);
  }

  lemma MintDepositOutcome<P, Q>(s: State<P, Q>, a: Amount, raw: Q)
    requires Inv(s) && raw !in s.issued && Fits(s.info, a)
    ensures
      var b := s.balances[s.mintPurse];
      var (s', d) := MintDeposit(s, a, raw);
      && (d.Failure? ==> d.error == Shutdown)
      && (d.Failure? <==> Clashes(s.info, b, a))
      && (d.Success? ==>
            && Add(b, a, None).Success?
            && s' == Minted(s, a, raw).(balances := s.balances[s.mintPurse := Add(b, a, None).value]))
  {
    MintRawKeeps(s, a, raw);
    RawIsGone(s, a, raw);
    DepositOutcome(MintRaw(s, a, raw), s.mintPurse, raw, Exactly(a));
  }

  lemma MintDepositBalance<P, Q>(s: State<P, Q>, a: Amount, raw: Q)
    requires s.mintPurse in s.balances && MintDeposit(s, a, raw).1.Success?
    ensures
      var b' := MintDeposit(s, a, raw).0.balances[s.mintPurse];
      Add(s.balances[s.mintPurse], a, None) == Success(b') && Fits(s.info, b')
  {
  }

  /** The withdrawal that ends a minting takes out just what went in. */
  lemma MintWithdrawOutcome<P, Q>(s: State<P, Q>, before: Amount, a: Amount, q: Q)
    requires s.mintPurse in s.balances && s.mintPurse in s.recovery && a.brand == s.info.brand
    requires Add(before, a, None) == Success(s.balances[s.mintPurse])
    ensures
      var m := s.mintPurse;
      var r := MintWithdraw(s, before, a, q);
      if s.mode == NoRecoverySets && s.recovery[m] != {} then r == (s, Failure(RecoverySetInUse))
      else
        r == (InitPayment(s.(balances := s.balances[m := before]), q, a,
                          if s.mode == HasRecoverySets then Some(m) else None),
              Success(q))
  {
    SubtractUndoesAdd(before, a);
  }

  lemma MintWithdrawKeeps<P, Q>(s: State<P, Q>, before: Amount, a: Amount, q: Q)
    requires Inv(s) && q !in s.issued
    ensures Inv(MintWithdraw(s, before, a, q).0)
  {
    WithdrawSound(s, s.mintPurse, a, q);
    WithdrawConserves(s, s.mintPurse, a, q);
    assert Sound(MintWithdraw(s, before, a, q).0);
  }

  lemma MintKeeps<P, Q>(s: State<P, Q>, amount: Amount, raw: Q, q: Q)
    requires Inv(s) && raw !in s.issued && q !in s.issued && raw != q
    ensures Mint(s, amount, raw, q).1 != Failure(Shutdown) ==> Inv(Mint(s, amount, raw, q).0)
  {
    if Fits(s.info, amount) {
      MintDepositKeeps(s, amount, raw);
      MintDepositOutcome(s, amount, raw);
      var (s', d) := MintDeposit(s, amount, raw);
      if d.Success? {
        MintWithdrawKeeps(s', s.balances[s.mintPurse], amount, q);
        assert Inv(Mint(s, amount, raw, q).0);
      }
    }
  }

  /** What a minting does once the deposit went through. */
  ghost function MintEnds<P, Q>(s: State<P, Q>, a: Amount, raw: Q, q: Q): (State<P, Q>, Result<Q, LedgerError>)
    requires s.mintPurse in s.balances && s.mintPurse in s.recovery
    requires Add(s.balances[s.mintPurse], a, None).Success?
  {
    var m := s.mintPurse;
    var s' := Minted(s, a, raw);
    if s.mode == NoRecoverySets && s.recovery[m] != {} then
      (s'.(balances := s.balances[m := Add(s.balances[m], a, None).value]), Failure(RecoverySetInUse))
    else
      (InitPayment(s', q, a, if s.mode == HasRecoverySets then Some(m) else None), Success(q))
  }

  lemma MintSecondHalf<P, Q>(s: State<P, Q>, a: Amount, raw: Q, q: Q, s': State<P, Q>)
    requires s.mintPurse in s.balances && s.mintPurse in s.recovery && a.brand == s.info.brand
    requires Add(s.balances[s.mintPurse], a, None).Success?
    requires s' == Minted(s, a, raw).(
                     balances := s.balances[s.mintPurse := Add(s.balances[s.mintPurse], a, None).value])
    ensures MintWithdraw(s', s.balances[s.mintPurse], a, q) == MintEnds(s, a, raw, q)
  {
    var m := s.mintPurse;
    MintWithdrawOutcome(s', s.balances[m], a, q);
    assert s'.balances[m := s.balances[m]] == s.balances;
    assert s'.(balances := s.balances) == Minted(s, a, raw);
  }

  /** A minting that fails, other than by a shutdown, keeps the invariant
      whatever payment it would have handed out. */
  lemma MintFailureKeeps<P, Q>(s: State<P, Q>, amount: Amount, raw: Q, q: Q)
    requires Inv(s) && raw !in s.issued && Mint(s, amount, raw, q).1.Failure?
    ensures Mint(s, amount, raw, q).1 != Failure(Shutdown) ==> Inv(Mint(s, amount, raw, q).0)
  {
    if Fits(s.info, amount) {
      MintDepositKeeps(s, amount, raw);
      MintDepositOutcome(s, amount, raw);
      var (s', d) := MintDeposit(s, amount, raw);
      if d.Success? {
        MintWithdrawOutcome(s', s.balances[s.mintPurse], amount, q);
      }
    }
  }

  /** Minting an amount of this issuer yields a live payment of that amount,
      recoverable from the mint's recovery purse, and leaves every balance as
      it was; the raw payment is used up.

      It fails in two cases only.  A set-like amount may overlap with what the
      recovery purse holds.  And with recovery sets off while that purse still
      has payments in its own, the last withdrawal is refused: the caller gets
      nothing, but the amount has been minted and stays in the purse. */
  lemma MintOutcome<P, Q>(s: State<P, Q>, amount: Amount, raw: Q, q: Q)
    requires Inv(s) && raw !in s.issued && q !in s.issued && raw != q
    ensures !Fits(s.info, amount) ==>
      Mint(s, amount, raw, q) == (s, Failure(
        if amount.brand != s.info.brand then Math(WrongBrand)
        else if !Natural(amount.value) then Math(NotNatural)
        else ShapeMismatch))
    ensures Fits(s.info, amount) ==>
      if Clashes(s.info, s.balances[s.mintPurse], amount) then
        Mint(s, amount, raw, q).1 == Failure(Shutdown)
      else
        && Add(s.balances[s.mintPurse], amount, None).Success?
        && Mint(s, amount, raw, q) == MintEnds(s, amount, raw, q)
  {
    if Fits(s.info, amount) {
      MintDepositOutcome(s, amount, raw);
      if MintDeposit(s, amount, raw).1.Success? {
        MintDepositKeeps(s, amount, raw);
        MintSecondHalf(s, amount, raw, q, MintDeposit(s, amount, raw).0);
      }
    }
  }

  /** What a minting that succeeds stores: one payment of the amount, with the
      recovery purse for its home; of the raw payment only the name is left. */
  lemma MintStores<P, Q>(s: State<P, Q>, amount: Amount, raw: Q, q: Q)
    requires Inv(s) && raw !in s.issued && q !in s.issued && raw != q
    requires Mint(s, amount, raw, q).1.Success?
    ensures
      var (s', r) := Mint(s, amount, raw, q);
      && r.value == q && Fits(s.info, amount)
      && Stored(s, s', q, amount, if s.mode == HasRecoverySets then Some(s.mintPurse) else None)
      && s'.issued == s.issued + {raw} + {q} && s'.minted == s.minted + Rights(amount.value)
      && s' == s.(live := s'.live, recovery := s'.recovery, origin := s'.origin, issued := s'.issued,
                  minted := s'.minted)
  {
    MintOutcome(s, amount, raw, q);
    InitStores(Minted(s, amount, raw), q, amount, if s.mode == HasRecoverySets then Some(s.mintPurse) else None);
  }
}
