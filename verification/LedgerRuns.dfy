/** Recovering everything, and what holds over whole runs of a ledger. */
module LedgerRuns {
  import opened Wrappers
  import opened AmountMath
  import opened IssuerKit
  import opened LedgerSpec

  // ------------------------------------------------------------ recoverAll

  ghost predicate Distinct<Q>(order: seq<Q>) {
    forall i, j | 0 <= i < j < |order| :: order[i] != order[j]
  }

  /** The payments among `qs` that are live, with their amounts. */
  ghost function Held<Q>(live: map<Q, Amount>, qs: set<Q>): map<Q, Amount> {
    map q | q in qs && q in live :: live[q]
  }

  /** `s'` differs from `s` only in that the recovery set of `p` was emptied,
      its payments are no longer live, and `p` has some balance. */
  ghost predicate Emptied<P, Q>(s: State<P, Q>, s': State<P, Q>, p: P) {
    && p in s.recovery && p in s'.balances
    && s' == s.(balances := s.balances[p := s'.balances[p]],
                live := s.live - s.recovery[p],
                recovery := s.recovery[p := {}])
  }

  /** A recoverable payment is in one recovery set only. */
  lemma DeleteRecoverable<P, Q>(s: State<P, Q>, p: P, q: Q)
    requires RecoveryExact(s.live, s.origin, s.recovery) && p in s.recovery && q in s.recovery[p]
    ensures DeletePayment(s, q) ==
            s.(live := s.live - {q}, recovery := s.recovery[p := s.recovery[p] - {q}])
  {
    var d := DeletePayment(s, q);
    forall o | o in s.recovery && o != p ensures q !in s.recovery[o] {
      assert s.origin[q] == p;
    }
    assert forall o | o in s.recovery && o != p :: d.recovery[o] == s.recovery[o];
    assert d.recovery == s.recovery[p := s.recovery[p] - {q}];
  }

  lemma EmptiedStep<P, Q>(s: State<P, Q>, s1: State<P, Q>, s': State<P, Q>, p: P, q: Q)
    requires p in s.recovery && p in s1.balances && q in s.recovery[p]
    requires s1 == s.(balances := s.balances[p := s1.balances[p]],
                      live := s.live - {q}, recovery := s.recovery[p := s.recovery[p] - {q}])
    requires Emptied(s1, s', p)
    ensures Emptied(s, s', p)
  {
    assert s.live - {q} - (s.recovery[p] - {q}) == s.live - s.recovery[p];
    assert s.recovery[p := s.recovery[p] - {q}][p := {}] == s.recovery[p := {}];
    assert s1.balances[p := s'.balances[p]] == s.balances[p := s'.balances[p]];
  }

  lemma HeldStep<Q>(live: map<Q, Amount>, qs: set<Q>, q: Q, x: multiset<Key>)
    requires q in qs && q in live
    ensures x + Total(Held(live, qs)) == (x + Rights(live[q].value)) + Total(Held(live - {q}, qs - {q}))
  {
    TotalSplits(Held(live, qs), q);
    assert Held(live, qs) - {q} == Held(live - {q}, qs - {q});
  }

  /** An accumulated sum that the purse contains can take the next payment. */
  lemma SumGrows(info: AssetInfo, sum: Amount, b: Amount, d: Amount)
    requires Fits(info, b) && Fits(info, d) && Compatible(b, sum, None)
    requires Rights(sum.value) <= Rights(b.value)
    requires Add(b, d, None).Success?
    ensures
      var t := Add(sum, d, Some(info.brand));
      var b' := Add(b, d, None).value;
      t.Success? && Compatible(b', t.value, None) && Rights(t.value.value) <= Rights(b'.value)
  {
  }

  /** `order` has every element of the set once. */
  ghost predicate ListsSet<Q>(qs: set<Q>, order: seq<Q>) {
    Distinct(order) && qs == set q | q in order
  }

  /** `order` lists the recovery set of `p`. */
  ghost predicate Lists<P, Q>(s: State<P, Q>, p: P, order: seq<Q>) {
    p in s.recovery && ListsSet(s.recovery[p], order)
  }

  /** One round of the loop. */
  lemma DepositRecoverable<P, Q>(s: State<P, Q>, p: P, q: Q, rest: seq<Q>)
    requires Inv(s) && p in s.balances && Lists(s, p, [q] + rest)
    ensures
      var (s', d) := Deposit(s, p, q, None);
      && q in s.recovery[p] && q in s.live
      && (d.Failure? ==> d.error == Shutdown)
      && (d.Failure? <==> Clashes(s.info, s.balances[p], s.live[q]))
      && (d.Success? ==>
            && Inv(s') && Lists(s', p, rest) && d.value == s.live[q] && Fits(s.info, d.value)
            && Add(s.balances[p], d.value, None) == Success(s'.balances[p])
            && s' == s.(balances := s.balances[p := s'.balances[p]],
                        live := s.live - {q}, recovery := s.recovery[p := s.recovery[p] - {q}]))
  {
    var order := [q] + rest;
    assert order[0] == q && order[1..] == rest && q in s.recovery[p];
    assert Valuable(s.live, q);
    DepositOutcome(s, p, q, None);
    DeleteRecoverable(s, p, q);
    var (s', d) := Deposit(s, p, q, None);
    if d.Success? {
      DepositSound(s, p, q, None);
      DepositConserves(s, p, q, None);
      assert Inv(s');
      ListsStep(s.recovery[p], q, rest);
    }
  }

  lemma {:induction false} DepositAllKeeps<P, Q>(s: State<P, Q>, p: P, order: seq<Q>, sum: Amount)
    requires Inv(s) && p in s.balances
    ensures DepositAll(s, p, order, sum).1 != Failure(Shutdown) ==> Inv(DepositAll(s, p, order, sum).0)
    decreases |order|
  {
    if order == [] {
    } else {
      DepositSound(s, p, order[0], None);
      DepositConserves(s, p, order[0], None);
      var (s', d) := Deposit(s, p, order[0], None);
      if d.Success? && Add(sum, d.value, Some(s.info.brand)).Success? {
        DepositAllKeeps(s', p, order[1..], Add(sum, d.value, Some(s.info.brand)).value);
      }
    }
  }

  /** `order` is a way in which an iteration over the recovery set itself can
      go: each payment is in the set when its turn comes, the set shrinks under
      the iteration, and nothing is left in it in the end. */
  ghost predicate Iterates<P, Q>(s: State<P, Q>, p: P, order: seq<Q>)
    requires p in s.balances && p in s.recovery
    decreases |order|
  {
    if order == [] then s.recovery[p] == {}
    else
      && order[0] in s.recovery[p]
      && Deposit(s, p, order[0], None).1.Success?
      && Iterates(Deposit(s, p, order[0], None).0, p, order[1..])
  }

  /** Deleting from the set while iterating over it neither skips a payment nor
      meets one twice: the iterations that can happen are those that meet
      exactly the payments in the set at the start, each once. */
  lemma {:induction false} IterationIsListing<P, Q>(s: State<P, Q>, p: P, order: seq<Q>)
    requires Inv(s) && p in s.balances
    requires SetLike(s.info.kind) ==> NoDuplicates(Recoverable(s, p))
    ensures Iterates(s, p, order) <==> Lists(s, p, order)
    decreases |order|
  {
    if order == [] {
      assert Lists(s, p, order) <==> s.recovery[p] == {};
    } else if order[0] in s.recovery[p] {
      var q, rest := order[0], order[1..];
      assert order == [q] + rest;
      DepositRecovers(s, p, q);
      var s1 := Deposit(s, p, q, None).0;
      HeldStep(s.live, s.recovery[p], q, Rights(s.balances[p].value));
      IterationIsListing(s1, p, rest);
      ListsStep(s.recovery[p], q, rest);
    } else {
      assert order[0] in order;
    }
  }

  lemma Listing<Q>(qs: set<Q>) returns (order: seq<Q>)
    ensures ListsSet(qs, order)
    decreases qs
  {
    if qs == {} {
      order := [];
    } else {
      var q :| q in qs;
      var rest := Listing(qs - {q});
      order := [q] + rest;
      ListsStep(qs, q, rest);
    }
  }

  lemma ListsOneMore<Q>(met: set<Q>, order: seq<Q>, q: Q)
    requires ListsSet(met, order) && q !in met
    ensures ListsSet(met + {q}, order + [q])
  {
    assert forall o :: o in order + [q] <==> o in order || o == q;
    assert forall i | 0 <= i < |order| :: order[i] in order;
  }

  lemma ListsTogether<Q>(met: set<Q>, order: seq<Q>, left: set<Q>, q: Q, rest: seq<Q>)
    requires ListsSet(met, order) && met !! left && q in left && ListsSet(left - {q}, rest)
    ensures ListsSet(met + left, order + [q] + rest)
  {
    var more, all := [q] + rest, order + [q] + rest;
    assert all == order + more;
    ListsStep(left, q, rest);
    assert forall o :: o in all <==> o in order || o in more;
    forall i, j | 0 <= i < j < |all| ensures all[i] != all[j] {
      assert i < |order| ==> all[i] == order[i] && order[i] in order && order[i] in met;
      assert i >= |order| ==> all[i] == more[i - |order|];
      assert j < |order| ==> all[j] == order[j];
      assert j >= |order| ==> all[j] == more[j - |order|] && more[j - |order|] in more && all[j] in left;
    }
  }

  /** An iteration over a shrinking set: what it has met, in which order, and
      what is left of the set. */
  ghost predicate Meeting<Q>(all: set<Q>, met: set<Q>, left: set<Q>, order: seq<Q>) {
    ListsSet(met, order) && met !! left && met + left == all
  }

  lemma MeetingNext<Q>(all: set<Q>, met: set<Q>, left: set<Q>, order: seq<Q>, q: Q)
    requires Meeting(all, met, left, order) && q in left
    ensures Meeting(all, met + {q}, left - {q}, order + [q]) && left - met == left
  {
    ListsOneMore(met, order, q);
  }

  lemma MeetingBroken<Q>(all: set<Q>, met: set<Q>, left: set<Q>, order: seq<Q>, q: Q) returns (rest: seq<Q>)
    requires Meeting(all, met, left, order) && q in left
    ensures ListsSet(all, order + [q] + rest)
  {
    rest := Listing(left - {q});
    ListsTogether(met, order, left, q, rest);
  }

  lemma MeetingDone<Q>(all: set<Q>, met: set<Q>, left: set<Q>, order: seq<Q>)
    requires Meeting(all, met, left, order) && left - met == {}
    ensures ListsSet(all, order) && left == {} && order + [] == order
  {
    assert left - met == left && met + {} == met;
  }

  lemma ListsStep<Q>(qs: set<Q>, q: Q, rest: seq<Q>)
    requires q in qs
    ensures ListsSet(qs, [q] + rest) <==> ListsSet(qs - {q}, rest)
  {
    var order := [q] + rest;
    assert forall i | 0 <= i < |rest| :: order[i + 1] == rest[i];
    assert forall o :: o in order <==> o == q || o in rest;
    if ListsSet(qs, order) {
      forall i | 0 <= i < |rest| ensures rest[i] != q && rest[i] in qs {
        assert order[0] != order[i + 1] && order[i + 1] in order;
      }
      assert Distinct(rest);
    }
    if ListsSet(qs - {q}, rest) {
      forall i, j | 0 <= i < j < |order| ensures order[i] != order[j] {
        assert order[j] == rest[j - 1] && rest[j - 1] in rest;
        assert i > 0 ==> order[i] == rest[i - 1];
      }
      assert forall o :: o in qs <==> o == q || o in qs - {q};
      assert forall o :: o in qs - {q} <==> o in rest;
      assert qs == set o | o in order;
    }
  }

  /** Whatever payment of the set it meets, a turn of the loop takes just that
      one out of it. */
  lemma DepositRecovers<P, Q>(s: State<P, Q>, p: P, q: Q)
    requires Inv(s) && p in s.balances && q in s.recovery[p]
    requires SetLike(s.info.kind) ==> NoDuplicates(Recoverable(s, p))
    ensures
      var (s', d) := Deposit(s, p, q, None);
      && d.Success? && q in s.live && d.value == s.live[q]
      && Inv(s')
      && Add(s.balances[p], d.value, None) == Success(s'.balances[p])
      && s' == s.(balances := s.balances[p := s'.balances[p]],
                  live := s.live - {q}, recovery := s.recovery[p := s.recovery[p] - {q}])
  {
    assert Valuable(s.live, q);
    DepositOutcome(s, p, q, None);
    DeleteRecoverable(s, p, q);
    DepositKeeps(s, p, q, None);
    if Clashes(s.info, s.balances[p], s.live[q]) {
      HeldContains(s.live, s.recovery[p], q, Rights(s.balances[p].value));
      ClashDuplicates(s.info, s.balances[p], s.live[q], Recoverable(s, p));
    }
  }

  /** The loop up to some point, its last turn last. */
  ghost function DepositedSoFar<P, Q>(s: State<P, Q>, p: P, order: seq<Q>, sum: Amount)
    : (r: (State<P, Q>, Result<Amount, LedgerError>))
    requires p in s.balances && p in s.recovery
    ensures p in r.0.balances && p in r.0.recovery && r.0.info == s.info
  {
    if order == [] then (s, Success(sum))
    else
      var (s', sum') := DepositedSoFar(s, p, order[..|order| - 1], sum);
      if sum'.Failure? then (s', sum') else DepositTurn(s', p, order[|order| - 1], sum'.value)
  }

  ghost function DepositTurn<P, Q>(s: State<P, Q>, p: P, q: Q, sum: Amount)
    : (r: (State<P, Q>, Result<Amount, LedgerError>))
    requires p in s.balances && p in s.recovery
    ensures p in r.0.balances && p in r.0.recovery && r.0.info == s.info
  {
    var (s', d) := Deposit(s, p, q, None);
    if d.Failure? then (s', d)
    else
      var sum' := Add(sum, d.value, Some(s.info.brand));
      (s', if sum'.Failure? then Failure(Math(sum'.error)) else Success(sum'.value))
  }

  lemma NextTurn<P, Q>(s: State<P, Q>, p: P, order: seq<Q>, q: Q, sum: Amount)
    requires p in s.balances && p in s.recovery && DepositedSoFar(s, p, order, sum).1.Success?
    ensures
      var (s', sum') := DepositedSoFar(s, p, order, sum);
      DepositedSoFar(s, p, order + [q], sum) == DepositTurn(s', p, q, sum'.value)
  {
    assert (order + [q])[..|order|] == order;
  }

  /** Whether the loop ends there or goes on. */
  lemma {:induction false} DepositAllGoesOn<P, Q>(s: State<P, Q>, p: P, order: seq<Q>, rest: seq<Q>, sum: Amount)
    requires p in s.balances && p in s.recovery
    ensures
      var (s', sum') := DepositedSoFar(s, p, order, sum);
      DepositAll(s, p, order + rest, sum) ==
      if sum'.Failure? then (s', sum') else DepositAll(s', p, rest, sum'.value)
    decreases |order|
  {
    if order == [] {
      assert order + rest == rest;
    } else {
      var init, q := order[..|order| - 1], order[|order| - 1];
      assert order + rest == init + ([q] + rest);
      assert ([q] + rest)[1..] == rest;
      DepositAllGoesOn(s, p, init, [q] + rest, sum);
    }
  }

  /** The loop empties the recovery set, in whatever order it meets the
      payments. */
  lemma {:induction false} DepositAllEmpties<P, Q>(s: State<P, Q>, p: P, order: seq<Q>, sum: Amount)
    requires Inv(s) && p in s.balances && Lists(s, p, order)
    ensures DepositAll(s, p, order, sum).1.Success? ==> Emptied(s, DepositAll(s, p, order, sum).0, p)
    decreases |order|
  {
    if order == [] {
      assert s.recovery[p] == {};
      assert s.live - s.recovery[p] == s.live && s.recovery[p := {}] == s.recovery;
      assert s.balances[p := s.balances[p]] == s.balances;
    } else {
      var q := order[0];
      assert order == [q] + order[1..];
      DepositRecoverable(s, p, q, order[1..]);
      var (s1, d) := Deposit(s, p, q, None);
      if d.Success? && Add(sum, d.value, Some(s.info.brand)).Success? {
        var sum' := Add(sum, d.value, Some(s.info.brand)).value;
        DepositAllEmpties(s1, p, order[1..], sum');
        if DepositAll(s1, p, order[1..], sum').1.Success? {
          EmptiedStep(s, s1, DepositAll(s1, p, order[1..], sum').0, p, q);
        }
      }
    }
  }

  /** What a purse has and what it could recover. */
  ghost function Recoverable<P, Q>(s: State<P, Q>, p: P): multiset<Key>
    requires p in s.balances && p in s.recovery
  {
    Rights(s.balances[p].value) + Total(Held(s.live, s.recovery[p]))
  }

  lemma NoDuplicatesInSet(info: AssetInfo, a: Amount)
    requires Fits(info, a) && SetLike(info.kind)
    ensures NoDuplicates(Rights(a.value))
  {
  }

  /** Two overlapping parts make a duplicate. */
  lemma ClashDuplicates(info: AssetInfo, a: Amount, b: Amount, all: multiset<Key>)
    requires Clashes(info, a, b) && Rights(a.value) + Rights(b.value) <= all
    ensures !NoDuplicates(all)
  {
    var k :| k in Rights(a.value) && k in Rights(b.value);
    assert (Rights(a.value) + Rights(b.value))[k] <= all[k];
  }

  lemma HeldContains<Q>(live: map<Q, Amount>, qs: set<Q>, q: Q, x: multiset<Key>)
    requires q in qs && q in live
    ensures x + Rights(live[q].value) <= x + Total(Held(live, qs))
  {
    TotalSplits(Held(live, qs), q);
  }

  /** The loop is stopped if and only if the asset is set-like and the purse
      and the payments to recover have some element twice between them,
      whatever the order. */
  lemma {:induction false} DepositAllSucceeds<P, Q>(s: State<P, Q>, p: P, order: seq<Q>, sum: Amount)
    requires Inv(s) && p in s.balances && Lists(s, p, order)
    requires Compatible(s.balances[p], sum, None) && Rights(sum.value) <= Rights(s.balances[p].value)
    ensures DepositAll(s, p, order, sum).1.Failure? <==> SetLike(s.info.kind) && !NoDuplicates(Recoverable(s, p))
    ensures DepositAll(s, p, order, sum).1.Failure? ==> DepositAll(s, p, order, sum).1.error == Shutdown
    decreases |order|
  {
    if order == [] {
      assert s.recovery[p] == {} && Held(s.live, s.recovery[p]) == map[];
      if SetLike(s.info.kind) {
        NoDuplicatesInSet(s.info, s.balances[p]);
      }
      assert Recoverable(s, p) == Rights(s.balances[p].value);
    } else {
      var q := order[0];
      assert order == [q] + order[1..];
      DepositRecoverable(s, p, q, order[1..]);
      var (s1, d) := Deposit(s, p, q, None);
      if d.Success? {
        SumGrows(s.info, sum, s.balances[p], d.value);
        HeldStep(s.live, s.recovery[p], q, Rights(s.balances[p].value));
        DepositAllSucceeds(s1, p, order[1..], Add(sum, d.value, Some(s.info.brand)).value);
      } else {
        HeldContains(s.live, s.recovery[p], q, Rights(s.balances[p].value));
        ClashDuplicates(s.info, s.balances[p], s.live[q], Recoverable(s, p));
      }
    }
  }

  /** The purse gains exactly what the payments held, which is also what the
      loop adds to the sum. */
  lemma {:induction false} DepositAllGains<P, Q>(s: State<P, Q>, p: P, order: seq<Q>, sum: Amount)
    requires Inv(s) && p in s.balances && Lists(s, p, order)
    ensures
      var (s', r) := DepositAll(s, p, order, sum);
      var gain := Total(Held(s.live, s.recovery[p]));
      r.Success? ==>
        && p in s'.balances
        && Rights(s'.balances[p].value) == Rights(s.balances[p].value) + gain
        && r.value.brand == sum.brand && Rights(r.value.value) == Rights(sum.value) + gain
    decreases |order|
  {
    if order == [] {
      assert Held(s.live, s.recovery[p]) == map[];
    } else {
      var q := order[0];
      assert order == [q] + order[1..];
      DepositRecoverable(s, p, q, order[1..]);
      var (s1, d) := Deposit(s, p, q, None);
      if d.Success? && Add(sum, d.value, Some(s.info.brand)).Success? {
        DepositAllGains(s1, p, order[1..], Add(sum, d.value, Some(s.info.brand)).value);
        HeldStep(s.live, s.recovery[p], q, Rights(s.balances[p].value));
        HeldStep(s.live, s.recovery[p], q, Rights(sum.value));
      }
    }
  }

  /** `recoverAll` empties the recovery set of its purse and returns exactly
      what the payments in it held, by which the purse grows.  It changes no
      other balance and no other recovery set.  It shuts the ledger down
      exactly if a set-like element would come up twice.  Without recovery sets
      it does nothing, and fails if a set is still in use from before. */
  lemma RecoverAllOutcome<P, Q>(s: State<P, Q>, p: P, order: seq<Q>)
    requires Inv(s) && p in s.balances && Lists(s, p, order)
    ensures
      var (s', r) := RecoverAll(s, p, order);
      var gain := Total(Held(s.live, s.recovery[p]));
      && (r == Failure(RecoverySetInUse) <==> s.mode == NoRecoverySets && s.recovery[p] != {})
      && (r == Failure(Shutdown) <==>
            s.mode == HasRecoverySets && SetLike(s.info.kind) && !NoDuplicates(Recoverable(s, p)))
      && (r.Failure? && r.error != Shutdown ==> s' == s && r.error == RecoverySetInUse)
      && (r.Success? ==>
            && Emptied(s, s', p)
            && Rights(s'.balances[p].value) == Rights(s.balances[p].value) + gain
            && r.value.brand == s.info.brand && Rights(r.value.value) == gain)
  {
    if s.mode == HasRecoverySets {
      DepositAllSucceeds(s, p, order, MakeEmpty(s.info.brand, s.info.kind));
      DepositAllEmpties(s, p, order, MakeEmpty(s.info.brand, s.info.kind));
      DepositAllGains(s, p, order, MakeEmpty(s.info.brand, s.info.kind));
    } else if s.recovery[p] == {} {
      EmptyAlready(s, p);
    }
  }

  lemma EmptyAlready<P, Q>(s: State<P, Q>, p: P)
    requires p in s.balances && p in s.recovery && s.recovery[p] == {}
    ensures Emptied(s, s, p) && Total(Held(s.live, s.recovery[p])) == multiset{}
  {
    assert Held(s.live, s.recovery[p]) == map[];
    assert s.live - s.recovery[p] == s.live && s.recovery[p := {}] == s.recovery;
    assert s.balances[p := s.balances[p]] == s.balances;
  }

  lemma RecoverAllKeeps<P, Q>(s: State<P, Q>, p: P, order: seq<Q>)
    requires Inv(s) && p in s.balances
    ensures RecoverAll(s, p, order).1 != Failure(Shutdown) ==> Inv(RecoverAll(s, p, order).0)
  {
    DepositAllKeeps(s, p, order, MakeEmpty(s.info.brand, s.info.kind));
  }

  // ------------------------------------------------------------ whole runs

  /** What may happen to a ledger.  Purses and payments that an operation
      creates are named in advance. */
  datatype Command<P(==), Q(==)> =
    | MakeEmptyPurse(p: P)
    | MintPayment(amount: Amount, raw: Q, q: Q)
    | DepositPayment(p: P, q: Q, expected: Option<Amount -> bool>)
    | WithdrawPayment(p: P, amount: Amount, q: Q)
    | BurnPayment(q: Q, expected: Option<Amount -> bool>)
    | RecoverAllPayments(p: P, order: seq<Q>)
    | UpgradeIssuer(option: Option<RecoverySetsOption>)

  /** New identities are new, and `order` is some order of the recovery set. */
  ghost predicate Enabled<P, Q>(s: State<P, Q>, c: Command<P, Q>) {
    && s.mintPurse in s.balances && s.recovery.Keys == s.balances.Keys
    && match c
       case MakeEmptyPurse(p) => p !in s.balances
       case MintPayment(_, raw, q) => raw != q && raw !in s.issued && q !in s.issued
       case DepositPayment(p, _, _) => p in s.balances
       case WithdrawPayment(p, _, q) => p in s.balances && q !in s.issued
       case BurnPayment(_, _) => true
       case RecoverAllPayments(p, order) =>
         p in s.balances && Lists(s, p, order)
       case UpgradeIssuer(_) => true
  }

  ghost function ErrorOf<T>(r: Result<T, LedgerError>): Option<LedgerError> {
    if r.Failure? then Some(r.error) else None
  }

  ghost function MakePurse<P, Q>(s: State<P, Q>, p: P): State<P, Q> {
    s.(balances := s.balances[p := MakeEmpty(s.info.brand, s.info.kind)],
       recovery := s.recovery[p := {}])
  }

  ghost function Step<P, Q>(s: State<P, Q>, c: Command<P, Q>): (State<P, Q>, Option<LedgerError>)
    requires Enabled(s, c)
  {
    match c
    case MakeEmptyPurse(p) => (MakePurse(s, p), None)
    case MintPayment(amount, raw, q) => var (s', r) := Mint(s, amount, raw, q); (s', ErrorOf(r))
    case DepositPayment(p, q, expected) => var (s', r) := Deposit(s, p, q, expected); (s', ErrorOf(r))
    case WithdrawPayment(p, amount, q) => var (s', r) := Withdraw(s, p, amount, q); (s', ErrorOf(r))
    case BurnPayment(q, expected) => var (s', r) := Burn(s, q, expected); (s', ErrorOf(r))
    case RecoverAllPayments(p, order) => var (s', r) := RecoverAll(s, p, order); (s', ErrorOf(r))
    case UpgradeIssuer(option) => (Upgrade(s, option), None)
  }

  /** A run goes on until a step shuts the ledger down. */
  ghost predicate IsRun<P, Q>(s: State<P, Q>, cs: seq<Command<P, Q>>)
    decreases |cs|
  {
    cs == [] || (Enabled(s, cs[0]) && Step(s, cs[0]).1 != Some(Shutdown) && IsRun(Step(s, cs[0]).0, cs[1..]))
  }

  ghost function Run<P, Q>(s: State<P, Q>, cs: seq<Command<P, Q>>): State<P, Q>
    requires IsRun(s, cs)
    decreases |cs|
  {
    if cs == [] then s else Run(Step(s, cs[0]).0, cs[1..])
  }

  /** A new issuer. */
  ghost function Initial<P, Q>(info: AssetInfo, mode: RecoverySetsOption, mintPurse: P): State<P, Q> {
    State(info, Some(mode), mode, mintPurse, map[mintPurse := MakeEmpty(info.brand, info.kind)],
          map[], map[mintPurse := {}], {}, map[], multiset{}, multiset{})
  }

  lemma InitialInv<P, Q>(info: AssetInfo, mode: RecoverySetsOption, mintPurse: P)
    ensures Inv<P, Q>(Initial(info, mode, mintPurse))
  {
    var s: State<P, Q> := Initial(info, mode, mintPurse);
    assert s.balances == (map[])[mintPurse := s.balances[mintPurse]];
    TotalGrows(map[], mintPurse, s.balances[mintPurse], multiset{});
    assert Conserved(s);
  }

  lemma ExactAfterPurse<P, Q>(live: map<Q, Amount>, origin: map<Q, P>, recovery: map<P, set<Q>>, p: P)
    requires RecoveryExact(live, origin, recovery) && p !in recovery
    ensures RecoveryExact(live, origin, recovery[p := {}])
  {
    var recovery' := recovery[p := {}];
    forall o, q | o in recovery' && q in recovery'[o]
      ensures Valuable(live, q) && q in origin && origin[q] == o
    {
      assert o in recovery && q in recovery[o];
    }
  }

  lemma MakePurseKeeps<P, Q>(s: State<P, Q>, p: P)
    requires Inv(s) && p !in s.balances
    ensures Inv(MakePurse(s, p))
  {
    var empty := MakeEmpty(s.info.brand, s.info.kind);
    assert Fits(s.info, empty);
    assert Sound(MakePurse(s, p)) by {
      ExactAfterPurse(s.live, s.origin, s.recovery, p);
      assert AllFit(s.info, s.balances[p := empty]);
    }
    assert Conserved(MakePurse(s, p)) by {
      TotalGrows(s.balances, p, empty, multiset{});
    }
  }

  lemma UpgradeKeeps<P, Q>(s: State<P, Q>, option: Option<RecoverySetsOption>)
    requires Inv(s)
    ensures Inv(Upgrade(s, option))
  {
    assert Sound(Upgrade(s, option));
    assert Conserved(Upgrade(s, option));
  }

  lemma StepKeeps<P, Q>(s: State<P, Q>, c: Command<P, Q>)
    requires Inv(s) && Enabled(s, c)
    ensures Step(s, c).1 != Some(Shutdown) ==> Inv(Step(s, c).0)
  {
    match c
    case MakeEmptyPurse(p) => MakePurseKeeps(s, p);
    case MintPayment(amount, raw, q) => MintKeeps(s, amount, raw, q);
    case DepositPayment(p, q, expected) =>
      DepositSound(s, p, q, expected);
      DepositConserves(s, p, q, expected);
    case WithdrawPayment(p, amount, q) =>
      WithdrawSound(s, p, amount, q);
      WithdrawConserves(s, p, amount, q);
    case BurnPayment(q, expected) => BurnKeeps(s, q, expected);
    case RecoverAllPayments(p, order) => RecoverAllKeeps(s, p, order);
    case UpgradeIssuer(option) => UpgradeKeeps(s, option);
  }

  /** Every state of every run is sound and conserves rights: recovery sets
      hold exactly the recoverable payments, and all that was minted and not
      burned is in a purse or in a live payment. */
  lemma {:induction false} RunKeeps<P, Q>(s: State<P, Q>, cs: seq<Command<P, Q>>)
    requires Inv(s) && IsRun(s, cs)
    ensures Inv(Run(s, cs))
    decreases |cs|
  {
    if cs == [] {
    } else {
      StepKeeps(s, cs[0]);
      RunKeeps(Step(s, cs[0]).0, cs[1..]);
    }
  }

  // ------------------------------------------------------------- linearity

  /** What an earlier state says about a later one: a payment that is still
      live has its old amount, and one that was used up stays used up. */
  ghost predicate Later<P, Q>(s: State<P, Q>, s': State<P, Q>) {
    && s.issued <= s'.issued && s.minted <= s'.minted && s.burned <= s'.burned
    && s'.info == s.info && s'.stored == s.stored && s'.mintPurse == s.mintPurse
    && forall q | q in s.issued && q in s'.live :: q in s.live && s'.live[q] == s.live[q]
  }

  lemma LaterTransitive<P, Q>(s: State<P, Q>, s': State<P, Q>, s'': State<P, Q>)
    requires Later(s, s') && Later(s', s'')
    ensures Later(s, s'')
  {
  }

  lemma DepositLater<P, Q>(s: State<P, Q>, p: P, q: Q, expected: Option<Amount -> bool>)
    requires p in s.balances
    ensures Later(s, Deposit(s, p, q, expected).0)
  {
  }

  lemma {:induction false} DepositAllLater<P, Q>(s: State<P, Q>, p: P, order: seq<Q>, sum: Amount)
    requires p in s.balances && p in s.recovery
    ensures Later(s, DepositAll(s, p, order, sum).0)
    decreases |order|
  {
    if order == [] {
    } else {
      DepositLater(s, p, order[0], None);
      var (s', d) := Deposit(s, p, order[0], None);
      if d.Success? && Add(sum, d.value, Some(s.info.brand)).Success? {
        var sum' := Add(sum, d.value, Some(s.info.brand)).value;
        DepositAllLater(s', p, order[1..], sum');
        LaterTransitive(s, s', DepositAll(s', p, order[1..], sum').0);
      }
    }
  }

  lemma InitLater<P, Q>(s: State<P, Q>, q: Q, a: Amount, home: Option<P>)
    requires q !in s.issued && (home.Some? ==> home.value in s.recovery)
    ensures Later(s, InitPayment(s, q, a, home))
  {
  }

  lemma WithdrawLater<P, Q>(s: State<P, Q>, p: P, amount: Amount, q: Q)
    requires p in s.balances && p in s.recovery && q !in s.issued
    ensures Later(s, Withdraw(s, p, amount, q).0)
  {
    var rest := Subtract(s.balances[p], amount, None);
    if Withdraw(s, p, amount, q).1.Success? {
      InitLater(s.(balances := s.balances[p := rest.value]), q, amount,
                if s.mode == HasRecoverySets then Some(p) else None);
    }
  }

  lemma MintDepositLater<P, Q>(s: State<P, Q>, a: Amount, raw: Q)
    requires s.mintPurse in s.balances && raw !in s.issued
    ensures Later(s, MintDeposit(s, a, raw).0)
  {
    var t := s.(minted := s.minted + Rights(a.value));
    InitLater(t, raw, a, None);
    var s1 := MintRaw(s, a, raw);
    assert Later(s, s1);
    DepositLater(s1, s.mintPurse, raw, Exactly(a));
    LaterTransitive(s, s1, MintDeposit(s, a, raw).0);
  }

  lemma MintLater<P, Q>(s: State<P, Q>, amount: Amount, raw: Q, q: Q)
    requires s.mintPurse in s.balances && s.recovery.Keys == s.balances.Keys
    requires raw !in s.issued && q !in s.issued && raw != q
    ensures Later(s, Mint(s, amount, raw, q).0)
  {
    MintDepositLater(s, amount, raw);
    var (s', d) := MintDeposit(s, amount, raw);
    if d.Success? {
      WithdrawLater(s', s.mintPurse, amount, q);
      LaterTransitive(s, s', Withdraw(s', s.mintPurse, amount, q).0);
    }
  }

  lemma StepLater<P, Q>(s: State<P, Q>, c: Command<P, Q>)
    requires Enabled(s, c)
    ensures Later(s, Step(s, c).0)
  {
    match c
    case MintPayment(amount, raw, q) => MintLater(s, amount, raw, q);
    case RecoverAllPayments(p, order) => DepositAllLater(s, p, order, MakeEmpty(s.info.brand, s.info.kind));
    case MakeEmptyPurse(_) =>
    case DepositPayment(p, q, expected) => DepositLater(s, p, q, expected);
    case WithdrawPayment(p, amount, q) => WithdrawLater(s, p, amount, q);
    case BurnPayment(_, _) =>
    case UpgradeIssuer(_) =>
  }

  /** Payments are linear over whole runs. */
  lemma {:induction false} RunLater<P, Q>(s: State<P, Q>, cs: seq<Command<P, Q>>)
    requires IsRun(s, cs)
    ensures Later(s, Run(s, cs))
    decreases |cs|
  {
    if cs == [] {
    } else {
      StepLater(s, cs[0]);
      RunLater(Step(s, cs[0]).0, cs[1..]);
      LaterTransitive(s, Step(s, cs[0]).0, Run(s, cs));
    }
  }

  // --------------------------------------------------- no failure after commit

  /** The rights in purses and live payments. */
  ghost function Circulating<P, Q>(s: State<P, Q>): multiset<Key> {
    Total(s.balances) + Total(s.live)
  }

  ghost predicate NoDuplicates(m: multiset<Key>) {
    forall k :: m[k] <= 1
  }

  /** No element of a set-like asset circulates twice. */
  ghost predicate Unique<P, Q>(s: State<P, Q>) {
    SetLike(s.info.kind) ==> NoDuplicates(Circulating(s))
  }

  lemma NoOverlap<P, Q>(s: State<P, Q>, p: P, q: Q)
    requires p in s.balances && q in s.live && NoDuplicates(Circulating(s))
    ensures Rights(s.balances[p].value) !! Rights(s.live[q].value)
  {
    TotalSplits(s.balances, p);
    TotalSplits(s.live, q);
    var b, d := Rights(s.balances[p].value), Rights(s.live[q].value);
    forall k ensures k !in b || k !in d {
      assert Circulating(s)[k] >= b[k] + d[k];
    }
  }

  /** Rights leave circulation only by being burned, and enter it only by
      being minted. */
  lemma CirculationFollows<P, Q>(s: State<P, Q>, s': State<P, Q>)
    requires Conserved(s) && Conserved(s') && s'.minted == s.minted && s.burned <= s'.burned
    ensures Circulating(s') <= Circulating(s)
  {
    forall k ensures Circulating(s')[k] <= Circulating(s)[k] {
      assert Circulating(s)[k] + s.burned[k] == s.minted[k];
      assert Circulating(s')[k] + s'.burned[k] == s'.minted[k];
    }
  }

  lemma MintedCirculates<P, Q>(s: State<P, Q>, s': State<P, Q>, m: multiset<Key>)
    requires Conserved(s) && Conserved(s') && s'.minted == s.minted + m && s'.burned == s.burned
    ensures Circulating(s') == Circulating(s) + m
  {
    forall k ensures Circulating(s')[k] == (Circulating(s) + m)[k] {
      assert Circulating(s)[k] + s.burned[k] == s.minted[k];
      assert Circulating(s')[k] + s'.burned[k] == s'.minted[k];
    }
  }

  lemma DepositIsSafe<P, Q>(s: State<P, Q>, p: P, q: Q, expected: Option<Amount -> bool>)
    requires Inv(s) && p in s.balances
    requires Unique(s)
    ensures Deposit(s, p, q, expected).1 != Failure(Shutdown)
  {
    DepositOutcome(s, p, q, expected);
    if q in s.live && SetLike(s.info.kind) {
      NoOverlap(s, p, q);
    }
  }

  lemma {:induction false} HeldWithin<Q>(live: map<Q, Amount>, qs: set<Q>)
    ensures Total(Held(live, qs)) <= Total(live)
    decreases |live|
  {
    if live == map[] {
      assert Held(live, qs) == map[];
    } else {
      var q := Pick(live);
      HeldWithin(live - {q}, qs);
      if q in qs {
        TotalSplits(Held(live, qs), q);
        assert Held(live, qs) - {q} == Held(live - {q}, qs);
      } else {
        assert Held(live, qs) == Held(live - {q}, qs);
      }
    }
  }

  lemma RecoveryIsSafe<P, Q>(s: State<P, Q>, p: P, order: seq<Q>)
    requires Inv(s) && p in s.balances && Lists(s, p, order)
    requires Unique(s)
    ensures RecoverAll(s, p, order).1 != Failure(Shutdown)
  {
    RecoverAllOutcome(s, p, order);
    if SetLike(s.info.kind) {
      TotalSplits(s.balances, p);
      HeldWithin(s.live, s.recovery[p]);
      forall e ensures Recoverable(s, p)[e] <= 1 {
        assert Recoverable(s, p)[e] <= Circulating(s)[e];
      }
    }
  }

  /** For set-like assets, only rights that are not in circulation may be
      minted; for fungible assets and bags, any. */
  ghost predicate NoDoubleMint<P, Q>(s: State<P, Q>, c: Command<P, Q>) {
    SetLike(s.info.kind) && c.MintPayment? ==> NoDuplicates(Circulating(s) + Rights(c.amount.value))
  }

  lemma MintIsSafe<P, Q>(s: State<P, Q>, amount: Amount, raw: Q, q: Q)
    requires Inv(s) && raw !in s.issued && q !in s.issued && raw != q
    requires SetLike(s.info.kind) ==> NoDuplicates(Circulating(s) + Rights(amount.value))
    ensures
      var (s', r) := Mint(s, amount, raw, q);
      && r != Failure(Shutdown)
      && (s' == s || (s'.minted == s.minted + Rights(amount.value) && s'.burned == s.burned))
  {
    NoClashWithNew(s, s.mintPurse, amount);
    MintOutcome(s, amount, raw, q);
  }

  lemma NoClashWithNew<P, Q>(s: State<P, Q>, p: P, amount: Amount)
    requires p in s.balances && (SetLike(s.info.kind) ==> NoDuplicates(Circulating(s) + Rights(amount.value)))
    ensures !Clashes(s.info, s.balances[p], amount)
  {
    if SetLike(s.info.kind) {
      var b := Rights(s.balances[p].value);
      TotalSplits(s.balances, p);
      forall k ensures k !in b || k !in Rights(amount.value) {
        assert (Circulating(s) + Rights(amount.value))[k] >= b[k] + Rights(amount.value)[k];
      }
    }
  }

  lemma StepIsSafe<P, Q>(s: State<P, Q>, c: Command<P, Q>)
    requires Inv(s) && Enabled(s, c) && NoDoubleMint(s, c)
    requires Unique(s)
    ensures Step(s, c).1 != Some(Shutdown)
  {
    match c
    case MintPayment(amount, raw, q) => MintIsSafe(s, amount, raw, q);
    case DepositPayment(p, q, expected) => DepositIsSafe(s, p, q, expected);
    case RecoverAllPayments(p, order) => RecoveryIsSafe(s, p, order);
    case WithdrawPayment(p, amount, q) => WithdrawOutcome(s, p, amount, q);
    case BurnPayment(_, _) =>
    case MakeEmptyPurse(_) =>
    case UpgradeIssuer(_) =>
  }

  lemma {:induction false} RecoveringMintsNothing<P, Q>(s: State<P, Q>, p: P, order: seq<Q>, sum: Amount)
    requires p in s.balances && p in s.recovery
    ensures DepositAll(s, p, order, sum).0.minted == s.minted
    decreases |order|
  {
    if order == [] {
    } else {
      var (s', d) := Deposit(s, p, order[0], None);
      if d.Success? && Add(sum, d.value, Some(s.info.brand)).Success? {
        RecoveringMintsNothing(s', p, order[1..], Add(sum, d.value, Some(s.info.brand)).value);
      }
    }
  }

  lemma OnlyMintingMints<P, Q>(s: State<P, Q>, c: Command<P, Q>)
    requires Enabled(s, c) && !c.MintPayment?
    ensures Step(s, c).0.minted == s.minted
  {
    if c.RecoverAllPayments? {
      RecoveringMintsNothing(s, c.p, c.order, MakeEmpty(s.info.brand, s.info.kind));
    }
  }

  lemma StepStaysUnique<P, Q>(s: State<P, Q>, c: Command<P, Q>)
    requires Inv(s) && Enabled(s, c) && NoDoubleMint(s, c)
    requires Unique(s)
    ensures Unique(Step(s, c).0)
  {
    var s' := Step(s, c).0;
    StepIsSafe(s, c);
    StepKeeps(s, c);
    StepLater(s, c);
    if SetLike(s.info.kind) {
      if c.MintPayment? {
        MintIsSafe(s, c.amount, c.raw, c.q);
        if s' != s {
          MintedCirculates(s, s', Rights(c.amount.value));
        }
      } else {
        OnlyMintingMints(s, c);
        CirculationFollows(s, s');
      }
    }
  }

  ghost predicate MintsOnce<P, Q>(s: State<P, Q>, cs: seq<Command<P, Q>>)
    decreases |cs|
  {
    cs == [] || (Enabled(s, cs[0]) && NoDoubleMint(s, cs[0]) && MintsOnce(Step(s, cs[0]).0, cs[1..]))
  }

  /** Nothing fails after a commit point, in any run, as long as no element of
      a set-like asset is minted while it is in circulation. */
  lemma {:induction false} NeverShutsDown<P, Q>(s: State<P, Q>, cs: seq<Command<P, Q>>)
    requires Inv(s) && MintsOnce(s, cs)
    requires Unique(s)
    ensures IsRun(s, cs)
    decreases |cs|
  {
    if cs == [] {
    } else {
      StepIsSafe(s, cs[0]);
      StepKeeps(s, cs[0]);
      StepLater(s, cs[0]);
      StepStaysUnique(s, cs[0]);
      NeverShutsDown(Step(s, cs[0]).0, cs[1..]);
    }
  }

  // ------------------------------------------------------------ consequences

  /** A step that fails without shutting the ledger down has changed nothing,
      except for a minting whose payment was refused at the end. */
  lemma FailureChangesNothing<P, Q>(s: State<P, Q>, c: Command<P, Q>)
    requires Inv(s) && Enabled(s, c)
    requires Step(s, c).1.Some? && Step(s, c).1 != Some(Shutdown)
    ensures Step(s, c).0 == s || (c.MintPayment? && Step(s, c).1 == Some(RecoverySetInUse))
  {
    match c
    case MintPayment(amount, raw, q) => MintOutcome(s, amount, raw, q);
    case DepositPayment(p, q, expected) => DepositOutcome(s, p, q, expected);
    case WithdrawPayment(p, amount, q) => WithdrawOutcome(s, p, amount, q);
    case BurnPayment(q, expected) => BurnKeeps(s, q, expected);
    case RecoverAllPayments(p, order) => RecoverAllOutcome(s, p, order);
    case MakeEmptyPurse(_) =>
    case UpgradeIssuer(_) =>
  }

  /** No payment is in two recovery sets. */
  lemma RecoverySetsDisjoint<P, Q>(s: State<P, Q>, p: P, p': P)
    requires Inv(s) && p in s.recovery && p' in s.recovery && p != p'
    ensures s.recovery[p] !! s.recovery[p']
  {
    forall q | q in s.recovery[p] ensures q !in s.recovery[p'] {
      assert s.origin[q] == p;
    }
  }

  /** An issuer created without recovery sets never has anything in one,
      whatever is done with it and however often it is upgraded, and no
      withdrawal or recovery is ever refused on their account. */
  lemma NeverRecoverable<P, Q>(info: AssetInfo, mintPurse: P, cs: seq<Command<P, Q>>)
    requires IsRun<P, Q>(Initial(info, NoRecoverySets, mintPurse), cs)
    ensures
      var s := Run<P, Q>(Initial(info, NoRecoverySets, mintPurse), cs);
      s.mode == NoRecoverySets && forall p | p in s.recovery :: s.recovery[p] == {}
  {
    var s0: State<P, Q> := Initial(info, NoRecoverySets, mintPurse);
    InitialInv<P, Q>(info, NoRecoverySets, mintPurse);
    RunKeeps(s0, cs);
    RunLater(s0, cs);
    NothingRecoverable(Run(s0, cs));
  }

  lemma NothingRecoverable<P, Q>(s: State<P, Q>)
    requires RecoveryExact(s.live, s.origin, s.recovery) && s.origin == map[]
    ensures forall p | p in s.recovery :: s.recovery[p] == {}
  {
    forall p | p in s.recovery ensures s.recovery[p] == {} {
      assert forall q | q in s.recovery[p] :: q in s.origin;
    }
  }

  /** For an issuer that started with them it is different.  Once an upgrade
      turned recovery sets off, a purse with anything in its set cannot be
      withdrawn from or recovered until the set is empty. */
  lemma SwitchedOffPursesAreStuck<P, Q>(s: State<P, Q>, p: P, amount: Amount, q: Q, order: seq<Q>)
    requires Inv(s) && s.stored != Some(NoRecoverySets) && p in s.balances && s.recovery[p] != {}
    ensures
      var s' := Upgrade(s, Some(NoRecoverySets));
      && Withdraw(s', p, amount, q) == (s', Failure(RecoverySetInUse))
      && RecoverAll(s', p, order) == (s', Failure(RecoverySetInUse))
  {
  }

  // ------------------------------------------ where the promises end

  lemma {:induction false} SomeHolder<K>(m: map<K, Amount>, e: Key) returns (k: K)
    requires e in Total(m)
    ensures k in m && e in Rights(m[k].value)
    decreases |m|
  {
    k := Pick(m);
    if e !in Rights(m[k].value) {
      k := SomeHolder(m - {k}, e);
    }
  }

  /** A run whose last step shuts the ledger down, without minting. */
  ghost predicate Ruins<P, Q>(s: State<P, Q>, cs: seq<Command<P, Q>>) {
    && cs != [] && (forall c | c in cs :: !c.MintPayment?)
    && var init := cs[..|cs| - 1];
       && IsRun(s, init) && Enabled(Run(s, init), cs[|cs| - 1])
       && Step(Run(s, init), cs[|cs| - 1]).1 == Some(Shutdown)
  }

  lemma RuinsNow<P, Q>(s: State<P, Q>, c: Command<P, Q>)
    requires Enabled(s, c) && !c.MintPayment? && Step(s, c).1 == Some(Shutdown)
    ensures Ruins(s, [c])
  {
    assert [c][..0] == [];
  }

  lemma RuinsNext<P, Q>(s: State<P, Q>, c: Command<P, Q>, cs: seq<Command<P, Q>>)
    requires Enabled(s, c) && !c.MintPayment? && Step(s, c).1 != Some(Shutdown) && Ruins(Step(s, c).0, cs)
    ensures Ruins(s, [c] + cs)
  {
    var all := [c] + cs;
    assert all[..|all| - 1] == [c] + cs[..|cs| - 1];
    var init := all[..|all| - 1];
    assert init[0] == c && init[1..] == cs[..|cs| - 1];
  }

  /** A purse and a payment that overlap: the deposit. */
  lemma PurseAndPayment<P, Q>(s: State<P, Q>, p: P, q: Q)
    requires Inv(s) && p in s.balances && q in s.live && Clashes(s.info, s.balances[p], s.live[q])
    ensures Ruins(s, [DepositPayment(p, q, None)])
  {
    DepositOutcome(s, p, q, None);
    RuinsNow(s, DepositPayment(p, q, None));
  }

  /** Two payments that overlap: the deposit of both. */
  lemma TwoPayments<P, Q>(s: State<P, Q>, q: Q, q': Q) returns (cs: seq<Command<P, Q>>)
    requires Inv(s) && q in s.live && q' in s.live && q != q' && Clashes(s.info, s.live[q], s.live[q'])
    ensures Ruins(s, cs)
  {
    var p := s.mintPurse;
    var c := DepositPayment(p, q, None);
    if Clashes(s.info, s.balances[p], s.live[q]) {
      PurseAndPayment(s, p, q);
      cs := [c];
    } else {
      DepositOutcome(s, p, q, None);
      DepositKeeps(s, p, q, None);
      var s1 := Deposit(s, p, q, None).0;
      var k :| k in Rights(s.live[q].value) && k in Rights(s.live[q'].value);
      assert k in Rights(s1.balances[p].value);
      PurseAndPayment(s1, p, q');
      cs := [c] + [DepositPayment(p, q', None)];
      RuinsNext(s, c, [DepositPayment(p, q', None)]);
    }
  }

  /** Two purses that overlap: one is emptied into a payment for the other. */
  lemma TwoPurses<P, Q>(s: State<P, Q>, p: P, p': P, q: Q) returns (cs: seq<Command<P, Q>>)
    requires Inv(s) && p in s.balances && p' in s.balances && p != p' && q !in s.issued
    requires s.mode == NoRecoverySets ==> s.recovery[p'] == {}
    requires Clashes(s.info, s.balances[p], s.balances[p'])
    ensures Ruins(s, cs)
  {
    var a := s.balances[p'];
    var c := WithdrawPayment(p', a, q);
    assert Fits(s.info, a);
    WithdrawOutcome(s, p', a, q);
    WithdrawKeeps(s, p', a, q);
    var s1 := Withdraw(s, p', a, q).0;
    PurseAndPayment(s1, p, q);
    cs := [c] + [DepositPayment(p, q, None)];
    RuinsNext(s, c, [DepositPayment(p, q, None)]);
  }

  /** The same in every mode: recovery sets that have been switched off and
      stand in the way of a withdrawal are switched on again. */
  lemma TwoPursesInAnyMode<P, Q>(s: State<P, Q>, p: P, p': P, q: Q) returns (cs: seq<Command<P, Q>>)
    requires Inv(s) && p in s.balances && p' in s.balances && p != p' && q !in s.issued
    requires Clashes(s.info, s.balances[p], s.balances[p'])
    ensures Ruins(s, cs)
  {
    if s.stored == Some(NoRecoverySets) {
      NothingRecoverable(s);
      cs := TwoPurses(s, p, p', q);
    } else {
      var c := UpgradeIssuer(Some(HasRecoverySets));
      UpgradeKeeps(s, c.option);
      var rest := TwoPurses(Upgrade(s, c.option), p, p', q);
      RuinsNext(s, c, rest);
      cs := [c] + rest;
    }
  }

  /** While some set-like element circulates twice, the ledger can be shut down
      without minting any more.  So `Unique` is all that `NeverShutsDown` asks
      of a state, and no more than it must. */
  lemma DuplicatesCanRuin<P, Q>(s: State<P, Q>, q: Q) returns (cs: seq<Command<P, Q>>)
    requires Inv(s) && q !in s.issued
    requires !Unique(s)
    ensures Ruins(s, cs)
  {
    var e :| Circulating(s)[e] > 1;
    if e in Total(s.balances) {
      var p := SomeHolder(s.balances, e);
      TotalSplits(s.balances, p);
      assert Fits(s.info, s.balances[p]);
      NoDuplicatesInSet(s.info, s.balances[p]);
      if e in Total(s.live) {
        var o := SomeHolder(s.live, e);
        PurseAndPayment(s, p, o);
        cs := [DepositPayment(p, o, None)];
      } else {
        var p' := SomeHolder(s.balances - {p}, e);
        cs := TwoPursesInAnyMode(s, p, p', q);
      }
    } else {
      var o := SomeHolder(s.live, e);
      TotalSplits(s.live, o);
      assert Fits(s.info, s.live[o]);
      NoDuplicatesInSet(s.info, s.live[o]);
      var o' := SomeHolder(s.live - {o}, e);
      cs := TwoPayments(s, o, o');
    }
  }

  lemma {:induction false} UniqueStays<P, Q>(s: State<P, Q>, cs: seq<Command<P, Q>>)
    requires Inv(s) && IsRun(s, cs) && forall c | c in cs :: !c.MintPayment?
    requires Unique(s)
    ensures Inv(Run(s, cs))
    ensures Unique(Run(s, cs))
    decreases |cs|
  {
    if cs == [] {
    } else {
      assert cs[0] in cs && forall c | c in cs[1..] :: c in cs;
      StepKeeps(s, cs[0]);
      StepStaysUnique(s, cs[0]);
      UniqueStays(Step(s, cs[0]).0, cs[1..]);
    }
  }

  /** A ledger can be shut down without any minting if and only if some
      set-like element circulates twice. */
  lemma SafeExactly<P, Q>(s: State<P, Q>, q: Q)
    requires Inv(s) && q !in s.issued
    ensures Unique(s) <==> forall cs :: !Ruins(s, cs)
  {
    if Unique(s) {
      forall cs ensures !Ruins(s, cs) {
        if Ruins(s, cs) {
          var init, c := cs[..|cs| - 1], cs[|cs| - 1];
          assert c in cs && forall d | d in init :: d in cs;
          UniqueStays(s, init);
          StepIsSafe(Run(s, init), c);
        }
      }
    } else {
      var cs := DuplicatesCanRuin(s, q);
    }
  }

  lemma MintIs<P, Q>(s: State<P, Q>, a: Amount, raw: Q, q: Q)
    requires Inv(s) && raw !in s.issued && q !in s.issued && raw != q && Fits(s.info, a)
    requires !Clashes(s.info, s.balances[s.mintPurse], a)
    ensures Add(s.balances[s.mintPurse], a, None).Success? && Mint(s, a, raw, q) == MintEnds(s, a, raw, q)
  {
    MintOutcome(s, a, raw, q);
  }

  /** A minting that nothing stands in the way of. */
  lemma MintWorks<P, Q>(s: State<P, Q>, a: Amount, raw: Q, q: Q)
    requires s.mintPurse in s.balances && s.mintPurse in s.recovery
    requires s.mode == NoRecoverySets ==> s.recovery[s.mintPurse] == {}
    requires Add(s.balances[s.mintPurse], a, None).Success?
    ensures
      var (s', r) := MintEnds(s, a, raw, q);
      && r == Success(q) && s'.live == s.live[q := a] && s'.issued == s.issued + {raw} + {q}
      && s'.balances == s.balances && s'.info == s.info && s'.mode == s.mode && s'.mintPurse == s.mintPurse
      && s'.stored == s.stored && s'.recovery.Keys == s.recovery.Keys
      && (s.mode == HasRecoverySets && Rights(a.value) != multiset{} ==> q in s'.recovery[s.mintPurse])
      && (s.mode == NoRecoverySets ==> s'.recovery == s.recovery)
  {
  }

  /** A minting that gets stuck half way. */
  lemma MintSticks<P, Q>(s: State<P, Q>, a: Amount, raw: Q, q: Q)
    requires Inv(s) && raw !in s.issued && q !in s.issued && raw != q && Fits(s.info, a)
    requires !Clashes(s.info, s.balances[s.mintPurse], a)
    requires s.mode == NoRecoverySets && s.recovery[s.mintPurse] != {}
    ensures
      var (s', r) := Mint(s, a, raw, q);
      && r == Failure(RecoverySetInUse) && s'.minted == s.minted + Rights(a.value) && s'.live == s.live
      && s.mintPurse in s'.balances
      && Rights(s'.balances[s.mintPurse].value) == Rights(s.balances[s.mintPurse].value) + Rights(a.value)
  {
    MintOutcome(s, a, raw, q);
  }

  /** A minting of what the recovery purse has already. */
  lemma MintClashes<P, Q>(s: State<P, Q>, a: Amount, raw: Q, q: Q)
    requires Inv(s) && raw !in s.issued && q !in s.issued && raw != q && Fits(s.info, a) && SetLike(s.info.kind)
    requires Rights(s.balances[s.mintPurse].value) == Rights(a.value) != multiset{}
    ensures Mint(s, a, raw, q).1 == Failure(Shutdown)
  {
    var k :| k in Rights(a.value);
    MintOutcome(s, a, raw, q);
  }

  /** The first minting of an issuer. */
  lemma FirstMint(info: AssetInfo, mode: RecoverySetsOption, a: Amount) returns (s1: State<nat, nat>)
    requires Fits(info, a)
    ensures
      var s := Initial<nat, nat>(info, mode, 0);
      var c: Command<nat, nat> := MintPayment(a, 0, 1);
      Enabled(s, c) && Step(s, c) == (s1, None)
    ensures Inv(s1) && 1 in s1.live && s1.live[1] == a && 2 !in s1.issued && 3 !in s1.issued && s1.info == info
    ensures s1.mode == mode && s1.mintPurse == 0 && s1.stored == Some(mode)
    ensures 0 in s1.balances && s1.balances.Keys == s1.recovery.Keys && Rights(s1.balances[0].value) == multiset{}
    ensures mode == HasRecoverySets && Rights(a.value) != multiset{} ==> s1.recovery[0] != {}
    ensures mode == NoRecoverySets ==> s1.recovery[0] == {}
  {
    InitialInv<nat, nat>(info, mode, 0);
    MintIs(Initial<nat, nat>(info, mode, 0), a, 0, 1);
    s1 := MintFrom(Initial<nat, nat>(info, mode, 0), a);
    MintKeeps(Initial<nat, nat>(info, mode, 0), a, 0, 1);
  }

  lemma MintFrom(s: State<nat, nat>, a: Amount) returns (s1: State<nat, nat>)
    requires s.mintPurse == 0 && 0 in s.balances && s.recovery.Keys == s.balances.Keys && s.issued == {}
    requires Rights(s.balances[0].value) == multiset{} && s.recovery[0] == {}
    requires Add(s.balances[0], a, None).Success? && Mint(s, a, 0, 1) == MintEnds(s, a, 0, 1)
    ensures
      var c: Command<nat, nat> := MintPayment(a, 0, 1);
      Enabled(s, c) && Step(s, c) == (s1, None)
    ensures 1 in s1.live && s1.live[1] == a && 2 !in s1.issued && 3 !in s1.issued
    ensures s1.info == s.info && s1.mode == s.mode && s1.mintPurse == 0 && s1.stored == s.stored
    ensures 0 in s1.balances && s1.balances.Keys == s1.recovery.Keys && Rights(s1.balances[0].value) == multiset{}
    ensures s.mode == HasRecoverySets && Rights(a.value) != multiset{} ==> s1.recovery[0] != {}
    ensures s.mode == NoRecoverySets ==> s1.recovery[0] == {}
  {
    MintWorks(s, a, 0, 1);
    s1 := Mint(s, a, 0, 1).0;
  }

  /** The state after a series of commands and the error of the last one, if
      none of the others shut the ledger down. */
  ghost function Comes<P, Q>(s: State<P, Q>, cs: seq<Command<P, Q>>): Option<(State<P, Q>, Option<LedgerError>)>
    decreases |cs|
  {
    if cs == [] then Some((s, None))
    else
      var before := Comes(s, cs[..|cs| - 1]);
      if before.None? || before.value.1 == Some(Shutdown) || !Enabled(before.value.0, cs[|cs| - 1]) then None
      else Some(Step(before.value.0, cs[|cs| - 1]))
  }

  lemma ComesNext<P, Q>(s: State<P, Q>, cs: seq<Command<P, Q>>, c: Command<P, Q>, s': State<P, Q>)
    requires Comes(s, cs).Some? && Comes(s, cs).value.0 == s' && Comes(s, cs).value.1 != Some(Shutdown)
    requires Enabled(s', c)
    ensures Comes(s, cs + [c]) == Some(Step(s', c))
  {
    assert (cs + [c])[..|cs|] == cs;
  }

  lemma ComesThree<P, Q>(s: State<P, Q>, s1: State<P, Q>, s2: State<P, Q>,
                         c1: Command<P, Q>, c2: Command<P, Q>, c3: Command<P, Q>)
    requires Enabled(s, c1) && Step(s, c1) == (s1, None)
    requires Enabled(s1, c2) && Step(s1, c2) == (s2, None) && Enabled(s2, c3)
    ensures Comes(s, [c1] + [c2]) == Some((s2, None))
    ensures Comes(s, [c1] + [c2] + [c3]) == Some(Step(s2, c3))
  {
    ComesOne(s, c1);
    ComesNext(s, [c1], c2, s1);
    ComesNext(s, [c1] + [c2], c3, s2);
  }

  /** An element of a set-like asset is minted, deposited and minted again:
      the second minting fails after its commit point. */
  lemma MintingTwiceRuins(info: AssetInfo, mode: RecoverySetsOption, a: Amount)
    requires SetLike(info.kind) && Fits(info, a) && Rights(a.value) != multiset{}
    ensures
      var r := Comes(Initial<nat, nat>(info, mode, 0),
                     [MintPayment(a, 0, 1)] + [DepositPayment(0, 1, None)] + [MintPayment(a, 2, 3)]);
      r.Some? && r.value.1 == Some(Shutdown)
  {
    var s1 := FirstMint(info, mode, a);
    var s2 := SecondMint(s1, a);
    ComesThree(Initial<nat, nat>(info, mode, 0), s1, s2,
               MintPayment(a, 0, 1), DepositPayment(0, 1, None), MintPayment(a, 2, 3));
  }

  lemma ComesOne<P, Q>(s: State<P, Q>, c: Command<P, Q>)
    requires Enabled(s, c)
    ensures Comes(s, [c]) == Some(Step(s, c))
  {
    assert [] + [c] == [c];
    ComesNext(s, [], c, s);
  }

  lemma SecondMint(s: State<nat, nat>, a: Amount) returns (s': State<nat, nat>)
    requires Inv(s) && 1 in s.live && s.live[1] == a && s.mintPurse == 0 && 2 !in s.issued && 3 !in s.issued
    requires Fits(s.info, a)
    requires Rights(s.balances[0].value) == multiset{} && SetLike(s.info.kind) && Rights(a.value) != multiset{}
    ensures
      var c: Command<nat, nat>, c': Command<nat, nat> := DepositPayment(0, 1, None), MintPayment(a, 2, 3);
      Enabled(s, c) && Step(s, c) == (s', None) && Enabled(s', c') && Step(s', c').1 == Some(Shutdown)
  {
    s' := FirstDepositOf(s, a);
    MintClashes(s', a, 2, 3);
  }

  lemma FirstDepositOf(s: State<nat, nat>, a: Amount) returns (s': State<nat, nat>)
    requires Inv(s) && 1 in s.live && s.live[1] == a && s.mintPurse == 0
    requires Rights(s.balances[0].value) == multiset{}
    ensures
      var c: Command<nat, nat> := DepositPayment(0, 1, None);
      Enabled(s, c) && Step(s, c) == (s', None)
    ensures Inv(s') && s'.info == s.info && s'.mintPurse == 0 && s'.issued == s.issued && s'.live == s.live - {1}
    ensures s'.recovery.Keys == s'.balances.Keys
    ensures 0 in s'.balances && Rights(s'.balances[0].value) == Rights(a.value)
  {
    DepositOutcome(s, 0, 1, None);
    DepositKeeps(s, 0, 1, None);
    s' := Deposit(s, 0, 1, None).0;
  }

  /** Something is minted, recovery sets are switched off, and more is minted:
      the second minting throws, but what it minted is in the recovery purse. */
  lemma MintingAfterSwitchingOff(info: AssetInfo, a: Amount, b: Amount)
    requires Fits(info, a) && Rights(a.value) != multiset{} && Fits(info, b)
    ensures
      var s := Initial<nat, nat>(info, HasRecoverySets, 0);
      var before := Comes(s, [MintPayment(a, 0, 1)] + [UpgradeIssuer(Some(NoRecoverySets))]);
      var r := Comes(s, [MintPayment(a, 0, 1)] + [UpgradeIssuer(Some(NoRecoverySets))] + [MintPayment(b, 2, 3)]);
      && before.Some? && r.Some? && r.value.1 == Some(RecoverySetInUse)
      && r.value.0.minted == before.value.0.minted + Rights(b.value)
      && r.value.0.live == before.value.0.live
      && 0 in r.value.0.balances && Rights(r.value.0.balances[0].value) == Rights(b.value)
  {
    var s1 := FirstMint(info, HasRecoverySets, a);
    UpgradeKeeps(s1, Some(NoRecoverySets));
    var s2 := Upgrade(s1, Some(NoRecoverySets));
    MintSticks(s2, b, 2, 3);
    ComesThree(Initial<nat, nat>(info, HasRecoverySets, 0), s1, s2,
               MintPayment(a, 0, 1), UpgradeIssuer(Some(NoRecoverySets)), MintPayment(b, 2, 3));
  }

  /** The same amount minted once more, while what was minted first is still a
      payment. */
  lemma MintAgain(s: State<nat, nat>, a: Amount) returns (s': State<nat, nat>)
    requires Inv(s) && 1 in s.live && s.live[1] == a && s.mintPurse == 0 && 2 !in s.issued && 3 !in s.issued
    requires Fits(s.info, a) && Rights(s.balances[0].value) == multiset{}
    requires s.mode == NoRecoverySets ==> s.recovery[0] == {}
    ensures
      var c: Command<nat, nat> := MintPayment(a, 2, 3);
      Enabled(s, c) && Step(s, c) == (s', None)
    ensures Inv(s') && s'.info == s.info && s'.mintPurse == 0 && s'.balances == s.balances
    ensures s'.live == s.live[3 := a] && 1 in s'.live && s'.live[1] == a
  {
    MintIs(s, a, 2, 3);
    s' := MintAgainFrom(s, a);
    MintKeeps(s, a, 2, 3);
  }

  lemma MintAgainFrom(s: State<nat, nat>, a: Amount) returns (s': State<nat, nat>)
    requires s.mintPurse == 0 && 0 in s.balances && s.recovery.Keys == s.balances.Keys
    requires 2 !in s.issued && 3 !in s.issued
    requires 1 in s.live && s.live[1] == a && (s.mode == NoRecoverySets ==> s.recovery[0] == {})
    requires Add(s.balances[0], a, None).Success? && Mint(s, a, 2, 3) == MintEnds(s, a, 2, 3)
    ensures
      var c: Command<nat, nat> := MintPayment(a, 2, 3);
      Enabled(s, c) && Step(s, c) == (s', None)
    ensures s' == Mint(s, a, 2, 3).0 && s'.info == s.info && s'.mintPurse == 0 && s'.balances == s.balances
    ensures s'.live == s.live[3 := a] && 1 in s'.live && s'.live[1] == a
  {
    MintWorks(s, a, 2, 3);
    s' := Mint(s, a, 2, 3).0;
  }

  lemma MintedTwice(info: AssetInfo, mode: RecoverySetsOption, a: Amount)
    returns (s1: State<nat, nat>, s2: State<nat, nat>)
    requires Fits(info, a)
    ensures
      var c: Command<nat, nat>, c': Command<nat, nat> := MintPayment(a, 0, 1), MintPayment(a, 2, 3);
      && Enabled(Initial<nat, nat>(info, mode, 0), c) && Step(Initial<nat, nat>(info, mode, 0), c) == (s1, None)
      && Enabled(s1, c') && Step(s1, c') == (s2, None)
    ensures Inv(s2) && s2.info == info && s2.mintPurse == 0 && 1 in s2.live && s2.live[1] == a
    ensures 3 in s2.live && s2.live[3] == a && 0 in s2.balances && Rights(s2.balances[0].value) == multiset{}
  {
    s1 := FirstMint(info, mode, a);
    s2 := MintAgain(s1, a);
  }

  /** An amount is minted twice, and one of the two payments is deposited. */
  lemma PaidInOnce(info: AssetInfo, mode: RecoverySetsOption, a: Amount) returns (s: State<nat, nat>)
    requires Fits(info, a)
    ensures Comes(Initial<nat, nat>(info, mode, 0),
                  [MintPayment(a, 0, 1)] + [MintPayment(a, 2, 3)] + [DepositPayment(0, 1, None)]) == Some((s, None))
    ensures Inv(s) && s.info == info && 3 in s.live && s.live[3] == a
    ensures 0 in s.balances && s.recovery.Keys == s.balances.Keys && Rights(s.balances[0].value) == Rights(a.value)
  {
    var s1, s2 := MintedTwice(info, mode, a);
    s := FirstDepositOf(s2, a);
    ComesThree(Initial<nat, nat>(info, mode, 0), s1, s2,
               MintPayment(a, 0, 1), MintPayment(a, 2, 3), DepositPayment(0, 1, None));
  }
}
