/** The gate a transaction passes before it may add to the inbound queue. */
module InboundAnte {
  import opened Wrappers

  type int32 = x: int | -0x8000_0000 <= x <= MAX_INT32

  const MAX_INT32 := 0x7fff_ffff
  const MAX_INT64 := 0x7fff_ffff_ffff_ffff
  const MAX_INBOUND_PER_TX := 1
  const QUEUE_INBOUND := "inbound"
  const QUEUE_INBOUND_MEMPOOL := "inbound_mempool"

  datatype QueueSize = QueueSize(key: string, size: int32)

  /** What the gate can look up.  A queue whose length cannot be read is a
      failure. */
  datatype Chain = Chain(
    isCheckTx: bool,
    queueAllowed: seq<QueueSize>,
    highPriorityQueue: Result<nat, string>,
    actionQueue: Result<nat, string>
  )

  /** A message for the VM adds `inbounds` to the queue; any other adds none.
      Whether it has priority is looked up, which may fail. */
  datatype Msg = Msg(inbounds: nat, priority: Result<bool, string>)

  datatype Refusal = QueueFull | LookupFailed(error: string)

  function QueueSizeEntry(sizes: seq<QueueSize>, key: string): Option<int32> {
    if sizes == [] then None
    else if sizes[0].key == key then Some(sizes[0].size)
    else QueueSizeEntry(sizes[1..], key)
  }

  function InboundQueueLength(c: Chain): Result<nat, string> {
    var highPriority :- c.highPriorityQueue;
    var action :- c.actionQueue;
    var size := highPriority + action;
    if size > MAX_INT64 then Failure("inbound queue size too big")
    else if size > MAX_INT32 then Success(MAX_INT32)
    else Success(size)
  }

  function AllowedEntry(c: Chain): Option<int32> {
    QueueSizeEntry(c.queueAllowed, if c.isCheckTx then QUEUE_INBOUND_MEMPOOL else QUEUE_INBOUND)
  }

  function AllowedInbound(c: Chain): Result<nat, string> {
    match AllowedEntry(c)
    case None => Success(0)
    case Some(allowed) =>
      var actions :- InboundQueueLength(c);
      if actions >= allowed then Success(0)
      else if allowed - actions > MAX_INBOUND_PER_TX then Success(MAX_INBOUND_PER_TX)
      else Success(allowed - actions)
  }

  /** What the loop over a transaction's messages leaves of the allowance, which
      is not looked up before a message needs it. */
  function Scan(c: Chain, msgs: seq<Msg>, left: Option<nat>): Result<Option<nat>, Refusal> {
    if msgs == [] then Success(left)
    else if msgs[0].inbounds == 0 then Scan(c, msgs[1..], left)
    else
      var budget := Budget(c, left);
      if budget.Failure? then Failure(LookupFailed(budget.error))
      else if msgs[0].priority.Failure? then Failure(LookupFailed(msgs[0].priority.error))
      else if budget.value >= msgs[0].inbounds then Scan(c, msgs[1..], Some(budget.value - msgs[0].inbounds))
      else if msgs[0].priority.value then Scan(c, msgs[1..], Some(0))
      else Failure(QueueFull)
  }

  function Budget(c: Chain, left: Option<nat>): Result<nat, string> {
    if left.Some? then Success(left.value) else AllowedInbound(c)
  }

  /** None where the transaction goes on to the next handler. */
  function Verdict(c: Chain, msgs: seq<Msg>): Option<Refusal> {
    match Scan(c, msgs, None)
    case Success(_) => None
    case Failure(e) => Some(e)
  }

  method AnteHandle(c: Chain, msgs: seq<Msg>) returns (refusal: Option<Refusal>)
    ensures refusal == Verdict(c, msgs)
  {
    var inboundsAllowed: int := -1;
    for i := 0 to |msgs|
      invariant -1 <= inboundsAllowed
      invariant Scan(c, msgs, None) ==
                Scan(c, msgs[i..], if inboundsAllowed == -1 then None else Some(inboundsAllowed))
    {
      assert msgs[i..][0] == msgs[i] && msgs[i..][1..] == msgs[i + 1..];
      var inbounds := msgs[i].inbounds;
      if inbounds == 0 {
        continue;
      }
      if inboundsAllowed == -1 {
        var allowed := AllowedInbound(c);
        if allowed.Failure? {
          return Some(LookupFailed(allowed.error));
        }
        inboundsAllowed := allowed.value;
      }
      var isHighPriority := msgs[i].priority;
      if isHighPriority.Failure? {
        return Some(LookupFailed(isHighPriority.error));
      }
      if inboundsAllowed >= inbounds {
        inboundsAllowed := inboundsAllowed - inbounds;
      } else if isHighPriority.value {
        inboundsAllowed := 0;
      } else {
        return Some(QueueFull);
      }
    }
    assert msgs[|msgs|..] == [];
    refusal := None;
  }

  // ------------------------------------------------ which are admitted

  function Total(msgs: seq<Msg>): nat {
    if msgs == [] then 0 else msgs[0].inbounds + Total(msgs[1..])
  }

  /** A message passes if it adds nothing, or if everything can be looked up
      and it has priority or fits in with all that comes before it. */
  predicate Passes(budget: Result<nat, string>, msgs: seq<Msg>, i: nat)
    requires i < |msgs|
  {
    msgs[i].inbounds == 0 ||
    (budget.Success? && msgs[i].priority.Success? &&
     (msgs[i].priority.value || Total(msgs[..i + 1]) <= budget.value))
  }

  function Cause(budget: Result<nat, string>, msg: Msg): Refusal {
    if budget.Failure? then LookupFailed(budget.error)
    else if msg.priority.Failure? then LookupFailed(msg.priority.error)
    else QueueFull
  }

  predicate AllPass(budget: Result<nat, string>, msgs: seq<Msg>) {
    forall i | 0 <= i < |msgs| :: Passes(budget, msgs, i)
  }

  predicate FirstToFail(budget: Result<nat, string>, msgs: seq<Msg>, i: int) {
    0 <= i < |msgs| && !Passes(budget, msgs, i) && forall j | 0 <= j < i :: Passes(budget, msgs, j)
  }

  function Less(n: nat, m: nat): nat {
    if n >= m then n - m else 0
  }

  function Spend(budget: Result<nat, string>, n: nat): Result<nat, string> {
    if n == 0 then budget else match budget { case Success(b) => Success(Less(b, n)) case Failure(_) => budget }
  }

  /** Passing the rest of the messages after the first took its share is
      passing them all. */
  lemma PassesShifts(budget: Result<nat, string>, msgs: seq<Msg>, i: nat)
    requires 0 < i < |msgs|
    ensures Passes(Spend(budget, msgs[0].inbounds), msgs[1..], i - 1) == Passes(budget, msgs, i)
  {
    assert msgs[..i + 1][1..] == msgs[1..][..i];
    TotalAtLeast(msgs[1..][..i], i - 1);
  }

  lemma {:induction false} TotalAtLeast(msgs: seq<Msg>, i: nat)
    requires i < |msgs|
    ensures msgs[i].inbounds <= Total(msgs)
  {
    if i == 0 {
    } else {
      TotalAtLeast(msgs[1..], i - 1);
    }
  }

  lemma FirstPasses(budget: Result<nat, string>, msgs: seq<Msg>)
    requires msgs != []
    ensures Passes(budget, msgs, 0) <==>
            msgs[0].inbounds == 0 ||
            (budget.Success? && msgs[0].priority.Success? &&
             (msgs[0].priority.value || msgs[0].inbounds <= budget.value))
  {
    assert msgs[..0 + 1] == [msgs[0]] && [msgs[0]][1..] == [];
    assert Total([msgs[0]]) == msgs[0].inbounds + Total([]);
  }

  lemma RestDecides(budget: Result<nat, string>, msgs: seq<Msg>)
    requires msgs != [] && Passes(budget, msgs, 0)
    ensures
      var spent := Spend(budget, msgs[0].inbounds);
      && (AllPass(budget, msgs) <==> AllPass(spent, msgs[1..]))
      && (forall i | FirstToFail(spent, msgs[1..], i) :: FirstToFail(budget, msgs, i + 1))
  {
    var spent := Spend(budget, msgs[0].inbounds);
    forall i | 0 < i < |msgs|
      ensures Passes(spent, msgs[1..], i - 1) == Passes(budget, msgs, i)
    {
      PassesShifts(budget, msgs, i);
    }
    if AllPass(spent, msgs[1..]) {
      forall i | 0 <= i < |msgs|
        ensures Passes(budget, msgs, i)
      {
        assert i > 0 ==> Passes(spent, msgs[1..], i - 1);
      }
    }
    if AllPass(budget, msgs) {
      forall i | 0 <= i < |msgs[1..]|
        ensures Passes(spent, msgs[1..], i)
      {
        assert Passes(budget, msgs, i + 1);
      }
    }
    forall i | FirstToFail(spent, msgs[1..], i)
      ensures FirstToFail(budget, msgs, i + 1)
    {
      assert !Passes(budget, msgs, i + 1);
      forall j | 0 <= j < i + 1
        ensures Passes(budget, msgs, j)
      {
        assert j > 0 ==> Passes(spent, msgs[1..], j - 1);
      }
    }
  }

  /** The running allowance decides as the sums do. */
  lemma {:induction false} ScanDecides(c: Chain, msgs: seq<Msg>, left: Option<nat>)
    ensures
      var budget := Budget(c, left);
      var r := Scan(c, msgs, left);
      && (r.Success? <==> AllPass(budget, msgs))
      && (r.Success? ==> (Total(msgs) == 0 ==> r.value == left) && (Total(msgs) > 0 ==> r.value.Some?))
      && (r.Success? ==> Budget(c, r.value) == Spend(budget, Total(msgs)))
      && (r.Failure? ==> exists i :: FirstToFail(budget, msgs, i) && r.error == Cause(budget, msgs[i]))
    decreases |msgs|
  {
    var budget := Budget(c, left);
    if msgs == [] {
    } else {
      FirstPasses(budget, msgs);
      if !Passes(budget, msgs, 0) {
        assert FirstToFail(budget, msgs, 0);
      } else {
        var inbounds := msgs[0].inbounds;
        var next := if inbounds == 0 then left else Some(Less(budget.value, inbounds));
        assert Scan(c, msgs, left) == Scan(c, msgs[1..], next);
        assert Budget(c, next) == Spend(budget, inbounds);
        ScanDecides(c, msgs[1..], next);
        RestDecides(budget, msgs);
        if Scan(c, msgs, left).Failure? {
          var i :| FirstToFail(Budget(c, next), msgs[1..], i) &&
                   Scan(c, msgs, left).error == Cause(Budget(c, next), msgs[1..][i]);
          assert FirstToFail(budget, msgs, i + 1);
        }
      }
    }
  }

  /** A transaction is admitted exactly if every message passes; if not, the
      first that fails to gives the reason. */
  lemma AdmittedExactly(c: Chain, msgs: seq<Msg>)
    ensures Verdict(c, msgs).None? <==> AllPass(AllowedInbound(c), msgs)
    ensures forall i | FirstToFail(AllowedInbound(c), msgs, i) ::
              Verdict(c, msgs) == Some(Cause(AllowedInbound(c), msgs[i]))
  {
    ScanDecides(c, msgs, None);
    forall i, j | FirstToFail(AllowedInbound(c), msgs, i) && FirstToFail(AllowedInbound(c), msgs, j)
      ensures i == j
    {
    }
  }

  /** The first entry with the key is at i. */
  predicate EntryAt(sizes: seq<QueueSize>, key: string, i: nat) {
    i < |sizes| && sizes[i].key == key && forall j | 0 <= j < i :: sizes[j].key != key
  }

  /** The key of the limit that counts: the mempool has one of its own. */
  predicate LimitAt(c: Chain, i: nat) {
    if c.isCheckTx then EntryAt(c.queueAllowed, "inbound_mempool", i) else EntryAt(c.queueAllowed, "inbound", i)
  }

  ghost predicate HasLimit(c: Chain) {
    exists i: nat :: LimitAt(c, i)
  }

  /** The queue is shorter than its limit. */
  ghost predicate HasRoom(c: Chain) {
    && c.highPriorityQueue.Success? && c.actionQueue.Success?
    && exists i: nat :: LimitAt(c, i) && c.highPriorityQueue.value + c.actionQueue.value < c.queueAllowed[i].size as int
  }

  /** What keeps the length of the queue from being known. */
  predicate Unreadable(c: Chain, error: string) {
    if c.highPriorityQueue.Failure? then error == c.highPriorityQueue.error
    else if c.actionQueue.Failure? then error == c.actionQueue.error
    else
      c.highPriorityQueue.value + c.actionQueue.value > 0x7fff_ffff_ffff_ffff &&
      error == "inbound queue size too big"
  }

  lemma {:induction false} EntryIsFirst(sizes: seq<QueueSize>, key: string)
    ensures forall i: nat | EntryAt(sizes, key, i) :: QueueSizeEntry(sizes, key) == Some(sizes[i].size)
    ensures QueueSizeEntry(sizes, key).Some? ==> exists i: nat :: EntryAt(sizes, key, i)
    decreases |sizes|
  {
    if sizes == [] {
    } else if sizes[0].key == key {
      assert EntryAt(sizes, key, 0);
    } else {
      EntryIsFirst(sizes[1..], key);
      forall i: nat | EntryAt(sizes, key, i) ensures QueueSizeEntry(sizes, key) == Some(sizes[i].size) {
        assert EntryAt(sizes[1..], key, i - 1);
      }
      if QueueSizeEntry(sizes, key).Some? {
        var i: nat :| EntryAt(sizes[1..], key, i);
        assert EntryAt(sizes, key, i + 1);
      }
    }
  }

  /** What a transaction may add: one message if the queue is shorter than its
      limit, and otherwise none.  Without a limit the length is not looked
      at. */
  lemma AllowedExactly(c: Chain)
    ensures AllowedInbound(c) == Success(1) <==> HasRoom(c)
    ensures AllowedInbound(c) == Success(0) <==>
            !HasLimit(c) || (!HasRoom(c) && !exists error :: Unreadable(c, error))
    ensures AllowedInbound(c).Failure? <==> HasLimit(c) && exists error :: Unreadable(c, error)
    ensures AllowedInbound(c).Failure? ==> Unreadable(c, AllowedInbound(c).error)
  {
    EntryIsFirst(c.queueAllowed, "inbound");
    EntryIsFirst(c.queueAllowed, "inbound_mempool");
    if HasLimit(c) {
      var i: nat :| LimitAt(c, i);
      assert AllowedEntry(c) == Some(c.queueAllowed[i].size);
      LengthExactly(c);
      forall j: nat | LimitAt(c, j) ensures j == i {
      }
      assert InboundQueueLength(c).Success? ==> (AllowedInbound(c) == Success(1) <==> HasRoom(c));
      assert InboundQueueLength(c).Failure? ==> AllowedInbound(c).Failure?;
    } else {
      assert AllowedEntry(c).None? by {
        if AllowedEntry(c).Some? {
          var i: nat :| EntryAt(c.queueAllowed, if c.isCheckTx then "inbound_mempool" else "inbound", i);
          assert LimitAt(c, i);
        }
      }
    }
  }

  lemma LengthExactly(c: Chain)
    ensures InboundQueueLength(c).Failure? <==> exists error :: Unreadable(c, error)
    ensures InboundQueueLength(c).Failure? ==> Unreadable(c, InboundQueueLength(c).error)
    ensures InboundQueueLength(c).Success? ==>
      var size := c.highPriorityQueue.value + c.actionQueue.value;
      InboundQueueLength(c).value == if size < 0x7fff_ffff then size else 0x7fff_ffff
  {
    if InboundQueueLength(c).Failure? {
      assert Unreadable(c, InboundQueueLength(c).error);
    }
  }

  /** Why a message is refused: the length of the queue or its priority cannot
      be looked up, or the queue is full. */
  ghost predicate Refused(c: Chain, msg: Msg, refusal: Option<Refusal>) {
    if HasLimit(c) && exists error :: Unreadable(c, error) then
      refusal.Some? && refusal.value.LookupFailed? && Unreadable(c, refusal.value.error)
    else if msg.priority.Failure? then refusal == Some(LookupFailed(msg.priority.error))
    else refusal == Some(QueueFull)
  }

  /** All of the gate: a transaction is admitted exactly if each of its
      messages that adds to the queue can be looked up, and has priority or is
      the only addition up to there, to a queue with room. */
  lemma AdmittedWithRoom(c: Chain, msgs: seq<Msg>)
    ensures Verdict(c, msgs).None? <==>
            forall i | 0 <= i < |msgs| && msgs[i].inbounds > 0 ::
              && (!HasLimit(c) || !exists error :: Unreadable(c, error))
              && msgs[i].priority.Success?
              && (msgs[i].priority.value || (Total(msgs[..i + 1]) <= 1 && HasRoom(c)))
    ensures forall i | FirstToFail(AllowedInbound(c), msgs, i) :: Refused(c, msgs[i], Verdict(c, msgs))
  {
    AdmittedExactly(c, msgs);
    AllowedExactly(c);
    AtMostOne(c);
    forall i | FirstToFail(AllowedInbound(c), msgs, i) ensures Refused(c, msgs[i], Verdict(c, msgs)) {
      assert AllowedInbound(c).Success? ==> !(HasLimit(c) && exists error :: Unreadable(c, error));
    }
    forall i | 0 <= i < |msgs| && msgs[i].inbounds > 0
      ensures Passes(AllowedInbound(c), msgs, i) <==>
              && (!HasLimit(c) || !exists error :: Unreadable(c, error))
              && msgs[i].priority.Success?
              && (msgs[i].priority.value || (Total(msgs[..i + 1]) <= 1 && HasRoom(c)))
    {
      TotalAtLeast(msgs[..i + 1], i);
    }
  }

  /** A single message without priority. */
  lemma OneLowMessage(c: Chain)
    ensures
      var verdict := Verdict(c, [Msg(1, Success(false))]);
      && (verdict == None <==> HasRoom(c))
      && (verdict == Some(QueueFull) <==>
            !HasLimit(c) || (!HasRoom(c) && !exists error :: Unreadable(c, error)))
  {
    var msgs := [Msg(1, Success(false))];
    AdmittedExactly(c, msgs);
    AllowedExactly(c);
    AtMostOne(c);
    FirstPasses(AllowedInbound(c), msgs);
    if !Passes(AllowedInbound(c), msgs, 0) {
      assert FirstToFail(AllowedInbound(c), msgs, 0);
    }
  }

  lemma AtMostOne(c: Chain)
    ensures AllowedInbound(c).Success? ==> AllowedInbound(c).value <= 1
  {
  }

  // ------------------------------------------------ what a block can add

  predicate HasPriority(m: Msg) {
    m.priority == Success(true)
  }

  function Lows(msgs: seq<Msg>): (r: seq<Msg>)
    ensures |r| <= |msgs|
    ensures forall m | m in r :: m in msgs && !HasPriority(m)
  {
    if msgs == [] then []
    else if HasPriority(msgs[0]) then Lows(msgs[1..])
    else [msgs[0]] + Lows(msgs[1..])
  }

  function Highs(msgs: seq<Msg>): (r: seq<Msg>)
    ensures |r| <= |msgs|
    ensures forall m | m in r :: m in msgs && HasPriority(m)
  {
    if msgs == [] then []
    else if HasPriority(msgs[0]) then [msgs[0]] + Highs(msgs[1..])
    else Highs(msgs[1..])
  }

  lemma {:induction false} LowsAndHighs(msgs: seq<Msg>)
    ensures multiset(msgs) == multiset(Lows(msgs)) + multiset(Highs(msgs))
    decreases |msgs|
  {
    if msgs == [] {
    } else {
      LowsAndHighs(msgs[1..]);
      assert msgs == [msgs[0]] + msgs[1..];
    }
  }

  lemma {:induction false} TotalDivides(msgs: seq<Msg>)
    ensures Total(msgs) == Total(Lows(msgs)) + Total(Highs(msgs))
    decreases |msgs|
  {
    if msgs == [] {
    } else {
      TotalDivides(msgs[1..]);
      TotalPrepends(msgs[0], Lows(msgs[1..]));
      TotalPrepends(msgs[0], Highs(msgs[1..]));
    }
  }

  lemma TotalPrepends(m: Msg, msgs: seq<Msg>)
    ensures Total([m] + msgs) == m.inbounds + Total(msgs)
  {
    assert ([m] + msgs)[1..] == msgs;
  }

  /** The messages without priority fit into the allowance together. */
  lemma {:induction false} LowsFit(budget: Result<nat, string>, msgs: seq<Msg>)
    requires AllPass(budget, msgs)
    ensures Total(Lows(msgs)) > 0 ==> budget.Success? && Total(Lows(msgs)) <= budget.value
    decreases |msgs|
  {
    if msgs == [] {
    } else {
      FirstPasses(budget, msgs);
      RestDecides(budget, msgs);
      LowsFit(Spend(budget, msgs[0].inbounds), msgs[1..]);
      TotalPrepends(msgs[0], Lows(msgs[1..]));
    }
  }

  /** So a transaction adds one of them at most, and only to a queue with room
      for it. */
  lemma AdmittedLows(c: Chain, msgs: seq<Msg>)
    requires Verdict(c, msgs).None?
    ensures Total(Lows(msgs)) <= MAX_INBOUND_PER_TX
    ensures Total(Lows(msgs)) > 0 && c.highPriorityQueue.Success? && c.actionQueue.Success? ==>
              && AllowedEntry(c).Some?
              && c.highPriorityQueue.value + c.actionQueue.value + Total(Lows(msgs)) <= AllowedEntry(c).value
  {
    AdmittedExactly(c, msgs);
    LowsFit(AllowedInbound(c), msgs);
  }

  datatype Tx = Tx(msgs: seq<Msg>, succeeds: bool)

  /** The queues during a block: a transaction that the gate admits and that
      succeeds adds all of its messages. */
  datatype Queues = Queues(highPriority: nat, action: nat)

  function ChainAt(sizes: seq<QueueSize>, q: Queues): Chain {
    Chain(false, sizes, Success(q.highPriority), Success(q.action))
  }

  function Deliver(sizes: seq<QueueSize>, q: Queues, tx: Tx): Queues {
    if Verdict(ChainAt(sizes, q), tx.msgs).None? && tx.succeeds
    then Queues(q.highPriority + Total(Highs(tx.msgs)), q.action + Total(Lows(tx.msgs)))
    else q
  }

  function RunBlock(sizes: seq<QueueSize>, q: Queues, txs: seq<Tx>): Queues
    decreases |txs|
  {
    if txs == [] then q else RunBlock(sizes, Deliver(sizes, q, txs[0]), txs[1..])
  }

  function Allowed(sizes: seq<QueueSize>): int {
    match QueueSizeEntry(sizes, QUEUE_INBOUND) { case Some(n) => n case None => 0 }
  }

  function Max(a: int, b: int): int {
    if a >= b then a else b
  }

  lemma DeliverBound(sizes: seq<QueueSize>, q: Queues, tx: Tx)
    ensures
      var r := Deliver(sizes, q, tx);
      && q.highPriority <= r.highPriority
      && q.action <= r.action <= q.action + MAX_INBOUND_PER_TX
      && (r.action > q.action ==> q.highPriority + r.action <= Allowed(sizes))
      && r.highPriority + r.action ==
           q.highPriority + q.action +
           if Verdict(ChainAt(sizes, q), tx.msgs).None? && tx.succeeds then Total(tx.msgs) else 0
  {
    var c := ChainAt(sizes, q);
    TotalDivides(tx.msgs);
    if Verdict(c, tx.msgs).None? {
      AdmittedLows(c, tx.msgs);
    }
  }

  /** A block is its transactions one after the other. */
  lemma {:induction false} BlockGoesOn(sizes: seq<QueueSize>, q: Queues, txs: seq<Tx>, tx: Tx)
    ensures RunBlock(sizes, q, []) == q
    ensures RunBlock(sizes, q, txs + [tx]) == Deliver(sizes, RunBlock(sizes, q, txs), tx)
    decreases |txs|
  {
    if txs == [] {
      assert ([] + [tx])[1..] == [];
    } else {
      assert (txs + [tx])[1..] == txs[1..] + [tx];
      BlockGoesOn(sizes, Deliver(sizes, q, txs[0]), txs[1..], tx);
    }
  }

  /** Over a block the queue outgrows its limit only by messages with
      priority; without them it never does, unless it began above it. */
  lemma {:induction false} BlockBound(sizes: seq<QueueSize>, q: Queues, txs: seq<Tx>)
    ensures
      var r := RunBlock(sizes, q, txs);
      && q.highPriority <= r.highPriority
      && q.action <= r.action <= q.action + MAX_INBOUND_PER_TX * |txs|
      && r.highPriority + r.action <=
           Max(q.highPriority + q.action, Allowed(sizes)) + (r.highPriority - q.highPriority)
    decreases |txs|
  {
    if txs == [] {
    } else {
      DeliverBound(sizes, q, txs[0]);
      BlockBound(sizes, Deliver(sizes, q, txs[0]), txs[1..]);
    }
  }

  // ----------------------------------------------------- order and limits

  lemma {:induction false} ScanAppends(c: Chain, a: seq<Msg>, b: seq<Msg>, left: Option<nat>)
    ensures Scan(c, a + b, left) ==
            (match Scan(c, a, left) case Success(l) => Scan(c, b, l) case Failure(e) => Failure(e))
    decreases |a|
  {
    if a == [] {
      assert a + b == b;
    } else {
      assert (a + b)[1..] == a[1..] + b;
      var budget := Budget(c, left);
      if a[0].inbounds == 0 {
        ScanAppends(c, a[1..], b, left);
      } else if budget.Success? && a[0].priority.Success? {
        if budget.value >= a[0].inbounds {
          ScanAppends(c, a[1..], b, Some(budget.value - a[0].inbounds));
        } else if a[0].priority.value {
          ScanAppends(c, a[1..], b, Some(0));
        }
      }
    }
  }

  /** As good an allowance: the same failure, or no less of it. */
  predicate AtLeast(more: Result<nat, string>, budget: Result<nat, string>) {
    more == budget || (more.Success? && budget.Success? && more.value >= budget.value)
  }

  lemma SpendAtLeast(more: Result<nat, string>, budget: Result<nat, string>, n: nat)
    requires AtLeast(more, budget)
    ensures AtLeast(Spend(more, n), Spend(budget, n)) && AtLeast(more, Spend(budget, n))
  {
  }

  /** Leaving out messages with priority, and having more allowance, does no
      harm. */
  lemma {:induction false} LowsPass(more: Result<nat, string>, budget: Result<nat, string>, msgs: seq<Msg>)
    requires AllPass(budget, msgs) && AtLeast(more, budget)
    ensures AllPass(more, Lows(msgs))
    decreases |msgs|
  {
    if msgs == [] {
    } else {
      FirstPasses(budget, msgs);
      RestDecides(budget, msgs);
      var n := msgs[0].inbounds;
      SpendAtLeast(more, budget, n);
      if HasPriority(msgs[0]) {
        LowsPass(more, Spend(budget, n), msgs[1..]);
        assert Lows(msgs) == Lows(msgs[1..]);
      } else {
        LowsPass(Spend(more, n), Spend(budget, n), msgs[1..]);
        assert Lows(msgs)[1..] == Lows(msgs[1..]);
        FirstPasses(more, Lows(msgs));
        RestDecides(more, Lows(msgs));
      }
    }
  }

  lemma HighsPass(budget: Result<nat, string>, msgs: seq<Msg>)
    requires budget.Success? || Total(Highs(msgs)) == 0
    ensures AllPass(budget, Highs(msgs))
  {
    forall i | 0 <= i < |Highs(msgs)|
      ensures Passes(budget, Highs(msgs), i)
    {
      assert HasPriority(Highs(msgs)[i]);
      TotalAtLeast(Highs(msgs), i);
    }
  }

  /** Moving the messages with priority to the end keeps an admitted
      transaction admitted. */
  lemma PriorityLastIsSafe(c: Chain, msgs: seq<Msg>)
    requires Verdict(c, msgs).None?
    ensures multiset(Lows(msgs) + Highs(msgs)) == multiset(msgs)
    ensures Verdict(c, Lows(msgs) + Highs(msgs)).None?
  {
    LowsAndHighs(msgs);
    var budget := AllowedInbound(c);
    AdmittedExactly(c, msgs);
    LowsPass(budget, budget, msgs);
    ScanDecides(c, Lows(msgs), None);
    var left := Scan(c, Lows(msgs), None).value;
    if budget.Failure? {
      NothingToAdd(budget, msgs);
    }
    TotalDivides(msgs);
    HighsPass(Budget(c, left), msgs);
    ScanDecides(c, Highs(msgs), left);
    ScanAppends(c, Lows(msgs), Highs(msgs), None);
  }

  lemma {:induction false} NothingToAdd(budget: Result<nat, string>, msgs: seq<Msg>)
    requires budget.Failure? && AllPass(budget, msgs)
    ensures Total(msgs) == 0
    decreases |msgs|
  {
    if msgs == [] {
    } else {
      FirstPasses(budget, msgs);
      RestDecides(budget, msgs);
      NothingToAdd(Spend(budget, msgs[0].inbounds), msgs[1..]);
    }
  }

  /** It can also turn a refused transaction into an admitted one. */
  lemma PriorityFirstIsWorse(high: Msg, low: Msg, c: Chain)
    requires AllowedInbound(c) == Success(1)
    requires high == Msg(1, Success(true)) && low == Msg(1, Success(false))
    ensures Verdict(c, [high, low]) == Some(QueueFull)
    ensures Lows([high, low]) + Highs([high, low]) == [low, high]
    ensures Verdict(c, [low, high]) == None
  {
    assert [high, low][1..] == [low] && [low, high][1..] == [high];
    assert [low][1..] == [] && [high][1..] == [];
    assert Scan(c, [high, low], None) == Scan(c, [low], Some(0));
    assert Scan(c, [low, high], None) == Scan(c, [high], Some(0)) == Scan(c, [], Some(0));
    assert Lows([low]) == [low] && Highs([low]) == [];
  }

  /** With the lower limit for the mempool, what is admitted there is admitted
      to a block that finds the queues no longer. */
  lemma MempoolIsStricter(c: Chain, d: Chain, msgs: seq<Msg>)
    requires c.isCheckTx && !d.isCheckTx
    requires InboundQueueLength(d).Success? && InboundQueueLength(c).Success?
    requires InboundQueueLength(d).value <= InboundQueueLength(c).value
    requires AllowedEntry(c).Some? ==> AllowedEntry(d).Some? && AllowedEntry(c).value <= AllowedEntry(d).value
    requires Verdict(c, msgs).None?
    ensures Verdict(d, msgs).None?
  {
    AdmittedExactly(c, msgs);
    AdmittedExactly(d, msgs);
    assert AtLeast(AllowedInbound(d), AllowedInbound(c));
    forall i | 0 <= i < |msgs|
      ensures Passes(AllowedInbound(d), msgs, i)
    {
      assert Passes(AllowedInbound(c), msgs, i);
    }
  }
}
