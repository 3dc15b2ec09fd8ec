# Verified models of Agoric SDK components

This project models eight parts of the Agoric SDK and proves what they
promise, over every input and, where state is kept, over every run.

* **The ERTP payment ledger.** `AmountMath` gives the four kinds of amounts a
  common meaning: an amount stands for a multiset of rights.  `LedgerSpec` is
  the ledger of one issuer as a state machine, `LedgerRuns` holds what is true
  of whole runs of it, and `Ledger` is the ledger as the code keeps it: purses
  and recovery sets are objects that are updated in place and shared between
  the purses and the index of recoverable payments.  Every method there is
  proved to take exactly one step of the state machine.  `LegacyHelpers` are
  the helpers that chain several ledger operations, proved on the objects to
  do what `LegacySpec` says and decides on values, and `IssuerKit` is the
  recovery-set mode across upgrades.
* **Ratios.** `SafeMath` has the rounding divisions, `Ratio` the scaling of
  amounts and the exact arithmetic on ratios.  Half-to-even is roundTiesToEven
  of IEEE 754-2019, section 4.3.1 (a comment in safeMath.js calls it IEEE 774).
* **The baggage check.** `Baggage` has the worklist as an object and proves it
  equal to reachability in the reference graph.
* **Comms references.** `CommsRefs` has the export and import tables of an
  endpoint, and two endpoints that see the same messages.
* **The bridge codec.** `ClientCodec` has the codec's locked regions as
  methods, and all interleavings of calls in flight as a state machine, whose
  steps the methods are proved to carry out.
* **Inbound-queue admission.** `InboundAnte`.
* **Address hooks.** `AddressHooks`, over bech32 (BIP-173, section "Bech32")
  as a partial codec.
* **Two loops.** `MergeJoin` pairs the file diffs of two patches;
  `VStorageHistory` walks back through the writes to a storage cell.

`dafny verify dfyconfig.toml` checks everything.  Exceptions of the source are
`Result` values; a check that throws is a failure with the state it leaves.

## What turned out different from what is documented

* `types.ts` lines 293-296 say that an issuer cannot be converted from one
  recovery-set mode to the other on upgrade.  The code lets recovery sets be
  switched off, and because the new mode is never stored, the next upgrade
  switches them on again (`SwitchingOffIsNotRemembered`).  Once they are off,
  a purse whose set is not empty can neither be withdrawn from nor recovered
  (`SwitchedOffPursesAreStuck`), and minting through a mint recovery purse in
  that state throws after the amount has been minted (`MintOutcome`, and
  `MintingAfterSwitchingOff` for a run).
* The comments of the ledger say that nothing can fail after a commit point.
  For the set-like kinds a deposit can, exactly if the purse already holds an
  element of the payment (`DepositOutcome`).  It never happens in a run that
  mints no element that is in circulation (`NeverShutsDown`), and it can happen
  without further minting exactly if an element circulates twice
  (`SafeExactly`); `MintingTwiceRuins` is a run that gets there.
* The comments of the legacy helpers say that no assets are lost as long as the
  recovery purse is kept.  What a payment held is lost if its deposit fails
  after the commit point, and in no other way (`ClaimOutcome`,
  `CombineOutcome`, `SplitOutcome`, `SplitManyOutcome`; `ClaimCanLose` is a run
  that gets there).
* A receiver of comms messages refuses one thing that the sender's checks let
  through: to retire an export that was sent again since it was last dropped
  (`RefusedExactly`; `StaleRetireHappens` is a run that gets there).
* The brand check of `ratioGTE` depends on the order of its arguments
  (`BrandCheckIsOneSided`).
* An error with an empty text reaches the client of the codec as a successful
  empty reply (`NoCrossTalk`, `EmptyErrorIsDelivered`), and an answer for an
  unknown port is taken for the answer to request 0
  (`CallZeroGetsStrayAnswer`).
* `Join` accepts bases of up to 32769 bytes, `Split` of up to 65535
  (`JoinUndoesSplit`).  A bech32 decoder that stops at 1023 characters never
  yields a base longer than `Join` takes, so the difference cannot be seen with
  that decoder.
* The merge-join compares names with `localeCompare`, while git lists files in
  byte order.  All sorted patches are paired up faithfully if and only if the
  two orders agree on the names that a patch can have (`FaithfulExactly`).
* Reading the history of a cell without a lower limit never ends if the walk
  comes to a write at height 1, because height 0 asks for the latest state
  (`EndsExactly`, `FirstBlockLoops`).

## Model

| member | source | states |
|---|---|---|
| AmountMath.RightsDetermineValue | packages/ERTP/src/amountMath.js:297-310 | an amount of a kind is determined by the rights it stands for, so equal in both directions of `>=` is equal |
| AmountMath.DoCoerce | packages/ERTP/src/mathHelpers/natMathHelpers.js:20-25 | coercion succeeds exactly on natural numbers, sets and bags, and changes nothing |
| AmountMath.DoIsEmpty | packages/ERTP/src/types.ts:427-475 | every kind's emptiness test is the absence of rights |
| AmountMath.DoIsGTE | packages/ERTP/src/types.ts:427-475 | every kind's comparison is inclusion of rights |
| AmountMath.DoAdd | packages/ERTP/src/types.ts:427-475 | every kind's addition unites rights; it fails exactly for set-like kinds that overlap |
| AmountMath.DoSubtract | packages/ERTP/src/types.ts:427-475 | every kind's subtraction removes rights; it fails exactly if they are not all there |
| AmountMath.Coerce | packages/ERTP/src/amountMath.js:233-241 | succeeds exactly for the given brand and a valid value |
| AmountMath.CheckLR | packages/ERTP/src/amountMath.js:135-165 | the checks before a binary operation pass exactly for one brand, the expected one if given, one kind, and valid values |
| AmountMath.IsGTE | packages/ERTP/src/amountMath.js:180-183 | inclusion of rights of compatible amounts |
| AmountMath.IsEqual | packages/ERTP/src/amountMath.js:307-310 | equality of compatible amounts, equivalently of their rights |
| AmountMath.Add | packages/ERTP/src/amountMath.js:327-331 | unites rights and keeps brand and kind, with the exact condition for success |
| AmountMath.Subtract | packages/ERTP/src/amountMath.js:346-351 | removes rights and keeps brand and kind, with the exact condition for success |
| AmountMath.AddCommutes | packages/ERTP/src/amountMath.js:327-331 | both orders succeed together and agree |
| AmountMath.AddAssociates | packages/ERTP/src/amountMath.js:327-331 | both groupings of three amounts succeed together and agree |
| AmountMath.SubtractUndoesAdd | packages/ERTP/src/amountMath.js:346-351 | subtracting what was added gives back the same amount, for every kind |
| AmountMath.AddUndoesSubtract | packages/ERTP/src/amountMath.js:346-351 | adding what was subtracted gives back the same amount, for every kind |
| IssuerKit.Baggage.MakeDurableIssuerKit | packages/ERTP/src/issuerKit.js:199-224 | succeeds only on empty baggage and stores the record and the mode; a second one fails and changes nothing |
| IssuerKit.Baggage.UpgradeIssuerKit | packages/ERTP/src/issuerKit.js:113-139 | fails without an issuer; otherwise runs in the mode that the stored mode and the option give, and stores nothing |
| IssuerKit.Baggage.PrepareIssuerKit | packages/ERTP/src/issuerKit.js:147 | with an issuer in baggage it upgrades and leaves baggage alone, without one it makes one in the mode asked for, by default with recovery sets |
| IssuerKit.NoRecoverySetsIsForever | packages/ERTP/src/issuerKit.js:118-132 | created without recovery sets, an issuer runs without them after any upgrades |
| IssuerKit.SwitchingOffIsNotRemembered | packages/ERTP/src/issuerKit.js:118-132 | an upgrade is refused exactly if the issuer was created without recovery sets and they are asked for; switching off can be undone and undoes itself |
| LedgerSpec.TotalSplits | packages/ERTP/src/paymentLedger.js:259-264 | the rights in a store are those of any one entry and of the rest |
| LedgerSpec.DepositOutcome | packages/ERTP/src/paymentLedger.js:246-270 | each way a deposit fails, with its exact condition; before the commit point a failure changes nothing, after it exactly if the purse holds a set-like element of the payment; success moves exactly the payment's rights into the purse |
| LedgerSpec.ShutdownLoses | packages/ERTP/src/paymentLedger.js:259-268 | what a deposit loses that fails after the commit point: the rights of the payment, and nothing else |
| LedgerSpec.DepositSound | packages/ERTP/src/paymentLedger.js:246-270 | a deposit keeps the stores and the recovery sets exact, even if it fails after the commit point |
| LedgerSpec.DepositConserves | packages/ERTP/src/paymentLedger.js:260-264 | a deposit conserves rights unless it fails after the commit point |
| LedgerSpec.WithdrawOutcome | packages/ERTP/src/paymentLedger.js:280-294 | a withdrawal succeeds exactly if the purse has the amount and recovery sets allow it; failure changes nothing and never comes after the commit point |
| LedgerSpec.RefusalOutcome | packages/ERTP/src/paymentLedger.js:280-294 | which of the reasons a withdrawal is refused for, each with its exact condition |
| LedgerSpec.WithdrawStores | packages/ERTP/src/paymentLedger.js:180-190 | what a withdrawal stores: its payment, live and in the recovery set of its purse unless it is empty or sets are off, and nothing else |
| LedgerSpec.WithdrawKeeps | packages/ERTP/src/paymentLedger.js:280-294 | a withdrawal keeps the invariant and conserves rights |
| LedgerSpec.BurnOutcome | packages/ERTP/src/paymentLedger.js:345-358 | both ways burning is refused, with their exact conditions and no effect; success returns what the payment held, uses the payment up, takes it out of the recovery sets, records its rights as burned, and changes nothing else |
| LedgerSpec.BurnKeeps | packages/ERTP/src/paymentLedger.js:345-358 | burning keeps the invariant, so it conserves rights |
| LedgerSpec.MintKeeps | packages/ERTP/src/paymentLedger.js:377-391 | minting keeps the invariant and accounts for what it minted |
| LedgerSpec.MintFailureKeeps | packages/ERTP/src/paymentLedger.js:377-391 | so does a minting that fails |
| LedgerSpec.MintOutcome | packages/ERTP/src/paymentLedger.js:361-391 | minting leaves one live payment of the amount, no live raw payment and every balance as it was, with the two exact conditions under which it fails |
| LedgerSpec.MintStores | packages/ERTP/src/paymentLedger.js:377-391 | what a minting stores: its payment likewise, and of the raw payment nothing |
| LedgerSpec.MintWithdrawOutcome | packages/ERTP/src/paymentLedger.js:385-390 | the recovery purse is as before, so the final assertion cannot fire |
| LedgerRuns.IterationIsListing | packages/ERTP/src/purse.js:163-168 | unless the loop is stopped, iterations over the live recovery set, from which every turn deletes, are those that meet exactly the payments that were in it at the start, each once, in any order |
| LedgerRuns.DepositAllEmpties | packages/ERTP/src/purse.js:163-170 | the loop empties the recovery set, whatever the order in which it meets the payments |
| LedgerRuns.DepositAllSucceeds | packages/ERTP/src/purse.js:163-170 | it is stopped if and only if the asset is set-like and the purse and its recoverable payments hold some element twice, whatever the order |
| LedgerRuns.DepositAllGains | packages/ERTP/src/purse.js:163-171 | the purse gains exactly what the payments held, which is what is returned |
| LedgerRuns.RecoverAllOutcome | packages/ERTP/src/purse.js:156-172 | `recoverAll` empties the set, returns the sum of its payments, raises this balance by it, and changes no other balance or set; it shuts the ledger down exactly if a set-like element would come up twice, and refuses exactly if sets are off but this one is in use, which changes nothing |
| LedgerRuns.InitialInv | packages/ERTP/src/paymentLedger.js:148-170 | a new issuer satisfies the invariant |
| LedgerRuns.StepKeeps | packages/ERTP/src/paymentLedger.js:148-170 | every operation keeps the invariant |
| LedgerRuns.RunKeeps | packages/ERTP/src/paymentLedger.js:148-170 | in every run recovery sets hold exactly the live non-empty payments withdrawn from their purse, and purses and live payments hold exactly what was minted and not burned |
| LedgerRuns.StepLater | packages/ERTP/src/paymentLedger.js:192-205 | no operation changes a live payment's amount or revives a used-up payment |
| LedgerRuns.RunLater | packages/ERTP/src/paymentLedger.js:192-205 | nor does any run |
| LedgerRuns.NoOverlap | packages/ERTP/src/paymentLedger.js:259-264 | while nothing circulates twice, no purse overlaps with any live payment |
| LedgerRuns.RecoveryIsSafe | packages/ERTP/src/purse.js:156-172 | nor does recovery ever shut the ledger down |
| LedgerRuns.StepIsSafe | packages/ERTP/src/paymentLedger.js:259-268 | then no operation fails after its commit point |
| LedgerRuns.StepStaysUnique | packages/ERTP/src/paymentLedger.js:377-391 | and still nothing circulates twice, unless it is minted twice |
| LedgerRuns.NeverShutsDown | packages/ERTP/src/paymentLedger.js:129-141 | in no run of any kind is the ledger shut down, provided that set-like elements are not minted while they circulate |
| LedgerRuns.DuplicatesCanRuin | packages/ERTP/src/paymentLedger.js:259-268 | from any state in which a set-like element circulates twice, some run without minting shuts the ledger down |
| LedgerRuns.SafeExactly | packages/ERTP/src/paymentLedger.js:129-141 | so, whatever the mode, no run without minting shuts the ledger down if and only if nothing set-like circulates twice |
| LedgerRuns.MintingTwiceRuins | packages/ERTP/src/paymentLedger.js:377-391 | a run from a new issuer: minting, depositing and minting the same set-like element ends in a shutdown |
| LedgerRuns.MintingAfterSwitchingOff | packages/ERTP/src/paymentLedger.js:385-390 | a run from a new issuer: after an upgrade that switches recovery sets off, a minting throws although its amount is minted and in the recovery purse |
| LedgerRuns.FailureChangesNothing | packages/ERTP/src/paymentLedger.js:246-294 | an operation that fails in any way but by a shutdown has changed nothing, except for a minting refused at its last withdrawal; what a shutdown changes is in `ShutdownLoses` |
| LedgerRuns.RecoverySetsDisjoint | packages/ERTP/src/paymentLedger.js:154-163 | a payment is in one recovery set at most |
| LedgerRuns.NeverRecoverable | packages/ERTP/src/paymentLedger.js:165-166 | an issuer created without recovery sets has nothing in any of them, in any run with any upgrades |
| LedgerRuns.SwitchedOffPursesAreStuck | packages/ERTP/src/purse.js:63-77 | after switching recovery sets off, a purse with recoverable payments refuses withdrawals and recovery |
| Ledger.Purse.Increment | packages/ERTP/src/amountStore.js:22-24 | adds to the balance, or throws and leaves it |
| Ledger.Purse.Decrement | packages/ERTP/src/amountStore.js:25-31 | subtracts if there is enough, and leaves the balance if not |
| Ledger.PaymentLedger.constructor | packages/ERTP/src/paymentLedger.js:86-170 | the objects of a new issuer stand for the initial state |
| Ledger.PaymentLedger.IndexAgrees | packages/ERTP/src/paymentLedger.js:156-163 | a payment is a key of the index, with a set as its value, exactly if it is in that set, and in no other |
| Ledger.PaymentLedger.InitPayment | packages/ERTP/src/paymentLedger.js:180-190 | when it throws and what it stores |
| Ledger.PaymentLedger.DeletePayment | packages/ERTP/src/paymentLedger.js:198-205 | when it throws and what it deletes |
| Ledger.PaymentLedger.DeleteLive | packages/ERTP/src/paymentLedger.js:198-205 | for a live payment it cannot throw, and takes the payment out of the one set that has it |
| Ledger.PaymentLedger.InitRaw | packages/ERTP/src/paymentLedger.js:382-383 | adding a new payment to no set cannot throw |
| Ledger.PaymentLedger.InitRecoverable | packages/ERTP/src/paymentLedger.js:185-189 | nor can adding it to its purse's set |
| Ledger.PaymentLedger.MaybeRecoverySet | packages/ERTP/src/purse.js:63-77 | the set while recovery sets are on; none while they are off, and a refusal if the set is in use |
| Ledger.PaymentLedger.Deposit | packages/ERTP/src/purse.js:102-116 | takes the deposit step on the objects; it keeps their invariant unless the ledger is shut down, and then all of it but conservation |
| Ledger.PaymentLedger.DepositInternal | packages/ERTP/src/paymentLedger.js:246-270 | the same without the invariant, down to the state a shutdown leaves |
| Ledger.PaymentLedger.Withdraw | packages/ERTP/src/purse.js:117-131 | takes the withdrawal step with a fresh payment, succeeds exactly if the purse has the amount and recovery sets allow it, and changes nothing if it fails |
| Ledger.PaymentLedger.Burn | packages/ERTP/src/paymentLedger.js:345-358 | takes the burning step: on success the payment is no longer live nor in any recovery set, and what it held is returned and recorded as burned |
| Ledger.PaymentLedger.DepositNext | packages/ERTP/src/purse.js:163-168 | one turn: the payment met is the only one that leaves the set, or the loop is stopped |
| Ledger.PaymentLedger.DepositEach | packages/ERTP/src/purse.js:158-171 | the loop runs over the live set, from which its turns delete: it ends, meets what was in the set at the start, each once, and is the fold of deposit steps in the order met |
| Ledger.PaymentLedger.RecoverAll | packages/ERTP/src/purse.js:156-172 | takes the recovery step in the order in which its loop met the payments of the set |
| Ledger.PaymentLedger.MakeEmptyPurse | packages/ERTP/src/purse.js:86-99 | adds a purse with an empty balance and an empty set of its own |
| Ledger.PaymentLedger.UpgradeIssuer | packages/ERTP/src/issuerKit.js:118-138 | a new incarnation works on the same stores in the mode it is given |
| Ledger.PaymentLedger.GetRecoverySet | packages/ERTP/src/purse.js:148-155 | returns exactly the live non-empty payments withdrawn from this purse |
| Ledger.PaymentLedger.MintOutOfPurse | packages/ERTP/src/paymentLedger.js:387-390 | the withdrawal that ends a minting; the comparison of the balances never fails |
| Ledger.PaymentLedger.MintPayment | packages/ERTP/src/paymentLedger.js:377-391 | takes the minting step with a fresh raw payment and a fresh result |
| LegacySpec.EveryFrame | packages/ERTP/src/legacy-payment-helpers.js:77-80 | after all deposits every input is used up and no other payment, and no balance but the purse's has changed, whichever of them failed and how |
| LegacySpec.EveryGains | packages/ERTP/src/legacy-payment-helpers.js:77-80 | the purse gains what the different live inputs held, but for what deposits that failed after the commit point lost |
| LegacySpec.ShutdownExactly | packages/ERTP/src/legacy-payment-helpers.js:77-80 | some deposit fails after its commit point, and something is lost, if and only if the purse and the different live inputs hold a set-like element twice |
| LegacySpec.SuccessExactly | packages/ERTP/src/legacy-payment-helpers.js:77-80 | all deposits succeed exactly if the inputs are different and live and none fails after its commit point; the results are what they held |
| LegacySpec.SumExists | packages/ERTP/src/legacy-payment-helpers.js:81-84 | the sum of inputs that do not overlap exists |
| LegacySpec.SumIsTotal | packages/ERTP/src/legacy-payment-helpers.js:81-84 | and is what the inputs held together |
| LegacySpec.InputsAddUp | packages/ERTP/src/legacy-payment-helpers.js:77-84 | inputs that can all be deposited have a sum, by which the purse grows |
| LegacySpec.WithdrawEveryLosesNothing | packages/ERTP/src/legacy-payment-helpers.js:148 | whichever of many withdrawals fail, purse, inputs and new payments hold what purse and inputs did, and nothing else changes |
| LegacySpec.WithdrawEverySucceeds | packages/ERTP/src/legacy-payment-helpers.js:148 | amounts that add up to no more than the purse has are all withdrawn, unless recovery sets are off and this one is in use |
| LegacySpec.ClaimOutcome | packages/ERTP/src/legacy-payment-helpers.js:34-43 | for every kind and mode: succeeds exactly if the payment is live, as expected and has nothing set-like in common with the purse, and no other recoverable payment blocks the withdrawal; a new payment then holds what the old one did; shuts down, losing just that payment, exactly if there is something in common; on every other exit nothing is lost |
| LegacySpec.ClaimRefusals | packages/ERTP/src/legacy-payment-helpers.js:34-43 | the reason of every other failure, with its exact condition |
| LegacySpec.ClaimCanLose | packages/ERTP/src/legacy-payment-helpers.js:34-43 | a run from a new issuer, in either mode, after which a claim shuts the ledger down and loses what it claims |
| LegacySpec.CombineOutcome | packages/ERTP/src/legacy-payment-helpers.js:61-89 | for every kind and mode: succeeds exactly if the inputs are different and live, nothing set-like is there twice, the total is as expected and the withdrawal is not blocked; nothing is lost on any exit unless something is there twice |
| LegacySpec.CombineRefusals | packages/ERTP/src/legacy-payment-helpers.js:61-89 | a failure is that of the first deposit that fails, or else an unexpected total, or else a blocked withdrawal, each with its exact condition |
| LegacySpec.AllOfExactly | packages/ERTP/src/legacy-payment-helpers.js:77-80 | awaiting several results gives all of them in order, or the first failure |
| LegacySpec.CombineMakes | packages/ERTP/src/legacy-payment-helpers.js:81-89 | the one new payment holds exactly what the inputs did, which are used up, and the purse is as before |
| LegacySpec.SplitOutcome | packages/ERTP/src/legacy-payment-helpers.js:105-115 | for every kind and mode: succeeds exactly if the payment is live and has nothing set-like in common with the purse, the remainder exists and the withdrawals are not blocked; shuts down, losing just that payment, exactly if there is something in common; on every other exit nothing is lost |
| LegacySpec.SplitMakes | packages/ERTP/src/legacy-payment-helpers.js:105-115 | the two new payments hold the amount and the exact remainder, and the purse is as before |
| LegacySpec.SourceGone | packages/ERTP/src/legacy-payment-helpers.js:105-149 | a payment that was divided is no longer live |
| LegacySpec.DivideRefusals | packages/ERTP/src/legacy-payment-helpers.js:105-149 | a division fails at its deposit, or with the reason for which its amounts do not add up, or because its withdrawals are blocked |
| LegacySpec.RightsConserved | packages/ERTP/src/legacy-payment-helpers.js:139-146 | the check passes exactly if the amounts add up to the source amount |
| LegacySpec.SplitManyOutcome | packages/ERTP/src/legacy-payment-helpers.js:131-149 | the same as for `split` with the exact condition that the amounts add up to what the payment held; on success there is a new payment for each amount and nothing else is new |
| LegacyHelpers.DepositInputs | packages/ERTP/src/legacy-payment-helpers.js:77-80 | on the objects, every deposit is tried, whatever became of those before it, a shutdown included |
| LegacyHelpers.WithdrawOutputs | packages/ERTP/src/legacy-payment-helpers.js:148 | on the objects, every withdrawal is tried, and every payment made is new |
| LegacyHelpers.Claim | packages/ERTP/src/legacy-payment-helpers.js:34-43 | the helper on the objects ends in the state and with the result that `ClaimOutcome` is about |
| LegacyHelpers.Combine | packages/ERTP/src/legacy-payment-helpers.js:61-89 | the helper on the objects ends in the state and with the result that `CombineOutcome` is about |
| LegacyHelpers.Split | packages/ERTP/src/legacy-payment-helpers.js:105-115 | the helper on the objects ends in the state and with the result that `SplitOutcome` is about |
| LegacyHelpers.SplitMany | packages/ERTP/src/legacy-payment-helpers.js:131-149 | the helper on the objects ends in the state and with the result that `SplitManyOutcome` is about |
| SafeMath.Subtract | packages/ERTP/src/safeMath.js:17 | defined exactly where the difference is natural |
| SafeMath.FloorDivide | packages/ERTP/src/safeMath.js:21 | the greatest natural not above the quotient, with its domain |
| SafeMath.CeilDivide | packages/ERTP/src/safeMath.js:23-26 | the least natural not below the quotient, with its domain |
| SafeMath.BankersDivide | packages/ERTP/src/safeMath.js:33-47 | a natural nearest to the quotient, even if two are |
| SafeMath.FloorGalois | packages/ERTP/src/safeMath.js:21 | k is below the floor exactly if k times the divisor is below the dividend |
| SafeMath.CeilGalois | packages/ERTP/src/safeMath.js:23-26 | the dual for the ceiling |
| SafeMath.BankersUnique | packages/ERTP/src/safeMath.js:27-47 | there is just one nearest natural with ties to even, and it is the result |
| SafeMath.BankersNearest | packages/ERTP/src/safeMath.js:27-47 | no natural is nearer to the quotient |
| SafeMath.BankersBetween | packages/ERTP/src/safeMath.js:33-47 | the result lies between floor and ceiling |
| SafeMath.BankersMonotone | packages/ERTP/src/safeMath.js:33-47 | larger dividends have larger results |
| SafeMath.NearestMonotone | packages/ERTP/src/safeMath.js:33-47 | larger quotients have larger nearest naturals, whatever the divisors |
| Ratio.MultiplyBy | packages/ERTP/src/ratio.js:117-149 | defined exactly for a matching brand and a finite ratio, converts the brand, and rounds the exact product by its mode |
| Ratio.DivideBy | packages/ERTP/src/ratio.js:157-202 | defined exactly for a matching brand and a non-zero ratio, converts the brand, and rounds the exact quotient by its mode |
| Ratio.FloorMultiplyCeilDivide | packages/ERTP/src/ratio.js:117-192 | `y <= floorMultiplyBy(x, r)` exactly if `ceilDivideBy(y, r) <= x` |
| Ratio.CeilMultiplyFloorDivide | packages/ERTP/src/ratio.js:117-192 | `ceilMultiplyBy(x, r) <= y` exactly if `x <= floorDivideBy(y, r)` |
| Ratio.RoundTrips | packages/ERTP/src/ratio.js:117-192 | scaling there and back errs on one side only, in all four pairings |
| Ratio.ModesOrdered | packages/ERTP/src/ratio.js:48-51 | floor, half-to-even and ceiling are ordered and a whole apart at most, for multiplication and for division |
| Ratio.ChainedFloor | packages/ERTP/src/ratio.js:117-139 | two chained floor multiplications fall short of one by the second ratio rounded up at most |
| Ratio.ChainedFloorMultiply | packages/ERTP/src/ratio.js:117-139 | the same for amounts that pass through a third brand |
| Ratio.AddIsExact | packages/ERTP/src/ratio.js:224-246 | addition succeeds exactly for matching brands and finite ratios, and adds the rational numbers |
| Ratio.SubtractIsExact | packages/ERTP/src/ratio.js:253-270 | subtraction succeeds exactly where `ratioGTE` holds, and subtracts the rational numbers |
| Ratio.MultiplyIsExact | packages/ERTP/src/ratio.js:277-305 | a product exists exactly if some numerator brand cancels a denominator brand; it is the product, with the brands that remain, those of the left operand by preference |
| Ratio.OneMinusIsExact | packages/ERTP/src/ratio.js:313-325 | defined exactly on single-brand ratios up to one, it is one minus the ratio, and undoes itself |
| Ratio.InvertIsExact | packages/ERTP/src/ratio.js:208-217 | the reciprocal with the brands exchanged, defined exactly for non-zero numerators, and its own inverse |
| Ratio.ComparesValues | packages/ERTP/src/ratio.js:332-348 | for matching brands the comparison is that of the rational numbers |
| Ratio.ComparisonIsTotalPreorder | packages/ERTP/src/ratio.js:332-348 | it is reflexive, total and transitive, and adding the same ratio to both sides does not change it |
| Ratio.BrandCheckIsOneSided | packages/ERTP/src/ratio.js:332-343 | when the brand check throws, and when it does so one way and not the other |
| Ratio.QuantizeOutcome | packages/ERTP/src/ratio.js:374-389 | throws exactly for denominators that are not positive, returns the ratio for larger ones, and otherwise has the nearest numerator |
| Ratio.QuantizeError | packages/ERTP/src/ratio.js:374-389 | the error is half of the new unit at most |
| Ratio.QuantizeMonotone | packages/ERTP/src/ratio.js:374-389 | at one denominator it is monotone, whatever the old denominators |
| Ratio.QuantizeIdempotent | packages/ERTP/src/ratio.js:374-389 | doing it twice is doing it once |
| Ratio.MatchNumericExact | packages/ERTP/src/ratio.js:391-412 | the pattern matches exactly the numerals and takes them apart in the one way there is |
| Ratio.DigitsAre | packages/ERTP/src/ratio.js:391-397 | the digits are the ten decimal ones |
| Ratio.ReadingIsExact | packages/ERTP/src/ratio.js:402-419 | a text of decimal digits is read as the one number that is written with these digits |
| Ratio.ParseIsExact | packages/ERTP/src/ratio.js:402-419 | the parsed ratio is the number that the numeral denotes |
| Baggage.NamesExactly | packages/SwingSet/tools/baggage-check.js:158-179 | what a slot refers to, by the numbers of the built-in kinds |
| Baggage.EdgesExactly | packages/SwingSet/tools/baggage-check.js:181-202 | a collection refers to what its remotable keys and its values name, an object to what its properties name, and neither to anything else |
| Baggage.Scan.ScanSlot | packages/SwingSet/tools/baggage-check.js:158-179 | files one slot under what it names |
| Baggage.Scan.ScanCollection | packages/SwingSet/tools/baggage-check.js:181-194 | files everything that a collection's keys and values refer to |
| Baggage.Scan.ScanObject | packages/SwingSet/tools/baggage-check.js:196-202 | files everything that an object's properties refer to; fails exactly without a record |
| Baggage.Scan.ScanWorkingCollections | packages/SwingSet/tools/baggage-check.js:99-106 | scans all pending collections and keeps what is found sound |
| Baggage.Scan.ScanWorkingObjects | packages/SwingSet/tools/baggage-check.js:107-114 | does so for all pending objects |
| Baggage.FileKeeps | packages/SwingSet/tools/baggage-check.js:158-179 | scanning a reachable node finds only reachable things, and all that it names |
| Baggage.LessToFind | packages/SwingSet/tools/baggage-check.js:98-115 | every round of the loop leaves less of the finite store unknown |
| Baggage.Complete | packages/SwingSet/tools/baggage-check.js:98-115 | once nothing is pending every reachable node is known |
| Baggage.Scan.ScanAll | packages/SwingSet/tools/baggage-check.js:92-115 | the loop ends with exactly the reachable collections, objects and kind handles known, and fails exactly if a reachable object has no record |
| Baggage.CheckBaggage | packages/SwingSet/tools/baggage-check.js:92-156 | throws exactly if the kind of some reachable object has no reachable handle, and counts such kinds |
| CommsRefs.FlipsAgree | packages/SwingSet/misc-tools/remote-leaks.py:47-56 | flipping the text of a reference flips its polarity and undoes itself, and different texts are different references |
| CommsRefs.SendTracks | packages/SwingSet/misc-tools/remote-leaks.py:109-130 | a delivery or resolution is sent exactly if every reference in it, the result included, can be flipped and is either ours or imported; it exports all that are ours as reachable, forgets what it resolves, and changes nothing else |
| CommsRefs.ReceiveTracks | packages/SwingSet/misc-tools/remote-leaks.py:72-90 | it is received exactly if every reference in it is either theirs or exported; it imports all that are theirs, new ones as reachable, forgets what it resolves, and changes nothing else |
| CommsRefs.SendCollects | packages/SwingSet/misc-tools/remote-leaks.py:132-150 | a message about garbage is sent exactly if each of its references is named once and has the mark that it needs in the right table; it changes those marks or takes them out, and nothing else |
| CommsRefs.ReceiveCollects | packages/SwingSet/misc-tools/remote-leaks.py:91-107 | the same for the receiver and its other table |
| CommsRefs.SendFaults | packages/SwingSet/misc-tools/remote-leaks.py:109-150 | which fault a reference that is sent has, with the exact condition of each |
| CommsRefs.ReceiveFaults | packages/SwingSet/misc-tools/remote-leaks.py:72-107 | the same for one that is received |
| CommsRefs.FirstFault | packages/SwingSet/misc-tools/remote-leaks.py:72-150 | the fault of a list of references is that of the first of them that has one |
| CommsRefs.Remote.RxEach | packages/SwingSet/misc-tools/remote-leaks.py:76-107 | the receiving loops over references do to the tables what is said of one reference at a time |
| CommsRefs.Remote.TxEach | packages/SwingSet/misc-tools/remote-leaks.py:113-150 | the sending loops likewise |
| CommsRefs.Remote.Receive | packages/SwingSet/misc-tools/remote-leaks.py:72-107 | receives a payload message by message, up to the first fault |
| CommsRefs.Remote.Send | packages/SwingSet/misc-tools/remote-leaks.py:109-150 | sends a payload message by message, up to the first fault |
| CommsRefs.RefMirror | packages/SwingSet/misc-tools/remote-leaks.py:72-150 | one reference that the sender may use is refused exactly if it is stale, and otherwise the tables stay mirror images |
| CommsRefs.RefsAccepted | packages/SwingSet/misc-tools/remote-leaks.py:72-150 | the same for the references of a message |
| CommsRefs.MessageAccepted | packages/SwingSet/misc-tools/remote-leaks.py:72-150 | a receiver refuses what the sender's own checks let through exactly if it retires an export that is marked reachable |
| CommsRefs.MessageMirror | packages/SwingSet/misc-tools/remote-leaks.py:72-150 | a message that both handle keeps exports the flips of imports, and imports in use exports in use |
| CommsRefs.PayloadMirror | packages/SwingSet/misc-tools/remote-leaks.py:72-150 | so does a payload that both handle |
| CommsRefs.RunMirror | packages/SwingSet/misc-tools/remote-leaks.py:72-150 | so does every run in which both handle every payload, in either direction |
| CommsRefs.AlwaysMirror | packages/SwingSet/misc-tools/remote-leaks.py:58-70 | so from empty tables on the two endpoints are mirror images |
| CommsRefs.SlotStatus | packages/SwingSet/misc-tools/remote-leaks.py:81-85 | the two marks of a reference differ after it is sent exactly if the receiver had dropped it |
| CommsRefs.StrictIsAccepted | packages/SwingSet/misc-tools/remote-leaks.py:98-102 | while the marks are equal, every message that may be sent is accepted |
| CommsRefs.SlotsStayStrict | packages/SwingSet/misc-tools/remote-leaks.py:119-125 | a message with references keeps the marks equal exactly if it sends no dropped reference again, save one that it resolves |
| CommsRefs.GcStaysStrict | packages/SwingSet/misc-tools/remote-leaks.py:132-150 | messages that collect garbage keep them equal |
| CommsRefs.PayloadStrict | packages/SwingSet/misc-tools/remote-leaks.py:72-150 | a payload that passes its sender's checks and sends no dropped reference again is accepted, and keeps the marks equal |
| CommsRefs.RunAccepted | packages/SwingSet/misc-tools/remote-leaks.py:72-150 | in a run of such payloads no receiver ever refuses anything |
| CommsRefs.DifferExactly | packages/SwingSet/misc-tools/remote-leaks.py:72-150 | in every run from empty tables, a reference that its importer dropped is marked reachable by its exporter if and only if it was sent again since the last drop |
| CommsRefs.RefusedExactly | packages/SwingSet/misc-tools/remote-leaks.py:98-102 | so a message that passes its sender's checks is refused if and only if it retires an export that was sent again since the last drop |
| CommsRefs.StaleRetireHappens | packages/SwingSet/misc-tools/remote-leaks.py:98-102 | a run after which the receiver refuses what the sender may send |
| ClientCodec.Drive | golang/cosmos/vm/client.go:67-136 | the codec's methods do to its maps and deliver what each step of the machine says |
| ClientCodec.Execute | golang/cosmos/vm/client.go:67-136 | so a codec driven through any interleaving has the memory and the deliveries of the run |
| ClientCodec.StepKeeps | golang/cosmos/vm/client.go:67-136 | every locked region and rendezvous keeps both maps exact |
| ClientCodec.RunKeeps | golang/cosmos/vm/client.go:67-136 | so does every interleaving |
| ClientCodec.NoCrossTalk | golang/cosmos/vm/client.go:67-136 | in every interleaving a delivery is the only one of its call and carries that call's number and answer, except that an error without a text arrives as success |
| ClientCodec.AnsweredAsAsked | golang/cosmos/vm/client.go:67-90 | in every interleaving a call that wants no reply never waits for the VM and has the fixed answer, and a call that wants one waits for the VM and has no answer but one that the VM gave it |
| ClientCodec.NoReplyIsDelivered | golang/cosmos/vm/client.go:82-90 | so the client of a call that wants no reply gets that fixed answer, whatever the VM does |
| ClientCodec.PortLeadsBack | golang/cosmos/vm/client.go:74-87 | the port that goes out with a call that waits is not 0 and leads back to that call |
| ClientCodec.QuietIsEmpty | golang/cosmos/vm/client.go:37-53 | with no call in flight both maps are empty and every call has been answered |
| ClientCodec.NeverStuck | golang/cosmos/vm/client.go:86-98 | while a call is in flight some step is possible, the channel notwithstanding |
| ClientCodec.RunsEnd | golang/cosmos/vm/client.go:67-136 | every call takes six steps, so a run with n calls is over after 6 n |
| ClientCodec.EmptyErrorIsDelivered | golang/cosmos/vm/client.go:123-135 | a run in which an error without a text is delivered as a successful empty reply |
| ClientCodec.StrayAnswer | golang/cosmos/vm/client.go:119-132 | an answer for a port that has none outstanding goes through the codec and is delivered as that of request 0 |
| ClientCodec.CallZeroGetsStrayAnswer | golang/cosmos/vm/client.go:119-132 | so call 0 gets an answer that was not meant for it while its own is outstanding |
| InboundAnte.AnteHandle | golang/cosmos/ante/inbound.go:56-93 | the loop decides as the scan of the messages does, with its lazy look-ups |
| InboundAnte.ScanDecides | golang/cosmos/ante/inbound.go:58-91 | the running allowance decides as sums over the messages do |
| InboundAnte.AllowedExactly | golang/cosmos/ante/inbound.go:105-128 | a transaction may add one message exactly if the queue is shorter than the limit for blocks or for the mempool, none if it is not or if there is no limit, and the error is that of the first length that cannot be read |
| InboundAnte.OneLowMessage | golang/cosmos/ante/inbound.go:56-93 | a single message without priority is admitted exactly if the queue is shorter than its limit |
| InboundAnte.AdmittedExactly | golang/cosmos/ante/inbound.go:56-93 | a transaction is admitted exactly if every message adds nothing, or has priority, or fits with all before it; if not, the first that does not gives the error |
| InboundAnte.AdmittedWithRoom | golang/cosmos/ante/inbound.go:56-128 | the same with the allowance written out, in terms of the limits and lengths that are looked up, for the decision and for the reason of a refusal |
| InboundAnte.AdmittedLows | golang/cosmos/ante/inbound.go:105-128 | an admitted transaction adds one message without priority at most, and only to a queue with room |
| InboundAnte.DeliverBound | golang/cosmos/ante/inbound.go:13-34 | a transaction that is admitted and succeeds adds all its messages to the queue, one without priority at most and only within the limit; any other adds none |
| InboundAnte.BlockGoesOn | golang/cosmos/ante/inbound.go:13-20 | a block is its transactions one after the other |
| InboundAnte.BlockBound | golang/cosmos/ante/inbound.go:13-34 | over any block the queue exceeds the greater of its first length and the limit only by messages with priority |
| InboundAnte.PriorityLastIsSafe | golang/cosmos/ante/inbound.go:75-90 | moving messages with priority to the end, which reorders them and no more, keeps an admitted transaction admitted |
| InboundAnte.PriorityFirstIsWorse | golang/cosmos/ante/inbound.go:75-90 | it can also turn a refused one into an admitted one |
| InboundAnte.MempoolIsStricter | golang/cosmos/ante/inbound.go:25-33 | with a lower limit for the mempool, what is admitted there is admitted to a block that finds the queue no longer |
| AddressHooks.BytesThenNumber | golang/cosmos/types/address_hooks.go:114-118 | the length bytes are read back as the length that was written |
| AddressHooks.NumberThenBytes | golang/cosmos/types/address_hooks.go:73-78 | and a number read from bytes is written as the same bytes |
| AddressHooks.ReadLength | golang/cosmos/types/address_hooks.go:73-78 | the shifting loop reads the big-endian number at the end |
| AddressHooks.WriteLength | golang/cosmos/types/address_hooks.go:114-118 | the shifting loop fills in the big-endian bytes |
| AddressHooks.SplitHookedAddress | golang/cosmos/types/address_hooks.go:50-92 | splits as the parser of payloads does |
| AddressHooks.JoinHookedAddress | golang/cosmos/types/address_hooks.go:97-122 | joins as the printer of payloads does |
| AddressHooks.ExtractBaseAddress | golang/cosmos/types/address_hooks.go:40-46 | the first part of the split, or its error |
| AddressHooks.JoinWrites | golang/cosmos/types/address_hooks.go:97-122 | the bytes of a joined address, one after the other, and the exact length from which bases are refused |
| AddressHooks.SplitReads | golang/cosmos/types/address_hooks.go:50-92 | what becomes of an address byte by byte: when it is left as it is, the reason of every refusal, and where base and hook are |
| AddressHooks.ParseInvertsPayload | golang/cosmos/types/address_hooks.go:56-91 | the parser accepts exactly what the printer can print and takes it apart in the one way there is |
| AddressHooks.SplitUndoesJoin | golang/cosmos/types/address_hooks.go:50-122 | splitting a joined address succeeds exactly if the codec can read it and write the base, and gives the canonical base and the exact hook |
| AddressHooks.JoinUndoesSplit | golang/cosmos/types/address_hooks.go:103-107 | joining what was split rebuilds the payload exactly if the base is within the limit of `Join` |
| AddressHooks.JoinIsInjective | golang/cosmos/types/address_hooks.go:97-122 | different bases or hooks have different joined addresses |
| AddressHooks.HooksComeOffOneByOne | golang/cosmos/types/address_hooks.go:38-46 | of nested hooks only the outer one is taken off |
| AddressHooks.SplitElsewhere | golang/cosmos/types/address_hooks.go:56-83 | addresses without the magic prefix come back as they are, and those with it that cannot be printed are refused |
| MergeJoin.StreamPatchFileDiffs | scripts/forks/refork.js:96-127 | yields the named blocks of the patch |
| MergeJoin.BlocksPartition | scripts/forks/refork.js:105-126 | no line from the first header on is lost or moved |
| MergeJoin.BlocksAreBlocks | scripts/forks/refork.js:105-126 | every block is one header with what follows it |
| MergeJoin.FilenameIs | scripts/forks/refork.js:35-56 | the file that a block is about, from its first lines with paths: the new name, for deletions the old one, and none without paths |
| MergeJoin.PrefixIsNoFilename | scripts/forks/refork.js:41-56 | and none for a path that is only a prefix |
| MergeJoin.FileIsYielded | scripts/forks/refork.js:96-127 | a patch that goes on with the changes to a file yields that file with all of its lines |
| MergeJoin.StreamHasText | scripts/forks/refork.js:105-126 | every file diff that is yielded has a text |
| MergeJoin.JoinKeepsLines | scripts/forks/refork.js:110 | the lines of a file diff can be read back from its text |
| MergeJoin.NameableExactly | scripts/forks/refork.js:46-56 | the names that file diffs can have are exactly those that are not empty, do not end in a space and fit on a line |
| MergeJoin.MergeConsumes | scripts/forks/refork.js:183-249 | whatever the streams and the comparison, the loop ends and consumes each stream once and in order |
| MergeJoin.SortedMergeIsFaithful | scripts/forks/refork.js:183-197 | for streams sorted in the order of the comparison each name is handled once, and paired exactly if both streams have it |
| MergeJoin.FaithfulExactly | scripts/forks/refork.js:186-193 | all patches that are sorted in some total order are handled so if and only if the comparison agrees with that order on the names that file diffs can have |
| MergeJoin.MisorderedPair | scripts/forks/refork.js:186-193 | two patches that both change a file, which is reported as created and as deleted, whatever their texts |
| MergeJoin.WritePairing | scripts/forks/refork.js:196-241 | what is written for one pairing |
| MergeJoin.EntryIs | scripts/forks/refork.js:196-241 | the text written for a file in both patches, or in one of them, word for word |
| MergeJoin.WritePairedDiffOfDiffs | scripts/forks/refork.js:180-253 | the loop writes the entries of the pairings in order, up to the first failure, and says so if there are none |
| MergeJoin.SamePatches | scripts/forks/refork.js:183-249 | all pairings have the same text twice exactly if the streams are equal |
| MergeJoin.NoDiffExactly | scripts/forks/refork.js:251-253 | the report says that there is no difference exactly if the patches have the same file diffs, in whatever order and however compared |
| VStorageHistory.ReadHistory | multichain-testing/tools/batchQuery.js:73-100 | the loop yields the chunks that the log, the lower limit and the node's memory give, and ends in the error that they give |
| VStorageHistory.MapHistory | multichain-testing/tools/batchQuery.js:32-39 | skips missing chunks and maps the others from last to first |
| VStorageHistory.ReadHistoryBy | multichain-testing/tools/batchQuery.js:108-109 | yields the mapped values of the log, from the last to the oldest that is read, each once, and the error |
| VStorageHistory.NextQuery | multichain-testing/tools/batchQuery.js:82-85 | asking below a cell's height meets the entries before it |
| VStorageHistory.WalkIsReversedLog | multichain-testing/tools/batchQuery.js:77-99 | from any point of the log the walk sees the entries before it, newest first |
| VStorageHistory.HistoryIsReversedLog | multichain-testing/tools/batchQuery.js:67-100 | what is read is the reverse of the log, value by value, down to and including the first write at or below the lower limit, or as far as the node remembers and the cell was not cleared |
| VStorageHistory.HistoryInFull | multichain-testing/tools/batchQuery.js:67-100 | everything that is read, chunk by chunk, with the empty chunk or the error at the end and what they come from |
| VStorageHistory.EndsExactly | multichain-testing/tools/batchQuery.js:45-50 | the walk ends if and only if it has a lower limit or does not come to a write at height 1 |
| VStorageHistory.FirstBlockLoops | multichain-testing/tools/batchQuery.js:45-50 | a log on which the walk never ends |

## Left out

Ledger
- Set values as arrays: the `set` kind holds sets here; an array with duplicates, which `coerceToElements` of another package refuses, has no counterpart.
- Interface guards, notifiers, `isPromise`, display info, names and `isLive`/`getAmountOf`: they read or guard and change no state.
- Patterns: an expected amount and an element shape are arbitrary predicates.
- Promise scheduling: a helper's deposits and withdrawals run one after the other, each as one step; only the helpers' own steps are in between.
- LedgerRuns.NeverShutsDown: the condition is sufficient for a run that mints; whether a given double minting ends in a shutdown depends on the deposits that follow, and for runs without minting `SafeExactly` has the exact condition.
- What the shutdown handler does: a run ends there.
- `min`, `max`, `getValue` and `makeEmptyFromAmount`: compositions of the operations modelled.

Ratios
- `ratioToNumber` (floating point), `ratiosSame` and `assertParsableNumber`.
- The conversion of numbers to text before `parseRatio` matches them.
- Checks on the record shape of a ratio; a ratio here has natural numerators and denominators.

Baggage
- SQL and smallcaps decoding: collections are lists of entries and objects lists of property slots, already parsed.
- Slots are compared as numbers; the source compares texts, which differ for numbers written with leading zeros.
- The maps of extant kinds and the log output.

Comms references
- Reading the slog and parsing payloads: messages are parsed, and an action other than the three does not occur.
- The payload kept beside each status, which only the report uses.
- Receiving a resolution for a text without polarity; the sender refuses it.

Bridge codec
- The wrap-around of 64-bit sequence numbers in reply ports, and ports that are not positive.
- net/rpc itself: it numbers calls afresh and reads a body right after its header, as its documentation demands.
- The VM answers every waiting call once; for anything else there are only `StrayAnswer` and `CallZeroGetsStrayAnswer`.
- Failures of the send function, and `Close`.

Inbound admission
- Telemetry, simulation and the other decorators: whether an admitted transaction succeeds is arbitrary.
- Negative message counts.

Address hooks
- The bech32 bit conversion and checksum; the law that is assumed of them is `Lawful`, which `PlainCodecIsLawful` shows can be met.
- The texts of errors, and the packet-level functions that call `ExtractBaseAddress`.

Merge-join
- Files, streams, subprocesses and temporary files; `diff` is an arbitrary function.
- `splitPatchIntoFileDiffs`, which collects the same blocks into a map.
- How lines are told apart: the characters that end lines are an arbitrary set, which the headers of a patch do not use; and `localeCompare`, which is an arbitrary function to integers.

History
- JSON, HTTP and marshalling, and `batchVstorageQuery`.
- VStorageHistory.ReadHistory: a walk that never ends has no result, so those logs are excluded; `EndsExactly` says which they are.
