/** The recovery-set mode of an issuer: where it is stored and how upgrades
    change it. */
module IssuerKit {
  import opened Wrappers
  import opened AmountMath

  datatype RecoverySetsOption = HasRecoverySets | NoRecoverySets

  datatype IssuerError = AlreadyRegistered | NotRegistered | CannotUpgrade

  datatype IssuerRecord = IssuerRecord(name: string, assetKind: AssetKind)

  /** The mode a new incarnation runs in.  A predecessor that stored no mode
      counts as one with recovery sets. */
  function ModeAfterUpgrade(stored: Option<RecoverySetsOption>, option: Option<RecoverySetsOption>)
    : (r: Result<RecoverySetsOption, IssuerError>)
  {
    var before := if stored.Some? then stored.value else HasRecoverySets;
    if before == NoRecoverySets && option == Some(HasRecoverySets) then Failure(CannotUpgrade)
    else Success(if option.Some? then option.value else before)
  }

  /** What survives an upgrade.  The two slots hold the issuer record and the
      recovery-set mode. */
  class Baggage {
    var issuer: Option<IssuerRecord>
    var recoverySetsState: Option<RecoverySetsOption>

    constructor ()
      ensures issuer.None? && recoverySetsState.None?
    {
      issuer, recoverySetsState := None, None;
    }

    predicate HasIssuer()
      reads this
    {
      issuer.Some?
    }

    method MakeDurableIssuerKit(record: IssuerRecord, option: Option<RecoverySetsOption>)
      returns (mode: Result<RecoverySetsOption, IssuerError>)
      modifies this
      ensures mode.Success? <==> old(issuer).None? && old(recoverySetsState).None?
      ensures mode.Success? ==> issuer == Some(record) && recoverySetsState == Some(mode.value)
      ensures mode.Success? ==> (mode.value == NoRecoverySets <==> option == Some(NoRecoverySets))
      ensures mode.Failure? ==> mode.error == AlreadyRegistered
      ensures old(issuer).Some? ==> unchanged(this)
    {
      if issuer.Some? {
        return Failure(AlreadyRegistered);
      }
      issuer := Some(record);
      var state := if option.Some? then option.value else HasRecoverySets;
      if recoverySetsState.Some? {
        return Failure(AlreadyRegistered);
      }
      recoverySetsState := Some(state);
      return Success(state);
    }

    /** Reads the stored mode and never writes it. */
    method UpgradeIssuerKit(option: Option<RecoverySetsOption>)
      returns (mode: Result<RecoverySetsOption, IssuerError>)
      ensures issuer.None? ==> mode == Failure(NotRegistered)
      ensures issuer.Some? ==> mode == ModeAfterUpgrade(recoverySetsState, option)
    {
      if issuer.None? {
        return Failure(NotRegistered);
      }
      var before := HasRecoverySets;
      if recoverySetsState.Some? {
        before := recoverySetsState.value;
      }
      if before == NoRecoverySets && option == Some(HasRecoverySets) {
        return Failure(CannotUpgrade);
      }
      return Success(if option.Some? then option.value else before);
    }

    method PrepareIssuerKit(record: IssuerRecord, option: Option<RecoverySetsOption>)
      returns (mode: Result<RecoverySetsOption, IssuerError>)
      modifies this
      ensures old(HasIssuer()) ==>
        unchanged(this) && mode == ModeAfterUpgrade(recoverySetsState, option)
      ensures !old(HasIssuer()) ==> (mode.Success? <==> old(recoverySetsState).None?)
      ensures !old(HasIssuer()) && mode.Failure? ==> mode.error == AlreadyRegistered
      ensures !old(HasIssuer()) && mode.Success? ==>
        && issuer == Some(record) && recoverySetsState == Some(mode.value)
        && mode.value == if option.Some? then option.value else HasRecoverySets
    {
      if HasIssuer() {
        mode := UpgradeIssuerKit(option);
      } else {
        mode := MakeDurableIssuerKit(record, option);
      }
    }
  }

  /** The modes of the incarnations that a series of upgrade attempts leaves
      behind; a refused upgrade keeps the running incarnation. */
  function ModeAfter(stored: Option<RecoverySetsOption>, running: RecoverySetsOption,
                     options: seq<Option<RecoverySetsOption>>): RecoverySetsOption
    decreases |options|
  {
    if options == [] then running
    else
      var next := ModeAfterUpgrade(stored, options[0]);
      ModeAfter(stored, if next.Success? then next.value else running, options[1..])
  }

  /** An issuer created without recovery sets stays without them. */
  lemma {:induction false} NoRecoverySetsIsForever(options: seq<Option<RecoverySetsOption>>)
    ensures ModeAfter(Some(NoRecoverySets), NoRecoverySets, options) == NoRecoverySets
    decreases |options|
  {
    if options == [] {
    } else {
      var next := ModeAfterUpgrade(Some(NoRecoverySets), options[0]);
      assert next.Success? ==> next.value == NoRecoverySets;
      NoRecoverySetsIsForever(options[1..]);
    }
  }

  /** An upgrade is refused exactly when the issuer was created without
      recovery sets and they are asked for.  The mode it runs in at the time
      plays no part: one switched off by an upgrade can be switched on again,
      and comes back on by itself at an upgrade that names no option. */
  lemma SwitchingOffIsNotRemembered(stored: Option<RecoverySetsOption>, running: RecoverySetsOption)
    ensures ModeAfterUpgrade(stored, Some(HasRecoverySets)) ==
            if stored == Some(NoRecoverySets) then Failure(CannotUpgrade) else Success(HasRecoverySets)
    ensures forall option: Option<RecoverySetsOption> | option != Some(HasRecoverySets) ::
      ModeAfterUpgrade(stored, option).Success?
    ensures stored != Some(NoRecoverySets) ==>
      && ModeAfter(stored, running, [Some(NoRecoverySets)]) == NoRecoverySets
      && ModeAfter(stored, running, [Some(NoRecoverySets), Some(HasRecoverySets)]) == HasRecoverySets
      && ModeAfter(stored, running, [Some(NoRecoverySets), None]) == HasRecoverySets
  {
    var off, on := Some(NoRecoverySets), Some(HasRecoverySets);
    assert [off, on][1..] == [on] && [off, None][1..] == [None];
    assert ModeAfter(stored, NoRecoverySets, [on]) == ModeAfter(stored, NoRecoverySets, [on]);
  }
}
