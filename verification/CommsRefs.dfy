/** The bookkeeping of references between two comms endpoints.

    Each endpoint keeps a table of what it exported and one of what it
    imported, and updates them for every message it sends and receives.  Two
    endpoints that see the same messages are proved to stay mirror images. */
module CommsRefs {
  import opened Wrappers

  datatype Status = Reachable | Recognizable

  datatype Fault = BadRef | FakeRef | NotTracked | WrongStatus

  datatype Tables = Tables(exports: map<RRef, Status>, imports: map<RRef, Status>)

  datatype GcMode = DropExport | RetireExport | RetireImport

  /** A parsed message.  Its references are in the receiver's format. */
  datatype Message =
    | Deliver(target: RRef, result: Option<RRef>, slots: seq<RRef>)
    | Resolve(subject: RRef, slots: seq<RRef>)
    | Gc(mode: GcMode, slots: seq<RRef>)

  // -------------------------------------------------------- references

  /** A reference as text: the third character is its polarity, and says whose
      it is. */
  function FlipText(r: string): Option<string> {
    if |r| < 3 then None
    else if r[2] == '+' then Some(r[..2] + "-" + r[3..])
    else if r[2] == '-' then Some(r[..2] + "+" + r[3..])
    else None
  }

  /** The same taken apart.  What has no polarity is odd. */
  datatype RRef = RRef(head: string, plus: bool, tail: string) | Odd(text: string)

  function ParseRef(r: string): RRef {
    if 3 <= |r| && (r[2] == '+' || r[2] == '-') then RRef(r[..2], r[2] == '+', r[3..]) else Odd(r)
  }

  function Flip(r: RRef): RRef {
    if r.Odd? then r else r.(plus := !r.plus)
  }

  /** Flipping the text is flipping the reference, and distinct texts are
      distinct references. */
  lemma FlipsAgree(r: string, s: string)
    ensures FlipText(r).None? <==> ParseRef(r).Odd?
    ensures FlipText(r).Some? ==> ParseRef(FlipText(r).value) == Flip(ParseRef(r))
    ensures FlipText(r).Some? ==> FlipText(FlipText(r).value) == Some(r)
    ensures ParseRef(r) == ParseRef(s) ==> r == s
    ensures Plus(ParseRef(r)) <==> |r| >= 3 && r[2] == '+'
    ensures Minus(ParseRef(r)) <==> |r| >= 3 && r[2] == '-'
  {
    if FlipText(r).Some? {
      assert r == r[..2] + [r[2]] + r[3..];
    }
    if ParseRef(s).RRef? {
      assert s == s[..2] + [s[2]] + s[3..];
    }
  }

  predicate Plus(r: RRef) {
    r.RRef? && r.plus
  }

  predicate Minus(r: RRef) {
    r.RRef? && !r.plus
  }

  // ------------------------------------------------ what one reference does

  /** What is done with each of the references of a message. */
  datatype Op = Slot | Drop | DropForGood | Forget

  function OpOf(mode: GcMode): Op {
    match mode
    case DropExport => Drop
    case RetireExport => DropForGood
    case RetireImport => Forget
  }

  function Demote(table: map<RRef, Status>, r: RRef): Result<map<RRef, Status>, Fault> {
    if r !in table then Failure(NotTracked)
    else if table[r] != Reachable then Failure(WrongStatus)
    else Success(table[r := Recognizable])
  }

  function Remove(table: map<RRef, Status>, r: RRef): Result<map<RRef, Status>, Fault> {
    if r !in table then Failure(NotTracked)
    else if table[r] != Recognizable then Failure(WrongStatus)
    else Success(table - {r})
  }

  /** Receiving: the reference is in our own format. */
  function RxRef(op: Op, t: Tables, r: RRef): Result<Tables, Fault> {
    match op
    case Slot =>
      if r.Odd? && |r.text| < 3 then Failure(BadRef)
      else if Minus(r) then
        Success(if r in t.imports then t else t.(imports := t.imports[r := Reachable]))
      else if Plus(r) && r !in t.exports then Failure(FakeRef)
      else Success(t)
    case Drop =>
      var exports :- Demote(t.exports, r);
      Success(t.(exports := exports))
    case DropForGood =>
      var exports :- Remove(t.exports, r);
      Success(t.(exports := exports))
    case Forget =>
      var imports :- Remove(t.imports, r);
      Success(t.(imports := imports))
  }

  /** Sending: the reference is in the other's format and has to be flipped. */
  function TxRef(op: Op, t: Tables, their: RRef): Result<Tables, Fault> {
    if their.Odd? then Failure(BadRef)
    else
      var r := Flip(their);
      match op
      case Slot =>
        if Plus(r) then Success(t.(exports := t.exports[r := Reachable]))
        else if r !in t.imports then Failure(FakeRef)
        else Success(t)
      case Drop =>
        var imports :- Demote(t.imports, r);
        Success(t.(imports := imports))
      case DropForGood =>
        var imports :- Remove(t.imports, r);
        Success(t.(imports := imports))
      case Forget =>
        var exports :- Remove(t.exports, r);
        Success(t.(exports := exports))
  }

  function RxRefs(op: Op, t: Tables, refs: seq<RRef>): Result<Tables, Fault>
    decreases |refs|
  {
    if refs == [] then Success(t)
    else
      var t' :- RxRef(op, t, refs[0]);
      RxRefs(op, t', refs[1..])
  }

  function TxRefs(op: Op, t: Tables, refs: seq<RRef>): Result<Tables, Fault>
    decreases |refs|
  {
    if refs == [] then Success(t)
    else
      var t' :- TxRef(op, t, refs[0]);
      TxRefs(op, t', refs[1..])
  }

  // ------------------------------------------------------- whole messages

  function AllSlots(m: Message): seq<RRef> {
    match m
    case Deliver(_, result, slots) => if result.Some? then slots + [result.value] else slots
    case Resolve(_, slots) => slots
    case Gc(_, slots) => slots
  }

  function Resolved(t: Tables, r: RRef): Tables {
    Tables(t.exports - {r}, t.imports - {r})
  }

  function Rx(t: Tables, m: Message): Result<Tables, Fault> {
    match m
    case Deliver(_, _, _) => RxRefs(Slot, t, AllSlots(m))
    case Resolve(subject, _) =>
      var t' :- RxRefs(Slot, t, AllSlots(m));
      Success(Resolved(t', subject))
    case Gc(mode, _) => RxRefs(OpOf(mode), t, AllSlots(m))
  }

  function Tx(t: Tables, m: Message): Result<Tables, Fault> {
    match m
    case Deliver(_, _, _) => TxRefs(Slot, t, AllSlots(m))
    case Resolve(subject, _) =>
      var t' :- TxRefs(Slot, t, AllSlots(m));
      if subject.Odd? then Failure(BadRef) else Success(Resolved(t', Flip(subject)))
    case Gc(mode, _) => TxRefs(OpOf(mode), t, AllSlots(m))
  }

  function RxAll(t: Tables, ms: seq<Message>): Result<Tables, Fault>
    decreases |ms|
  {
    if ms == [] then Success(t)
    else
      var t' :- Rx(t, ms[0]);
      RxAll(t', ms[1..])
  }

  function TxAll(t: Tables, ms: seq<Message>): Result<Tables, Fault>
    decreases |ms|
  {
    if ms == [] then Success(t)
    else
      var t' :- Tx(t, ms[0]);
      TxAll(t', ms[1..])
  }

  // ----------------------------------------------------------- the endpoint

  class Remote {
    var exports: map<RRef, Status>
    var imports: map<RRef, Status>

    constructor ()
      ensures View() == Tables(map[], map[])
    {
      exports, imports := map[], map[];
    }

    function View(): Tables
      reads this
    {
      Tables(exports, imports)
    }

    method RxEach(op: Op, refs: seq<RRef>) returns (fault: Option<Fault>)
      modifies this
      ensures RxRefs(op, old(View()), refs) == if fault.None? then Success(View()) else Failure(fault.value)
    {
      var i := 0;
      assert refs[0..] == refs;
      while i < |refs|
        invariant 0 <= i <= |refs|
        invariant RxRefs(op, old(View()), refs) == RxRefs(op, View(), refs[i..])
      {
        var r := refs[i];
        assert refs[i..][0] == r && refs[i..][1..] == refs[i + 1..];
        match op {
          case Slot =>
            if r.Odd? && |r.text| < 3 {
              return Some(BadRef);
            }
            if Minus(r) {
              if r !in imports {
                imports := imports[r := Reachable];
              }
            }
            if Plus(r) {
              if r !in exports {
                return Some(FakeRef);
              }
            }
          case Drop =>
            if r !in exports || exports[r] != Reachable {
              return Some(if r !in exports then NotTracked else WrongStatus);
            }
            exports := exports[r := Recognizable];
          case DropForGood =>
            if r !in exports || exports[r] != Recognizable {
              return Some(if r !in exports then NotTracked else WrongStatus);
            }
            exports := exports - {r};
          case Forget =>
            if r !in imports || imports[r] != Recognizable {
              return Some(if r !in imports then NotTracked else WrongStatus);
            }
            imports := imports - {r};
        }
        i := i + 1;
      }
      return None;
    }

    method TxEach(op: Op, refs: seq<RRef>) returns (fault: Option<Fault>)
      modifies this
      ensures TxRefs(op, old(View()), refs) == if fault.None? then Success(View()) else Failure(fault.value)
    {
      var i := 0;
      assert refs[0..] == refs;
      while i < |refs|
        invariant 0 <= i <= |refs|
        invariant TxRefs(op, old(View()), refs) == TxRefs(op, View(), refs[i..])
      {
        assert refs[i..][0] == refs[i] && refs[i..][1..] == refs[i + 1..];
        if refs[i].Odd? {
          return Some(BadRef);
        }
        var r := Flip(refs[i]);
        match op {
          case Slot =>
            if Minus(r) {
              if r !in imports {
                return Some(FakeRef);
              }
            }
            if Plus(r) {
              exports := exports[r := Reachable];
            }
          case Drop =>
            if r !in imports || imports[r] != Reachable {
              return Some(if r !in imports then NotTracked else WrongStatus);
            }
            imports := imports[r := Recognizable];
          case DropForGood =>
            if r !in imports || imports[r] != Recognizable {
              return Some(if r !in imports then NotTracked else WrongStatus);
            }
            imports := imports - {r};
          case Forget =>
            if r !in exports || exports[r] != Recognizable {
              return Some(if r !in exports then NotTracked else WrongStatus);
            }
            exports := exports - {r};
        }
        i := i + 1;
      }
      return None;
    }

    /** Receives a payload.  A fault ends the run. */
    method Receive(payload: seq<Message>) returns (fault: Option<Fault>)
      modifies this
      ensures RxAll(old(View()), payload) == if fault.None? then Success(View()) else Failure(fault.value)
    {
      var i := 0;
      assert payload[0..] == payload;
      while i < |payload|
        invariant 0 <= i <= |payload|
        invariant RxAll(old(View()), payload) == RxAll(View(), payload[i..])
      {
        var m := payload[i];
        assert payload[i..][0] == m && payload[i..][1..] == payload[i + 1..];
        fault := RxEach(if m.Gc? then OpOf(m.mode) else Slot, AllSlots(m));
        if fault.Some? {
          return;
        }
        if m.Resolve? {
          exports := exports - {m.subject};
          imports := imports - {m.subject};
        }
        i := i + 1;
      }
      return None;
    }

    /** Sends a payload.  A fault ends the run. */
    method Send(payload: seq<Message>) returns (fault: Option<Fault>)
      modifies this
      ensures TxAll(old(View()), payload) == if fault.None? then Success(View()) else Failure(fault.value)
    {
      var i := 0;
      assert payload[0..] == payload;
      while i < |payload|
        invariant 0 <= i <= |payload|
        invariant TxAll(old(View()), payload) == TxAll(View(), payload[i..])
      {
        var m := payload[i];
        assert payload[i..][0] == m && payload[i..][1..] == payload[i + 1..];
        fault := TxEach(if m.Gc? then OpOf(m.mode) else Slot, AllSlots(m));
        if fault.Some? {
          return;
        }
        if m.Resolve? {
          if m.subject.Odd? {
            return Some(BadRef);
          }
          exports := exports - {Flip(m.subject)};
          imports := imports - {Flip(m.subject)};
        }
        i := i + 1;
      }
      return None;
    }
  }

  // --------------------------------------------- what messages do, in full

  /** The references that a delivery or a resolution carries, its result among
      them. */
  predicate Carries(m: Message, r: RRef) {
    match m
    case Deliver(_, result, slots) => r in slots || result == Some(r)
    case Resolve(_, slots) => r in slots
    case Gc(_, _) => false
  }

  lemma {:induction false} SlotsSentExactly(a: Tables, refs: seq<RRef>)
    ensures TxRefs(Slot, a, refs).Success? <==> forall r | r in refs :: r.RRef? && (Plus(r) ==> Flip(r) in a.imports)
    ensures TxRefs(Slot, a, refs).Success? ==>
      var t := TxRefs(Slot, a, refs).value;
      && t.imports == a.imports
      && (forall x :: x in t.exports <==> x in a.exports || (Plus(x) && Flip(x) in refs))
      && (forall x | x in t.exports :: t.exports[x] == if Plus(x) && Flip(x) in refs then Reachable else a.exports[x])
    decreases |refs|
  {
    if refs == [] {
    } else {
      var r, rest := refs[0], refs[1..];
      assert refs == [r] + rest;
      if TxRef(Slot, a, r).Success? {
        SlotsSentExactly(TxRef(Slot, a, r).value, rest);
        assert Flip(Flip(r)) == r;
        assert TxRef(Slot, a, r).value.imports == a.imports;
      } else {
        assert r in refs;
      }
    }
  }

  lemma {:induction false} SlotsReceivedExactly(b: Tables, refs: seq<RRef>)
    ensures RxRefs(Slot, b, refs).Success? <==>
            forall r | r in refs :: (r.Odd? ==> |r.text| >= 3) && (Plus(r) ==> r in b.exports)
    ensures RxRefs(Slot, b, refs).Success? ==>
      var t := RxRefs(Slot, b, refs).value;
      && t.exports == b.exports
      && (forall x :: x in t.imports <==> x in b.imports || (Minus(x) && x in refs))
      && (forall x | x in t.imports :: t.imports[x] == if x in b.imports then b.imports[x] else Reachable)
    decreases |refs|
  {
    if refs == [] {
    } else {
      var r, rest := refs[0], refs[1..];
      assert refs == [r] + rest;
      if RxRef(Slot, b, r).Success? {
        SlotsReceivedExactly(RxRef(Slot, b, r).value, rest);
        assert RxRef(Slot, b, r).value.exports == b.exports;
      } else {
        assert r in refs;
      }
    }
  }

  /** The faults of one reference that is received: too short, ours but not
      exported, not in the table, or with another mark. */
  lemma ReceiveFaults(op: Op, t: Tables, r: RRef)
    ensures
      var rx := RxRef(op, t, r);
      var table := if op == Forget then t.imports else t.exports;
      && (rx == Failure(BadRef) <==> op == Slot && r.Odd? && |r.text| < 3)
      && (rx == Failure(FakeRef) <==> op == Slot && Plus(r) && r !in t.exports)
      && (rx == Failure(NotTracked) <==> op != Slot && r !in table)
      && (rx == Failure(WrongStatus) <==>
            op != Slot && r in table && table[r] != if op == Drop then Reachable else Recognizable)
  {
  }

  /** And of one that is sent: without polarity, theirs but not imported, not
      in the table, or with another mark. */
  lemma SendFaults(op: Op, t: Tables, r: RRef)
    ensures
      var tx := TxRef(op, t, r);
      var table := if op == Forget then t.exports else t.imports;
      && (tx == Failure(BadRef) <==> r.Odd?)
      && (tx == Failure(FakeRef) <==> op == Slot && Plus(r) && Flip(r) !in t.imports)
      && (tx == Failure(NotTracked) <==> op != Slot && r.RRef? && Flip(r) !in table)
      && (tx == Failure(WrongStatus) <==>
            && op != Slot && r.RRef? && Flip(r) in table
            && table[Flip(r)] != if op == Drop then Reachable else Recognizable)
  {
  }

  /** The fault of a list is that of its first reference that has one. */
  lemma FirstFault(op: Op, t: Tables, refs: seq<RRef>)
    ensures RxRefs(op, t, refs).Failure? ==>
      exists i | 0 <= i < |refs| ::
        && RxRefs(op, t, refs[..i]).Success?
        && RxRef(op, RxRefs(op, t, refs[..i]).value, refs[i]) == Failure(RxRefs(op, t, refs).error)
    ensures TxRefs(op, t, refs).Failure? ==>
      exists i | 0 <= i < |refs| ::
        && TxRefs(op, t, refs[..i]).Success?
        && TxRef(op, TxRefs(op, t, refs[..i]).value, refs[i]) == Failure(TxRefs(op, t, refs).error)
  {
    if RxRefs(op, t, refs).Failure? {
      var i := FirstReceiveFault(op, t, refs);
    }
    if TxRefs(op, t, refs).Failure? {
      var i := FirstSendFault(op, t, refs);
    }
  }

  lemma {:induction false} FirstReceiveFault(op: Op, t: Tables, refs: seq<RRef>) returns (i: nat)
    requires RxRefs(op, t, refs).Failure?
    ensures i < |refs| && RxRefs(op, t, refs[..i]).Success?
    ensures RxRef(op, RxRefs(op, t, refs[..i]).value, refs[i]) == Failure(RxRefs(op, t, refs).error)
    decreases |refs|
  {
    if RxRef(op, t, refs[0]).Failure? {
      i := 0;
    } else {
      var j := FirstReceiveFault(op, RxRef(op, t, refs[0]).value, refs[1..]);
      i := j + 1;
      assert refs[..i][0] == refs[0] && refs[..i][1..] == refs[1..][..j];
    }
  }

  lemma {:induction false} FirstSendFault(op: Op, t: Tables, refs: seq<RRef>) returns (i: nat)
    requires TxRefs(op, t, refs).Failure?
    ensures i < |refs| && TxRefs(op, t, refs[..i]).Success?
    ensures TxRef(op, TxRefs(op, t, refs[..i]).value, refs[i]) == Failure(TxRefs(op, t, refs).error)
    decreases |refs|
  {
    if TxRef(op, t, refs[0]).Failure? {
      i := 0;
    } else {
      var j := FirstSendFault(op, TxRef(op, t, refs[0]).value, refs[1..]);
      i := j + 1;
      assert refs[..i][0] == refs[0] && refs[..i][1..] == refs[1..][..j];
    }
  }

  lemma CarriedSlots(m: Message)
    requires !m.Gc?
    ensures forall r :: r in AllSlots(m) <==> Carries(m, r)
  {
    if m.Deliver? && m.result.Some? {
      assert AllSlots(m) == m.slots + [m.result.value];
    }
  }

  /** Sending a message exports all that is ours in it, its result included,
      and is refused exactly if something in it is odd or theirs and not
      imported; nothing else changes but what is resolved. */
  lemma SendTracks(a: Tables, m: Message)
    requires !m.Gc?
    ensures Tx(a, m).Success? <==>
            && (forall r | Carries(m, r) :: r.RRef? && (Plus(r) ==> Flip(r) in a.imports))
            && (m.Resolve? ==> m.subject.RRef?)
    ensures Tx(a, m).Success? ==>
      var resolved := if m.Resolve? then {Flip(m.subject)} else {};
      var t := Tx(a, m).value;
      && t.imports == a.imports - resolved
      && (forall x :: x in t.exports <==> x !in resolved && (x in a.exports || (Plus(x) && Carries(m, Flip(x)))))
      && (forall x | x in t.exports ::
            t.exports[x] == if Plus(x) && Carries(m, Flip(x)) then Reachable else a.exports[x])
  {
    CarriedSlots(m);
    SlotsSentExactly(a, AllSlots(m));
    assert a.imports - {} == a.imports;
  }

  /** Receiving one imports all that is theirs in it, likewise, and is refused
      exactly if something in it is too short or ours and not exported. */
  lemma ReceiveTracks(b: Tables, m: Message)
    requires !m.Gc?
    ensures Rx(b, m).Success? <==>
            forall r | Carries(m, r) :: (r.Odd? ==> |r.text| >= 3) && (Plus(r) ==> r in b.exports)
    ensures Rx(b, m).Success? ==>
      var resolved := if m.Resolve? then {m.subject} else {};
      var t := Rx(b, m).value;
      && t.exports == b.exports - resolved
      && (forall x :: x in t.imports <==> x !in resolved && (x in b.imports || (Minus(x) && Carries(m, x))))
      && (forall x | x in t.imports :: t.imports[x] == if x in b.imports then b.imports[x] else Reachable)
  {
    CarriedSlots(m);
    SlotsReceivedExactly(b, AllSlots(m));
    assert b.exports - {} == b.exports;
  }

  predicate Distinct(refs: seq<RRef>) {
    forall i, j | 0 <= i < j < |refs| :: refs[i] != refs[j]
  }

  lemma DistinctRest(r: RRef, rest: seq<RRef>)
    ensures Distinct([r] + rest) <==> r !in rest && Distinct(rest)
  {
    var refs := [r] + rest;
    if Distinct(refs) {
      forall i | 0 <= i < |rest| ensures rest[i] != r {
        assert refs[0] != refs[i + 1];
      }
      assert forall i | 0 <= i < |rest| :: refs[i + 1] == rest[i];
    }
  }

  /** The table that a message about garbage works on, of the endpoint that
      sends it or of the one that gets it, and the marks it asks for. */
  function Collected(mode: GcMode, sends: bool, t: Tables): map<RRef, Status> {
    match mode
    case DropExport => if sends then t.imports else t.exports
    case RetireExport => if sends then t.imports else t.exports
    case RetireImport => if sends then t.exports else t.imports
  }

  function Other(mode: GcMode, sends: bool, t: Tables): map<RRef, Status> {
    match mode
    case DropExport => if sends then t.exports else t.imports
    case RetireExport => if sends then t.exports else t.imports
    case RetireImport => if sends then t.imports else t.exports
  }

  /** Every reference, in this endpoint's format, has the mark that the message
      asks for, and is named once. */
  ghost predicate Collectable(mode: GcMode, table: map<RRef, Status>, refs: seq<RRef>) {
    && Distinct(refs)
    && forall r | r in refs :: r in table && table[r] == if mode == DropExport then Reachable else Recognizable
  }

  ghost predicate Collects(mode: GcMode, table: map<RRef, Status>, refs: seq<RRef>, table': map<RRef, Status>) {
    if mode == DropExport then
      && table'.Keys == table.Keys
      && forall x | x in table :: table'[x] == if x in refs then Recognizable else table[x]
    else
      table' == table - set r | r in refs
  }

  lemma CollectsNext(mode: GcMode, table: map<RRef, Status>, r: RRef, rest: seq<RRef>, table1: map<RRef, Status>)
    requires Collectable(mode, table, [r])
    requires table1 == if mode == DropExport then table[r := Recognizable] else table - {r}
    ensures Collectable(mode, table1, rest) <==> Collectable(mode, table, [r] + rest)
    ensures forall table' :: Collects(mode, table1, rest, table') <==> Collects(mode, table, [r] + rest, table')
  {
    DistinctRest(r, rest);
    assert [r][0] == r && r in [r];
    assert forall x :: x in [r] + rest <==> x == r || x in rest;
    assert (set x | x in [r] + rest) == {r} + set x | x in rest;
    assert table - ({r} + set x | x in rest) == table - {r} - set x | x in rest;
  }

  lemma {:induction false} GcReceivedExactly(mode: GcMode, b: Tables, refs: seq<RRef>)
    ensures RxRefs(OpOf(mode), b, refs).Success? <==> Collectable(mode, Collected(mode, false, b), refs)
    ensures RxRefs(OpOf(mode), b, refs).Success? ==>
      var t := RxRefs(OpOf(mode), b, refs).value;
      && Other(mode, false, t) == Other(mode, false, b)
      && Collects(mode, Collected(mode, false, b), refs, Collected(mode, false, t))
    decreases |refs|
  {
    var table := Collected(mode, false, b);
    if refs == [] {
      assert table - {} == table;
    } else {
      var r, rest := refs[0], refs[1..];
      assert refs == [r] + rest && r in refs;
      if RxRef(OpOf(mode), b, r).Success? {
        var t := RxRef(OpOf(mode), b, r).value;
        GcReceivedExactly(mode, t, rest);
        CollectsNext(mode, table, r, rest, Collected(mode, false, t));
      }
    }
  }

  function Flips(refs: seq<RRef>): (r: seq<RRef>)
    ensures |r| == |refs| && forall i | 0 <= i < |refs| :: r[i] == Flip(refs[i])
  {
    seq(|refs|, i requires 0 <= i < |refs| => Flip(refs[i]))
  }

  /** Sending is receiving with imports and exports, and polarities, the other
      way round. */
  function Swapped(t: Tables): Tables {
    Tables(t.imports, t.exports)
  }

  lemma OneSent(mode: GcMode, a: Tables, r: RRef)
    requires r.RRef?
    ensures TxRef(OpOf(mode), a, r).Success? <==> RxRef(OpOf(mode), Swapped(a), Flip(r)).Success?
    ensures TxRef(OpOf(mode), a, r).Success? ==>
      Swapped(TxRef(OpOf(mode), a, r).value) == RxRef(OpOf(mode), Swapped(a), Flip(r)).value
  {
  }

  lemma {:induction false} GcSentAsReceived(mode: GcMode, a: Tables, refs: seq<RRef>)
    ensures TxRefs(OpOf(mode), a, refs).Success? <==>
            (forall r | r in refs :: r.RRef?) && RxRefs(OpOf(mode), Swapped(a), Flips(refs)).Success?
    ensures TxRefs(OpOf(mode), a, refs).Success? ==>
      Swapped(TxRefs(OpOf(mode), a, refs).value) == RxRefs(OpOf(mode), Swapped(a), Flips(refs)).value
    decreases |refs|
  {
    if refs == [] {
    } else {
      var r, rest := refs[0], refs[1..];
      assert refs == [r] + rest && r in refs;
      assert Flips(refs)[0] == Flip(r) && Flips(refs)[1..] == Flips(rest);
      if r.RRef? {
        OneSent(mode, a, r);
        if TxRef(OpOf(mode), a, r).Success? {
          GcSentAsReceived(mode, TxRef(OpOf(mode), a, r).value, rest);
        }
      }
    }
  }

  /** A message about garbage is sent exactly if the sender's table, of imports
      or for retired imports of exports, has all its references once with the
      right mark.  It marks them as dropped or takes them out, and changes
      nothing else. */
  lemma SendCollects(a: Tables, mode: GcMode, slots: seq<RRef>)
    ensures Tx(a, Gc(mode, slots)).Success? <==>
            (forall r | r in slots :: r.RRef?) && Collectable(mode, Collected(mode, true, a), Flips(slots))
    ensures Tx(a, Gc(mode, slots)).Success? ==>
      var t := Tx(a, Gc(mode, slots)).value;
      && Other(mode, true, t) == Other(mode, true, a)
      && Collects(mode, Collected(mode, true, a), Flips(slots), Collected(mode, true, t))
  {
    GcSentAsReceived(mode, a, slots);
    GcReceivedExactly(mode, Swapped(a), Flips(slots));
  }

  /** The same for the receiver, with its other table. */
  lemma ReceiveCollects(b: Tables, mode: GcMode, slots: seq<RRef>)
    ensures Rx(b, Gc(mode, slots)).Success? <==> Collectable(mode, Collected(mode, false, b), slots)
    ensures Rx(b, Gc(mode, slots)).Success? ==>
      var t := Rx(b, Gc(mode, slots)).value;
      && Other(mode, false, t) == Other(mode, false, b)
      && Collects(mode, Collected(mode, false, b), slots, Collected(mode, false, t))
  {
    GcReceivedExactly(mode, b, slots);
  }

  // ------------------------------------------------------------ the mirror

  /** One side's exports are the flips of the other side's imports, and what
      the importer marks reachable the exporter does. */
  ghost predicate Mirrored(exports: map<RRef, Status>, imports: map<RRef, Status>) {
    && (forall r | r in exports :: Plus(r) && Flip(r) in imports)
    && (forall r | r in imports :: Minus(r) && Flip(r) in exports)
    && (forall r | r in imports && imports[r] == Reachable :: exports[Flip(r)] == Reachable)
  }

  ghost predicate Mirror(a: Tables, b: Tables) {
    Mirrored(a.exports, b.imports) && Mirrored(b.exports, a.imports)
  }

  /** The one thing a receiver may refuse after the sender allowed it: to
      retire an export that it still marks reachable. */
  ghost predicate Stale(op: Op, b: Tables, r: RRef) {
    op == DropForGood && r in b.exports && b.exports[r] == Reachable
  }

  lemma Exported(exports: map<RRef, Status>, imports: map<RRef, Status>, r: RRef)
    requires Mirrored(exports, imports) && Plus(r)
    ensures
      Mirrored(exports[r := Reachable], if Flip(r) in imports then imports else imports[Flip(r) := Reachable])
  {
  }

  lemma Demoted(exports: map<RRef, Status>, imports: map<RRef, Status>, i: RRef)
    requires Mirrored(exports, imports) && i in imports
    ensures Mirrored(exports[Flip(i) := Recognizable], imports[i := Recognizable])
  {
  }

  lemma Removed(exports: map<RRef, Status>, imports: map<RRef, Status>, i: RRef)
    requires Mirrored(exports, imports) && Minus(i)
    ensures Mirrored(exports - {Flip(i)}, imports - {i})
  {
  }

  lemma RefMirror(op: Op, a: Tables, b: Tables, r: RRef)
    requires Mirror(a, b) && TxRef(op, a, r).Success?
    ensures RxRef(op, b, r).Failure? <==> Stale(op, b, r)
    ensures RxRef(op, b, r).Success? ==> Mirror(TxRef(op, a, r).value, RxRef(op, b, r).value)
  {
    match op
    case Slot => if Plus(Flip(r)) { Exported(a.exports, b.imports, Flip(r)); }
    case Drop => Demoted(b.exports, a.imports, Flip(r));
    case DropForGood => Removed(b.exports, a.imports, Flip(r));
    case Forget => Removed(a.exports, b.imports, r);
  }

  ghost predicate AnyStale(op: Op, b: Tables, refs: seq<RRef>) {
    exists r :: r in refs && Stale(op, b, r)
  }

  lemma StaleStep(op: Op, b: Tables, refs: seq<RRef>)
    requires refs != [] && (RxRef(op, b, refs[0]).Failure? <==> Stale(op, b, refs[0]))
    ensures RxRef(op, b, refs[0]).Failure? ==> AnyStale(op, b, refs)
    ensures RxRef(op, b, refs[0]).Success? ==>
      (AnyStale(op, RxRef(op, b, refs[0]).value, refs[1..]) <==> AnyStale(op, b, refs))
  {
    assert refs == [refs[0]] + refs[1..];
    if RxRef(op, b, refs[0]).Success? {
      var b' := RxRef(op, b, refs[0]).value;
      assert forall s :: Stale(op, b', s) <==> Stale(op, b, s);
      if AnyStale(op, b', refs[1..]) {
        var s :| s in refs[1..] && Stale(op, b', s);
        assert s in refs && Stale(op, b, s);
      }
    } else {
      assert refs[0] in refs;
    }
  }

  /** A receiver refuses references that the sender could send only if one is
      stale. */
  lemma {:induction false} RefsAccepted(op: Op, a: Tables, b: Tables, refs: seq<RRef>)
    requires Mirror(a, b) && TxRefs(op, a, refs).Success?
    ensures RxRefs(op, b, refs).Failure? <==> AnyStale(op, b, refs)
    decreases |refs|
  {
    if refs == [] {
    } else {
      RefMirror(op, a, b, refs[0]);
      StaleStep(op, b, refs);
      if RxRef(op, b, refs[0]).Success? {
        RefsAccepted(op, TxRef(op, a, refs[0]).value, RxRef(op, b, refs[0]).value, refs[1..]);
      }
    }
  }

  /** Otherwise the mirror is kept. */
  lemma {:induction false} RefsMirror(op: Op, a: Tables, b: Tables, refs: seq<RRef>)
    requires Mirror(a, b) && TxRefs(op, a, refs).Success? && RxRefs(op, b, refs).Success?
    ensures Mirror(TxRefs(op, a, refs).value, RxRefs(op, b, refs).value)
    decreases |refs|
  {
    if refs == [] {
    } else {
      RefMirror(op, a, b, refs[0]);
      RefsMirror(op, TxRef(op, a, refs[0]).value, RxRef(op, b, refs[0]).value, refs[1..]);
    }
  }

  lemma NotThere(exports: map<RRef, Status>, imports: map<RRef, Status>, i: RRef)
    requires Mirrored(exports, imports) && Minus(i)
    ensures exports - {i} == exports && imports - {Flip(i)} == imports
  {
  }

  lemma ResolvedMirror(a: Tables, b: Tables, r: RRef)
    requires Mirror(a, b) && r.RRef?
    ensures Mirror(Resolved(a, Flip(r)), Resolved(b, r))
  {
    if Minus(r) {
      Removed(a.exports, b.imports, r);
      NotThere(b.exports, a.imports, r);
    } else {
      Removed(b.exports, a.imports, Flip(r));
      NotThere(a.exports, b.imports, Flip(r));
    }
  }

  function MessageOp(m: Message): Op {
    if m.Gc? then OpOf(m.mode) else Slot
  }

  /** A message that retires an export its holder still marks reachable. */
  ghost predicate StaleMessage(b: Tables, m: Message) {
    AnyStale(MessageOp(m), b, AllSlots(m))
  }

  /** Whatever the sender's own checks let through, the receiver accepts,
      except that it refuses, and always refuses, to retire an export that it
      still marks reachable. */
  lemma MessageAccepted(a: Tables, b: Tables, m: Message)
    requires Mirror(a, b) && Tx(a, m).Success?
    ensures Rx(b, m).Failure? <==> StaleMessage(b, m)
  {
    RefsAccepted(MessageOp(m), a, b, AllSlots(m));
  }

  /** Both endpoints stay mirror images. */
  lemma MessageMirror(a: Tables, b: Tables, m: Message)
    requires Mirror(a, b) && Tx(a, m).Success? && Rx(b, m).Success?
    ensures Mirror(Tx(a, m).value, Rx(b, m).value)
  {
    RefsMirror(MessageOp(m), a, b, AllSlots(m));
    if m.Resolve? {
      ResolvedMirror(TxRefs(Slot, a, m.slots).value, RxRefs(Slot, b, m.slots).value, m.subject);
    }
  }

  lemma {:induction false} PayloadMirror(a: Tables, b: Tables, ms: seq<Message>)
    requires Mirror(a, b) && TxAll(a, ms).Success? && RxAll(b, ms).Success?
    ensures Mirror(TxAll(a, ms).value, RxAll(b, ms).value)
    decreases |ms|
  {
    if ms == [] {
    } else {
      MessageMirror(a, b, ms[0]);
      PayloadMirror(Tx(a, ms[0]).value, Rx(b, ms[0]).value, ms[1..]);
    }
  }

  // ------------------------------------------------------------ whole runs

  /** A payload, and which of the two endpoints sent it. */
  datatype Exchange = Exchange(fromFirst: bool, payload: seq<Message>)

  /** Both endpoints handle every payload, in the same order, without fault. */
  ghost predicate LockStep(a: Tables, b: Tables, es: seq<Exchange>, a': Tables, b': Tables)
    decreases |es|
  {
    if es == [] then a' == a && b' == b
    else
      var (from, to) := if es[0].fromFirst then (a, b) else (b, a);
      var sent, received := TxAll(from, es[0].payload), RxAll(to, es[0].payload);
      && sent.Success? && received.Success?
      && LockStep(if es[0].fromFirst then sent.value else received.value,
                  if es[0].fromFirst then received.value else sent.value, es[1..], a', b')
  }

  /** In every run the endpoints are mirror images: what one exports the other
      imports, and an import in use is an export in use. */
  lemma {:induction false} RunMirror(a: Tables, b: Tables, es: seq<Exchange>, a': Tables, b': Tables)
    requires Mirror(a, b) && LockStep(a, b, es, a', b')
    ensures Mirror(a', b')
    decreases |es|
  {
    if es == [] {
    } else if es[0].fromFirst {
      PayloadMirror(a, b, es[0].payload);
      RunMirror(TxAll(a, es[0].payload).value, RxAll(b, es[0].payload).value, es[1..], a', b');
    } else {
      PayloadMirror(b, a, es[0].payload);
      RunMirror(RxAll(a, es[0].payload).value, TxAll(b, es[0].payload).value, es[1..], a', b');
    }
  }

  const NO_TABLES := Tables(map[], map[])

  lemma EmptyMirror()
    ensures StrictMirror(NO_TABLES, NO_TABLES)
  {
  }

  /** So they are from the start on, whatever is sent. */
  lemma AlwaysMirror(es: seq<Exchange>, a: Tables, b: Tables)
    requires LockStep(NO_TABLES, NO_TABLES, es, a, b)
    ensures Mirror(a, b)
  {
    EmptyMirror();
    RunMirror(NO_TABLES, NO_TABLES, es, a, b);
  }

  // -------------------------------------------------------- equal statuses

  /** What importer and exporter mark a reference with is the same. */
  ghost predicate SameStatus(exports: map<RRef, Status>, imports: map<RRef, Status>) {
    forall r | r in imports :: Flip(r) in exports && exports[Flip(r)] == imports[r]
  }

  ghost predicate StrictMirror(a: Tables, b: Tables) {
    Mirror(a, b) && SameStatus(a.exports, b.imports) && SameStatus(b.exports, a.imports)
  }

  /** The receiver has dropped `r`, and does not note that it is sent again. */
  ghost predicate Resent(b: Tables, refs: seq<RRef>, r: RRef) {
    r in refs && r in b.imports && b.imports[r] == Recognizable
  }

  lemma {:induction false} SentSlots(a: Tables, refs: seq<RRef>)
    requires TxRefs(Slot, a, refs).Success?
    ensures
      var t := TxRefs(Slot, a, refs).value;
      && t.imports == a.imports
      && (forall r | r in a.exports :: r in t.exports && (Flip(r) !in refs ==> t.exports[r] == a.exports[r]))
      && (forall r | r in refs && Minus(r) :: Flip(r) in t.exports && t.exports[Flip(r)] == Reachable)
    decreases |refs|
  {
    if refs == [] {
    } else {
      var r, rest := refs[0], refs[1..];
      assert refs == [r] + rest;
      var a' := TxRef(Slot, a, r).value;
      SentSlots(a', rest);
      if Minus(r) {
        assert a'.exports[Flip(r)] == Reachable;
        assert r !in rest ==> Flip(Flip(r)) !in rest;
      }
    }
  }

  lemma {:induction false} ReceivedSlots(b: Tables, refs: seq<RRef>)
    requires RxRefs(Slot, b, refs).Success?
    ensures
      var t := RxRefs(Slot, b, refs).value;
      && t.exports == b.exports
      && (forall r | r in b.imports :: r in t.imports && t.imports[r] == b.imports[r])
      && (forall r | r in t.imports && r !in b.imports :: t.imports[r] == Reachable && r in refs && Minus(r))
    decreases |refs|
  {
    if refs == [] {
    } else {
      var r, rest := refs[0], refs[1..];
      assert refs == [r] + rest;
      ReceivedSlots(RxRef(Slot, b, r).value, rest);
    }
  }

  /** Sending slots leaves the two marks of a reference different exactly if it
      had been dropped before. */
  lemma SlotStatus(a: Tables, b: Tables, refs: seq<RRef>, r: RRef)
    requires Mirrored(a.exports, b.imports) && SameStatus(a.exports, b.imports)
    requires TxRefs(Slot, a, refs).Success? && RxRefs(Slot, b, refs).Success?
    requires r in RxRefs(Slot, b, refs).value.imports
    ensures
      var a', b' := TxRefs(Slot, a, refs).value, RxRefs(Slot, b, refs).value;
      Flip(r) in a'.exports && (a'.exports[Flip(r)] == b'.imports[r] <==> !Resent(b, refs, r))
  {
    SentSlots(a, refs);
    ReceivedSlots(b, refs);
    assert Flip(Flip(r)) == r;
  }

  /** While the marks agree nothing is ever stale. */
  lemma StrictIsAccepted(a: Tables, b: Tables, m: Message)
    requires StrictMirror(a, b) && Tx(a, m).Success?
    ensures Rx(b, m).Success?
  {
    MessageAccepted(a, b, m);
    NothingStale(a, b, m);
  }

  lemma NothingStale(a: Tables, b: Tables, m: Message)
    requires SameStatus(b.exports, a.imports) && Tx(a, m).Success?
    ensures !StaleMessage(b, m)
  {
    if StaleMessage(b, m) {
      var r :| r in m.slots && Stale(DropForGood, b, r);
      SomeRemoved(a, m.slots, r);
    }
  }

  lemma {:induction false} SomeRemoved(a: Tables, refs: seq<RRef>, r: RRef)
    requires TxRefs(DropForGood, a, refs).Success? && r in refs
    ensures Flip(r) in a.imports && a.imports[Flip(r)] == Recognizable
    decreases |refs|
  {
    if r != refs[0] {
      SomeRemoved(TxRef(DropForGood, a, refs[0]).value, refs[1..], r);
    }
  }

  lemma SameStatusRemoved(exports: map<RRef, Status>, imports: map<RRef, Status>, i: RRef)
    requires SameStatus(exports, imports) && i.RRef?
    requires forall r | r in imports :: r.RRef?
    ensures SameStatus(exports - {Flip(i)}, imports - {i})
  {
    assert forall r: RRef | r.RRef? && r != i :: Flip(r) != Flip(i);
  }

  lemma BackwardStatus(a: Tables, b: Tables, m: Message)
    requires StrictMirror(a, b) && Tx(a, m).Success? && Rx(b, m).Success? && !m.Gc?
    ensures SameStatus(Rx(b, m).value.exports, Tx(a, m).value.imports)
  {
    SentSlots(a, AllSlots(m));
    ReceivedSlots(b, AllSlots(m));
    if m.Resolve? {
      SameStatusRemoved(b.exports, a.imports, Flip(m.subject));
    }
  }

  ghost predicate OnlyResolvedResent(b: Tables, m: Message) {
    forall r | Resent(b, AllSlots(m), r) :: m.Resolve? && r == m.subject
  }

  lemma ResentIsKept(b: Tables, m: Message)
    requires Rx(b, m).Success? && !m.Gc?
    ensures OnlyResolvedResent(b, m) <==> forall r | r in Rx(b, m).value.imports :: !Resent(b, AllSlots(m), r)
  {
    ReceivedSlots(b, AllSlots(m));
    assert forall r | Resent(b, AllSlots(m), r) ::
      r in Rx(b, m).value.imports <==> !(m.Resolve? && r == m.subject);
  }

  /** The mark of `r` agrees after a message as it did after its slots. */
  lemma StatusKept(a: Tables, b: Tables, m: Message, r: RRef)
    requires Mirrored(a.exports, b.imports) && SameStatus(a.exports, b.imports)
    requires Tx(a, m).Success? && Rx(b, m).Success? && !m.Gc?
    requires r in Rx(b, m).value.imports && Flip(r) in Tx(a, m).value.exports
    ensures Tx(a, m).value.exports[Flip(r)] == Rx(b, m).value.imports[r] <==> !Resent(b, AllSlots(m), r)
  {
    SlotStatus(a, b, AllSlots(m), r);
  }

  lemma ForwardStatus(a: Tables, b: Tables, m: Message)
    requires StrictMirror(a, b) && Tx(a, m).Success? && Rx(b, m).Success? && !m.Gc?
    requires Mirrored(Tx(a, m).value.exports, Rx(b, m).value.imports)
    ensures SameStatus(Tx(a, m).value.exports, Rx(b, m).value.imports) <==>
            forall r | r in Rx(b, m).value.imports :: !Resent(b, AllSlots(m), r)
  {
    forall r | r in Rx(b, m).value.imports
      ensures Tx(a, m).value.exports[Flip(r)] == Rx(b, m).value.imports[r] <==> !Resent(b, AllSlots(m), r)
    {
      StatusKept(a, b, m, r);
    }
  }

  /** A message that carries references keeps the marks equal if and only if it
      sends no dropped one again, save one that it resolves. */
  lemma SlotsStayStrict(a: Tables, b: Tables, m: Message)
    requires StrictMirror(a, b) && Tx(a, m).Success? && !m.Gc?
    ensures Rx(b, m).Success?
    ensures StrictMirror(Tx(a, m).value, Rx(b, m).value) <==> OnlyResolvedResent(b, m)
  {
    StrictIsAccepted(a, b, m);
    MessageMirror(a, b, m);
    BackwardStatus(a, b, m);
    ForwardStatus(a, b, m);
    ResentIsKept(b, m);
  }

  lemma SameStatusDemoted(exports: map<RRef, Status>, imports: map<RRef, Status>, i: RRef)
    requires SameStatus(exports, imports) && i.RRef?
    requires forall r | r in imports :: r.RRef?
    ensures SameStatus(exports[Flip(i) := Recognizable], imports[i := Recognizable])
  {
    assert forall r: RRef | r.RRef? && r != i :: Flip(r) != Flip(i);
  }

  /** The marks agree on everything imported. */
  ghost predicate Agree(a: Tables, b: Tables) {
    && SameStatus(a.exports, b.imports) && SameStatus(b.exports, a.imports)
    && (forall r | r in a.imports || r in b.imports :: r.RRef?)
  }

  lemma GcRefAgrees(op: Op, a: Tables, b: Tables, r: RRef)
    requires Agree(a, b) && op != Slot && TxRef(op, a, r).Success? && RxRef(op, b, r).Success?
    ensures Agree(TxRef(op, a, r).value, RxRef(op, b, r).value)
  {
    assert Flip(Flip(r)) == r;
    match op
    case Slot =>
    case Drop => SameStatusDemoted(b.exports, a.imports, Flip(r));
    case DropForGood => SameStatusRemoved(b.exports, a.imports, Flip(r));
    case Forget => SameStatusRemoved(a.exports, b.imports, r);
  }

  lemma {:induction false} GcRefsAgree(op: Op, a: Tables, b: Tables, refs: seq<RRef>)
    requires Agree(a, b) && op != Slot && TxRefs(op, a, refs).Success? && RxRefs(op, b, refs).Success?
    ensures Agree(TxRefs(op, a, refs).value, RxRefs(op, b, refs).value)
    decreases |refs|
  {
    if refs == [] {
    } else {
      GcRefAgrees(op, a, b, refs[0]);
      GcRefsAgree(op, TxRef(op, a, refs[0]).value, RxRef(op, b, refs[0]).value, refs[1..]);
    }
  }

  /** Collecting garbage keeps them equal. */
  lemma GcStaysStrict(a: Tables, b: Tables, m: Message)
    requires StrictMirror(a, b) && m.Gc? && Tx(a, m).Success?
    ensures Rx(b, m).Success? && StrictMirror(Tx(a, m).value, Rx(b, m).value)
  {
    StrictIsAccepted(a, b, m);
    MessageMirror(a, b, m);
    GcRefsAgree(OpOf(m.mode), a, b, m.slots);
  }

  // ------------------------------------------------- nothing sent again

  /** The receiver of a payload has dropped nothing that it sends again, save
      what it resolves. */
  ghost predicate KeepsMarks(b: Tables, ms: seq<Message>)
    decreases |ms|
  {
    ms != [] ==>
      && (ms[0].Gc? || OnlyResolvedResent(b, ms[0]))
      && (Rx(b, ms[0]).Success? ==> KeepsMarks(Rx(b, ms[0]).value, ms[1..]))
  }

  /** Such a payload is accepted whenever it may be sent, and keeps the marks
      equal. */
  lemma {:induction false} PayloadStrict(a: Tables, b: Tables, ms: seq<Message>)
    requires StrictMirror(a, b) && TxAll(a, ms).Success? && KeepsMarks(b, ms)
    ensures RxAll(b, ms).Success? && StrictMirror(TxAll(a, ms).value, RxAll(b, ms).value)
    decreases |ms|
  {
    if ms == [] {
    } else {
      if ms[0].Gc? {
        GcStaysStrict(a, b, ms[0]);
      } else {
        SlotsStayStrict(a, b, ms[0]);
      }
      PayloadStrict(Tx(a, ms[0]).value, Rx(b, ms[0]).value, ms[1..]);
    }
  }

  /** Every payload passes the checks of its sender and is such a payload.
      What the receivers do is not assumed. */
  ghost predicate Sends(a: Tables, b: Tables, es: seq<Exchange>)
    decreases |es|
  {
    es != [] ==>
      var (from, to) := if es[0].fromFirst then (a, b) else (b, a);
      var sent, received := TxAll(from, es[0].payload), RxAll(to, es[0].payload);
      && sent.Success? && KeepsMarks(to, es[0].payload)
      && (received.Success? ==>
            Sends(if es[0].fromFirst then sent.value else received.value,
                  if es[0].fromFirst then received.value else sent.value, es[1..]))
  }

  /** In a run of such payloads no receiver ever refuses anything, and the
      marks stay equal. */
  lemma {:induction false} RunAccepted(a: Tables, b: Tables, es: seq<Exchange>) returns (a': Tables, b': Tables)
    requires StrictMirror(a, b) && Sends(a, b, es)
    ensures LockStep(a, b, es, a', b') && StrictMirror(a', b')
    decreases |es|
  {
    if es == [] {
      a', b' := a, b;
    } else if es[0].fromFirst {
      PayloadStrict(a, b, es[0].payload);
      a', b' := RunAccepted(TxAll(a, es[0].payload).value, RxAll(b, es[0].payload).value, es[1..]);
    } else {
      PayloadStrict(b, a, es[0].payload);
      a', b' := RunAccepted(RxAll(a, es[0].payload).value, TxAll(b, es[0].payload).value, es[1..]);
    }
  }

  // ----------------------------------------------------- what has happened

  /** What a run does about one reference, named as its importer names it. */
  datatype Event = Sent | Dropped | Gone

  /** One reference of a message, on its way to the importer or to the
      exporter. */
  function RefEvents(op: Op, toImporter: bool, r: RRef, i: RRef): seq<Event> {
    if toImporter then
      if r != i then [] else if op == Slot then [Sent] else if op == Forget then [Gone] else []
    else
      if r != Flip(i) then [] else if op == Drop then [Dropped] else if op == DropForGood then [Gone] else []
  }

  function RefsEvents(op: Op, toImporter: bool, refs: seq<RRef>, i: RRef): seq<Event> {
    if refs == [] then [] else RefEvents(op, toImporter, refs[0], i) + RefsEvents(op, toImporter, refs[1..], i)
  }

  function MessageEvents(toImporter: bool, m: Message, i: RRef): seq<Event> {
    RefsEvents(MessageOp(m), toImporter, AllSlots(m), i) +
    if m.Resolve? && m.subject == (if toImporter then i else Flip(i)) then [Gone] else []
  }

  function PayloadEvents(toImporter: bool, ms: seq<Message>, i: RRef): seq<Event> {
    if ms == [] then [] else MessageEvents(toImporter, ms[0], i) + PayloadEvents(toImporter, ms[1..], i)
  }

  function RunEvents(exporterFirst: bool, es: seq<Exchange>, i: RRef): seq<Event> {
    if es == [] then []
    else PayloadEvents(es[0].fromFirst == exporterFirst, es[0].payload, i) + RunEvents(exporterFirst, es[1..], i)
  }

  /** Since the reference was last dropped it has been sent again, and nothing
      else has happened to it. */
  ghost predicate SentAgain(events: seq<Event>) {
    exists j :: 0 <= j < |events| - 1 && events[j] == Dropped && forall k | j < k < |events| :: events[k] == Sent
  }

  /** What exporter and importer make of that. */
  datatype Marks = Untracked | InUse | Released | Differing

  function MarkedThen(marks: Marks, e: Event): Marks {
    match e
    case Sent => if marks == Untracked || marks == InUse then InUse else Differing
    case Dropped => Released
    case Gone => Untracked
  }

  function Marked(events: seq<Event>): Marks {
    if events == [] then Untracked else MarkedThen(Marked(events[..|events| - 1]), events[|events| - 1])
  }

  lemma {:induction false} DifferingExactly(events: seq<Event>)
    ensures Marked(events) == Released <==> events != [] && events[|events| - 1] == Dropped
    ensures Marked(events) == Differing <==> SentAgain(events)
    decreases |events|
  {
    if events == [] {
    } else {
      var init := events[..|events| - 1];
      DifferingExactly(init);
      if SentAgain(events) {
        var j :| 0 <= j < |events| - 1 && events[j] == Dropped && forall k | j < k < |events| :: events[k] == Sent;
        assert init[j] == Dropped && forall k | j < k < |init| :: init[k] == Sent;
        assert j < |init| - 1 ==> SentAgain(init);
      }
      if Marked(events) == Differing {
        if SentAgain(init) {
          var j :| 0 <= j < |init| - 1 && init[j] == Dropped && forall k | j < k < |init| :: init[k] == Sent;
          assert events[j] == Dropped && forall k | j < k < |events| :: events[k] == Sent;
        } else {
          assert events[|events| - 2] == init[|init| - 1] == Dropped;
        }
      }
    }
  }

  /** The marks that exporter `a` and importer `b` give the reference, if they
      are such a pair. */
  function Shown(a: Tables, b: Tables, i: RRef): Option<Marks> {
    if i !in b.imports && Flip(i) !in a.exports then Some(Untracked)
    else if i !in b.imports || Flip(i) !in a.exports then None
    else if b.imports[i] == a.exports[Flip(i)] then Some(if b.imports[i] == Reachable then InUse else Released)
    else if b.imports[i] == Recognizable then Some(Differing)
    else None
  }

  lemma MarkedNext(past: seq<Event>, e: Event)
    ensures Marked(past + [e]) == MarkedThen(Marked(past), e)
  {
    assert (past + [e])[..|past|] == past;
  }

  lemma MarkedSplit(past: seq<Event>, first: seq<Event>, rest: seq<Event>)
    ensures Marked(past + (first + rest)) == Marked(past + first + rest)
    ensures Marked(past + []) == Marked(past)
  {
    assert past + (first + rest) == past + first + rest && past + [] == past;
  }

  lemma SentToImporter(a: Tables, b: Tables, i: RRef, marks: Marks)
    requires Minus(i) && Shown(a, b, i) == Some(marks)
    requires TxRef(Slot, a, i).Success? && RxRef(Slot, b, i).Success?
    ensures Shown(TxRef(Slot, a, i).value, RxRef(Slot, b, i).value, i) == Some(MarkedThen(marks, Sent))
  {
    assert TxRef(Slot, a, i).value.exports == a.exports[Flip(i) := Reachable];
    assert RxRef(Slot, b, i).value.imports == if i in b.imports then b.imports else b.imports[i := Reachable];
  }

  lemma ForgottenByImporter(a: Tables, b: Tables, i: RRef)
    requires Minus(i) && TxRef(Forget, a, i).Success? && RxRef(Forget, b, i).Success?
    ensures Shown(TxRef(Forget, a, i).value, RxRef(Forget, b, i).value, i) == Some(Untracked)
  {
    assert TxRef(Forget, a, i).value.exports == a.exports - {Flip(i)};
    assert RxRef(Forget, b, i).value.imports == b.imports - {i};
  }

  lemma NotForImporter(op: Op, a: Tables, b: Tables, r: RRef, i: RRef)
    requires Minus(i) && (r != i || op == Drop || op == DropForGood)
    requires TxRef(op, a, r).Success? && RxRef(op, b, r).Success?
    ensures Shown(TxRef(op, a, r).value, RxRef(op, b, r).value, i) == Shown(a, b, i)
  {
    assert r != i ==> Flip(r) != Flip(i);
  }

  /** One reference from the exporter `a` to the importer `b`. */
  lemma RefToImporter(past: seq<Event>, op: Op, a: Tables, b: Tables, r: RRef, i: RRef)
    requires Minus(i) && Shown(a, b, i) == Some(Marked(past))
    requires TxRef(op, a, r).Success? && RxRef(op, b, r).Success?
    ensures Shown(TxRef(op, a, r).value, RxRef(op, b, r).value, i) == Some(Marked(past + RefEvents(op, true, r, i)))
  {
    if r == i && op == Slot {
      SentToImporter(a, b, i, Marked(past));
      MarkedNext(past, Sent);
    } else if r == i && op == Forget {
      ForgottenByImporter(a, b, i);
      MarkedNext(past, Gone);
    } else {
      NotForImporter(op, a, b, r, i);
      MarkedSplit(past, [], []);
    }
  }

  lemma DroppedByImporter(a: Tables, b: Tables, i: RRef)
    requires Minus(i) && TxRef(Drop, b, Flip(i)).Success? && RxRef(Drop, a, Flip(i)).Success?
    ensures Shown(RxRef(Drop, a, Flip(i)).value, TxRef(Drop, b, Flip(i)).value, i) == Some(Released)
  {
    assert Flip(Flip(i)) == i;
    assert RxRef(Drop, a, Flip(i)).value.exports == a.exports[Flip(i) := Recognizable];
    assert TxRef(Drop, b, Flip(i)).value.imports == b.imports[i := Recognizable];
  }

  lemma RetiredByImporter(a: Tables, b: Tables, i: RRef)
    requires Minus(i) && TxRef(DropForGood, b, Flip(i)).Success? && RxRef(DropForGood, a, Flip(i)).Success?
    ensures Shown(RxRef(DropForGood, a, Flip(i)).value, TxRef(DropForGood, b, Flip(i)).value, i) == Some(Untracked)
  {
    assert Flip(Flip(i)) == i;
    assert RxRef(DropForGood, a, Flip(i)).value.exports == a.exports - {Flip(i)};
    assert TxRef(DropForGood, b, Flip(i)).value.imports == b.imports - {i};
  }

  lemma NotForExporter(op: Op, a: Tables, b: Tables, r: RRef, i: RRef)
    requires Minus(i) && (r != Flip(i) || op == Slot || op == Forget)
    requires TxRef(op, b, r).Success? && RxRef(op, a, r).Success?
    ensures Shown(RxRef(op, a, r).value, TxRef(op, b, r).value, i) == Shown(a, b, i)
  {
    assert r != Flip(i) ==> Flip(r) != i;
  }

  /** One reference from the importer `b` to the exporter `a`. */
  lemma RefToExporter(past: seq<Event>, op: Op, a: Tables, b: Tables, r: RRef, i: RRef)
    requires Minus(i) && Shown(a, b, i) == Some(Marked(past))
    requires TxRef(op, b, r).Success? && RxRef(op, a, r).Success?
    ensures Shown(RxRef(op, a, r).value, TxRef(op, b, r).value, i) == Some(Marked(past + RefEvents(op, false, r, i)))
  {
    if r == Flip(i) && op == Drop {
      DroppedByImporter(a, b, i);
      MarkedNext(past, Dropped);
    } else if r == Flip(i) && op == DropForGood {
      RetiredByImporter(a, b, i);
      MarkedNext(past, Gone);
    } else {
      NotForExporter(op, a, b, r, i);
      MarkedSplit(past, [], []);
    }
  }

  lemma {:induction false} RefsToImporter(past: seq<Event>, op: Op, a: Tables, b: Tables, refs: seq<RRef>, i: RRef)
    requires Minus(i) && Shown(a, b, i) == Some(Marked(past))
    requires TxRefs(op, a, refs).Success? && RxRefs(op, b, refs).Success?
    ensures Shown(TxRefs(op, a, refs).value, RxRefs(op, b, refs).value, i) ==
            Some(Marked(past + RefsEvents(op, true, refs, i)))
    decreases |refs|
  {
    if refs == [] {
      MarkedSplit(past, [], []);
    } else {
      var first := RefEvents(op, true, refs[0], i);
      RefToImporter(past, op, a, b, refs[0], i);
      RefsToImporter(past + first, op, TxRef(op, a, refs[0]).value, RxRef(op, b, refs[0]).value, refs[1..], i);
      MarkedSplit(past, first, RefsEvents(op, true, refs[1..], i));
    }
  }

  lemma {:induction false} RefsToExporter(past: seq<Event>, op: Op, a: Tables, b: Tables, refs: seq<RRef>, i: RRef)
    requires Minus(i) && Shown(a, b, i) == Some(Marked(past))
    requires TxRefs(op, b, refs).Success? && RxRefs(op, a, refs).Success?
    ensures Shown(RxRefs(op, a, refs).value, TxRefs(op, b, refs).value, i) ==
            Some(Marked(past + RefsEvents(op, false, refs, i)))
    decreases |refs|
  {
    if refs == [] {
      MarkedSplit(past, [], []);
    } else {
      var first := RefEvents(op, false, refs[0], i);
      RefToExporter(past, op, a, b, refs[0], i);
      RefsToExporter(past + first, op, RxRef(op, a, refs[0]).value, TxRef(op, b, refs[0]).value, refs[1..], i);
      MarkedSplit(past, first, RefsEvents(op, false, refs[1..], i));
    }
  }

  lemma ResolvedMarks(past: seq<Event>, a: Tables, b: Tables, r: RRef, i: RRef)
    requires Minus(i) && r.RRef? && Shown(a, b, i) == Some(Marked(past))
    ensures Shown(Resolved(a, Flip(r)), Resolved(b, r), i) == Some(Marked(past + if r == i then [Gone] else []))
  {
    MarkedNext(past, Gone);
    MarkedSplit(past, [], []);
    assert r != i ==> Flip(r) != Flip(i);
  }

  lemma MessageToImporter(past: seq<Event>, a: Tables, b: Tables, m: Message, i: RRef)
    requires Minus(i) && Shown(a, b, i) == Some(Marked(past))
    requires Tx(a, m).Success? && Rx(b, m).Success?
    ensures Shown(Tx(a, m).value, Rx(b, m).value, i) == Some(Marked(past + MessageEvents(true, m, i)))
  {
    var op, refs := MessageOp(m), AllSlots(m);
    var slots := RefsEvents(op, true, refs, i);
    RefsToImporter(past, op, a, b, refs, i);
    MarkedSplit(past, slots, if m.Resolve? && m.subject == i then [Gone] else []);
    if m.Resolve? {
      ResolvedMarks(past + slots, TxRefs(op, a, refs).value, RxRefs(op, b, refs).value, m.subject, i);
    } else {
      MarkedSplit(past + slots, [], []);
    }
  }

  lemma MessageToExporter(past: seq<Event>, a: Tables, b: Tables, m: Message, i: RRef)
    requires Minus(i) && Shown(a, b, i) == Some(Marked(past))
    requires Tx(b, m).Success? && Rx(a, m).Success?
    ensures Shown(Rx(a, m).value, Tx(b, m).value, i) == Some(Marked(past + MessageEvents(false, m, i)))
  {
    var op, refs := MessageOp(m), AllSlots(m);
    var slots := RefsEvents(op, false, refs, i);
    RefsToExporter(past, op, a, b, refs, i);
    MarkedSplit(past, slots, if m.Resolve? && m.subject == Flip(i) then [Gone] else []);
    if m.Resolve? {
      ResolvedMarks(past + slots, RxRefs(op, a, refs).value, TxRefs(op, b, refs).value, Flip(m.subject), i);
      assert Flip(Flip(m.subject)) == m.subject;
    } else {
      MarkedSplit(past + slots, [], []);
    }
  }

  lemma {:induction false} PayloadToImporter(past: seq<Event>, a: Tables, b: Tables, ms: seq<Message>, i: RRef)
    requires Minus(i) && Shown(a, b, i) == Some(Marked(past))
    requires TxAll(a, ms).Success? && RxAll(b, ms).Success?
    ensures Shown(TxAll(a, ms).value, RxAll(b, ms).value, i) == Some(Marked(past + PayloadEvents(true, ms, i)))
    decreases |ms|
  {
    if ms == [] {
      MarkedSplit(past, [], []);
    } else {
      var first := MessageEvents(true, ms[0], i);
      MessageToImporter(past, a, b, ms[0], i);
      PayloadToImporter(past + first, Tx(a, ms[0]).value, Rx(b, ms[0]).value, ms[1..], i);
      MarkedSplit(past, first, PayloadEvents(true, ms[1..], i));
    }
  }

  lemma {:induction false} PayloadToExporter(past: seq<Event>, a: Tables, b: Tables, ms: seq<Message>, i: RRef)
    requires Minus(i) && Shown(a, b, i) == Some(Marked(past))
    requires TxAll(b, ms).Success? && RxAll(a, ms).Success?
    ensures Shown(RxAll(a, ms).value, TxAll(b, ms).value, i) == Some(Marked(past + PayloadEvents(false, ms, i)))
    decreases |ms|
  {
    if ms == [] {
      MarkedSplit(past, [], []);
    } else {
      var first := MessageEvents(false, ms[0], i);
      MessageToExporter(past, a, b, ms[0], i);
      PayloadToExporter(past + first, Rx(a, ms[0]).value, Tx(b, ms[0]).value, ms[1..], i);
      MarkedSplit(past, first, PayloadEvents(false, ms[1..], i));
    }
  }

  /** The tables of the first endpoint, or of the second. */
  function SideOf(first: bool, a: Tables, b: Tables): Tables {
    if first then a else b
  }

  /** The marks of a reference that the first endpoint exports, or the second. */
  function MarksOf(exporterFirst: bool, a: Tables, b: Tables, i: RRef): Option<Marks> {
    Shown(SideOf(exporterFirst, a, b), SideOf(!exporterFirst, a, b), i)
  }

  lemma PayloadMarks(past: seq<Event>, exporterFirst: bool, fromFirst: bool, a: Tables, b: Tables, ms: seq<Message>,
                     i: RRef)
    requires Minus(i) && MarksOf(exporterFirst, a, b, i) == Some(Marked(past))
    requires TxAll(SideOf(fromFirst, a, b), ms).Success? && RxAll(SideOf(!fromFirst, a, b), ms).Success?
    ensures
      var sent, received := TxAll(SideOf(fromFirst, a, b), ms).value, RxAll(SideOf(!fromFirst, a, b), ms).value;
      MarksOf(exporterFirst, SideOf(fromFirst, sent, received), SideOf(fromFirst, received, sent), i) ==
      Some(Marked(past + PayloadEvents(fromFirst == exporterFirst, ms, i)))
  {
    var exporter, importer := SideOf(exporterFirst, a, b), SideOf(!exporterFirst, a, b);
    if fromFirst == exporterFirst {
      PayloadToImporter(past, exporter, importer, ms, i);
    } else {
      PayloadToExporter(past, exporter, importer, ms, i);
    }
  }

  lemma {:induction false} RunMarks(past: seq<Event>, exporterFirst: bool, a: Tables, b: Tables, es: seq<Exchange>,
                                    a': Tables, b': Tables, i: RRef)
    requires Minus(i) && LockStep(a, b, es, a', b')
    requires MarksOf(exporterFirst, a, b, i) == Some(Marked(past))
    ensures MarksOf(exporterFirst, a', b', i) == Some(Marked(past + RunEvents(exporterFirst, es, i)))
    decreases |es|
  {
    if es == [] {
      MarkedSplit(past, [], []);
    } else {
      var first := PayloadEvents(es[0].fromFirst == exporterFirst, es[0].payload, i);
      PayloadMarks(past, exporterFirst, es[0].fromFirst, a, b, es[0].payload, i);
      if es[0].fromFirst {
        RunMarks(past + first, exporterFirst, TxAll(a, es[0].payload).value, RxAll(b, es[0].payload).value,
                 es[1..], a', b', i);
      } else {
        RunMarks(past + first, exporterFirst, RxAll(a, es[0].payload).value, TxAll(b, es[0].payload).value,
                 es[1..], a', b', i);
      }
      MarkedSplit(past, first, RunEvents(exporterFirst, es[1..], i));
    }
  }

  /** In every run from the start, the exporter marks a reference reachable
      that the importer has dropped if and only if it was sent again after the
      last drop. */
  lemma DifferExactly(exporterFirst: bool, es: seq<Exchange>, a: Tables, b: Tables, i: RRef)
    requires Minus(i) && LockStep(NO_TABLES, NO_TABLES, es, a, b)
    ensures
      var exports, imports := SideOf(exporterFirst, a, b).exports, SideOf(!exporterFirst, a, b).imports;
      (i in imports && Flip(i) in exports && imports[i] == Recognizable && exports[Flip(i)] == Reachable)
      <==> SentAgain(RunEvents(exporterFirst, es, i))
  {
    var events := RunEvents(exporterFirst, es, i);
    RunMarks([], exporterFirst, NO_TABLES, NO_TABLES, es, a, b, i);
    assert [] + events == events;
    DifferingExactly(events);
  }

  /** An export that the importer may retire is stale exactly in that case. */
  lemma StaleExactly(exporterFirst: bool, es: seq<Exchange>, a: Tables, b: Tables, refs: seq<RRef>, r: RRef)
    requires LockStep(NO_TABLES, NO_TABLES, es, a, b)
    requires TxRefs(DropForGood, SideOf(!exporterFirst, a, b), refs).Success? && r in refs
    requires Minus(Flip(r))
    ensures Stale(DropForGood, SideOf(exporterFirst, a, b), r) <==>
            SentAgain(RunEvents(exporterFirst, es, Flip(r)))
  {
    SomeRemoved(SideOf(!exporterFirst, a, b), refs, r);
    assert Flip(Flip(r)) == r;
    DifferExactly(exporterFirst, es, a, b, Flip(r));
  }

  lemma RetiresExports(exporterFirst: bool, es: seq<Exchange>, a: Tables, b: Tables, refs: seq<RRef>, r: RRef)
    requires LockStep(NO_TABLES, NO_TABLES, es, a, b)
    requires TxRefs(DropForGood, SideOf(!exporterFirst, a, b), refs).Success? && r in refs
    ensures Minus(Flip(r))
  {
    SomeRemoved(SideOf(!exporterFirst, a, b), refs, r);
    AlwaysMirror(es, a, b);
  }

  lemma ReceiverAccepts(exporterFirst: bool, es: seq<Exchange>, a: Tables, b: Tables, m: Message)
    requires LockStep(NO_TABLES, NO_TABLES, es, a, b) && Tx(SideOf(!exporterFirst, a, b), m).Success?
    ensures Rx(SideOf(exporterFirst, a, b), m).Failure? <==>
            AnyStale(MessageOp(m), SideOf(exporterFirst, a, b), AllSlots(m))
  {
    AlwaysMirror(es, a, b);
    MessageAccepted(SideOf(!exporterFirst, a, b), SideOf(exporterFirst, a, b), m);
  }

  /** So a receiver refuses a message that passed the checks of its sender if
      and only if it retires an export that was sent again after the last
      drop. */
  lemma RefusedExactly(exporterFirst: bool, es: seq<Exchange>, a: Tables, b: Tables, m: Message)
    requires LockStep(NO_TABLES, NO_TABLES, es, a, b)
    requires Tx(SideOf(!exporterFirst, a, b), m).Success?
    ensures Rx(SideOf(exporterFirst, a, b), m).Failure? <==>
            m.Gc? && m.mode == RetireExport &&
            exists r :: r in m.slots && SentAgain(RunEvents(exporterFirst, es, Flip(r)))
  {
    ReceiverAccepts(exporterFirst, es, a, b, m);
    if m.Gc? && m.mode == RetireExport {
      forall r | r in m.slots
        ensures Stale(DropForGood, SideOf(exporterFirst, a, b), r) <==>
                SentAgain(RunEvents(exporterFirst, es, Flip(r)))
      {
        RetiresExports(exporterFirst, es, a, b, m.slots, r);
        StaleExactly(exporterFirst, es, a, b, m.slots, r);
      }
    }
  }

  /** The refusal can happen: an object is sent, dropped, sent again and then
      retired, each step allowed by the checks of its sender. */
  lemma StaleRetireHappens()
    ensures
      var x := RRef("ro", false, "1");
      var none := Tables(map[], map[]);
      var send := Exchange(true, [Deliver(x, None, [x])]);
      var drop := Exchange(false, [Gc(DropExport, [Flip(x)])]);
      var a, b := Tables(map[Flip(x) := Reachable], map[]), Tables(map[], map[x := Recognizable]);
      && LockStep(none, none, [send, drop, send], a, b)
      && Tx(b, Gc(RetireExport, [Flip(x)])).Success?
      && Rx(a, Gc(RetireExport, [Flip(x)])) == Failure(WrongStatus)
  {
    var x := RRef("ro", false, "1");
    var none := Tables(map[], map[]);
    var deliver, gc := Deliver(x, None, [x]), Gc(DropExport, [Flip(x)]);
    var send, drop := Exchange(true, [deliver]), Exchange(false, [gc]);
    var a1, b1 := Tables(map[Flip(x) := Reachable], map[]), Tables(map[], map[x := Reachable]);
    var a2, b2 := Tables(map[Flip(x) := Recognizable], map[]), Tables(map[], map[x := Recognizable]);
    OneMessage(none, deliver);
    OneMessage(a1, gc);
    OneMessage(b1, gc);
    OneMessage(a2, deliver);
    OneMessage(b2, deliver);
    assert a1.exports[Flip(x) := Recognizable] == a2.exports && a2.exports[Flip(x) := Reachable] == a1.exports;
    assert b1.imports[x := Recognizable] == b2.imports;
    assert LockStep(a1, b2, [], a1, b2);
    assert LockStep(a2, b2, [send], a1, b2);
    assert [drop, send][1..] == [send];
    assert LockStep(a1, b1, [drop, send], a1, b2);
    assert [send, drop, send][1..] == [drop, send];
  }

  lemma OneMessage(t: Tables, m: Message)
    requires |AllSlots(m)| == 1 && !m.Resolve?
    ensures TxAll(t, [m]) == TxRef(MessageOp(m), t, AllSlots(m)[0])
    ensures RxAll(t, [m]) == RxRef(MessageOp(m), t, AllSlots(m)[0])
  {
    var refs := AllSlots(m);
    assert refs == [refs[0]] && refs[1..] == [] && [m][1..] == [];
    assert forall t' :: RxRefs(MessageOp(m), t', refs[1..]) == Success(t');
    assert forall t' :: TxRefs(MessageOp(m), t', refs[1..]) == Success(t');
  }
}
