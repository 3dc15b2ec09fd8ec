/** The codec that matches requests to the VM with its answers.

    Calls are in flight concurrently.  What a call does between two points
    where another may come in between, that is inside one locked region or at
    the channel, is one step here, and any step that can happen may happen
    next. */
module ClientCodec {
  import opened Wrappers

  datatype Request = Request(serviceMethod: string, id: nat)

  datatype Response = Response(serviceMethod: string, id: nat, error: string)

  /** What Go finds under a key that is not there. */
  const NO_REQUEST := Request("", 0)

  const RECEIVE_MESSAGE := "agvm.ReceiveMessage"
  const NO_REPLY_REQUESTED := "<no-reply-requested>"

  /** Reply ports start at 1, so that 0 can mean that no reply is wanted. */
  function ReplyPort(id: nat): nat {
    id + 1
  }

  function SenderReplyPort(id: nat, needsReply: bool): nat {
    if needsReply then ReplyPort(id) else 0
  }

  datatype Memory = Memory(outbound: map<nat, Request>, replies: map<nat, string>, replyToRead: nat)

  function Lookup(outbound: map<nat, Request>, rPort: nat): Request {
    if rPort in outbound then outbound[rPort] else NO_REQUEST
  }

  function ReplyAt(replies: map<nat, string>, id: nat): string {
    if id in replies then replies[id] else ""
  }

  function ResponseFor(r: Request, isError: bool, data: string): Response {
    Response(r.serviceMethod, r.id, if isError then data else "")
  }

  // ------------------------------------------------------ the codec itself

  class Codec {
    var outbound: map<nat, Request>
    var replies: map<nat, string>
    var replyToRead: nat

    constructor ()
      ensures View() == Memory(map[], map[], 0)
    {
      outbound, replies, replyToRead := map[], map[], 0;
    }

    function View(): Memory
      reads this
    {
      Memory(outbound, replies, replyToRead)
    }

    /** `WriteRequest` up to the end of its locked region. */
    method Register(r: Request, isMessage: bool) returns (ok: bool)
      modifies `outbound
      ensures ok <==> r.serviceMethod == "agvm.ReceiveMessage" && isMessage
      ensures outbound == if ok then old(outbound)[r.id + 1 := r] else old(outbound)
    {
      if r.serviceMethod != RECEIVE_MESSAGE {
        return false;
      }
      if !isMessage {
        return false;
      }
      var rPort := r.id + 1;
      outbound := outbound[rPort := r];
      return true;
    }

    /** The first locked region of `Receive`. */
    method Take(rPort: nat, isError: bool, data: string) returns (resp: Response)
      modifies `outbound
      ensures resp == ResponseFor(Lookup(old(outbound), rPort), isError, data)
      ensures outbound == old(outbound) - {rPort}
    {
      var outb := Lookup(outbound, rPort);
      outbound := outbound - {rPort};
      resp := Response(outb.serviceMethod, outb.id, "");
      if isError {
        resp := resp.(error := data);
      }
    }

    /** Its second one, which an error skips. */
    method Store(resp: Response, isError: bool, data: string)
      modifies `replies
      ensures replies == if isError then old(replies) else old(replies)[resp.id := data]
    {
      if !isError {
        replies := replies[resp.id := data];
      }
    }

    /** `ReadResponseHeader`, once a response has come through the channel. */
    method ReadHeader(resp: Response)
      modifies `replyToRead
      ensures replyToRead == resp.id
    {
      replyToRead := resp.id;
    }

    method ReadBody() returns (reply: string)
      modifies `replies
      ensures reply == ReplyAt(old(replies), replyToRead)
      ensures replies == old(replies) - {replyToRead}
    {
      reply := ReplyAt(replies, replyToRead);
      replies := replies - {replyToRead};
    }
  }

  // ------------------------------------------------------- calls in flight

  /** How far a call has come.  Its answer is known from the moment `Receive`
      is called for it. */
  datatype Stage =
    | Registered(needsReply: bool)
    | Waiting                                     // for the VM to answer
    | Answering                                   // about to answer itself
    | Taken(resp: Response, isError: bool, data: string)
    | Offered(resp: Response, isError: bool, data: string)
    | HeaderRead(resp: Response, isError: bool, data: string)
    | Done(isError: bool, data: string)

  /** What the codec handed to the client. */
  datatype Delivery = Delivery(resp: Response, body: string)

  datatype State = State(
    memory: Memory,
    calls: map<nat, Stage>,
    reading: Option<nat>,
    delivered: seq<Delivery>
  )

  datatype Step =
    | Write(id: nat, needsReply: bool)
    | Send(id: nat)
    | Receive(id: nat, isError: bool, data: string)
    | StoreReply(id: nat)
    | PassHeader(id: nat)
    | PassBody

  /** New calls have new numbers.  The VM answers a call that waits for it,
      once; a call that wants no reply answers itself.  The channel hands over
      one response at a time, and its body is read before the next. */
  ghost predicate Enabled(s: State, a: Step) {
    match a
    case Write(id, _) => id !in s.calls
    case Send(id) => id in s.calls && s.calls[id].Registered?
    case Receive(id, isError, data) =>
      id in s.calls && (s.calls[id].Waiting? ||
        (s.calls[id].Answering? && !isError && data == NO_REPLY_REQUESTED))
    case StoreReply(id) => id in s.calls && s.calls[id].Taken?
    case PassHeader(id) => id in s.calls && s.calls[id].Offered? && s.reading.None?
    case PassBody => s.reading.Some? && s.reading.value in s.calls && s.calls[s.reading.value].HeaderRead?
  }

  /** A request goes out with the port to answer on; 0 says that none is
      wanted, and then the codec answers itself. */
  function Sent(id: nat, needsReply: bool): Stage {
    if SenderReplyPort(id, needsReply) != 0 then Waiting else Answering
  }

  /** What a step does; `Drive` has the codec do it. */
  ghost function Next(s: State, a: Step): State
    requires Enabled(s, a)
  {
    var m := s.memory;
    match a
    case Write(id, needsReply) =>
      s.(memory := m.(outbound := m.outbound[ReplyPort(id) := Request(RECEIVE_MESSAGE, id)]),
         calls := s.calls[id := Registered(needsReply)])
    case Send(id) =>
      s.(calls := s.calls[id := Sent(id, s.calls[id].needsReply)])
    case Receive(id, isError, data) =>
      var resp := ResponseFor(Lookup(m.outbound, ReplyPort(id)), isError, data);
      s.(memory := m.(outbound := m.outbound - {ReplyPort(id)}),
         calls := s.calls[id := Taken(resp, isError, data)])
    case StoreReply(id) =>
      var c := s.calls[id];
      s.(memory := m.(replies := if c.isError then m.replies else m.replies[c.resp.id := c.data]),
         calls := s.calls[id := Offered(c.resp, c.isError, c.data)])
    case PassHeader(id) =>
      var c := s.calls[id];
      s.(memory := m.(replyToRead := c.resp.id),
         calls := s.calls[id := HeaderRead(c.resp, c.isError, c.data)],
         reading := Some(id))
    case PassBody =>
      var c := s.calls[s.reading.value];
      s.(memory := m.(replies := m.replies - {m.replyToRead}),
         calls := s.calls[s.reading.value := Done(c.isError, c.data)],
         reading := None,
         delivered := s.delivered + [Delivery(c.resp, ReplyAt(m.replies, m.replyToRead))])
  }

  const START := State(Memory(map[], map[], 0), map[], None, [])

  ghost predicate IsRun(s: State, steps: seq<Step>)
    decreases |steps|
  {
    steps == [] || (Enabled(s, steps[0]) && IsRun(Next(s, steps[0]), steps[1..]))
  }

  ghost function Run(s: State, steps: seq<Step>): State
    requires IsRun(s, steps)
    decreases |steps|
  {
    if steps == [] then s else Run(Next(s, steps[0]), steps[1..])
  }

  // ------------------------------------------------------------ invariant

  predicate InOutbound(c: Stage) {
    c.Registered? || c.Waiting? || c.Answering?
  }

  predicate InReplies(c: Stage) {
    (c.Offered? || c.HeaderRead?) && !c.isError
  }

  predicate Answered(c: Stage) {
    c.Taken? || c.Offered? || c.HeaderRead?
  }

  function OwnResponse(id: nat, isError: bool, data: string): Response {
    ResponseFor(Request(RECEIVE_MESSAGE, id), isError, data)
  }

  /** The outbound requests are those of the calls that nobody has answered. */
  ghost predicate OutboundExact(outbound: map<nat, Request>, calls: map<nat, Stage>) {
    && (forall id | id in calls && InOutbound(calls[id]) ::
          ReplyPort(id) in outbound && outbound[ReplyPort(id)] == Request(RECEIVE_MESSAGE, id))
    && (forall p | p in outbound ::
          p == ReplyPort(outbound[p].id) && outbound[p].id in calls && InOutbound(calls[outbound[p].id]))
  }

  /** The stored replies are those of the calls on their way back. */
  ghost predicate RepliesExact(replies: map<nat, string>, calls: map<nat, Stage>) {
    && (forall id | id in calls && InReplies(calls[id]) :: id in replies && replies[id] == calls[id].data)
    && (forall id | id in replies :: id in calls && InReplies(calls[id]))
  }

  /** Every response on its way back is the one to its own call. */
  ghost predicate ResponsesOwn(calls: map<nat, Stage>) {
    forall id | id in calls && Answered(calls[id]) ::
      calls[id].resp == OwnResponse(id, calls[id].isError, calls[id].data)
  }

  ghost predicate ReadingExact(reading: Option<nat>, replyToRead: nat, calls: map<nat, Stage>) {
    && (reading.Some? ==>
          reading.value in calls && calls[reading.value].HeaderRead? && replyToRead == reading.value)
    && (forall id | id in calls && calls[id].HeaderRead? :: reading == Some(id))
  }

  ghost predicate DeliversOwn(d: Delivery, calls: map<nat, Stage>) {
    && d.resp.id in calls
    && var c := calls[d.resp.id];
       && c.Done?
       && d == Delivery(OwnResponse(d.resp.id, c.isError, c.data), if c.isError then "" else c.data)
  }

  /** The deliveries are those of the calls that are done, one for each, and
      each carries the call's own number and the answer given to it. */
  ghost predicate DeliveredExact(delivered: seq<Delivery>, calls: map<nat, Stage>) {
    && (forall i | 0 <= i < |delivered| :: DeliversOwn(delivered[i], calls))
    && (forall i, j | 0 <= i < j < |delivered| :: delivered[i].resp.id != delivered[j].resp.id)
    && (forall id | id in calls && calls[id].Done? :: exists i :: 0 <= i < |delivered| && delivered[i].resp.id == id)
  }

  ghost predicate Inv(s: State) {
    && OutboundExact(s.memory.outbound, s.calls)
    && RepliesExact(s.memory.replies, s.calls)
    && ResponsesOwn(s.calls)
    && ReadingExact(s.reading, s.memory.replyToRead, s.calls)
    && DeliveredExact(s.delivered, s.calls)
  }

  lemma OutboundKept(outbound: map<nat, Request>, after: map<nat, Request>, calls: map<nat, Stage>, id: nat, c: Stage)
    requires OutboundExact(outbound, calls)
    requires after == if InOutbound(c) then outbound[ReplyPort(id) := Request(RECEIVE_MESSAGE, id)]
                      else outbound - {ReplyPort(id)}
    ensures OutboundExact(after, calls[id := c])
  {
  }

  lemma RepliesKept(replies: map<nat, string>, after: map<nat, string>, calls: map<nat, Stage>, id: nat, c: Stage)
    requires RepliesExact(replies, calls)
    requires after == if InReplies(c) then replies[id := c.data] else replies - {id}
    ensures RepliesExact(after, calls[id := c])
  {
  }

  lemma DeliveredKept(delivered: seq<Delivery>, calls: map<nat, Stage>, id: nat, c: Stage)
    requires DeliveredExact(delivered, calls)
    requires id in calls ==> !calls[id].Done?
    requires !c.Done?
    ensures DeliveredExact(delivered, calls[id := c])
  {
    forall i | 0 <= i < |delivered|
      ensures DeliversOwn(delivered[i], calls[id := c])
    {
      assert DeliversOwn(delivered[i], calls);
    }
  }

  lemma DeliveredGrows(delivered: seq<Delivery>, calls: map<nat, Stage>, id: nat, isError: bool, data: string)
    requires DeliveredExact(delivered, calls)
    requires id in calls && !calls[id].Done?
    ensures
      var d := Delivery(OwnResponse(id, isError, data), if isError then "" else data);
      DeliveredExact(delivered + [d], calls[id := Done(isError, data)])
  {
    var d := Delivery(OwnResponse(id, isError, data), if isError then "" else data);
    var more, after := delivered + [d], calls[id := Done(isError, data)];
    forall i | 0 <= i < |more|
      ensures DeliversOwn(more[i], after)
      ensures i < |delivered| ==> more[i].resp.id != id
    {
      assert i < |delivered| ==> more[i] == delivered[i] && DeliversOwn(delivered[i], calls);
    }
    forall k | k in after && after[k].Done?
      ensures exists i :: 0 <= i < |more| && more[i].resp.id == k
    {
      if k == id {
        assert more[|delivered|].resp.id == k;
      } else {
        var i :| 0 <= i < |delivered| && delivered[i].resp.id == k;
        assert more[i].resp.id == k;
      }
    }
  }

  /** The call a step moves. */
  ghost function Moved(s: State, a: Step): nat
    requires Enabled(s, a)
  {
    match a
    case Write(id, _) => id
    case Send(id) => id
    case Receive(id, _, _) => id
    case StoreReply(id) => id
    case PassHeader(id) => id
    case PassBody => s.reading.value
  }

  lemma StepMovesOne(s: State, a: Step)
    requires Enabled(s, a)
    ensures Moved(s, a) in Next(s, a).calls
    ensures Next(s, a).calls == s.calls[Moved(s, a) := Next(s, a).calls[Moved(s, a)]]
    ensures Moved(s, a) in s.calls ==> !s.calls[Moved(s, a)].Done?
    ensures Moved(s, a) in s.calls <==> !a.Write?
  {
  }

  lemma StepKeepsMaps(s: State, a: Step)
    requires OutboundExact(s.memory.outbound, s.calls) && RepliesExact(s.memory.replies, s.calls)
    requires ResponsesOwn(s.calls) && ReadingExact(s.reading, s.memory.replyToRead, s.calls)
    requires Enabled(s, a)
    ensures OutboundExact(Next(s, a).memory.outbound, Next(s, a).calls)
    ensures RepliesExact(Next(s, a).memory.replies, Next(s, a).calls)
  {
    StepMovesOne(s, a);
    var id, t := Moved(s, a), Next(s, a);
    OutboundKept(s.memory.outbound, t.memory.outbound, s.calls, id, t.calls[id]);
    RepliesKept(s.memory.replies, t.memory.replies, s.calls, id, t.calls[id]);
  }

  lemma StepKeepsResponses(s: State, a: Step)
    requires OutboundExact(s.memory.outbound, s.calls)
    requires ResponsesOwn(s.calls) && ReadingExact(s.reading, s.memory.replyToRead, s.calls)
    requires Enabled(s, a)
    ensures ResponsesOwn(Next(s, a).calls)
    ensures ReadingExact(Next(s, a).reading, Next(s, a).memory.replyToRead, Next(s, a).calls)
  {
    StepMovesOne(s, a);
  }

  lemma StepKeepsDelivered(s: State, a: Step)
    requires RepliesExact(s.memory.replies, s.calls) && ResponsesOwn(s.calls)
    requires ReadingExact(s.reading, s.memory.replyToRead, s.calls)
    requires DeliveredExact(s.delivered, s.calls) && Enabled(s, a)
    ensures DeliveredExact(Next(s, a).delivered, Next(s, a).calls)
  {
    StepMovesOne(s, a);
    var id := Moved(s, a);
    if a.PassBody? {
      DeliveredGrows(s.delivered, s.calls, id, s.calls[id].isError, s.calls[id].data);
    } else {
      DeliveredKept(s.delivered, s.calls, id, Next(s, a).calls[id]);
    }
  }

  lemma StepKeeps(s: State, a: Step)
    requires Inv(s) && Enabled(s, a)
    ensures Inv(Next(s, a))
  {
    StepKeepsMaps(s, a);
    StepKeepsResponses(s, a);
    StepKeepsDelivered(s, a);
  }

  lemma {:induction false} RunKeeps(s: State, steps: seq<Step>)
    requires Inv(s) && IsRun(s, steps)
    ensures Inv(Run(s, steps))
    decreases |steps|
  {
    if steps == [] {
    } else {
      StepKeeps(s, steps[0]);
      RunKeeps(Next(s, steps[0]), steps[1..]);
    }
  }

  // --------------------------------------------------------- main results

  /** What the caller of the client learns: an error when the response names
      one, and the body if not. */
  function Outcome(d: Delivery): Result<string, string> {
    if d.resp.error != "" then Failure(d.resp.error) else Success(d.body)
  }

  /** In every interleaving, each delivery is the only one of its call and
      carries that call's own answer.  An error without a text is the one
      answer that arrives as something else, a successful empty reply. */
  lemma NoCrossTalk(steps: seq<Step>, i: nat)
    requires IsRun(START, steps)
    requires i < |Run(START, steps).delivered|
    ensures
      var s := Run(START, steps);
      var d := s.delivered[i];
      && d.resp.id in s.calls && s.calls[d.resp.id].Done?
      && (forall j | 0 <= j < |s.delivered| && s.delivered[j].resp.id == d.resp.id :: j == i)
      && var c := s.calls[d.resp.id];
         && (Outcome(d) == (if c.isError then Failure(c.data) else Success(c.data)) <==> !(c.isError && c.data == ""))
         && (c.isError && c.data == "" ==> Outcome(d) == Success(""))
  {
    RunKeeps(START, steps);
    assert DeliversOwn(Run(START, steps).delivered[i], Run(START, steps).calls);
  }

  /** A call that wants no reply is answered by the codec, with this text. */
  ghost predicate AnswersItself(c: Stage) {
    match c
    case Registered(needsReply) => !needsReply
    case Waiting => false
    case Answering => true
    case Taken(_, isError, data) => !isError && data == "<no-reply-requested>"
    case Offered(_, isError, data) => !isError && data == "<no-reply-requested>"
    case HeaderRead(_, isError, data) => !isError && data == "<no-reply-requested>"
    case Done(isError, data) => !isError && data == "<no-reply-requested>"
  }

  /** A call that wants one waits for the VM, and its answer is one that the VM
      gave. */
  ghost predicate AnsweredByVM(id: nat, c: Stage, steps: seq<Step>) {
    match c
    case Registered(needsReply) => needsReply
    case Waiting => true
    case Answering => false
    case Taken(_, isError, data) => Receive(id, isError, data) in steps
    case Offered(_, isError, data) => Receive(id, isError, data) in steps
    case HeaderRead(_, isError, data) => Receive(id, isError, data) in steps
    case Done(isError, data) => Receive(id, isError, data) in steps
  }

  lemma {:induction false} ItselfToTheEnd(s: State, steps: seq<Step>, id: nat)
    requires IsRun(s, steps) && id in s.calls && AnswersItself(s.calls[id])
    ensures id in Run(s, steps).calls && AnswersItself(Run(s, steps).calls[id])
    decreases |steps|
  {
    if steps != [] {
      ItselfToTheEnd(Next(s, steps[0]), steps[1..], id);
    }
  }

  lemma StillByVM(s: State, id: nat, past: seq<Step>, a: Step)
    requires Enabled(s, a) && id in s.calls && AnsweredByVM(id, s.calls[id], past)
    ensures id in Next(s, a).calls && AnsweredByVM(id, Next(s, a).calls[id], past + [a])
  {
    assert (past + [a])[|past|] == a;
    assert forall b | b in past :: b in past + [a];
  }

  lemma {:induction false} ByVMToTheEnd(s: State, past: seq<Step>, steps: seq<Step>, id: nat)
    requires IsRun(s, steps) && id in s.calls && AnsweredByVM(id, s.calls[id], past)
    ensures id in Run(s, steps).calls && AnsweredByVM(id, Run(s, steps).calls[id], past + steps)
    decreases |steps|
  {
    if steps == [] {
      assert past + steps == past;
    } else {
      StillByVM(s, id, past, steps[0]);
      ByVMToTheEnd(Next(s, steps[0]), past + [steps[0]], steps[1..], id);
      assert past + [steps[0]] + steps[1..] == past + steps;
    }
  }

  lemma {:induction false} RunSplits(s: State, steps: seq<Step>, i: nat)
    requires IsRun(s, steps) && i <= |steps|
    ensures IsRun(s, steps[..i]) && IsRun(Run(s, steps[..i]), steps[i..])
    ensures Run(s, steps) == Run(Run(s, steps[..i]), steps[i..])
    decreases i
  {
    if i == 0 {
      assert steps[0..] == steps;
    } else {
      RunSplits(Next(s, steps[0]), steps[1..], i - 1);
      assert steps[..i][1..] == steps[1..][..i - 1] && steps[1..][i - 1..] == steps[i..];
    }
  }

  lemma AfterWrite(steps: seq<Step>, i: nat, id: nat, needsReply: bool) returns (s: State)
    requires IsRun(START, steps) && i < |steps| && steps[i] == Write(id, needsReply)
    ensures id in s.calls && s.calls[id] == Registered(needsReply)
    ensures IsRun(s, steps[i + 1..]) && Run(s, steps[i + 1..]) == Run(START, steps)
  {
    RunSplits(START, steps, i + 1);
    RunPrefix(START, steps, i);
    s := Run(START, steps[..i + 1]);
  }

  lemma AnsweredByVMOnly(steps: seq<Step>, i: nat, id: nat)
    requires IsRun(START, steps) && i < |steps| && steps[i] == Write(id, true)
    ensures id in Run(START, steps).calls && AnsweredByVM(id, Run(START, steps).calls[id], steps)
  {
    var s := AfterWrite(steps, i, id, true);
    var past, rest := steps[..i + 1], steps[i + 1..];
    assert past + rest == steps;
    ByVMToTheEnd(s, past, rest, id);
  }

  /** Whether a call waits for the VM is decided when it is made.  One that
      wants no reply never does, and has a fixed answer; one that wants a reply
      gets none but the VM's. */
  lemma AnsweredAsAsked(steps: seq<Step>, i: nat, id: nat, needsReply: bool)
    requires IsRun(START, steps) && i < |steps| && steps[i] == Write(id, needsReply)
    ensures id in Run(START, steps).calls
    ensures
      var c := Run(START, steps).calls[id];
      if needsReply then AnsweredByVM(id, c, steps) else AnswersItself(c)
  {
    if needsReply {
      AnsweredByVMOnly(steps, i, id);
    } else {
      var s := AfterWrite(steps, i, id, false);
      ItselfToTheEnd(s, steps[i + 1..], id);
    }
  }

  /** So the client of a call that wants no reply gets that answer, whatever
      the VM does. */
  lemma NoReplyIsDelivered(steps: seq<Step>, i: nat, j: nat)
    requires IsRun(START, steps) && i < |steps| && j < |Run(START, steps).delivered|
    requires steps[i] == Write(Run(START, steps).delivered[j].resp.id, false)
    ensures Outcome(Run(START, steps).delivered[j]) == Success("<no-reply-requested>")
  {
    NoCrossTalk(steps, j);
    AnsweredAsAsked(steps, i, Run(START, steps).delivered[j].resp.id, false);
  }

  /** And the port that goes out with a call that waits leads the answer back
      to that call; it is never 0. */
  lemma PortLeadsBack(steps: seq<Step>, id: nat)
    requires IsRun(START, steps) && id in Run(START, steps).calls && Run(START, steps).calls[id].Waiting?
    ensures
      var port := SenderReplyPort(id, true);
      port != 0 && Lookup(Run(START, steps).memory.outbound, port) == Request(RECEIVE_MESSAGE, id)
  {
    RunKeeps(START, steps);
  }

  /** When no call is in flight, both maps are empty and every call has had
      its delivery. */
  lemma QuietIsEmpty(steps: seq<Step>)
    requires IsRun(START, steps)
    requires forall id | id in Run(START, steps).calls :: Run(START, steps).calls[id].Done?
    ensures Run(START, steps).memory.outbound == map[]
    ensures Run(START, steps).memory.replies == map[]
    ensures forall id | id in Run(START, steps).calls ::
              exists i :: 0 <= i < |Run(START, steps).delivered| && Run(START, steps).delivered[i].resp.id == id
  {
    RunKeeps(START, steps);
    var m := Run(START, steps).memory;
    assert m.outbound.Keys == {} && m.replies.Keys == {};
  }

  /** The channel never blocks for good: while a call is in flight, a step
      other than a new call can happen, provided that the VM answers. */
  lemma NeverStuck(steps: seq<Step>, id: nat) returns (a: Step)
    requires IsRun(START, steps)
    requires id in Run(START, steps).calls && !Run(START, steps).calls[id].Done?
    ensures !a.Write? && Enabled(Run(START, steps), a)
  {
    RunKeeps(START, steps);
    var s := Run(START, steps);
    match s.calls[id]
    case Registered(_) => a := Send(id);
    case Waiting => a := Receive(id, false, "");
    case Answering => a := Receive(id, false, NO_REPLY_REQUESTED);
    case Taken(_, _, _) => a := StoreReply(id);
    case Offered(_, _, _) => a := if s.reading.None? then PassHeader(id) else PassBody;
    case HeaderRead(_, _, _) => a := PassBody;
  }

  /** The steps a call still has before it. */
  function Ahead(c: Stage): nat {
    match c
    case Registered(_) => 5
    case Waiting => 4
    case Answering => 4
    case Taken(_, _, _) => 3
    case Offered(_, _, _) => 2
    case HeaderRead(_, _, _) => 1
    case Done(_, _) => 0
  }

  ghost function Work(calls: map<nat, Stage>): nat
    decreases |calls|
  {
    if calls == map[] then 0 else
      var id :| id in calls;
      Ahead(calls[id]) + Work(calls - {id})
  }

  lemma {:induction false} WorkSplits(calls: map<nat, Stage>, id: nat)
    requires id in calls
    ensures Work(calls) == Ahead(calls[id]) + Work(calls - {id})
    decreases |calls|
  {
    var first :| first in calls && Work(calls) == Ahead(calls[first]) + Work(calls - {first});
    if first != id {
      WorkSplits(calls - {first}, id);
      WorkSplits(calls - {id}, first);
      assert calls - {first} - {id} == calls - {id} - {first};
    }
  }

  lemma WorkUpdated(calls: map<nat, Stage>, id: nat, c: Stage)
    ensures Work(calls[id := c]) + (if id in calls then Ahead(calls[id]) else 0) == Work(calls) + Ahead(c)
  {
    WorkSplits(calls[id := c], id);
    assert calls[id := c] - {id} == calls - {id};
    if id in calls {
      WorkSplits(calls, id);
    } else {
      assert calls - {id} == calls;
    }
  }

  /** Every call takes six steps and no step is wasted, so a run with n calls
      is over after 6 n steps, and only then. */
  lemma {:induction false} RunsEnd(s: State, steps: seq<Step>)
    requires IsRun(s, steps)
    ensures |steps| + Work(Run(s, steps).calls) + 6 * |s.calls| == 6 * |Run(s, steps).calls| + Work(s.calls)
    decreases |steps|
  {
    if steps == [] {
    } else {
      var a := steps[0];
      StepMovesOne(s, a);
      WorkUpdated(s.calls, Moved(s, a), Next(s, a).calls[Moved(s, a)]);
      RunsEnd(Next(s, a), steps[1..]);
    }
  }

  // ------------------------------------------- the codec in the machine

  /** The codec's methods carry out every step of the machine. */
  method Drive(c: Codec, calls: map<nat, Stage>, reading: Option<nat>, delivered: seq<Delivery>, a: Step)
    returns (calls': map<nat, Stage>, reading': Option<nat>, delivered': seq<Delivery>)
    requires Enabled(State(c.View(), calls, reading, delivered), a)
    modifies c
    ensures State(c.View(), calls', reading', delivered') ==
            Next(State(old(c.View()), calls, reading, delivered), a)
  {
    calls', reading', delivered' := calls, reading, delivered;
    match a {
      case Write(id, needsReply) =>
        var ok := c.Register(Request(RECEIVE_MESSAGE, id), true);
        calls' := calls[id := Registered(needsReply)];
      case Send(id) =>
        calls' := calls[id := Sent(id, calls[id].needsReply)];
      case Receive(id, isError, data) =>
        var resp := c.Take(ReplyPort(id), isError, data);
        calls' := calls[id := Taken(resp, isError, data)];
      case StoreReply(id) =>
        var call := calls[id];
        c.Store(call.resp, call.isError, call.data);
        calls' := calls[id := Offered(call.resp, call.isError, call.data)];
      case PassHeader(id) =>
        var call := calls[id];
        c.ReadHeader(call.resp);
        calls' := calls[id := HeaderRead(call.resp, call.isError, call.data)];
        reading' := Some(id);
      case PassBody =>
        var call := calls[reading.value];
        var body := c.ReadBody();
        calls' := calls[reading.value := Done(call.isError, call.data)];
        reading' := None;
        delivered' := delivered + [Delivery(call.resp, body)];
    }
  }

  lemma {:induction false} RunSnoc(s: State, steps: seq<Step>, a: Step)
    requires IsRun(s, steps) && Enabled(Run(s, steps), a)
    ensures IsRun(s, steps + [a]) && Run(s, steps + [a]) == Next(Run(s, steps), a)
    decreases |steps|
  {
    if steps == [] {
      assert ([] + [a])[1..] == [];
    } else {
      assert (steps + [a])[1..] == steps[1..] + [a];
      RunSnoc(Next(s, steps[0]), steps[1..], a);
    }
  }

  lemma {:induction false} RunPrefix(s: State, steps: seq<Step>, i: nat)
    requires IsRun(s, steps) && i < |steps|
    ensures IsRun(s, steps[..i]) && Enabled(Run(s, steps[..i]), steps[i])
    ensures IsRun(s, steps[..i + 1]) && Run(s, steps[..i + 1]) == Next(Run(s, steps[..i]), steps[i])
    decreases |steps|
  {
    if i > 0 {
      RunPrefix(Next(s, steps[0]), steps[1..], i - 1);
      assert steps[..i][1..] == steps[1..][..i - 1];
    }
    RunSnoc(s, steps[..i], steps[i]);
    assert steps[..i + 1] == steps[..i] + [steps[i]];
  }

  /** A codec, driven through any interleaving, remembers and delivers what
      the machine does, so all that is proved of runs holds of it. */
  method Execute(steps: seq<Step>) returns (c: Codec, delivered: seq<Delivery>)
    requires IsRun(START, steps)
    ensures fresh(c) && c.View() == Run(START, steps).memory
    ensures delivered == Run(START, steps).delivered
  {
    c := new Codec();
    var calls: map<nat, Stage>, reading: Option<nat> := map[], None;
    delivered := [];
    for i := 0 to |steps|
      invariant fresh(c) && IsRun(START, steps[..i])
      invariant State(c.View(), calls, reading, delivered) == Run(START, steps[..i])
    {
      RunPrefix(START, steps, i);
      calls, reading, delivered := Drive(c, calls, reading, delivered, steps[i]);
    }
    assert steps[..|steps|] == steps;
  }

  // ------------------------------------------- where the promises end

  /** A call whose answer is an error without a text is delivered as a
      successful empty reply. */
  lemma EmptyErrorIsDelivered()
    ensures
      var steps :=
        [Write(0, true)] + [Send(0)] + [Receive(0, true, "")] + [StoreReply(0)] + [PassHeader(0)] + [PassBody];
      && IsRun(START, steps) && Run(START, steps).calls == map[0 := Done(true, "")]
      && |Run(START, steps).delivered| == 1 && Outcome(Run(START, steps).delivered[0]) == Success("")
  {
    RunSnoc(START, [], Write(0, true));
    assert [] + [Write(0, true)] == [Write(0, true)];
    RunSnoc(START, [Write(0, true)], Send(0));
    RunSnoc(START, [Write(0, true)] + [Send(0)], Receive(0, true, ""));
    RunSnoc(START, [Write(0, true)] + [Send(0)] + [Receive(0, true, "")], StoreReply(0));
    RunSnoc(START, [Write(0, true)] + [Send(0)] + [Receive(0, true, "")] + [StoreReply(0)], PassHeader(0));
    RunSnoc(START, [Write(0, true)] + [Send(0)] + [Receive(0, true, "")] + [StoreReply(0)] + [PassHeader(0)], PassBody);
  }

  /** An answer for a port with no request outstanding, on its way through an
      idle codec: the client gets it as the answer to request 0. */
  method StrayAnswer(c: Codec, rPort: nat, data: string) returns (d: Delivery)
    requires rPort !in c.outbound
    modifies c
    ensures d.resp.id == 0 && Outcome(d) == Success(data)
    ensures c.outbound == old(c.outbound)
  {
    var resp := c.Take(rPort, false, data);
    c.Store(resp, false, data);
    c.ReadHeader(resp);
    var body := c.ReadBody();
    d := Delivery(resp, body);
  }

  /** So the VM must answer no port twice: call 0 is answered with what was
      meant for another call, before the VM has answered it. */
  method CallZeroGetsStrayAnswer(data: string) returns (c: Codec, d: Delivery)
    ensures d.resp.id == 0 && Outcome(d) == Success(data)
    ensures fresh(c) && ReplyPort(0) in c.outbound && c.outbound[ReplyPort(0)].id == 0
  {
    c := new Codec();
    var ok := c.Register(Request(RECEIVE_MESSAGE, 0), true);
    ok := c.Register(Request(RECEIVE_MESSAGE, 1), true);
    var first := c.Take(ReplyPort(1), false, "first");
    c.Store(first, false, "first");
    c.ReadHeader(first);
    var body := c.ReadBody();
    d := StrayAnswer(c, ReplyPort(1), data);
  }
}
