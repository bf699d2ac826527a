/**
  * The dispatch loop of rpc/client.go as a state machine. A request is accepted, its ids are registered, and its
  * response channel is sent to and closed by the loop; the whole history of each channel is kept, so that what never
  * happens on a channel can be stated.
  */
module Rpc {
  import opened Common

  type Id = nat
  type SubId = nat

  /** A request: one id for a call or a subscription, several for a batch. */
  datatype Op = Op(ids: seq<Id>, sub: bool)

  datatype Action = Sent(id: Id) | Closed

  /** `started` is the subscription that a reply to a subscription request starts, if it reports success. */
  datatype Message = Reply(id: Id, started: Option<SubId>) | Other

  /**
    * What the loop knows of requests. `chans[k]` is what has happened on the response channel of the k-th accepted
    * request. `started` are the requests whose subscription has started; `subs` are those the loop knows by their
    * identifiers. The send lock is held exactly while there is a last request. `withdrawn` are the requests whose write
    * failed.
    */
  datatype Book = Book(
    ops: seq<Op>, chans: seq<seq<Action>>, respWait: map<Id, nat>, subs: map<SubId, nat>, started: set<nat>,
    lastOp: Option<nat>, withdrawn: set<nat>)

  /** The read loop of a connection: it decodes, and then waits until its batch or its error is received. */
  datatype Reader = Gone | Decoding | Offering(batch: seq<Message>) | Failing

  /** The writer that holds the send lock: it writes, waits until its new connection is received, or is done. */
  datatype Writer = Writing | Handing | Written(failed: bool)

  /**
    * Whoever ends a subscription holds its `Once` until the server is told: it waits for the send lock, and then for
    * the end of its own request, the r-th.
    */
  datatype Once = Waiting | Calling(r: nat) | Over

  /**
    * Where the loop is: at its select statement; waiting for the error of an old connection; ending the known
    * subscriptions, one of them at the moment, after a read error or on quitting; emptying the read channels; gone.
    */
  datatype Dispatch = Selecting | Taking | Closing(sub: Option<nat>, quitting: bool) | Draining | Finished

  /** `broken` says that the last write failed, so that the next one has to reconnect first. */
  datatype State = State(
    book: Book, at: Dispatch, reading: bool, reader: Reader, broken: bool, writer: Writer, once: map<nat, Once>)

  /** What the loop does comes first; then the read loop, the writer, and those who end subscriptions. */
  datatype Event =
    | Accept(op: Op, ending: Option<nat>)
    | SendDone
    | ReadBatch
    | ReadError
    | Reconnected
    | Taken
    | Close
    | NextSub(id: SubId)
    | QuitSub
    | CloseDone
    | Drained
    | Decoded(batch: seq<Message>)
    | DecodeFailed
    | Connected
    | WriteDone(failed: bool)
    | TurnedAway
    | Unsubscribe(k: nat)
    | Refused(k: nat)
    | Unsubscribed(k: nat)

  const EMPTY := Book([], [], map[], map[], {}, None, {})
  const INITIAL := State(EMPTY, Selecting, true, Decoding, false, Writing, map[])

  // ------------------------------------------------------------------------------------- steps

  function Register(respWait: map<Id, nat>, ids: seq<Id>, k: nat): map<Id, nat> {
    map id | id in respWait.Keys + (set i | i in ids) :: if id in ids then k else respWait[id]
  }

  function Deregister(respWait: map<Id, nat>, ids: seq<Id>): map<Id, nat> {
    respWait - set id | id in ids
  }

  function ClosedAt(chans: seq<seq<Action>>, ks: set<nat>): seq<seq<Action>> {
    seq(|chans|, k requires 0 <= k < |chans| => if k in ks then chans[k] + [Closed] else chans[k])
  }

  /** Closes the channel of every registered request, once. */
  function CloseRequests(b: Book): Book {
    b.(respWait := map[], chans := ClosedAt(b.chans, b.respWait.Values))
  }

  predicate Owned(b: Book) {
    && |b.ops| == |b.chans|
    && (forall id | id in b.respWait :: b.respWait[id] < |b.ops| && id in b.ops[b.respWait[id]].ids)
    && (b.lastOp.Some? ==> b.lastOp.value < |b.ops|)
  }

  function HandleResponse(b: Book, id: Id, started: Option<SubId>): Book
    requires Owned(b)
  {
    if id !in b.respWait then b
    else
      var k := b.respWait[id];
      var b' := b.(respWait := b.respWait - {id});
      if !b.ops[k].sub then b'.(chans := b.chans[k := b.chans[k] + [Sent(id)]])
      else
        b'.(chans := b.chans[k := b.chans[k] + [Closed]],
            subs := if started.Some? then b.subs[started.value := k] else b.subs,
            started := if started.Some? then b.started + {k} else b.started)
  }

  function HandleMessage(b: Book, m: Message): (b': Book)
    requires Owned(b)
    ensures Owned(b')
  {
    if m.Reply? then HandleResponse(b, m.id, m.started) else b
  }

  function HandleBatch(b: Book, batch: seq<Message>): (b': Book)
    requires Owned(b)
    ensures Owned(b')
    decreases |batch|
  {
    if |batch| == 0 then b else HandleBatch(HandleMessage(b, batch[0]), batch[1..])
  }

  function AcceptOp(b: Book, op: Op): Book {
    b.(ops := b.ops + [op], chans := b.chans + [[]], respWait := Register(b.respWait, op.ids, |b.ops|),
       lastOp := Some(|b.ops|))
  }

  function SendIsDone(b: Book, failed: bool): Book
    requires b.lastOp.Some? && b.lastOp.value < |b.ops|
  {
    var k := b.lastOp.value;
    if !failed then b.(lastOp := None)
    else b.(lastOp := None, respWait := Deregister(b.respWait, b.ops[k].ids), withdrawn := b.withdrawn + {k})
  }

  /** Request ids come from a counter: no id is used twice, in one request or in two. */
  predicate NewIds(ops: seq<Op>, op: Op) {
    Distinct(op.ids) && forall k | 0 <= k < |ops| :: forall id | id in op.ids :: id !in ops[k].ids
  }

  /** A request is settled when nobody waits for it any more: answered in full, closed, or withdrawn by its writer. */
  predicate Settled(b: Book, k: nat)
    requires k < |b.ops| == |b.chans|
  {
    k in b.withdrawn || Closed in b.chans[k] || forall id | id in b.ops[k].ids :: Sent(id) in b.chans[k]
  }

  predicate Writes(s: State, w: Writer) {
    s.book.lastOp.Some? && s.writer == w
  }

  /** The call of the r-th request has come back. */
  predicate Returned(s: State, r: nat)
    requires Owned(s.book)
  {
    && r < |s.book.ops|
    && if s.book.lastOp == Some(r) && s.writer != Written(false) then s.writer == Written(true) else Settled(s.book, r)
  }

  predicate Ends(s: State, k: nat, o: Once) {
    k in s.once && s.once[k] == o
  }

  /** A connection is replaced only by the writer that holds the send lock, after a failed write. */
  predicate Enabled(s: State, e: Event)
    requires Owned(s.book)
  {
    match e
    case Accept(op, ending) =>
      && s.at.Selecting? && s.book.lastOp.None? && NewIds(s.book.ops, op) && (op.sub ==> |op.ids| == 1)
      && (ending.Some? ==> !op.sub && |op.ids| == 1 && Ends(s, ending.value, Waiting))
    case SendDone => s.at.Selecting? && s.book.lastOp.Some? && s.writer.Written?
    case ReadBatch => s.at.Selecting? && s.reader.Offering?
    case ReadError => s.at.Selecting? && s.reader.Failing?
    case Reconnected => s.at.Selecting? && Writes(s, Handing)
    case Taken => s.at.Taking? && s.reader.Failing?
    case Close => s.at.Selecting?
    case NextSub(id) => s.at.Closing? && s.at.sub.None? && id in s.book.subs
    case QuitSub => s.at.Closing? && s.at.sub.Some? && (s.at.sub.value in s.once ==> s.once[s.at.sub.value].Over?)
    case CloseDone => s.at.Closing? && s.at.sub.None? && s.book.subs == map[]
    case Drained => s.at.Draining? && (s.reader.Offering? || s.reader.Failing?)
    case Decoded(_) => s.reader.Decoding?
    case DecodeFailed => s.reader.Decoding?
    case Connected => Writes(s, Writing) && s.broken
    case WriteDone(failed) => Writes(s, Writing) && (s.broken ==> failed)
    case TurnedAway => Writes(s, Handing) && s.at.Finished?
    case Unsubscribe(k) => k in s.book.started && k !in s.once
    case Refused(k) => Ends(s, k, Waiting) && s.at.Finished?
    case Unsubscribed(k) => k in s.once && s.once[k].Calling? && Returned(s, s.once[k].r)
  }

  predicate OfDispatch(e: Event) {
    || e.Accept? || e.SendDone? || e.ReadBatch? || e.ReadError? || e.Reconnected? || e.Taken? || e.Close?
    || e.NextSub? || e.QuitSub? || e.CloseDone? || e.Drained?
  }

  function NewReader(s: State): State {
    s.(reading := true, reader := Decoding, at := Selecting)
  }

  /** After the subscriptions are ended. */
  function AfterClosing(s: State): State
    requires s.at.Closing?
  {
    if !s.at.quitting then s.(at := Selecting, reading := false) else s.(at := if s.reading then Draining else Finished)
  }

  function Step(s: State, e: Event): State
    requires Owned(s.book) && Enabled(s, e)
  {
    if OfDispatch(e) then DispatchStep(s, e) else OtherStep(s, e)
  }

  function DispatchStep(s: State, e: Event): State
    requires Owned(s.book) && Enabled(s, e) && OfDispatch(e)
  {
    match e
    case Accept(op, ending) =>
      s.(book := AcceptOp(s.book, op), writer := Writing,
         once := if ending.Some? then s.once[ending.value := Calling(|s.book.ops|)] else s.once)
    case SendDone => s.(book := SendIsDone(s.book, s.writer.failed))
    case ReadBatch => s.(book := HandleBatch(s.book, s.reader.batch), reader := Decoding)
    case ReadError => s.(book := CloseRequests(s.book), reader := Gone, at := Closing(None, false))
    case Reconnected =>
      var s' := s.(broken := false, writer := Writing);
      if s.reading then s'.(at := Taking) else NewReader(s')
    case Taken => NewReader(s)
    case Close => s.(book := CloseRequests(s.book), at := Closing(None, true))
    case NextSub(id) => s.(book := s.book.(subs := s.book.subs - {id}), at := s.at.(sub := Some(s.book.subs[id])))
    case QuitSub => s.(once := s.once[s.at.sub.value := Over], at := s.at.(sub := None))
    case CloseDone => AfterClosing(s)
    case Drained =>
      if s.reader.Offering? then s.(reader := Decoding) else s.(reader := Gone, reading := false, at := Finished)
  }

  function OtherStep(s: State, e: Event): State
    requires Owned(s.book) && Enabled(s, e) && !OfDispatch(e)
  {
    match e
    case Decoded(batch) => s.(reader := Offering(batch))
    case DecodeFailed => s.(reader := Failing)
    case Connected => s.(writer := Handing)
    case WriteDone(failed) => s.(writer := Written(failed), broken := failed)
    case TurnedAway => s.(writer := Written(true))
    case Unsubscribe(k) => s.(once := s.once[k := Waiting])
    case Refused(k) => s.(once := s.once[k := Over])
    case Unsubscribed(k) => s.(once := s.once[k := Over])
  }

  // ------------------------------------------------------------------------------- invariants

  /** At most one message for each id, none for an id still registered, and nothing after the channel is closed. */
  ghost predicate ChanOk(op: Op, k: nat, trace: seq<Action>, respWait: map<Id, nat>) {
    && Distinct(trace)
    && (forall i | 0 <= i < |trace| - 1 :: trace[i].Sent?)
    && (Closed in trace ==> k !in respWait.Values)
    && (forall id :: Sent(id) in trace ==> id in op.ids && id !in respWait)
    && (op.sub ==> |op.ids| == 1 && forall a | a in trace :: a == Closed)
  }

  /** Nothing is lost: every id is registered or answered, or its request was closed or withdrawn. */
  ghost predicate Accounted(op: Op, k: nat, trace: seq<Action>, respWait: map<Id, nat>, withdrawn: set<nat>) {
    && (forall id | id in op.ids :: id in respWait || Sent(id) in trace || Closed in trace || k in withdrawn)
    && (k in withdrawn ==> k !in respWait.Values)
  }

  ghost predicate OpOk(b: Book, k: nat)
    requires k < |b.ops| == |b.chans|
  {
    && ChanOk(b.ops[k], k, b.chans[k], b.respWait)
    && Accounted(b.ops[k], k, b.chans[k], b.respWait, b.withdrawn)
  }

  predicate Separate(ops: seq<Op>) {
    && (forall k | 0 <= k < |ops| :: Distinct(ops[k].ids))
    && (forall j, k | 0 <= j < |ops| && 0 <= k < |ops| && j != k :: forall id | id in ops[j].ids :: id !in ops[k].ids)
  }

  ghost predicate BookOk(b: Book) {
    && Owned(b) && Separate(b.ops)
    && (forall k | 0 <= k < |b.ops| :: OpOk(b, k))
    && (forall k | k in b.withdrawn :: k < |b.ops|)
    && (forall k | k in b.started :: k < |b.ops|)
  }

  /** The loop's idea of whether it reads is true, except while it ends subscriptions after a read error. */
  predicate ReadingOk(s: State) {
    if s.at.Closing? && !s.at.quitting then s.reading && s.reader.Gone? else s.reading <==> !s.reader.Gone?
  }

  predicate DispatchOk(s: State) {
    match s.at
    case Selecting => true
    case Taking => s.reading && s.book.lastOp.Some?
    case Closing(_, _) => s.book.respWait == map[]
    case Draining => s.book.respWait == map[] && s.book.subs == map[] && s.reading
    case Finished => s.book.respWait == map[] && s.book.subs == map[] && !s.reading
  }

  ghost predicate Inv(s: State) {
    && BookOk(s.book) && ReadingOk(s) && DispatchOk(s)
    && (Writes(s, Handing) ==> s.broken)
    && forall k | k in s.once && s.once[k].Calling? :: s.once[k].r < |s.book.ops|
  }

  // ---------------------------------------------------------------------------- preservation

  lemma StaySeparate(ops: seq<Op>, op: Op)
    requires Separate(ops) && NewIds(ops, op)
    ensures Separate(ops + [op])
  {
  }

  lemma AcceptKeeps(b: Book, op: Op)
    requires BookOk(b) && NewIds(b.ops, op) && (op.sub ==> |op.ids| == 1)
    ensures BookOk(AcceptOp(b, op))
  {
    var b' := AcceptOp(b, op);
    StaySeparate(b.ops, op);
    forall k | 0 <= k < |b'.ops| ensures OpOk(b', k) {
      AcceptOpOk(b, op, k);
    }
  }

  lemma AcceptOpOk(b: Book, op: Op, k: nat)
    requires BookOk(b) && NewIds(b.ops, op) && (op.sub ==> |op.ids| == 1) && k <= |b.ops|
    ensures OpOk(AcceptOp(b, op), k)
  {
    if k < |b.ops| {
      assert OpOk(b, k);
      assert k in Register(b.respWait, op.ids, |b.ops|).Values ==> k in b.respWait.Values;
    } else {
      assert k !in b.withdrawn;
    }
  }

  lemma WithdrawKeeps(b: Book)
    requires BookOk(b) && b.lastOp.Some?
    ensures BookOk(SendIsDone(b, true))
  {
    var b' := SendIsDone(b, true);
    forall k | 0 <= k < |b'.ops| ensures OpOk(b', k) {
      assert OpOk(b, k);
      assert k in b'.respWait.Values ==> k in b.respWait.Values && k != b.lastOp.value;
    }
  }

  lemma SendIsDoneKeeps(b: Book, failed: bool)
    requires BookOk(b) && b.lastOp.Some?
    ensures BookOk(SendIsDone(b, failed))
  {
    if failed {
      WithdrawKeeps(b);
    } else {
      assert forall k | 0 <= k < |b.ops| :: OpOk(b, k) ==> OpOk(b.(lastOp := None), k);
    }
  }

  lemma ResponseKeeps(b: Book, id: Id, started: Option<SubId>)
    requires BookOk(b)
    ensures BookOk(HandleResponse(b, id, started))
  {
    var b' := HandleResponse(b, id, started);
    forall k | 0 <= k < |b'.ops| ensures OpOk(b', k) {
      ResponseOpOk(b, id, started, k);
    }
  }

  lemma ResponseOpOk(b: Book, id: Id, started: Option<SubId>, k: nat)
    requires BookOk(b) && k < |b.ops|
    ensures OpOk(HandleResponse(b, id, started), k)
  {
    assert OpOk(b, k);
    if id in b.respWait {
      if b.respWait[id] == k {
        assert k in b.respWait.Values;
        ResponseChan(b.ops[k], k, b.chans[k], b.respWait, id);
      } else {
        assert id !in b.ops[k].ids;
        OtherChan(b.ops[k], k, b.chans[k], b.respWait, id, b.withdrawn);
      }
    }
  }

  lemma OtherChan(op: Op, k: nat, trace: seq<Action>, respWait: map<Id, nat>, id: Id, withdrawn: set<nat>)
    requires ChanOk(op, k, trace, respWait) && Accounted(op, k, trace, respWait, withdrawn) && id !in op.ids
    ensures ChanOk(op, k, trace, respWait - {id}) && Accounted(op, k, trace, respWait - {id}, withdrawn)
  {
    assert k in (respWait - {id}).Values ==> k in respWait.Values;
  }

  lemma ResponseChan(op: Op, k: nat, trace: seq<Action>, respWait: map<Id, nat>, id: Id)
    requires ChanOk(op, k, trace, respWait) && id in op.ids
    requires id in respWait && respWait[id] == k && k in respWait.Values
    requires forall i | i in respWait && respWait[i] == k :: i in op.ids
    ensures ChanOk(op, k, trace + [if op.sub then Closed else Sent(id)], respWait - {id})
  {
  }

  lemma {:induction false} BatchKeeps(b: Book, batch: seq<Message>)
    requires BookOk(b)
    ensures BookOk(HandleBatch(b, batch))
    decreases |batch|
  {
    if |batch| > 0 {
      MessageKeeps(b, batch[0]);
      BatchKeeps(HandleMessage(b, batch[0]), batch[1..]);
    }
  }

  lemma MessageKeeps(b: Book, m: Message)
    requires BookOk(b)
    ensures BookOk(HandleMessage(b, m))
  {
    if m.Reply? {
      ResponseKeeps(b, m.id, m.started);
    }
  }

  lemma CloseKeeps(b: Book)
    requires BookOk(b)
    ensures BookOk(CloseRequests(b))
  {
    var b' := CloseRequests(b);
    forall k | 0 <= k < |b'.ops| ensures OpOk(b', k) {
      assert OpOk(b, k);
      CloseOpOk(b.ops[k], k, b.chans[k], b.respWait, b.withdrawn);
    }
  }

  lemma CloseOpOk(op: Op, k: nat, trace: seq<Action>, respWait: map<Id, nat>, withdrawn: set<nat>)
    requires ChanOk(op, k, trace, respWait) && Accounted(op, k, trace, respWait, withdrawn)
    requires forall i | i in op.ids && i in respWait :: respWait[i] == k
    ensures var trace' := if k in respWait.Values then trace + [Closed] else trace;
            ChanOk(op, k, trace', map[]) && Accounted(op, k, trace', map[], withdrawn)
  {
  }

  // -------------------------------------------------------------------------------------- runs

  /** Fewer known subscriptions. */
  lemma FewerSubs(b: Book, id: SubId)
    requires BookOk(b)
    ensures BookOk(b.(subs := b.subs - {id}))
  {
    forall k | 0 <= k < |b.ops| ensures OpOk(b.(subs := b.subs - {id}), k) {
      assert OpOk(b, k);
    }
  }

  lemma AcceptStepKeeps(s: State, e: Event)
    requires Inv(s) && Enabled(s, e) && e.Accept?
    ensures Inv(DispatchStep(s, e))
  {
    AcceptKeeps(s.book, e.op);
  }

  lemma BatchStepKeeps(s: State)
    requires Inv(s) && Enabled(s, ReadBatch)
    ensures Inv(DispatchStep(s, ReadBatch))
  {
    BatchKeeps(s.book, s.reader.batch);
    BatchGrows(s.book, s.reader.batch);
  }

  lemma ClosingStepKeeps(s: State, e: Event)
    requires Inv(s) && Enabled(s, e) && (e.ReadError? || e.Close? || e.NextSub? || e.QuitSub? || e.CloseDone?)
    ensures Inv(DispatchStep(s, e))
  {
    match e
    case ReadError => CloseKeeps(s.book);
    case Close => CloseKeeps(s.book);
    case NextSub(id) => FewerSubs(s.book, id);
    case _ =>
  }

  lemma DispatchStepKeeps(s: State, e: Event)
    requires Inv(s) && Enabled(s, e) && OfDispatch(e)
    ensures Inv(DispatchStep(s, e))
  {
    match e
    case Accept(_, _) => AcceptStepKeeps(s, e);
    case SendDone => SendStepKeeps(s);
    case ReadBatch => BatchStepKeeps(s);
    case Reconnected => ReadStepKeeps(s, e);
    case Taken => ReadStepKeeps(s, e);
    case Drained => ReadStepKeeps(s, e);
    case _ => ClosingStepKeeps(s, e);
  }

  lemma SendStepKeeps(s: State)
    requires Inv(s) && Enabled(s, SendDone)
    ensures Inv(DispatchStep(s, SendDone))
  {
    SendIsDoneKeeps(s.book, s.writer.failed);
  }

  lemma ReadStepKeeps(s: State, e: Event)
    requires Inv(s) && Enabled(s, e) && (e.Reconnected? || e.Taken? || e.Drained?)
    ensures Inv(DispatchStep(s, e))
  {
  }

  lemma OtherStepKeeps(s: State, e: Event)
    requires Inv(s) && Enabled(s, e) && !OfDispatch(e)
    ensures Inv(OtherStep(s, e))
  {
  }

  lemma StepKeepsInv(s: State, e: Event)
    requires Inv(s) && Enabled(s, e)
    ensures Inv(Step(s, e))
  {
    if OfDispatch(e) {
      DispatchStepKeeps(s, e);
    } else {
      OtherStepKeeps(s, e);
    }
  }

  predicate IsRun(s: State, es: seq<Event>)
    decreases |es|
  {
    |es| > 0 ==> Owned(s.book) && Enabled(s, es[0]) && IsRun(Step(s, es[0]), es[1..])
  }

  function Run(s: State, es: seq<Event>): State
    requires IsRun(s, es)
    decreases |es|
  {
    if |es| == 0 then s else Run(Step(s, es[0]), es[1..])
  }

  lemma {:induction false} RunKeepsInv(s: State, es: seq<Event>)
    requires Inv(s) && IsRun(s, es)
    ensures Inv(Run(s, es))
    decreases |es|
  {
    if |es| > 0 {
      StepKeepsInv(s, es[0]);
      RunKeepsInv(Step(s, es[0]), es[1..]);
    }
  }

  ghost predicate Reachable(s: State) {
    exists es: seq<Event> :: IsRun(INITIAL, es) && s == Run(INITIAL, es)
  }

  /** Every reachable state satisfies the invariant. */
  lemma ReachableInv(s: State)
    requires Reachable(s)
    ensures Inv(s)
  {
    var es: seq<Event> :| IsRun(INITIAL, es) && s == Run(INITIAL, es);
    RunKeepsInv(INITIAL, es);
  }

  // ---------------------------------------------------------------------------- channel safety

  function Messages(trace: seq<Action>): nat {
    if |trace| == 0 then 0 else Messages(trace[..|trace| - 1]) + if trace[|trace| - 1].Sent? then 1 else 0
  }

  function SentIds(trace: seq<Action>): set<Id> {
    if |trace| == 0 then {}
    else if trace[|trace| - 1].Sent? then SentIds(trace[..|trace| - 1]) + {trace[|trace| - 1].id}
    else SentIds(trace[..|trace| - 1])
  }

  lemma {:induction false} SentIdsAre(trace: seq<Action>, id: Id)
    ensures id in SentIds(trace) <==> Sent(id) in trace
  {
    if |trace| > 0 {
      var n := |trace| - 1;
      SentIdsAre(trace[..n], id);
      assert trace == trace[..n] + [trace[n]];
    }
  }

  lemma {:induction false} MessagesAreIds(trace: seq<Action>)
    requires Distinct(trace)
    ensures Messages(trace) == |SentIds(trace)|
  {
    if |trace| > 0 {
      var n := |trace| - 1;
      MessagesAreIds(trace[..n]);
      if trace[n].Sent? {
        SentIdsAre(trace[..n], trace[n].id);
      }
    }
  }

  /** The messages sent so far, and one more if an id is still registered, fit in a buffer of one slot for each id. */
  lemma MessagesFit(op: Op, k: nat, trace: seq<Action>, respWait: map<Id, nat>)
    requires ChanOk(op, k, trace, respWait)
    ensures Messages(trace) <= |op.ids|
    ensures (exists id :: id in op.ids && id in respWait) ==> Messages(trace) < |op.ids|
  {
    MessagesAreIds(trace);
    ElementsSize(op.ids);
    forall id | id in SentIds(trace) ensures id in op.ids && id !in respWait {
      SentIdsAre(trace, id);
    }
    SubsetSize(SentIds(trace), Elements(op.ids));
    if id :| id in op.ids && id in respWait {
      SubsetSize(SentIds(trace), Elements(op.ids) - {id});
    }
  }

  /**
    * On the channel of every accepted request: at most one message for each id and never more than the buffer of
    * one slot for each id holds, at most one close, and nothing after it.
    */
  lemma ChannelSafety(s: State, k: nat)
    requires Reachable(s) && k < |s.book.ops|
    ensures k < |s.book.chans| && Messages(s.book.chans[k]) <= |s.book.ops[k].ids|
    ensures var trace := s.book.chans[k];
            && (forall i, j | 0 <= i < j < |trace| :: trace[i].Sent? && trace[i] != trace[j])
            && (forall id :: Sent(id) in trace ==> id in s.book.ops[k].ids)
  {
    ReachableInv(s);
    assert OpOk(s.book, k);
    MessagesFit(s.book.ops[k], k, s.book.chans[k], s.book.respWait);
  }

  /** A reply to a registered request finds its channel open and, unless it only closes it, with room for a message. */
  predicate HasRoom(b: Book, m: Message)
    requires Owned(b)
  {
    m.Reply? && m.id in b.respWait ==>
      var k := b.respWait[m.id];
      Closed !in b.chans[k] && (!b.ops[k].sub ==> Messages(b.chans[k]) < |b.ops[k].ids|)
  }

  predicate AllHaveRoom(b: Book, batch: seq<Message>)
    requires Owned(b)
    decreases |batch|
  {
    |batch| > 0 ==> HasRoom(b, batch[0]) && AllHaveRoom(HandleMessage(b, batch[0]), batch[1..])
  }

  lemma MessageHasRoom(b: Book, m: Message)
    requires BookOk(b)
    ensures HasRoom(b, m)
  {
    if m.Reply? && m.id in b.respWait {
      var k := b.respWait[m.id];
      assert OpOk(b, k) && k in b.respWait.Values;
      MessagesFit(b.ops[k], k, b.chans[k], b.respWait);
    }
  }

  lemma {:induction false} BatchHasRoom(b: Book, batch: seq<Message>)
    requires BookOk(b)
    ensures AllHaveRoom(b, batch)
    decreases |batch|
  {
    if |batch| > 0 {
      MessageHasRoom(b, batch[0]);
      MessageKeeps(b, batch[0]);
      BatchHasRoom(HandleMessage(b, batch[0]), batch[1..]);
    }
  }

  /** Every message of a batch is handled without a send on a closed or a full channel: the loop does not stop there. */
  lemma BatchDelivered(s: State)
    requires Reachable(s) && Owned(s.book) && Enabled(s, ReadBatch)
    ensures AllHaveRoom(s.book, s.reader.batch)
  {
    ReachableInv(s);
    BatchHasRoom(s.book, s.reader.batch);
  }

  // -------------------------------------------------------------------------- settled requests

  ghost predicate AllSettled(b: Book)
    requires |b.ops| == |b.chans|
  {
    forall k | 0 <= k < |b.ops| :: Settled(b, k)
  }

  lemma NotRegistered(b: Book, k: nat, id: Id)
    requires BookOk(b) && k < |b.ops| && id in b.ops[k].ids
    ensures id in b.respWait ==> k in b.respWait.Values
  {
    if id in b.respWait {
      assert id in b.ops[b.respWait[id]].ids;
    }
  }

  /** A request is settled exactly if none of its ids is registered. */
  lemma SettledExact(b: Book, k: nat)
    requires BookOk(b) && k < |b.ops|
    ensures Settled(b, k) <==> k !in b.respWait.Values
  {
    assert OpOk(b, k);
    if k in b.respWait.Values {
      var id :| id in b.respWait && b.respWait[id] == k;
      assert id in b.ops[k].ids;
    } else {
      forall id | id in b.ops[k].ids ensures id !in b.respWait {
        NotRegistered(b, k, id);
      }
    }
  }

  lemma AllSettledExact(b: Book)
    requires BookOk(b)
    ensures AllSettled(b) <==> b.respWait == map[]
  {
    forall k | 0 <= k < |b.ops| ensures Settled(b, k) <==> k !in b.respWait.Values {
      SettledExact(b, k);
    }
    if id :| id in b.respWait {
      assert b.respWait[id] in b.respWait.Values;
    }
  }

  /** In every reachable state, all accepted requests are settled exactly if nothing is registered. */
  lemma NothingLost(s: State)
    requires Reachable(s)
    ensures Owned(s.book) && (AllSettled(s.book) <==> s.book.respWait == map[])
    ensures forall k | 0 <= k < |s.book.ops| :: Settled(s.book, k) <==> k !in s.book.respWait.Values
  {
    ReachableInv(s);
    AllSettledExact(s.book);
    forall k | 0 <= k < |s.book.ops| ensures Settled(s.book, k) <==> k !in s.book.respWait.Values {
      SettledExact(s.book, k);
    }
  }

  /** A read loop ends when its error is received: by the loop, or while it takes a new connection. */
  predicate EndsReadLoop(e: Event) {
    e.ReadError? || e.Taken?
  }

  /** All requests are settled, but perhaps the one that is being written. */
  ghost predicate OthersSettled(b: Book)
    requires |b.ops| == |b.chans|
  {
    forall k | 0 <= k < |b.ops| && b.lastOp != Some(k) :: Settled(b, k)
  }

  predicate OnlyLast(b: Book) {
    forall id | id in b.respWait :: b.lastOp == Some(b.respWait[id])
  }

  lemma OthersSettledExact(b: Book)
    requires BookOk(b)
    ensures OthersSettled(b) <==> OnlyLast(b)
  {
    forall k | 0 <= k < |b.ops| ensures Settled(b, k) <==> k !in b.respWait.Values {
      SettledExact(b, k);
    }
    if id :| id in b.respWait && b.lastOp != Some(b.respWait[id]) {
      assert b.respWait[id] in b.respWait.Values;
    }
  }

  /**
    * When a read loop ends, all requests but the one that is being written are settled, unless the error is received
    * while a new connection is taken and another is registered: then the error is dropped and the others go on waiting.
    */
  lemma ReadLoopEnds(s: State, e: Event)
    requires Reachable(s) && Owned(s.book) && Enabled(s, e) && EndsReadLoop(e)
    ensures Owned(Step(s, e).book)
    ensures e.ReadError? ==> AllSettled(Step(s, e).book)
    ensures e.Taken? ==> Step(s, e).book == s.book && (OthersSettled(s.book) <==> OnlyLast(s.book))
  {
    ReachableInv(s);
    StepKeepsInv(s, e);
    AllSettledExact(Step(s, e).book);
    OthersSettledExact(s.book);
  }

  /** From the moment the loop begins to quit, every accepted request is settled. */
  lemma QuitSettlesAll(s: State)
    requires Reachable(s) && ((s.at.Closing? && s.at.quitting) || s.at.Draining? || s.at.Finished?)
    ensures Owned(s.book) && AllSettled(s.book) && (s.at.Closing? || s.book.subs == map[])
  {
    ReachableInv(s);
    AllSettledExact(s.book);
  }

  /** The only events that can settle the k-th request. */
  predicate MaySettle(s: State, e: Event, k: nat)
    requires k < |s.book.ops| && Owned(s.book) && Enabled(s, e)
  {
    || e.ReadError? || e.Close?
    || (e.SendDone? && s.writer == Written(true) && s.book.lastOp == Some(k))
    || (e.ReadBatch? && exists m | m in s.reader.batch :: m.Reply? && m.id in s.book.ops[k].ids)
  }

  predicate NeverMaySettle(s: State, es: seq<Event>, k: nat)
    requires IsRun(s, es) && k < |s.book.ops|
    decreases |es|
  {
    |es| > 0 ==> !MaySettle(s, es[0], k) && (Grows(s, es[0]); NeverMaySettle(Step(s, es[0]), es[1..], k))
  }

  /** Requests are only ever added. */
  lemma Grows(s: State, e: Event)
    requires Owned(s.book) && Enabled(s, e)
    ensures s.book.ops <= Step(s, e).book.ops
  {
    if e.ReadBatch? {
      BatchGrows(s.book, s.reader.batch);
    }
  }

  lemma {:induction false} BatchGrows(b: Book, batch: seq<Message>)
    requires Owned(b)
    ensures HandleBatch(b, batch).ops == b.ops && HandleBatch(b, batch).lastOp == b.lastOp
    decreases |batch|
  {
    if |batch| > 0 {
      BatchGrows(HandleMessage(b, batch[0]), batch[1..]);
    }
  }

  /** A registered id of which no message of the batch speaks stays registered. */
  lemma {:induction false} BatchKeepsId(b: Book, batch: seq<Message>, id: Id)
    requires Owned(b) && id in b.respWait && forall m | m in batch :: m.Reply? ==> m.id != id
    ensures var b' := HandleBatch(b, batch); id in b'.respWait && b'.respWait[id] == b.respWait[id]
    decreases |batch|
  {
    if |batch| > 0 {
      BatchKeepsId(HandleMessage(b, batch[0]), batch[1..], id);
    }
  }

  lemma RegisterKeeps(b: Book, op: Op, id: Id)
    requires Owned(b) && NewIds(b.ops, op) && id in b.respWait
    ensures var b' := AcceptOp(b, op); id in b'.respWait && b'.respWait[id] == b.respWait[id]
  {
  }

  lemma SendDoneKeepsId(b: Book, failed: bool, id: Id)
    requires Owned(b) && Separate(b.ops) && b.lastOp.Some? && id in b.respWait
    requires failed ==> b.lastOp != Some(b.respWait[id])
    ensures var b' := SendIsDone(b, failed); id in b'.respWait && b'.respWait[id] == b.respWait[id]
  {
    assert failed ==> id !in b.ops[b.lastOp.value].ids;
  }

  lemma StepKeepsId(s: State, e: Event, id: Id)
    requires Inv(s) && Enabled(s, e) && id in s.book.respWait && !MaySettle(s, e, s.book.respWait[id])
    ensures var b := Step(s, e).book; id in b.respWait && b.respWait[id] == s.book.respWait[id]
  {
    match e
    case Accept(op, _) => RegisterKeeps(s.book, op, id);
    case SendDone => SendDoneKeepsId(s.book, s.writer.failed, id);
    case ReadBatch => BatchKeepsId(s.book, s.reader.batch, id);
    case _ => KeepsRegistered(s, e);
  }

  lemma KeepsRegistered(s: State, e: Event)
    requires Owned(s.book) && Enabled(s, e)
    requires !e.Accept? && !e.SendDone? && !e.ReadBatch? && !e.ReadError? && !e.Close?
    ensures Step(s, e).book.respWait == s.book.respWait
  {
  }

  /**
    * A request that is not settled goes on waiting through every run with no read error received by the loop, no close,
    * no reply to one of its ids, and no failure of its own write.
    */
  lemma {:induction false} GoesOnWaiting(s: State, es: seq<Event>, k: nat)
    requires Inv(s) && IsRun(s, es) && k < |s.book.ops|
    requires !Settled(s.book, k) && NeverMaySettle(s, es, k)
    ensures Inv(Run(s, es)) && k < |Run(s, es).book.ops| && !Settled(Run(s, es).book, k)
    decreases |es|
  {
    if |es| > 0 {
      var s' := Step(s, es[0]);
      SettledExact(s.book, k);
      var id :| id in s.book.respWait && s.book.respWait[id] == k;
      StepKeepsId(s, es[0], id);
      StepKeepsInv(s, es[0]);
      assert s'.book.respWait[id] in s'.book.respWait.Values;
      SettledExact(s'.book, k);
      GoesOnWaiting(s', es[1..], k);
    }
  }

  // --------------------------------------------------------------------------------- joining runs

  /** A run that begins with a step. */
  lemma StepRun(s: State, e: Event, es: seq<Event>)
    requires Owned(s.book) && Enabled(s, e) && IsRun(Step(s, e), es)
    ensures IsRun(s, [e] + es) && Run(s, [e] + es) == Run(Step(s, e), es)
  {
    assert ([e] + es)[1..] == es;
  }

  lemma {:induction false} RunConcat(s: State, a: seq<Event>, b: seq<Event>)
    requires IsRun(s, a) && IsRun(Run(s, a), b)
    ensures IsRun(s, a + b) && Run(s, a + b) == Run(Run(s, a), b)
    decreases |a|
  {
    FirstApart(a, b);
    if |a| > 0 {
      RunConcat(Step(s, a[0]), a[1..], b);
      StepRun(s, a[0], a[1..] + b);
    }
  }

  lemma FirstApart(a: seq<Event>, b: seq<Event>)
    ensures a + b == if |a| == 0 then b else [a[0]] + (a[1..] + b)
  {
  }

  lemma RunTwo(s: State, d: Event, e: Event)
    requires Owned(s.book) && Enabled(s, d) && Owned(Step(s, d).book) && Enabled(Step(s, d), e)
    ensures IsRun(s, [d, e]) && Run(s, [d, e]) == Step(Step(s, d), e)
  {
    RunOne(Step(s, d), e);
    assert [d, e][1..] == [e];
  }

  lemma RunOne(s: State, e: Event)
    requires Owned(s.book) && Enabled(s, e)
    ensures IsRun(s, [e]) && Run(s, [e]) == Step(s, e)
  {
    assert [e][1..] == [];
  }

  lemma ReachableStep(s: State, e: Event)
    requires Reachable(s) && Owned(s.book) && Enabled(s, e)
    ensures Reachable(Step(s, e))
  {
    var es: seq<Event> :| IsRun(INITIAL, es) && s == Run(INITIAL, es);
    RunOne(s, e);
    RunConcat(INITIAL, es, [e]);
  }
}
