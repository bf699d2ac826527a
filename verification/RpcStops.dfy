/** When the dispatch loop of rpc/client.go can go on, and when it waits for good. */
module RpcStops {
  import opened Common
  import opened Rpc

  // ---------------------------------------------------------------------------- waiting for good

  /**
    * The end of a subscription is held up for good while the loop does not select: it waits for the send lock, or its
    * request has the lock and a new connection that the loop has to receive.
    */
  predicate HeldUp(s: State, k: nat) {
    && k in s.once
    && (s.once[k].Waiting? || (s.once[k].Calling? && s.book.lastOp == Some(s.once[k].r) && s.writer.Handing?))
  }

  /** The loop has returned, or it and somebody else wait for each other. */
  predicate Stopped(s: State) {
    || s.at.Finished?
    || (s.at.Taking? && s.reader.Offering?)
    || (s.at.Closing? && s.at.sub.Some? && HeldUp(s, s.at.sub.value))
  }

  /** In no run from here does the loop do anything. */
  ghost predicate Dead(s: State) {
    forall es | IsRun(s, es) :: forall e | e in es :: !OfDispatch(e)
  }

  lemma StoppedStays(s: State, e: Event)
    requires Stopped(s) && Owned(s.book) && Enabled(s, e)
    ensures !OfDispatch(e) && Stopped(Step(s, e)) && Step(s, e).at == s.at
  {
  }

  lemma {:induction false} StoppedIsDead(s: State, es: seq<Event>)
    requires Stopped(s) && IsRun(s, es)
    ensures (forall e | e in es :: !OfDispatch(e)) && Run(s, es).at == s.at
    decreases |es|
  {
    if |es| > 0 {
      StoppedStays(s, es[0]);
      StoppedIsDead(Step(s, es[0]), es[1..]);
      assert es == [es[0]] + es[1..];
    }
  }

  // -------------------------------------------------------------------------------------- going on

  /** The state in which the loop has ended its subscription `k`. */
  function Ended(s: State, k: nat): State
    requires s.at.Closing?
  {
    s.(once := s.once[k := Over], at := s.at.(sub := None))
  }

  /** The others have moved, or not; the loop has ended the subscription. */
  ghost predicate HasEnded(s: State, k: nat, t: State) {
    && s.at.Closing? && Inv(t)
    && t == Ended(s.(writer := t.writer, broken := t.broken), k)
    && (t.writer == s.writer || !t.writer.Handing?)
  }

  lemma EndedHeldUp(s: State, k: nat, t: State, j: nat)
    requires HasEnded(s, k, t) && HeldUp(t, j)
    ensures HeldUp(s, j)
  {
  }

  /** A subscription that is not held up can be ended by the loop, after the others have moved. */
  lemma EndSub(s: State, k: nat) returns (es: seq<Event>)
    requires Inv(s) && s.at.Closing? && s.at.sub == Some(k) && !HeldUp(s, k)
    ensures IsRun(s, es) && QuitSub in es && HasEnded(s, k, Run(s, es))
  {
    if k !in s.once || s.once[k].Over? {
      es := EndIdle(s, k);
    } else if s.book.lastOp == Some(s.once[k].r) && s.writer.Writing? {
      es := EndWriting(s, k);
    } else {
      es := EndCall(s, k);
    }
  }

  lemma EndIdle(s: State, k: nat) returns (es: seq<Event>)
    requires Inv(s) && s.at.Closing? && s.at.sub == Some(k) && (k in s.once ==> s.once[k].Over?)
    ensures es == [QuitSub] && IsRun(s, es) && HasEnded(s, k, Run(s, es))
  {
    RunOne(s, QuitSub);
    StepKeepsInv(s, QuitSub);
    es := [QuitSub];
  }

  lemma EndWriting(s: State, k: nat) returns (es: seq<Event>)
    requires Inv(s) && s.at.Closing? && s.at.sub == Some(k) && k in s.once && s.once[k].Calling?
    requires s.book.lastOp == Some(s.once[k].r) && s.writer.Writing?
    ensures IsRun(s, es) && QuitSub in es && HasEnded(s, k, Run(s, es))
  {
    var t := s.(writer := Written(true), broken := true);
    assert Enabled(s, WriteDone(true)) && Step(s, WriteDone(true)) == t;
    StepKeepsInv(s, WriteDone(true));
    var rest := EndCall(t, k);
    StepRun(s, WriteDone(true), rest);
    es := [WriteDone(true)] + rest;
  }

  lemma CallReturns(s: State, k: nat)
    requires Inv(s) && s.at.Closing? && k in s.once && s.once[k].Calling?
    requires s.book.lastOp == Some(s.once[k].r) ==> s.writer.Written?
    ensures Enabled(s, Unsubscribed(k))
  {
    SettledExact(s.book, s.once[k].r);
  }

  lemma EndCall(s: State, k: nat) returns (es: seq<Event>)
    requires Inv(s) && s.at.Closing? && s.at.sub == Some(k) && k in s.once && s.once[k].Calling?
    requires s.book.lastOp == Some(s.once[k].r) ==> s.writer.Written?
    ensures IsRun(s, es) && QuitSub in es && HasEnded(s, k, Run(s, es))
  {
    CallReturns(s, k);
    var t := s.(once := s.once[k := Over]);
    StepKeepsInv(s, Unsubscribed(k));
    var rest := EndIdle(t, k);
    StepRun(s, Unsubscribed(k), rest);
    assert t.once[k := Over] == s.once[k := Over];
    es := [Unsubscribed(k)] + rest;
  }

  lemma GoesOn(s: State) returns (es: seq<Event>)
    requires Inv(s) && !Stopped(s)
    ensures IsRun(s, es) && exists e :: e in es && OfDispatch(e)
  {
    match s.at
    case Selecting => es := OneMove(s, Close);
    case Taking => es := ReaderMoves(s, Taken);
    case Draining => es := ReaderMoves(s, Drained);
    case Closing(sub, _) =>
      if sub.Some? {
        es := EndSub(s, sub.value);
      } else if s.book.subs == map[] {
        es := OneMove(s, CloseDone);
      } else {
        var id :| id in s.book.subs;
        es := OneMove(s, NextSub(id));
      }
  }

  lemma OneMove(s: State, e: Event) returns (es: seq<Event>)
    requires Owned(s.book) && Enabled(s, e)
    ensures es == [e] && IsRun(s, es) && e in es
  {
    RunOne(s, e);
    es := [e];
  }

  lemma ReaderMoves(s: State, e: Event) returns (es: seq<Event>)
    requires Owned(s.book) && !s.reader.Gone?
    requires (e.Taken? && s.at.Taking? && !s.reader.Offering?) || (e.Drained? && s.at.Draining?)
    ensures IsRun(s, es) && e in es
  {
    if s.reader.Decoding? {
      RunTwo(s, DecodeFailed, e);
      es := [DecodeFailed, e];
    } else {
      es := OneMove(s, e);
    }
  }

  /**
    * The loop never does anything again exactly if it has returned, if it takes a connection while the old read loop
    * offers a batch, or if it ends a subscription whose end is held up.
    */
  lemma StuckExact(s: State)
    requires Reachable(s)
    ensures Dead(s) <==> Stopped(s)
  {
    ReachableInv(s);
    if Stopped(s) {
      forall es | IsRun(s, es) ensures forall e | e in es :: !OfDispatch(e) {
        StoppedIsDead(s, es);
      }
    } else {
      var es := GoesOn(s);
    }
  }

  // ---------------------------------------------------------------------------------- completing

  /** A new connection can still be taken completely exactly if the old read loop does not offer a batch. */
  lemma TakingCompletes(s: State)
    requires Reachable(s) && s.at.Taking?
    ensures (exists es :: IsRun(s, es) && !Run(s, es).at.Taking?) <==> !s.reader.Offering?
  {
    ReachableInv(s);
    if s.reader.Offering? {
      forall es | IsRun(s, es) ensures Run(s, es).at.Taking? {
        StoppedIsDead(s, es);
      }
    } else if s.reader.Failing? {
      RunOne(s, Taken);
      assert !Run(s, [Taken]).at.Taking?;
    } else {
      RunTwo(s, DecodeFailed, Taken);
      assert !Run(s, [DecodeFailed, Taken]).at.Taking?;
    }
  }

  /** The subscription is one that the loop still has to end. */
  predicate ToEnd(s: State, k: nat) {
    s.at.Closing? && (s.at.sub == Some(k) || k in s.book.subs.Values)
  }

  lemma HeldUpStays(s: State, k: nat, e: Event)
    requires ToEnd(s, k) && HeldUp(s, k) && Owned(s.book) && Enabled(s, e)
    ensures ToEnd(Step(s, e), k) && HeldUp(Step(s, e), k)
  {
    if e.NextSub? {
      OthersLeft(s.book.subs, e.id, k);
    }
  }

  lemma OthersLeft(m: map<SubId, nat>, id: SubId, k: nat)
    requires id in m && k in m.Values
    ensures m[id] == k || k in (m - {id}).Values
  {
    var i :| i in m && m[i] == k;
    assert i != id ==> i in m - {id} && (m - {id})[i] == k;
  }

  lemma {:induction false} HeldUpForGood(s: State, k: nat, es: seq<Event>)
    requires ToEnd(s, k) && HeldUp(s, k) && IsRun(s, es)
    ensures Run(s, es).at.Closing?
    decreases |es|
  {
    if |es| > 0 {
      HeldUpStays(s, k, es[0]);
      HeldUpForGood(Step(s, es[0]), k, es[1..]);
    }
  }

  /** The loop ends subscriptions, and none that it has to end is held up. */
  ghost predicate FreeToEnd(s: State) {
    Inv(s) && s.at.Closing? && forall k | ToEnd(s, k) :: !HeldUp(s, k)
  }

  lemma {:induction false} EndAll(s: State) returns (es: seq<Event>)
    requires FreeToEnd(s)
    ensures IsRun(s, es) && !Run(s, es).at.Closing?
    decreases |s.book.subs|, if s.at.sub.Some? then 1 else 0
  {
    if s.at.sub.Some? {
      var first := EndOne(s);
      var rest := EndAll(Run(s, first));
      RunConcat(s, first, rest);
      es := first + rest;
    } else if s.book.subs == map[] {
      es := EndNone(s);
    } else {
      var first := PickOne(s);
      var rest := EndAll(Run(s, first));
      RunConcat(s, first, rest);
      es := first + rest;
    }
  }

  lemma EndNone(s: State) returns (es: seq<Event>)
    requires FreeToEnd(s) && s.at.sub.None? && s.book.subs == map[]
    ensures IsRun(s, es) && !Run(s, es).at.Closing?
  {
    RunOne(s, CloseDone);
    es := [CloseDone];
  }

  lemma EndOne(s: State) returns (es: seq<Event>)
    requires FreeToEnd(s) && s.at.sub.Some?
    ensures IsRun(s, es)
    ensures var t := Run(s, es); FreeToEnd(t) && t.at.sub.None? && t.book.subs == s.book.subs
  {
    es := EndSub(s, s.at.sub.value);
    var t := Run(s, es);
    forall k | ToEnd(t, k) ensures !HeldUp(t, k) {
      StillFree(s, s.at.sub.value, t, k);
    }
  }

  lemma StillFree(s: State, k: nat, t: State, j: nat)
    requires HasEnded(s, k, t) && ToEnd(t, j) && (ToEnd(s, j) ==> !HeldUp(s, j))
    ensures !HeldUp(t, j)
  {
    if HeldUp(t, j) {
      EndedHeldUp(s, k, t, j);
    }
  }

  lemma PickOne(s: State) returns (es: seq<Event>)
    requires FreeToEnd(s) && s.at.sub.None? && s.book.subs != map[]
    ensures IsRun(s, es) && FreeToEnd(Run(s, es)) && |Run(s, es).book.subs| < |s.book.subs|
  {
    var id :| id in s.book.subs;
    StepKeepsInv(s, NextSub(id));
    RunOne(s, NextSub(id));
    FewerToEnd(s, id, Step(s, NextSub(id)));
    es := [NextSub(id)];
  }

  lemma FewerToEnd(s: State, id: SubId, t: State)
    requires s.at.Closing? && id in s.book.subs
    requires t == s.(book := s.book.(subs := s.book.subs - {id}), at := s.at.(sub := Some(s.book.subs[id])))
    ensures |t.book.subs| < |s.book.subs| && forall k | ToEnd(t, k) :: ToEnd(s, k) && (HeldUp(t, k) ==> HeldUp(s, k))
  {
    var m := s.book.subs;
    assert (m - {id}).Keys == m.Keys - {id};
    forall k | k in (m - {id}).Values ensures k in m.Values {
      var i :| i in m - {id} && (m - {id})[i] == k;
      assert i in m && m[i] == k;
    }
    assert m[id] in m.Values;
  }

  /** The loop can end all subscriptions and go on exactly if none that is to be ended is held up. */
  lemma ClosingCompletes(s: State)
    requires Reachable(s) && s.at.Closing?
    ensures (exists es :: IsRun(s, es) && !Run(s, es).at.Closing?) <==> forall k | ToEnd(s, k) :: !HeldUp(s, k)
  {
    ReachableInv(s);
    if k :| ToEnd(s, k) && HeldUp(s, k) {
      forall es | IsRun(s, es) ensures Run(s, es).at.Closing? {
        HeldUpForGood(s, k, es);
      }
    } else {
      var es := EndAll(s);
    }
  }

  /** From there on quitting can always be completed: the loop receives batches too until the read loop has failed. */
  lemma DrainCompletes(s: State)
    requires Reachable(s) && s.at.Draining?
    ensures exists es :: IsRun(s, es) && Run(s, es).at.Finished?
  {
    ReachableInv(s);
    match s.reader
    case Decoding => DrainDecoding(s);
    case Failing =>
      RunOne(s, Drained);
      assert Run(s, [Drained]).at.Finished?;
    case Offering(_) =>
      var s' := Step(s, Drained);
      DrainDecoding(s');
      StepRun(s, Drained, [DecodeFailed, Drained]);
      assert Run(s, [Drained] + [DecodeFailed, Drained]).at.Finished?;
  }

  lemma DrainDecoding(s: State)
    requires Owned(s.book) && s.at.Draining? && s.reader.Decoding?
    ensures IsRun(s, [DecodeFailed, Drained]) && Run(s, [DecodeFailed, Drained]).at.Finished?
  {
    RunTwo(s, DecodeFailed, Drained);
  }

  // ------------------------------------------------------------------------------- runs that stop

  const FIRST := Op([1], false)
  const SECOND := Op([2], false)
  const THIRD := Op([3], false)
  const SENT_ONE := Book([FIRST], [[]], map[1 := 0], map[], {}, None, {})
  const LOST_ONE := Book([FIRST, SECOND], [[], []], map[1 := 0], map[], {}, None, {1})
  const WRITING := Book([FIRST, SECOND, THIRD], [[], [], []], map[1 := 0, 3 := 2], map[], {}, Some(2), {1})
  const SENT := INITIAL.(book := SENT_ONE, writer := Written(false))
  const LOST := INITIAL.(book := LOST_ONE, writer := Written(true), broken := true)
  const TAKING := INITIAL.(book := WRITING, at := Taking)

  lemma OneIsSent()
    ensures AcceptOp(EMPTY, FIRST) == SENT_ONE.(lastOp := Some(0))
    ensures SendIsDone(AcceptOp(EMPTY, FIRST), false) == SENT_ONE
  {
  }

  lemma OneIsLost()
    ensures AcceptOp(SENT_ONE, SECOND).lastOp == Some(1) && SendIsDone(AcceptOp(SENT_ONE, SECOND), true) == LOST_ONE
  {
    assert AcceptOp(SENT_ONE, SECOND) == Book([FIRST, SECOND], [[], []], map[1 := 0, 2 := 1], map[], {}, Some(1), {});
  }

  lemma OneIsWriting()
    ensures AcceptOp(LOST_ONE, THIRD) == WRITING
  {
  }

  /** A request that is accepted, written and done with. */
  lemma WrittenIsReachable(s: State, op: Op, failed: bool)
    requires Reachable(s) && Owned(s.book) && s.at.Selecting? && s.book.lastOp.None? && !s.broken
    requires NewIds(s.book.ops, op) && (op.sub ==> |op.ids| == 1)
    requires Owned(AcceptOp(s.book, op))
    ensures Reachable(s.(book := SendIsDone(AcceptOp(s.book, op), failed), writer := Written(failed), broken := failed))
  {
    var s1 := s.(book := AcceptOp(s.book, op), writer := Writing);
    var s2 := s1.(writer := Written(failed), broken := failed);
    ReachableStep(s, Accept(op, None));
    ReachableStep(s1, WriteDone(failed));
    ReachableStep(s2, SendDone);
  }

  lemma InitialIsReachable()
    ensures Reachable(INITIAL)
  {
    assert IsRun(INITIAL, []) && Run(INITIAL, []) == INITIAL;
  }

  lemma LostIsReachable()
    ensures Reachable(LOST)
  {
    SentIsReachable();
    OneIsLost();
    WrittenIsReachable(SENT, SECOND, true);
  }

  lemma SentIsReachable()
    ensures Reachable(SENT)
  {
    InitialIsReachable();
    OneIsSent();
    WrittenIsReachable(INITIAL, FIRST, false);
  }

  lemma TakingIsReachable()
    ensures Reachable(TAKING)
  {
    LostIsReachable();
    OneIsWriting();
    var s := INITIAL.(book := WRITING, broken := true);
    ReachableStep(LOST, Accept(THIRD, None));
    ReachableStep(s, Connected);
    ReachableStep(s.(writer := Handing), Reconnected);
  }

  /** A run that ends a read loop and leaves a request waiting, although the connection it was sent on is gone. */
  lemma ReconnectLeavesRequestWaiting()
    ensures var s := TAKING.(reader := Failing);
            Reachable(s) && Owned(s.book) && Enabled(s, Taken) && !OthersSettled(Step(s, Taken).book)
  {
    TakingIsReachable();
    ReachableStep(TAKING, DecodeFailed);
    assert 1 in WRITING.ops[0].ids && Sent(1) !in WRITING.chans[0] && 0 !in WRITING.withdrawn;
    assert !Settled(WRITING, 0);
  }

  /** A run to a state in which the loop waits for the old read loop and the read loop for the loop. */
  lemma ReconnectGetsStuck()
    ensures var s := TAKING.(reader := Offering([])); Reachable(s) && Dead(s) && !Settled(s.book, 0)
  {
    TakingIsReachable();
    ReachableStep(TAKING, Decoded([]));
    StuckExact(TAKING.(reader := Offering([])));
    assert 1 in WRITING.ops[0].ids && Sent(1) !in WRITING.chans[0] && 0 !in WRITING.withdrawn;
  }

  const SUBSCRIBE := Op([1], true)
  const ASKED := Book([SUBSCRIBE], [[]], map[1 := 0], map[], {}, None, {})
  const STARTED := Book([SUBSCRIBE], [[Closed]], map[], map[7 := 0], {0}, None, {})
  const SUBSCRIBED := INITIAL.(book := STARTED, writer := Written(false))
  const ENDING := SUBSCRIBED.(once := map[0 := Waiting], reader := Failing)
  const HELD := SUBSCRIBED.(
    book := STARTED.(subs := map[]), at := Closing(Some(0), false), reader := Gone, once := map[0 := Waiting])

  lemma SubscribedIsReachable()
    ensures Reachable(SUBSCRIBED)
  {
    InitialIsReachable();
    assert AcceptOp(EMPTY, SUBSCRIBE) == ASKED.(lastOp := Some(0));
    WrittenIsReachable(INITIAL, SUBSCRIBE, false);
    var s := INITIAL.(book := ASKED, writer := Written(false));
    var batch := [Reply(1, Some(7))];
    ReachableStep(s, Decoded(batch));
    BatchStarts();
    ReachableStep(s.(reader := Offering(batch)), ReadBatch);
  }

  lemma BatchStarts()
    ensures HandleBatch(ASKED, [Reply(1, Some(7))]) == STARTED
  {
    var none: map<Id, nat>, subs: map<SubId, nat> := map[], map[];
    assert ASKED.respWait - {1} == none && subs[7 := 0] == map[7 := 0];
    assert ASKED.chans[0] + [Closed] == [Closed] && ASKED.chans[0 := [Closed]] == [[Closed]];
    assert HandleResponse(ASKED, 1, Some(7)) == STARTED;
    assert [Reply(1, Some(7))][1..] == [];
    assert HandleBatch(STARTED, []) == STARTED;
  }

  /**
    * A run to a state in which the loop waits for the end of a subscription and that for the loop: somebody
    * unsubscribes, and before the loop receives the request it receives a read error.
    */
  lemma UnsubscribeGetsStuck()
    ensures Reachable(HELD) && Dead(HELD)
  {
    EndingIsReachable();
    assert CloseRequests(STARTED) == STARTED by {
      assert ClosedAt(STARTED.chans, STARTED.respWait.Values) == STARTED.chans;
    }
    ReachableStep(ENDING, ReadError);
    ReachableStep(ENDING.(reader := Gone, at := Closing(None, false)), NextSub(7));
    StuckExact(HELD);
  }

  lemma EndingIsReachable()
    ensures Reachable(ENDING)
  {
    SubscribedIsReachable();
    ReachableStep(SUBSCRIBED, Unsubscribe(0));
    ReachableStep(SUBSCRIBED.(once := map[0 := Waiting]), DecodeFailed);
  }
}
