/** The dispatch loop as rpc/client.go runs it: each select case is a method that does the step of the state machine. */
module RpcClient {
  import opened Common
  import opened Rpc

  lemma RegisterOne(m: map<Id, nat>, ids: seq<Id>, k: nat, id: Id)
    ensures Register(m, ids, k)[id := k] == Register(m, ids + [id], k)
  {
  }

  lemma DeregisterOne(m: map<Id, nat>, ids: seq<Id>, id: Id)
    ensures Deregister(m, ids) - {id} == Deregister(m, ids + [id])
  {
  }

  lemma ValuesWithout(m: map<Id, nat>, id: Id)
    requires id in m
    ensures m.Values == (m - {id}).Values + {m[id]}
  {
    forall k | k in m.Values ensures k in (m - {id}).Values + {m[id]} {
      var i :| i in m && m[i] == k;
      if i != id {
        assert i in m - {id} && (m - {id})[i] == k;
      }
    }
  }

  /** The k-th channel joins the closed ones, if it is not among them. */
  lemma ClosedAtOne(chans: seq<seq<Action>>, ks: set<nat>, k: nat)
    requires k < |chans|
    ensures var now := ClosedAt(chans, ks);
            ClosedAt(chans, ks + {k}) == if k in ks then now else now[k := now[k] + [Closed]]
  {
  }

  lemma ClosedAtNone(chans: seq<seq<Action>>)
    ensures ClosedAt(chans, {}) == chans
  {
  }

  class Client {
    var ops: seq<Op>
    var chans: seq<seq<Action>>
    var respWait: map<Id, nat>
    var subs: map<SubId, nat>
    var started: set<nat>
    var lastOp: Option<nat>
    ghost var withdrawn: set<nat>
    var at: Dispatch
    var reading: bool
    var reader: Reader
    var broken: bool
    var writer: Writer
    var once: map<nat, Once>

    ghost function Requests(): Book
      reads this`ops, this`chans, this`respWait, this`subs, this`started, this`lastOp, this`withdrawn
    {
      Book(ops, chans, respWait, subs, started, lastOp, withdrawn)
    }

    ghost function Model(): State
      reads this
    {
      State(Requests(), at, reading, reader, broken, writer, once)
    }

    constructor ()
      ensures Model() == INITIAL
    {
      ops, chans, respWait, subs, started, lastOp, withdrawn := [], [], map[], map[], {}, None, {};
      at, reading, reader, broken, writer, once := Selecting, true, Decoding, false, Writing, map[];
    }

    method RegisterIds(ids: seq<Id>, k: nat)
      modifies this`respWait
      ensures respWait == Register(old(respWait), ids, k)
    {
      var i: nat := 0;
      while i < |ids|
        invariant i <= |ids| && respWait == Register(old(respWait), ids[..i], k)
      {
        RegisterOne(old(respWait), ids[..i], k, ids[i]);
        respWait := respWait[ids[i] := k];
        assert ids[..i + 1] == ids[..i] + [ids[i]];
        i := i + 1;
      }
      assert ids[..i] == ids;
    }

    method DeregisterIds(ids: seq<Id>)
      modifies this`respWait
      ensures respWait == Deregister(old(respWait), ids)
    {
      var i: nat := 0;
      while i < |ids|
        invariant i <= |ids| && respWait == Deregister(old(respWait), ids[..i])
      {
        DeregisterOne(old(respWait), ids[..i], ids[i]);
        respWait := respWait - {ids[i]};
        assert ids[..i + 1] == ids[..i] + [ids[i]];
        i := i + 1;
      }
      assert ids[..i] == ids;
    }

    /** Takes the send lock and registers the ids of a request; it may be one that ends a subscription. */
    method Accept(op: Op, ending: Option<nat>)
      requires Owned(Requests()) && Enabled(Model(), Event.Accept(op, ending))
      modifies this`ops, this`chans, this`respWait, this`lastOp, this`writer, this`once
      ensures Model() == Step(old(Model()), Event.Accept(op, ending))
    {
      if ending.Some? {
        once := once[ending.value := Calling(|ops|)];
      }
      writer := Writing;
      TakeLock(op);
    }

    method TakeLock(op: Op)
      modifies this`ops, this`chans, this`respWait, this`lastOp
      ensures Requests() == AcceptOp(old(Requests()), op)
    {
      RegisterIds(op.ids, |ops|);
      lastOp, ops, chans := Some(|ops|), ops + [op], chans + [[]];
    }

    /** Releases the send lock; a request whose write failed is deregistered. */
    method SendDone()
      requires Owned(Requests()) && Enabled(Model(), Event.SendDone)
      modifies this`respWait, this`lastOp, this`withdrawn
      ensures Model() == Step(old(Model()), Event.SendDone)
    {
      if writer.failed {
        DeregisterIds(ops[lastOp.value].ids);
        withdrawn := withdrawn + {lastOp.value};
      }
      lastOp := None;
    }

    method Response(id: Id, subId: Option<SubId>)
      requires Owned(Requests())
      modifies this`respWait, this`chans, this`subs, this`started
      ensures Requests() == HandleResponse(old(Requests()), id, subId)
    {
      if id !in respWait {
        return;
      }
      var k := respWait[id];
      respWait := respWait - {id};
      if !ops[k].sub {
        chans := chans[k := chans[k] + [Sent(id)]];
        return;
      }
      chans := chans[k := chans[k] + [Closed]];
      if subId.Some? {
        subs, started := subs[subId.value := k], started + {k};
      }
    }

    /** Handles the messages of a batch one after the other. */
    method Messages(batch: seq<Message>)
      requires Owned(Requests())
      modifies this`respWait, this`chans, this`subs, this`started
      ensures Requests() == HandleBatch(old(Requests()), batch)
    {
      var i: nat := 0;
      while i < |batch|
        invariant i <= |batch| && Owned(Requests())
        invariant HandleBatch(Requests(), batch[i..]) == HandleBatch(old(Requests()), batch)
      {
        assert batch[i..][0] == batch[i] && batch[i..][1..] == batch[i + 1..];
        if batch[i].Reply? {
          Response(batch[i].id, batch[i].started);
        }
        i := i + 1;
      }
    }

    method ReadBatch()
      requires Owned(Requests()) && Enabled(Model(), Event.ReadBatch)
      modifies this`respWait, this`chans, this`subs, this`started, this`reader
      ensures Model() == Step(old(Model()), Event.ReadBatch)
    {
      Messages(reader.batch);
      reader := Decoding;
    }

    /** Closes each registered request once, however many ids it has. */
    method CloseWaiting()
      requires forall id | id in respWait :: respWait[id] < |chans|
      modifies this`respWait, this`chans
      ensures respWait == map[] && chans == ClosedAt(old(chans), old(respWait).Values)
    {
      var didClose: set<nat> := {};
      ClosedAtNone(chans);
      while respWait != map[]
        invariant forall id | id in respWait :: respWait[id] < |chans|
        invariant old(respWait).Values == didClose + respWait.Values
        invariant chans == ClosedAt(old(chans), didClose)
        decreases |respWait|
      {
        var id :| id in respWait;
        var k := respWait[id];
        ValuesWithout(respWait, id);
        ClosedAtOne(old(chans), didClose, k);
        respWait := respWait - {id};
        if k !in didClose {
          chans := chans[k := chans[k] + [Closed]];
          didClose := didClose + {k};
        }
      }
      assert old(respWait).Values == didClose;
    }

    method ReadError()
      requires Owned(Requests()) && Enabled(Model(), Event.ReadError)
      modifies this`respWait, this`chans, this`at, this`reader
      ensures Model() == Step(old(Model()), Event.ReadError)
    {
      reader, at := Gone, Closing(None, false);
      CloseWaiting();
    }

    method Close()
      requires Owned(Requests()) && Enabled(Model(), Event.Close)
      modifies this`respWait, this`chans, this`at
      ensures Model() == Step(old(Model()), Event.Close)
    {
      at := Closing(None, true);
      CloseWaiting();
    }

    /** One round of the loop over the known subscriptions: the next one is deleted. */
    method NextSub(id: SubId)
      requires Owned(Requests()) && Enabled(Model(), Event.NextSub(id))
      modifies this`subs, this`at
      ensures Model() == Step(old(Model()), Event.NextSub(id))
    {
      at := at.(sub := Some(subs[id]));
      subs := subs - {id};
    }

    /** The round goes on when nobody else is ending the subscription. */
    method QuitSub()
      requires Owned(Requests()) && Enabled(Model(), Event.QuitSub)
      modifies this`once, this`at
      ensures Model() == Step(old(Model()), Event.QuitSub)
    {
      once := once[at.sub.value := Over];
      at := at.(sub := None);
    }

    /** The loop over the subscriptions is over: back to select, or on to the read channels. */
    method CloseDone()
      requires Owned(Requests()) && Enabled(Model(), Event.CloseDone)
      modifies this`at, this`reading
      ensures Model() == Step(old(Model()), Event.CloseDone)
    {
      if !at.quitting {
        at, reading := Selecting, false;
      } else if reading {
        at := Draining;
      } else {
        at := Finished;
      }
    }

    /** Starts to read a new connection, but only once the old one, if it is still read, has failed. */
    method Reconnected()
      requires Owned(Requests()) && Enabled(Model(), Event.Reconnected)
      modifies this`broken, this`writer, this`at, this`reading, this`reader
      ensures Model() == Step(old(Model()), Event.Reconnected)
    {
      broken, writer := false, Writing;
      if reading {
        at := Taking;
      } else {
        StartReading();
      }
    }

    /** The error of the old connection has come: it is dropped. */
    method Taken()
      requires Owned(Requests()) && Enabled(Model(), Event.Taken)
      modifies this`at, this`reading, this`reader
      ensures Model() == Step(old(Model()), Event.Taken)
    {
      StartReading();
    }

    method StartReading()
      modifies this`at, this`reading, this`reader
      ensures Model() == NewReader(old(Model()))
    {
      reading, reader, at := true, Decoding, Selecting;
    }
  }

  // --------------------------------------------------------------------- forwarding a subscription

  const MAX_CLIENT_SUBSCRIPTION_BUFFER: nat := 8000

  /** A value is received, one that does not unmarshal as `None`; the first buffered value is handed on; or quit. */
  datatype Forwarding<T> = In(value: Option<T>) | Out | Quit

  datatype Ending = Running | Stopped | Invalid | Overflow

  /** What a subscription has buffered and handed on, and how it has ended, if it has. */
  datatype Forwarder<T> = Forwarder(buffer: seq<T>, out: seq<T>, ending: Ending)

  function ForwardOne<T>(f: Forwarder<T>, e: Forwarding<T>): Forwarder<T> {
    match e
    case Quit => f.(ending := Stopped)
    case Out => if |f.buffer| == 0 then f else f.(buffer := f.buffer[1..], out := f.out + [f.buffer[0]])
    case In(v) =>
      if v.None? then f.(ending := Invalid)
      else if |f.buffer| == MAX_CLIENT_SUBSCRIPTION_BUFFER then f.(ending := Overflow)
      else f.(buffer := f.buffer + [v.value])
  }

  function Forward<T>(f: Forwarder<T>, es: seq<Forwarding<T>>): Forwarder<T>
    decreases |es|
  {
    if |es| == 0 || !f.ending.Running? then f else Forward(ForwardOne(f, es[0]), es[1..])
  }

  /** How a subscription ends whose buffer is never full, and the values that it receives until then. */
  function EndingOf<T>(es: seq<Forwarding<T>>): Ending {
    if |es| == 0 then Running
    else if es[0].Quit? then Stopped
    else if es[0] == In(None) then Invalid
    else EndingOf(es[1..])
  }

  function Inputs<T>(es: seq<Forwarding<T>>): seq<T> {
    if |es| == 0 || es[0].Quit? || es[0] == In(None) then []
    else if es[0].Out? then Inputs(es[1..])
    else [es[0].value.value] + Inputs(es[1..])
  }

  lemma AddLast<T>(a: seq<T>, b: seq<T>, v: T, rest: seq<T>)
    ensures a + (b + [v]) + rest == a + b + ([v] + rest)
  {
  }

  lemma MoveFirst<T>(a: seq<T>, b: seq<T>)
    requires |b| > 0
    ensures a + [b[0]] + b[1..] == a + b
  {
  }

  /**
    * A subscriber gets the values in order and without a gap, up to the first quit or the first value that does not
    * unmarshal, or else up to the first value that finds 8000 buffered ones.
    */
  lemma {:induction false} ForwardInOrder<T>(f: Forwarder<T>, es: seq<Forwarding<T>>)
    requires f.ending.Running? && |f.buffer| <= MAX_CLIENT_SUBSCRIPTION_BUFFER
    ensures var g := Forward(f, es);
            && |g.buffer| <= MAX_CLIENT_SUBSCRIPTION_BUFFER
            && (if g.ending.Overflow?
                then |g.buffer| == MAX_CLIENT_SUBSCRIPTION_BUFFER && g.out + g.buffer < f.out + f.buffer + Inputs(es)
                else g.ending == EndingOf(es) && g.out + g.buffer == f.out + f.buffer + Inputs(es))
    decreases |es|
  {
    if |es| > 0 && !es[0].Quit? && es[0] != In(None) {
      if es[0].Out? {
        if |f.buffer| > 0 {
          MoveFirst(f.out, f.buffer);
        }
        ForwardInOrder(ForwardOne(f, es[0]), es[1..]);
      } else if |f.buffer| < MAX_CLIENT_SUBSCRIPTION_BUFFER {
        AddLast(f.out, f.buffer, es[0].value.value, Inputs(es[1..]));
        ForwardInOrder(ForwardOne(f, es[0]), es[1..]);
      }
    }
  }
}
