/** The run loop of p2p/server.go as it runs: each select case is a method that does the step of the state machine. */
module ServerLoop {
  import opened Dial
  import opened DialState
  import opened Server

  lemma ReplenishIs(c: Server.Config, s: State, now: Time, ch: Choice, d: Dialer, ts: seq<Task>)
    requires (d, ts) == Dial.NewTasks(DialConfig(c), s.d, |s.running| + |s.queued|, s.peers, now, ch)
    ensures Replenish(c, s, now, ch) == StartNew(s.(d := d, clock := now), ts)
  {
  }

  lemma StoremanAddsFrom(d: Dialer, n: Node, nodes: seq<Node>, i: nat)
    requires i < |nodes|
    ensures StoremanAdds(d, n, nodes[i..])
         == StoremanAdds(if nodes[i].id == n.id then Dial.AddStoreman(d, n) else d, n, nodes[i + 1..])
  {
    assert nodes[i..][0] == nodes[i] && nodes[i..][1..] == nodes[i + 1..];
  }

  lemma PassOne(ts: seq<Task>, i: nat, t: Task)
    requires i < |ts|
    ensures ts[..i] + Without(ts[i..], t)
         == if ts[i] == t then ts[..i] + ts[i + 1..] else ts[..i + 1] + Without(ts[i + 1..], t)
  {
    assert ts[i..][0] == ts[i] && ts[i..][1..] == ts[i + 1..];
    assert ts[..i + 1] == ts[..i] + [ts[i]];
  }

  class ServerLoop {
    const c: Server.Config
    const dialer: DialState
    var peers: map<NodeId, Flags>
    var inboundCount: int
    var running: seq<Task>
    var queued: seq<Task>
    var done: seq<Task>
    ghost var setup: seq<Conn>
    ghost var live: set<Conn>
    ghost var clock: Time
    ghost var finished: map<NodeId, Time>
    var quitting: bool

    ghost predicate Valid()
      reads this, dialer, dialer.hist
    {
      dialer.Valid() && dialer.c == DialConfig(c)
    }

    ghost function Model(): State
      reads this, dialer
    {
      State(dialer.Model(), peers, inboundCount, running, queued, done, setup, live, clock, finished, quitting)
    }

    constructor (c: Server.Config, statics: seq<Node>, storemen: seq<Node>, bootnodes: seq<Node>, ghost now: Time)
      ensures Valid() && this.c == c && fresh(dialer) && fresh(dialer.hist)
      ensures Model() == Start(statics, storemen, bootnodes, now)
    {
      this.c := c;
      dialer := new DialState(DialConfig(c), statics, storemen, bootnodes);
      peers, inboundCount, running, queued, done := map[], 0, [], [], [];
      setup, live, clock, finished, quitting := [], {}, now, map[], false;
    }

    /** Starts tasks until the maximum is active, and returns the rest. */
    method StartTasks(ts: seq<Task>) returns (rest: seq<Task>)
      modifies this`running
      ensures var k := Startable(old(running), ts); running == old(running) + ts[..k] && rest == ts[k..]
    {
      var i: nat := 0;
      while |running| < MAX_ACTIVE_DIAL_TASKS && i < |ts|
        invariant i <= Startable(old(running), ts) && running == old(running) + ts[..i]
      {
        running := running + [ts[i]];
        i := i + 1;
      }
      rest := ts[i..];
    }

    /** Removes a task from the running ones. */
    method DelTask(t: Task)
      modifies this`running
      ensures running == Without(old(running), t)
    {
      ghost var was := running;
      assert was[..0] + was[0..] == was;
      for i := 0 to |running|
        invariant running == was && Without(was, t) == was[..i] + Without(was[i..], t)
      {
        PassOne(was, i, t);
        if running[i] == t {
          running := running[..i] + running[i + 1..];
          return;
        }
      }
      assert was[..|was|] == was;
    }

    method StartFromQueue()
      requires Valid()
      modifies this`running, this`queued
      ensures Valid() && Model() == StartQueued(old(Model()))
    {
      queued := StartTasks(queued);
    }

    /** Starts what can be started and queues the rest. */
    method StartAll(ts: seq<Task>)
      requires Valid()
      modifies this`running, this`queued
      ensures Valid() && Model() == StartNew(old(Model()), ts)
    {
      var rest := StartTasks(ts);
      queued := queued + rest;
    }

    method AskDialer(now: Time, random: seq<Node>) returns (ts: seq<Task>, ghost ch: Choice)
      requires Valid()
      modifies this`clock, dialer, dialer.hist
      ensures Valid() && Possible(old(dialer.Model()), now, ch)
      ensures Model() == old(Model()).(d := dialer.Model(), clock := now)
      ensures (dialer.Model(), ts) == Dial.NewTasks(DialConfig(c), old(Model().d), |running| + |queued|, peers, now, ch)
    {
      ts, ch := dialer.NewTasks(|running| + |queued|, peers, now, random);
      clock := now;
    }

    method StartFromDialer(now: Time, random: seq<Node>) returns (ghost ch: Choice)
      requires Valid()
      modifies this`running, this`queued, this`clock, dialer, dialer.hist
      ensures Valid() && Possible(old(dialer.Model()), now, ch)
      ensures Model() == Replenish(c, old(Model()), now, ch)
    {
      ghost var s := Model();
      var ts;
      ts, ch := AskDialer(now, random);
      ReplenishIs(c, s, now, ch, dialer.Model(), ts);
      StartAll(ts);
    }

    /** Starts queued tasks first, then asks the dialer for new ones. */
    method Schedule(now: Time, random: seq<Node>) returns (ghost ch: Choice)
      requires Valid()
      modifies this`running, this`queued, this`clock, dialer, dialer.hist
      ensures Valid() && Possible(old(dialer.Model()), now, ch)
      ensures Model() == ScheduleTasks(c, old(Model()), now, ch)
    {
      StartFromQueue();
      ch := SomeChoice(dialer.Model(), now);
      if |running| < MAX_ACTIVE_DIAL_TASKS {
        ch := StartFromDialer(now, random);
      }
    }

    method Settle(t: Task, now: Time, results: seq<Node>)
      requires Valid()
      modifies this`running, dialer, dialer.hist
      ensures dialer.Model() == Dial.TaskDone(old(dialer.Model()), t, results, now)
      ensures running == Without(old(running), t)
      ensures Valid() <==> (t.DialTask? ==> t.id !in old(dialer.past))
    {
      dialer.TaskDone(t, results, now);
      DelTask(t);
    }

    /** Takes a finished task off the channel. */
    method TaskDone(now: Time, results: seq<Node>)
      requires Valid() && |done| > 0
      modifies this`running, this`done, this`clock, this`finished, dialer, dialer.hist
      ensures Model() == HandleTaskDone(old(Model()), now, results)
      ensures Valid() <==> (old(done)[0].DialTask? ==> old(done)[0].id !in old(dialer.past))
    {
      Settle(done[0], now, results);
      clock, finished := now, Finished(finished, done[0], now);
      done := done[1..];
    }

    /** A node to keep connected: as a storeman if it is configured as one, as a static node otherwise. */
    method Keep(n: Node)
      requires Valid()
      modifies dialer, dialer.hist
      ensures Valid() && dialer.Model() == AddedNode(c, old(dialer.Model()), n)
    {
      var isStoreman, i := false, 0;
      while i < |c.storemanNodes|
        invariant 0 <= i <= |c.storemanNodes| && dialer.Valid()
        invariant isStoreman <==> exists k | 0 <= k < i :: c.storemanNodes[k].id == n.id
        invariant StoremanAdds(dialer.Model(), n, c.storemanNodes[i..])
               == StoremanAdds(old(dialer.Model()), n, c.storemanNodes)
        invariant !isStoreman ==> dialer.Model() == old(dialer.Model())
      {
        StoremanAddsFrom(dialer.Model(), n, c.storemanNodes, i);
        if c.storemanNodes[i].id == n.id {
          dialer.AddStoreman(n);
          isStoreman := true;
        }
        i := i + 1;
      }
      if !isStoreman {
        dialer.AddStatic(n);
      }
    }

    method AddStatic(n: Node)
      requires Valid()
      modifies this`finished, dialer, dialer.hist
      ensures Valid() && Model() == WithDialer(old(Model()), AddedNode(c, old(dialer.Model()), n), n.id)
    {
      ghost var was := dialer.past;
      Keep(n);
      finished := Forgotten(finished, was, dialer.past, n.id);
    }

    /** A node not to keep connected any more; the first configured storeman stays. */
    method Unkeep(n: Node)
      requires Valid()
      modifies dialer, dialer.hist
      ensures Valid() && dialer.Model() == RemovedNode(c, old(dialer.Model()), n)
    {
      var isStoreman, i := false, 0;
      while i < |c.storemanNodes|
        invariant 0 <= i <= |c.storemanNodes| && dialer.Valid()
        invariant isStoreman <==> exists k | 0 <= k < i :: c.storemanNodes[k].id == n.id
        invariant i == 0 ==> dialer.Model() == old(dialer.Model())
        invariant i > 0 ==>
                    (StoremanRemoves(dialer.Model(), n, c.storemanNodes[i..])
                     == StoremanRemoves(old(dialer.Model()), n, c.storemanNodes[1..]))
        invariant !isStoreman ==> dialer.Model() == old(dialer.Model())
      {
        if c.storemanNodes[i].id == n.id {
          if i != 0 {
            dialer.RemoveStoreman(n);
          }
          isStoreman := true;
        }
        i := i + 1;
      }
      if !isStoreman {
        dialer.RemoveStatic(n);
      }
    }

    /** `disconnect` says whether a peer is asked to leave. */
    method RemoveStatic(n: Node) returns (disconnect: bool)
      requires Valid()
      modifies this`finished, dialer, dialer.hist
      ensures Valid() && Model() == WithDialer(old(Model()), RemovedNode(c, old(dialer.Model()), n), n.id)
      ensures disconnect <==> n.id in peers
    {
      ghost var was := dialer.past;
      Unkeep(n);
      finished := Forgotten(finished, was, dialer.past, n.id);
      disconnect := n.id in peers;
    }

    /** First checkpoint: the trusted flag is set before the limits are checked. */
    method PostHandshake(conn: Conn) returns (conn': Conn, verdict: Admission)
      requires Valid()
      modifies this`setup
      ensures Valid() && Model() == HandlePostHandshake(c, old(Model()), Trusting(c, conn))
      ensures conn' == Trusting(c, conn) && (verdict == Accept <==> Admissible(c, peers, inboundCount, conn'))
      ensures verdict == DiscTooManyPeers <==> !WithinLimits(c, |peers|, inboundCount, conn'.flags)
    {
      conn' := conn;
      if conn.id in c.trusted {
        conn' := conn.(flags := conn.flags.(trusted := true));
      }
      verdict := EncHandshakeChecks(c, peers, inboundCount, conn');
      ChecksExact(c, peers, inboundCount, conn');
      if verdict == Accept {
        setup := setup + [conn'];
      }
    }

    /** Second checkpoint: the checks are repeated, since the peers may have changed in between. */
    method AddPeer(conn: Conn, useless: bool, ghost i: nat) returns (verdict: Admission)
      requires Valid() && i < |setup| && setup[i] == conn
      modifies this`peers, this`inboundCount, this`setup, this`live
      ensures Valid() && Model() == HandleAddPeer(c, old(Model()), i, useless)
      ensures verdict == Accept <==> !useless && Admissible(c, old(peers), old(inboundCount), conn)
      ensures peers == if verdict == Accept then old(peers)[conn.id := conn.flags] else old(peers)
    {
      verdict := ProtoHandshakeChecks(c, peers, inboundCount, conn, useless);
      ChecksExact(c, peers, inboundCount, conn);
      setup := setup[..i] + setup[i + 1..];
      if verdict == Accept {
        Add(conn);
      }
    }

    method Add(conn: Conn)
      modifies this`peers, this`inboundCount, this`live
      ensures Model() == Admit(old(Model()), conn) && peers == old(peers)[conn.id := conn.flags]
    {
      peers := peers[conn.id := conn.flags];
      live := live + {conn};
      if conn.flags.inbound {
        inboundCount := inboundCount + 1;
      }
    }

    /** A peer is gone. While the server stops, the inbound count is not kept up any more. */
    method DelPeer(peer: Conn)
      requires Valid()
      modifies this`peers, this`inboundCount, this`live
      ensures Valid() && Model() == Drop(old(Model()), peer)
    {
      peers := peers - {peer.id};
      live := live - {peer};
      if peer.flags.inbound && !quitting {
        inboundCount := inboundCount - 1;
      }
    }

    method Quit()
      requires Valid()
      modifies this`quitting
      ensures Valid() && Model() == old(Model()).(quitting := true)
    {
      quitting := true;
    }
  }
}
