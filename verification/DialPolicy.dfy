/** What a call of the dial scheduler is for: no dynamic slot is unused without a lookup, and the loop keeps ticking. */
module DialPolicy {
  import opened Dial

  /** The dials still needed are exactly the free dynamic slots, all through a call. */
  predicate NeedExact(c: Config, p: Plan, peers: map<NodeId, Flags>) {
    p.need == c.maxDyn - |Ids(peers, Dynamic)| - |Ids(p.d.dialing, Dynamic)|
  }

  lemma AddDialExact(c: Config, p: Plan, peers: map<NodeId, Flags>, flags: Flags, n: Node)
    requires NeedExact(c, p, peers)
    ensures NeedExact(c, AddDial(c, p, peers, flags, n), peers)
  {
    if CheckDial(c, p.d, n, peers) == Ok {
      IdsAdd(p.d.dialing, n.id, flags, Dynamic);
    }
  }

  lemma {:induction false} RedialAllExact(c: Config, p: Plan, peers: map<NodeId, Flags>, kind: Kind, order: seq<NodeId>)
    requires NeedExact(c, p, peers)
    ensures NeedExact(c, RedialAll(c, p, peers, kind, order), peers)
    decreases |order|
  {
    if |order| > 0 {
      if order[0] in Kept(p.d, kind) {
        AddDialExact(c, p, peers, FlagsOf(kind), Kept(p.d, kind)[order[0]]);
      }
      RedialAllExact(c, Redial(c, p, peers, kind, order[0]), peers, kind, order[1..]);
    }
  }

  lemma {:induction false} DialEachExact(c: Config, p: Plan, peers: map<NodeId, Flags>, nodes: seq<Node>)
    requires NeedExact(c, p, peers)
    ensures NeedExact(c, DialEach(c, p, peers, nodes), peers)
    decreases |nodes|
  {
    if |nodes| > 0 {
      AddDialExact(c, p, peers, DYN, nodes[0]);
      DialEachExact(c, AddDial(c, p, peers, DYN, nodes[0]), peers, nodes[1..]);
    }
  }

  /** The buffer is used up before a slot stays free. */
  lemma {:induction false} DialBufferedExact(c: Config, p: Plan, peers: map<NodeId, Flags>)
    requires NeedExact(c, p, peers)
    ensures var q := DialBuffered(c, p, peers); NeedExact(c, q, peers) && (q.need > 0 ==> q.d.lookupBuf == [])
    decreases |p.d.lookupBuf|
  {
    if |p.d.lookupBuf| > 0 && p.need > 0 {
      var p', n := p.(d := p.d.(lookupBuf := p.d.lookupBuf[1..])), p.d.lookupBuf[0];
      AddDialExact(c, p', peers, DYN, n);
      DialBufferedExact(c, AddDial(c, p', peers, DYN, n), peers);
    }
  }

  lemma FallbackExact(c: Config, p: Plan, peers: map<NodeId, Flags>, now: Time)
    requires NeedExact(c, p, peers)
    ensures NeedExact(c, Fallback(c, p, peers, now), peers)
  {
    if |p.d.bootnodes| > 0 {
      var n := p.d.bootnodes[0];
      AddDialExact(c, p.(d := p.d.(bootnodes := p.d.bootnodes[1..] + [n])), peers, DYN, n);
    }
  }

  lemma DialsExact(c: Config, d: Dialer, peers: map<NodeId, Flags>, now: Time, ch: Choice)
    ensures var p := Dials(c, d, peers, now, ch); NeedExact(c, p, peers) && (p.need > 0 ==> p.d.lookupBuf == [])
  {
    var p0 := Begin(c, d, peers, now);
    RedialAllExact(c, p0, peers, Static, ch.statics);
    var p1 := RedialAll(c, p0, peers, Static, ch.statics);
    RedialAllExact(c, p1, peers, Storeman, ch.storemen);
    var p2 := RedialAll(c, p1, peers, Storeman, ch.storemen);
    FallbackExact(c, p2, peers, now);
    var p3 := Fallback(c, p2, peers, now);
    var random := ch.random[..RandomCandidates(p3.need, ch.random)];
    DialEachExact(c, p3, peers, random);
    DialBufferedExact(c, DialEach(c, p3, peers, random), peers);
  }

  /** While a dynamic slot is free after a call, all lookup results have been tried and a lookup is running. */
  lemma FreeSlotMeansLookup(c: Config, d: Dialer, nRunning: nat, peers: map<NodeId, Flags>, now: Time, ch: Choice)
    ensures var d' := NewTasks(c, d, nRunning, peers, now, ch).0;
            |Ids(peers, Dynamic)| + |Ids(d'.dialing, Dynamic)| < c.maxDyn ==> d'.lookupBuf == [] && d'.lookupRunning
  {
    DialsExact(c, d, peers, now, ch);
  }

  /** A call that leaves nothing to wait for leaves no history; the timer it may set runs to the first expiry. */
  lemma LoopKeepsTicking(c: Config, d: Dialer, peers: map<NodeId, Flags>, now: Time, ch: Choice, base: seq<Task>)
    requires Tracks(d, base) && Apart(d) && WellKept(d) && Possible(d, now, ch)
    requires |Ids(peers, Dynamic) + Ids(d.dialing, Dynamic)| <= Max0(c.maxDyn)
    ensures var (d', ts) := NewTasks(c, d, |base|, peers, now, ch);
            && (base + ts == [] ==> d'.hist == map[])
            && (forall t | t in ts && t.WaitExpireTask? ::
                  base == [] && ts == [t] && Earliest(d'.hist, ch.first) && now + t.wait == d'.hist[ch.first])
  {
    NewTasksKeeps(c, d, |base|, peers, now, ch, base);
    NoTimerYet(c, d, peers, now, ch);
    WaitingTicks(Lookup(Dials(c, d, peers, now, ch)), base, now, ch.first);
  }

  lemma WaitingTicks(p: Plan, base: seq<Task>, now: Time, first: NodeId)
    requires NoTimer(p.tasks) && (|p.d.hist| > 0 ==> Earliest(p.d.hist, first))
    ensures var (d, ts) := Waiting(p, |base|, now, first);
            && (base + ts == [] ==> d.hist == map[])
            && (forall t | t in ts && t.WaitExpireTask? ::
                  base == [] && ts == [t] && Earliest(d.hist, first) && now + t.wait == d.hist[first])
  {
    if p.d.hist != map[] {
      var id :| id in p.d.hist;
      assert |p.d.hist| > 0;
    }
  }

  predicate NoTimer(ts: seq<Task>) {
    forall i | 0 <= i < |ts| :: !ts[i].WaitExpireTask?
  }

  lemma {:induction false} RedialAllNoTimer(c: Config, p: Plan, peers: map<NodeId, Flags>, kind: Kind,
                                            order: seq<NodeId>)
    requires NoTimer(p.tasks)
    ensures NoTimer(RedialAll(c, p, peers, kind, order).tasks)
    decreases |order|
  {
    if |order| > 0 {
      RedialAllNoTimer(c, Redial(c, p, peers, kind, order[0]), peers, kind, order[1..]);
    }
  }

  lemma {:induction false} DialEachNoTimer(c: Config, p: Plan, peers: map<NodeId, Flags>, nodes: seq<Node>)
    requires NoTimer(p.tasks)
    ensures NoTimer(DialEach(c, p, peers, nodes).tasks)
    decreases |nodes|
  {
    if |nodes| > 0 {
      DialEachNoTimer(c, AddDial(c, p, peers, DYN, nodes[0]), peers, nodes[1..]);
    }
  }

  lemma {:induction false} DialBufferedNoTimer(c: Config, p: Plan, peers: map<NodeId, Flags>)
    requires NoTimer(p.tasks)
    ensures NoTimer(DialBuffered(c, p, peers).tasks)
    decreases |p.d.lookupBuf|
  {
    if |p.d.lookupBuf| > 0 && p.need > 0 {
      var p', n := p.(d := p.d.(lookupBuf := p.d.lookupBuf[1..])), p.d.lookupBuf[0];
      DialBufferedNoTimer(c, AddDial(c, p', peers, DYN, n), peers);
    }
  }

  lemma NoTimerYet(c: Config, d: Dialer, peers: map<NodeId, Flags>, now: Time, ch: Choice)
    ensures NoTimer(Lookup(Dials(c, d, peers, now, ch)).tasks)
  {
    var p0 := Begin(c, d, peers, now);
    RedialAllNoTimer(c, p0, peers, Static, ch.statics);
    var p1 := RedialAll(c, p0, peers, Static, ch.statics);
    RedialAllNoTimer(c, p1, peers, Storeman, ch.storemen);
    var p3 := Fallback(c, RedialAll(c, p1, peers, Storeman, ch.storemen), peers, now);
    var random := ch.random[..RandomCandidates(p3.need, ch.random)];
    DialEachNoTimer(c, p3, peers, random);
    DialBufferedNoTimer(c, DialEach(c, p3, peers, random), peers);
  }

  // ----------------------------------------------------------------------------------- bootnodes

  /** Dynamic dials after the fallback: more nodes are being dialed, history and bootnodes stay. */
  predicate Later(d: Dialer, d': Dialer) {
    d.dialing.Keys <= d'.dialing.Keys && d'.hist == d.hist && d'.bootnodes == d.bootnodes
  }

  lemma {:induction false} DialEachLater(c: Config, p: Plan, peers: map<NodeId, Flags>, nodes: seq<Node>)
    ensures Later(p.d, DialEach(c, p, peers, nodes).d)
    decreases |nodes|
  {
    if |nodes| > 0 {
      DialEachLater(c, AddDial(c, p, peers, DYN, nodes[0]), peers, nodes[1..]);
    }
  }

  lemma {:induction false} DialBufferedLater(c: Config, p: Plan, peers: map<NodeId, Flags>)
    ensures Later(p.d, DialBuffered(c, p, peers).d)
    decreases |p.d.lookupBuf|
  {
    if |p.d.lookupBuf| > 0 && p.need > 0 {
      var p', n := p.(d := p.d.(lookupBuf := p.d.lookupBuf[1..])), p.d.lookupBuf[0];
      DialBufferedLater(c, AddDial(c, p', peers, DYN, n), peers);
    }
  }

  lemma {:induction false} RedialAllAside(c: Config, p: Plan, peers: map<NodeId, Flags>, kind: Kind, order: seq<NodeId>)
    ensures var q := RedialAll(c, p, peers, kind, order);
            q.need == p.need && q.d.bootnodes == p.d.bootnodes && q.d.start == p.d.start
    decreases |order|
  {
    if |order| > 0 {
      RedialAside(c, p, peers, kind, order[0]);
      RedialAllAside(c, Redial(c, p, peers, kind, order[0]), peers, kind, order[1..]);
    }
  }

  lemma RedialAside(c: Config, p: Plan, peers: map<NodeId, Flags>, kind: Kind, id: NodeId)
    ensures var q := Redial(c, p, peers, kind, id);
            q.need == p.need && q.d.bootnodes == p.d.bootnodes && q.d.start == p.d.start
  {
  }

  /** When the fallback is due: no peers, a free slot, a bootnode, and more than 20 seconds since the start. */
  predicate FallbackDue(c: Config, d: Dialer, peers: map<NodeId, Flags>, now: Time) {
    && |peers| == 0 && |d.bootnodes| > 0 && |Ids(peers, Dynamic)| + |Ids(d.dialing, Dynamic)| < c.maxDyn
    && Waited(d, now)
  }

  /** The first bootnode has been tried and is the last now, or nothing has happened to the queue. */
  predicate TookTurn(c: Config, was: seq<Node>, due: bool, d: Dialer, peers: map<NodeId, Flags>) {
    if due && |was| > 0 then d.bootnodes == was[1..] + [was[0]] && CheckDial(c, d, was[0], peers) != Ok
    else d.bootnodes == was
  }

  /** Exactly then the first bootnode is dialed, unless it cannot be, and goes to the end of the queue. */
  lemma BootnodeTakesItsTurn(c: Config, d: Dialer, nRunning: nat, peers: map<NodeId, Flags>, now: Time, ch: Choice)
    ensures TookTurn(c, d.bootnodes, FallbackDue(c, d, peers, now), NewTasks(c, d, nRunning, peers, now, ch).0, peers)
  {
    var p0 := Begin(c, d, peers, now);
    RedialAllAside(c, p0, peers, Static, ch.statics);
    var p1 := RedialAll(c, p0, peers, Static, ch.statics);
    RedialAllAside(c, p1, peers, Storeman, ch.storemen);
    var p2 := RedialAll(c, p1, peers, Storeman, ch.storemen);
    DueAfterBegin(c, d, p2, peers, now);
    AfterFallback(c, p2, peers, now, ch.random);
    LookupAside(c, d.bootnodes, FallbackDue(c, d, peers, now), DynamicDials(c, p2, peers, now, ch.random), peers);
  }

  predicate Due(p: Plan, peers: map<NodeId, Flags>, now: Time) {
    |peers| == 0 && |p.d.bootnodes| > 0 && p.need > 0 && Waited(p.d, now)
  }

  lemma DueAfterBegin(c: Config, d: Dialer, p: Plan, peers: map<NodeId, Flags>, now: Time)
    requires var p0 := Begin(c, d, peers, now);
             p.need == p0.need && p.d.bootnodes == p0.d.bootnodes && p.d.start == p0.d.start
    ensures p.d.bootnodes == d.bootnodes && (Due(p, peers, now) <==> FallbackDue(c, d, peers, now))
  {
  }

  lemma LookupAside(c: Config, was: seq<Node>, due: bool, p: Plan, peers: map<NodeId, Flags>)
    requires TookTurn(c, was, due, p.d, peers)
    ensures TookTurn(c, was, due, Lookup(p).d, peers)
  {
  }

  lemma AfterFallback(c: Config, p: Plan, peers: map<NodeId, Flags>, now: Time, random: seq<Node>)
    ensures TookTurn(c, p.d.bootnodes, Due(p, peers, now), DynamicDials(c, p, peers, now, random).d, peers)
  {
    var p1 := Fallback(c, p, peers, now);
    var nodes := random[..RandomCandidates(p1.need, random)];
    DialEachLater(c, p1, peers, nodes);
    DialBufferedLater(c, DialEach(c, p1, peers, nodes), peers);
  }
}
