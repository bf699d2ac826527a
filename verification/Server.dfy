/**
  * The run loop of p2p/server.go as a state machine: every select case is a step, and so are the moves of the
  * goroutines it talks to (dial tasks, connection set-up, running peers). What holds in every reachable state is
  * proved by induction over runs.
  */
module Server {
  import opened Common
  import opened Dial

  const MAX_ACTIVE_DIAL_TASKS: nat := 37
  const DEFAULT_DIAL_RATIO: nat := 3

  datatype Config = Config(
    maxPeers: nat, dialRatio: int, noDiscovery: bool, noDial: bool, self: NodeId, restrict: Option<set<nat>>,
    trusted: set<NodeId>, storemanNodes: seq<Node>)

  function MaxDialedConns(c: Config): int {
    if c.noDiscovery || c.noDial then 0
    else if c.dialRatio == 0 then c.maxPeers / DEFAULT_DIAL_RATIO
    else c.maxPeers / c.dialRatio
  }

  function MaxInboundConns(c: Config): int {
    c.maxPeers - MaxDialedConns(c)
  }

  function DialConfig(c: Config): Dial.Config {
    Dial.Config(MaxDialedConns(c), c.self, !c.noDiscovery, c.restrict)
  }

  /** A connection, during set-up and as a peer. `dialed` says whether a dial task made it. */
  datatype Conn = Conn(id: NodeId, flags: Flags, dialed: bool)

  datatype Admission = Accept | DiscUselessPeer | DiscTooManyPeers | DiscAlreadyConnected | DiscSelf

  function EncHandshakeChecks(c: Config, peers: map<NodeId, Flags>, inboundCount: int, conn: Conn): Admission {
    if Has(conn.flags, Plain) && |peers| >= c.maxPeers then DiscTooManyPeers
    else if Has(conn.flags, UntrustedInbound) && inboundCount >= MaxInboundConns(c) then DiscTooManyPeers
    else if conn.id in peers then DiscAlreadyConnected
    else if conn.id == c.self then DiscSelf
    else Accept
  }

  function ProtoHandshakeChecks(c: Config, peers: map<NodeId, Flags>, inboundCount: int, conn: Conn,
                                useless: bool): Admission
  {
    if useless then DiscUselessPeer else EncHandshakeChecks(c, peers, inboundCount, conn)
  }

  /** Trusted connections are above both limits, dialed static and storeman ones above the first. */
  predicate WithinLimits(c: Config, peers: nat, inbound: int, f: Flags) {
    && (peers < c.maxPeers || f.trusted || f.staticDialed || f.storemanDialed)
    && (inbound < MaxInboundConns(c) || f.trusted || !f.inbound)
  }

  /** The connections that the checks let through. */
  predicate Admissible(c: Config, peers: map<NodeId, Flags>, inboundCount: int, conn: Conn) {
    conn.id !in peers && conn.id != c.self && WithinLimits(c, |peers|, inboundCount, conn.flags)
  }

  lemma ChecksExact(c: Config, peers: map<NodeId, Flags>, inboundCount: int, conn: Conn)
    ensures var v := EncHandshakeChecks(c, peers, inboundCount, conn);
            && (v == Accept <==> Admissible(c, peers, inboundCount, conn))
            && (v == DiscTooManyPeers <==> !WithinLimits(c, |peers|, inboundCount, conn.flags))
  {
  }

  /**
    * `done` is the buffer of the taskdone channel, `setup` the connections between their two checkpoints, `live` the
    * peers whose goroutine runs. `clock` is the latest time read, `finished` when each node's last dial was put in
    * the history, unless it was explicitly removed from there since.
    */
  datatype State = State(
    d: Dialer, peers: map<NodeId, Flags>, inboundCount: int, running: seq<Task>, queued: seq<Task>, done: seq<Task>,
    setup: seq<Conn>, live: set<Conn>, clock: Time, finished: map<NodeId, Time>, quitting: bool)

  datatype Event =
    | Schedule(now: Time, choice: Choice)
    | Finish(task: Task)
    | TaskDone(now: Time, results: seq<Node>)
    | AddStatic(node: Node)
    | RemoveStatic(node: Node)
    | PostHandshake(conn: Conn)
    | GiveUp(i: nat)
    | AddPeer(i: nat, useless: bool)
    | DelPeer(peer: Conn)
    | Resolve(task: Task, node: Node, held: bool)
    | Quit

  // ------------------------------------------------------------------------------------- steps

  function Startable(running: seq<Task>, ts: seq<Task>): (k: nat)
    ensures k <= |ts|
  {
    if |running| >= MAX_ACTIVE_DIAL_TASKS then 0
    else if MAX_ACTIVE_DIAL_TASKS - |running| < |ts| then MAX_ACTIVE_DIAL_TASKS - |running|
    else |ts|
  }

  function StartQueued(s: State): State {
    var k := Startable(s.running, s.queued);
    s.(running := s.running + s.queued[..k], queued := s.queued[k..])
  }

  function StartNew(s: State, ts: seq<Task>): State {
    var k := Startable(s.running, ts);
    s.(running := s.running + ts[..k], queued := s.queued + ts[k..])
  }

  function ScheduleTasks(c: Config, s: State, now: Time, ch: Choice): State {
    var s1 := StartQueued(s);
    if |s1.running| < MAX_ACTIVE_DIAL_TASKS then Replenish(c, s1, now, ch) else s1
  }

  function Replenish(c: Config, s: State, now: Time, ch: Choice): State {
    var (d, ts) := NewTasks(DialConfig(c), s.d, |s.running| + |s.queued|, s.peers, now, ch);
    StartNew(s.(d := d, clock := now), ts)
  }

  function Without<T(==)>(s: seq<T>, x: T): seq<T> {
    if |s| == 0 then [] else if s[0] == x then s[1..] else [s[0]] + Without(s[1..], x)
  }

  function HandleTaskDone(s: State, now: Time, results: seq<Node>): State
    requires |s.done| > 0
  {
    var t := s.done[0];
    s.(d := Dial.TaskDone(s.d, t, results, now), running := Without(s.running, t), done := s.done[1..], clock := now,
       finished := Finished(s.finished, t, now))
  }

  function Finished(finished: map<NodeId, Time>, t: Task, now: Time): map<NodeId, Time> {
    if t.DialTask? then finished[t.id := now] else finished
  }

  function StoremanAdds(d: Dialer, n: Node, nodes: seq<Node>): Dialer
    decreases |nodes|
  {
    if |nodes| == 0 then d
    else StoremanAdds(if nodes[0].id == n.id then AddStoreman(d, n) else d, n, nodes[1..])
  }

  function StoremanRemoves(d: Dialer, n: Node, nodes: seq<Node>): Dialer
    decreases |nodes|
  {
    if |nodes| == 0 then d
    else StoremanRemoves(if nodes[0].id == n.id then RemoveStoreman(d, n) else d, n, nodes[1..])
  }

  predicate IsStoreman(c: Config, id: NodeId) {
    exists k | 0 <= k < |c.storemanNodes| :: c.storemanNodes[k].id == id
  }

  function AddedNode(c: Config, d: Dialer, n: Node): Dialer {
    if IsStoreman(c, n.id) then StoremanAdds(d, n, c.storemanNodes) else Dial.AddStatic(d, n)
  }

  /** The first configured storeman node cannot be removed. */
  function RemovedNode(c: Config, d: Dialer, n: Node): Dialer {
    if IsStoreman(c, n.id) then StoremanRemoves(d, n, c.storemanNodes[1..]) else Dial.RemoveStatic(d, n)
  }

  /** Only an explicit removal from the history is forgotten. */
  function Forgotten(finished: map<NodeId, Time>, was: map<NodeId, Time>, hist: map<NodeId, Time>,
                     id: NodeId): map<NodeId, Time>
  {
    if id in was && id !in hist then finished - {id} else finished
  }

  function WithDialer(s: State, d: Dialer, id: NodeId): State {
    s.(d := d, finished := Forgotten(s.finished, s.d.hist, d.hist, id))
  }

  function Trusting(c: Config, conn: Conn): Conn {
    if conn.id in c.trusted then conn.(flags := conn.flags.(trusted := true)) else conn
  }

  function Admit(s: State, conn: Conn): State {
    s.(peers := s.peers[conn.id := conn.flags], live := s.live + {conn},
       inboundCount := if conn.flags.inbound then s.inboundCount + 1 else s.inboundCount)
  }

  function HandlePostHandshake(c: Config, s: State, conn: Conn): State {
    if EncHandshakeChecks(c, s.peers, s.inboundCount, conn) == Accept then s.(setup := s.setup + [conn]) else s
  }

  function LeaveSetup(s: State, i: nat): State
    requires i < |s.setup|
  {
    s.(setup := s.setup[..i] + s.setup[i + 1..])
  }

  function HandleAddPeer(c: Config, s: State, i: nat, useless: bool): State
    requires i < |s.setup|
  {
    if ProtoHandshakeChecks(c, s.peers, s.inboundCount, s.setup[i], useless) == Accept then
      Admit(LeaveSetup(s, i), s.setup[i])
    else LeaveSetup(s, i)
  }

  function Drop(s: State, peer: Conn): State {
    s.(peers := s.peers - {peer.id}, live := s.live - {peer},
       inboundCount := if peer.flags.inbound && !s.quitting then s.inboundCount - 1 else s.inboundCount)
  }

  /**
    * A resolved address replaces the one of the task that ran, and so the one of a kept node if the map it came from
    * still holds that task; the identity stays.
    */
  function Resolved(d: Dialer, t: Task, n: Node, held: bool): Dialer
    requires t.DialTask?
  {
    if !held then d
    else if t.flags == FlagsOf(Static) && n.id in d.statics then d.(statics := d.statics[n.id := n])
    else if t.flags == FlagsOf(Storeman) && n.id in d.storemen then d.(storemen := d.storemen[n.id := n])
    else d
  }

  predicate Active(s: State, t: Task) {
    t in s.running && t !in s.done
  }

  predicate SettingUp(s: State, t: Task) {
    exists k | 0 <= k < |s.setup| :: s.setup[k].dialed && t.DialTask? && s.setup[k].id == t.id
  }

  /**
    * When an event can happen. A dialed connection comes from a task that is still executing, and a task does not
    * finish while its connection is being set up, because it waits for that.
    */
  ghost predicate Enabled(c: Config, s: State, e: Event) {
    match e
    case Schedule(now, ch) => !s.quitting && s.clock <= now && Possible(s.d, now, ch)
    case Finish(t) => Active(s, t) && !SettingUp(s, t)
    case TaskDone(now, _) => !s.quitting && s.clock <= now && |s.done| > 0
    case AddStatic(_) => !s.quitting
    case RemoveStatic(_) => !s.quitting
    case PostHandshake(conn) =>
      && !s.quitting
      && if conn.dialed then Active(s, DialTask(conn.flags, conn.id)) else conn.flags == INBOUND
    case GiveUp(i) => i < |s.setup|
    case AddPeer(i, _) => !s.quitting && i < |s.setup|
    case DelPeer(p) => p in s.live
    case Resolve(t, n, _) => !c.noDiscovery && Active(s, t) && t.DialTask? && t.id == n.id
    case Quit => !s.quitting
  }

  ghost function Step(c: Config, s: State, e: Event): State
    requires Enabled(c, s, e)
  {
    match e
    case Schedule(now, ch) => ScheduleTasks(c, s, now, ch)
    case Finish(t) => s.(done := s.done + [t])
    case TaskDone(now, results) => HandleTaskDone(s, now, results)
    case AddStatic(n) => WithDialer(s, AddedNode(c, s.d, n), n.id)
    case RemoveStatic(n) => WithDialer(s, RemovedNode(c, s.d, n), n.id)
    case PostHandshake(conn) => HandlePostHandshake(c, s, Trusting(c, conn))
    case GiveUp(i) => LeaveSetup(s, i)
    case AddPeer(i, useless) => HandleAddPeer(c, s, i, useless)
    case DelPeer(p) => Drop(s, p)
    case Resolve(t, n, held) => s.(d := Resolved(s.d, t, n, held))
    case Quit => s.(quitting := true)
  }

  function Start(statics: seq<Node>, storemen: seq<Node>, bootnodes: seq<Node>, now: Time): State {
    State(NewDialState(statics, storemen, bootnodes), map[], 0, [], [], [], [], {}, now, map[], false)
  }

  // ------------------------------------------------------------------------------- invariants

  ghost predicate DialSide(c: Config, d: Dialer, peers: map<NodeId, Flags>, tasks: seq<Task>) {
    && Tracks(d, tasks) && Apart(d) && WellKept(d)
    && |Ids(peers, Dynamic) + Ids(d.dialing, Dynamic)| <= Max0(MaxDialedConns(c))
  }

  ghost predicate Channel(running: seq<Task>, done: seq<Task>) {
    && |running| <= MAX_ACTIVE_DIAL_TASKS
    && Distinct(done)
    && forall t | t in done :: t in running
  }

  /** A connection being set up carries the flags of an executing task, or is an inbound one; maybe trusted as well. */
  ghost predicate ConnOk(running: seq<Task>, done: seq<Task>, conn: Conn) {
    if conn.dialed then
      exists f: Flags ::
        && DialTask(f, conn.id) in running && DialTask(f, conn.id) !in done
        && (conn.flags == f || conn.flags == f.(trusted := true))
    else conn.flags == INBOUND || conn.flags == INBOUND.(trusted := true)
  }

  ghost predicate SetupOk(running: seq<Task>, done: seq<Task>, setup: seq<Conn>) {
    forall conn | conn in setup :: ConnOk(running, done, conn)
  }

  ghost predicate HasLive(live: set<Conn>, id: NodeId) {
    exists p :: p in live && p.id == id
  }

  /** The peer map and the running peers are the same. */
  ghost predicate Alive(peers: map<NodeId, Flags>, live: set<Conn>) {
    && (forall p | p in live :: p.id in peers && peers[p.id] == p.flags)
    && (forall id | id in peers :: HasLive(live, id))
    && (forall p, q | p in live && q in live :: p.id == q.id ==> p == q)
  }

  ghost predicate Limits(c: Config, peers: map<NodeId, Flags>) {
    && |Ids(peers, UntrustedInbound)| <= Max0(MaxInboundConns(c))
    && |Ids(peers, Plain)| <= c.maxPeers
  }

  ghost predicate Remembers(hist: map<NodeId, Time>, finished: map<NodeId, Time>, clock: Time) {
    && (forall id | id in hist :: id in finished && hist[id] == finished[id] + HISTORY_EXPIRATION)
    && (forall id | id in finished :: id in hist || finished[id] + HISTORY_EXPIRATION < clock)
  }

  ghost predicate Inv(c: Config, s: State) {
    && DialSide(c, s.d, s.peers, s.running + s.queued)
    && Channel(s.running, s.done)
    && SetupOk(s.running, s.done, s.setup)
    && Alive(s.peers, s.live)
    && Limits(c, s.peers)
    && (!s.quitting ==> s.inboundCount == |Ids(s.peers, Inbound)|)
    && Remembers(s.d.hist, s.finished, s.clock)
  }

  // ---------------------------------------------------------------------------- starting tasks

  lemma Regroup(a: seq<Task>, b: seq<Task>, k: nat)
    requires k <= |b|
    ensures (a + b[..k]) + b[k..] == a + b
  {
  }

  lemma SetupKeeps(running: seq<Task>, done: seq<Task>, setup: seq<Conn>, more: seq<Task>)
    requires SetupOk(running, done, setup)
    ensures SetupOk(running + more, done, setup)
  {
    forall conn | conn in setup ensures ConnOk(running + more, done, conn) {
      assert ConnOk(running, done, conn);
    }
  }

  lemma StartQueuedKeeps(c: Config, s: State)
    requires Inv(c, s)
    ensures Inv(c, StartQueued(s))
  {
    var k := Startable(s.running, s.queued);
    Regroup(s.running, s.queued, k);
    SetupKeeps(s.running, s.done, s.setup, s.queued[..k]);
  }

  lemma StartNewKeeps(c: Config, s: State, ts: seq<Task>)
    requires s.queued == [] && DialSide(c, s.d, s.peers, s.running + ts)
    requires Channel(s.running, s.done) && SetupOk(s.running, s.done, s.setup)
    ensures var s' := StartNew(s, ts);
            && DialSide(c, s'.d, s'.peers, s'.running + s'.queued)
            && Channel(s'.running, s'.done) && SetupOk(s'.running, s'.done, s'.setup)
  {
    var k := Startable(s.running, ts);
    Regroup(s.running, ts, k);
    assert s.queued + ts[k..] == ts[k..];
    SetupKeeps(s.running, s.done, s.setup, ts[..k]);
  }

  lemma ExpireRemembers(hist: map<NodeId, Time>, finished: map<NodeId, Time>, clock: Time, now: Time)
    requires Remembers(hist, finished, clock) && clock <= now
    ensures Remembers(Expire(hist, now), finished, now)
  {
  }

  lemma IssueKeeps(c: Config, d: Dialer, peers: map<NodeId, Flags>, tasks: seq<Task>, now: Time, ch: Choice)
    requires DialSide(c, d, peers, tasks)
    ensures var (d', ts) := NewTasks(DialConfig(c), d, |tasks|, peers, now, ch);
            DialSide(c, d', peers, tasks + ts) && d'.hist == Expire(d.hist, now)
  {
    NewTasksKeeps(DialConfig(c), d, |tasks|, peers, now, ch, tasks);
  }

  lemma ReplenishKeeps(c: Config, s: State, now: Time, ch: Choice)
    requires Inv(c, s) && s.clock <= now && s.queued == []
    ensures Inv(c, Replenish(c, s, now, ch))
  {
    assert s.running + s.queued == s.running;
    IssueKeeps(c, s.d, s.peers, s.running, now, ch);
    var (d, ts) := NewTasks(DialConfig(c), s.d, |s.running|, s.peers, now, ch);
    StartNewKeeps(c, s.(d := d, clock := now), ts);
    ExpireRemembers(s.d.hist, s.finished, s.clock, now);
  }

  lemma ScheduleKeeps(c: Config, s: State, now: Time, ch: Choice)
    requires Inv(c, s) && s.clock <= now
    ensures Inv(c, ScheduleTasks(c, s, now, ch))
  {
    StartQueuedKeeps(c, s);
    if |StartQueued(s).running| < MAX_ACTIVE_DIAL_TASKS {
      ReplenishKeeps(c, StartQueued(s), now, ch);
    }
  }

  // --------------------------------------------------------------------------- finishing tasks

  lemma FinishKeeps(c: Config, s: State, t: Task)
    requires Inv(c, s) && Active(s, t) && !SettingUp(s, t)
    ensures Inv(c, s.(done := s.done + [t]))
  {
    DistinctAppend(s.done, t);
    forall conn | conn in s.setup ensures ConnOk(s.running, s.done + [t], conn) {
      assert ConnOk(s.running, s.done, conn);
    }
  }

  lemma {:induction false} WithoutIs(s: seq<Task>, x: Task)
    requires Distinct(s)
    ensures Distinct(Without(s, x)) && forall y :: y in Without(s, x) <==> y in s && y != x
  {
    if |s| > 0 {
      DistinctTail(s);
      assert s == [s[0]] + s[1..];
      if s[0] != x {
        WithoutIs(s[1..], x);
        DistinctTail(Without(s, x));
      }
    }
  }

  lemma {:induction false} WithoutFront(a: seq<Task>, b: seq<Task>, x: Task)
    requires x in a
    ensures Without(a + b, x) == Without(a, x) + b
  {
    assert (a + b)[1..] == a[1..] + b;
    if a[0] != x {
      WithoutFront(a[1..], b, x);
    }
  }

  lemma {:induction false} WithoutShorter(s: seq<Task>, x: Task)
    ensures |Without(s, x)| <= |s|
  {
    if |s| > 0 {
      WithoutShorter(s[1..], x);
    }
  }

  lemma TaskDoneTracks(d: Dialer, ts: seq<Task>, t: Task, results: seq<Node>, now: Time)
    requires Tracks(d, ts) && t in ts
    ensures Tracks(Dial.TaskDone(d, t, results, now), Without(ts, t))
  {
    WithoutIs(ts, t);
    var d' := Dial.TaskDone(d, t, results, now);
    forall u | u in Without(ts, t) ensures TaskFor(d', u) {
      assert TaskFor(d, u) && TaskFor(d, t);
    }
    forall id | id in d'.dialing ensures DialTask(d'.dialing[id], id) in Without(ts, t) {
      assert DialTask(d.dialing[id], id) in ts;
    }
  }

  lemma DynShrinks(peers: map<NodeId, Flags>, dialing: map<NodeId, Flags>, id: NodeId)
    ensures |Ids(peers, Dynamic) + Ids(dialing - {id}, Dynamic)| <= |Ids(peers, Dynamic) + Ids(dialing, Dynamic)|
  {
    SubsetSize(Ids(peers, Dynamic) + Ids(dialing - {id}, Dynamic), Ids(peers, Dynamic) + Ids(dialing, Dynamic));
  }

  lemma {:induction false} TaskDoneDialSide(c: Config, d: Dialer, peers: map<NodeId, Flags>, ts: seq<Task>, t: Task,
                                            results: seq<Node>, now: Time)
    requires DialSide(c, d, peers, ts) && t in ts
    ensures DialSide(c, Dial.TaskDone(d, t, results, now), peers, Without(ts, t))
  {
    TaskDoneTracks(d, ts, t, results, now);
    TaskDoneApart(d, t, results, now);
    if t.DialTask? {
      DynShrinks(peers, d.dialing, t.id);
    }
  }

  lemma TaskDoneApart(d: Dialer, t: Task, results: seq<Node>, now: Time)
    requires Apart(d) && WellKept(d)
    ensures var d' := Dial.TaskDone(d, t, results, now); Apart(d') && WellKept(d')
  {
  }

  lemma TaskDoneChannel(running: seq<Task>, done: seq<Task>, setup: seq<Conn>)
    requires Channel(running, done) && Distinct(running) && SetupOk(running, done, setup) && |done| > 0
    ensures Channel(Without(running, done[0]), done[1..]) && SetupOk(Without(running, done[0]), done[1..], setup)
  {
    var running', done' := Without(running, done[0]), done[1..];
    WithoutIs(running, done[0]);
    WithoutShorter(running, done[0]);
    forall conn | conn in setup ensures ConnOk(running', done', conn) {
      assert ConnOk(running, done, conn);
    }
  }

  lemma DistinctFront(a: seq<Task>, b: seq<Task>)
    requires Distinct(a + b)
    ensures Distinct(a)
  {
    forall i, j | 0 <= i < j < |a| ensures a[i] != a[j] {
      assert (a + b)[i] != (a + b)[j];
    }
  }

  lemma RemembersLater(hist: map<NodeId, Time>, finished: map<NodeId, Time>, clock: Time, now: Time)
    requires Remembers(hist, finished, clock) && clock <= now
    ensures Remembers(hist, finished, now)
  {
  }

  lemma RemembersDone(hist: map<NodeId, Time>, finished: map<NodeId, Time>, id: NodeId, now: Time)
    requires Remembers(hist, finished, now)
    ensures Remembers(hist[id := now + HISTORY_EXPIRATION], finished[id := now], now)
  {
  }

  lemma TaskDoneRemembers(s: State, now: Time, results: seq<Node>)
    requires Remembers(s.d.hist, s.finished, s.clock) && s.clock <= now && |s.done| > 0
    ensures var s' := HandleTaskDone(s, now, results); Remembers(s'.d.hist, s'.finished, s'.clock)
  {
    RemembersLater(s.d.hist, s.finished, s.clock, now);
    if s.done[0].DialTask? {
      RemembersDone(s.d.hist, s.finished, s.done[0].id, now);
    }
  }

  lemma TaskDoneTasks(c: Config, s: State, now: Time, results: seq<Node>)
    requires DialSide(c, s.d, s.peers, s.running + s.queued) && Channel(s.running, s.done) && |s.done| > 0
    ensures var s' := HandleTaskDone(s, now, results); DialSide(c, s'.d, s'.peers, s'.running + s'.queued)
  {
    TaskDoneDialSide(c, s.d, s.peers, s.running + s.queued, s.done[0], results, now);
    WithoutFront(s.running, s.queued, s.done[0]);
  }

  lemma TaskDoneKeeps(c: Config, s: State, now: Time, results: seq<Node>)
    requires Inv(c, s) && s.clock <= now && |s.done| > 0
    ensures Inv(c, HandleTaskDone(s, now, results))
  {
    DistinctFront(s.running, s.queued);
    TaskDoneTasks(c, s, now, results);
    TaskDoneChannel(s.running, s.done, s.setup);
    TaskDoneRemembers(s, now, results);
  }

  // -------------------------------------------------------------------------- kept nodes change

  /** Only the kept nodes change, and the history may lose one node. */
  ghost predicate Adjusted(d: Dialer, d': Dialer, id: NodeId) {
    && d'.dialing == d.dialing && d'.lookupRunning == d.lookupRunning && WellKept(d')
    && (d'.hist == d.hist || d'.hist == d.hist - {id})
  }

  lemma {:induction false} StoremanAddsAdjust(d: Dialer, n: Node, nodes: seq<Node>)
    requires WellKept(d)
    ensures Adjusted(d, StoremanAdds(d, n, nodes), n.id)
    decreases |nodes|
  {
    if |nodes| > 0 {
      var d1 := if nodes[0].id == n.id then AddStoreman(d, n) else d;
      assert Adjusted(d, d1, n.id);
      StoremanAddsAdjust(d1, n, nodes[1..]);
    }
  }

  lemma {:induction false} StoremanRemovesAdjust(d: Dialer, n: Node, nodes: seq<Node>)
    requires WellKept(d)
    ensures Adjusted(d, StoremanRemoves(d, n, nodes), n.id)
    decreases |nodes|
  {
    if |nodes| > 0 {
      var d1 := if nodes[0].id == n.id then RemoveStoreman(d, n) else d;
      assert Adjusted(d, d1, n.id);
      StoremanRemovesAdjust(d1, n, nodes[1..]);
    }
  }

  lemma AdjustedKeeps(c: Config, s: State, d: Dialer, id: NodeId)
    requires Inv(c, s) && Adjusted(s.d, d, id)
    ensures Inv(c, WithDialer(s, d, id))
  {
  }

  lemma AddedAdjusts(c: Config, d: Dialer, n: Node)
    requires WellKept(d)
    ensures Adjusted(d, AddedNode(c, d, n), n.id)
  {
    StoremanAddsAdjust(d, n, c.storemanNodes);
  }

  lemma RemovedAdjusts(c: Config, d: Dialer, n: Node)
    requires WellKept(d)
    ensures Adjusted(d, RemovedNode(c, d, n), n.id)
  {
    if IsStoreman(c, n.id) {
      StoremanRemovesAdjust(d, n, c.storemanNodes[1..]);
    }
  }

  lemma NodeChangeKeeps(c: Config, s: State, n: Node)
    requires Inv(c, s)
    ensures Inv(c, WithDialer(s, AddedNode(c, s.d, n), n.id)) && Inv(c, WithDialer(s, RemovedNode(c, s.d, n), n.id))
  {
    AddedAdjusts(c, s.d, n);
    RemovedAdjusts(c, s.d, n);
    AdjustedKeeps(c, s, AddedNode(c, s.d, n), n.id);
    AdjustedKeeps(c, s, RemovedNode(c, s.d, n), n.id);
  }

  lemma ResolvedKeeps(c: Config, s: State, t: Task, n: Node, held: bool)
    requires Inv(c, s) && t.DialTask?
    ensures Inv(c, s.(d := Resolved(s.d, t, n, held)))
  {
    ResolvedAdjusts(s.d, t, n, held);
    AdjustedKeeps(c, s, Resolved(s.d, t, n, held), n.id);
    HistorySame(s, Resolved(s.d, t, n, held), n.id);
  }

  lemma ResolvedAdjusts(d: Dialer, t: Task, n: Node, held: bool)
    requires WellKept(d) && t.DialTask?
    ensures Adjusted(d, Resolved(d, t, n, held), n.id) && Resolved(d, t, n, held).hist == d.hist
  {
  }

  lemma HistorySame(s: State, d: Dialer, id: NodeId)
    requires d.hist == s.d.hist
    ensures WithDialer(s, d, id) == s.(d := d)
  {
  }

  // -------------------------------------------------------------------------------- connections

  lemma PostHandshakeKeeps(c: Config, s: State, conn: Conn)
    requires Inv(c, s)
    requires if conn.dialed then Active(s, DialTask(conn.flags, conn.id)) else conn.flags == INBOUND
    ensures Inv(c, HandlePostHandshake(c, s, Trusting(c, conn)))
  {
    assert ConnOk(s.running, s.done, Trusting(c, conn));
  }

  lemma LeaveSetupKeeps(c: Config, s: State, i: nat)
    requires Inv(c, s) && i < |s.setup|
    ensures Inv(c, LeaveSetup(s, i))
  {
  }

  lemma IdsAddSize(m: map<NodeId, Flags>, id: NodeId, flags: Flags, role: Role)
    requires id !in m
    ensures |Ids(m[id := flags], role)| == if Has(flags, role) then |Ids(m, role)| + 1 else |Ids(m, role)|
  {
    IdsAdd(m, id, flags, role);
  }

  lemma IdsWithin(m: map<NodeId, Flags>, role: Role)
    ensures |Ids(m, role)| <= |m|
  {
    SubsetSize(Ids(m, role), m.Keys);
  }

  lemma UntrustedWithin(m: map<NodeId, Flags>)
    ensures |Ids(m, UntrustedInbound)| <= |Ids(m, Inbound)|
  {
    SubsetSize(Ids(m, UntrustedInbound), Ids(m, Inbound));
  }

  /** The checks are what keeps the limits. */
  lemma AdmitLimits(c: Config, peers: map<NodeId, Flags>, conn: Conn)
    requires Limits(c, peers)
    requires EncHandshakeChecks(c, peers, |Ids(peers, Inbound)|, conn) == Accept
    ensures Limits(c, peers[conn.id := conn.flags])
  {
    IdsAddSize(peers, conn.id, conn.flags, UntrustedInbound);
    IdsAddSize(peers, conn.id, conn.flags, Plain);
    IdsWithin(peers, Plain);
    UntrustedWithin(peers);
  }

  /** A dynamic connection was already counted while it was being dialed. */
  lemma AdmitDyn(d: Dialer, peers: map<NodeId, Flags>, running: seq<Task>, queued: seq<Task>, done: seq<Task>,
                 conn: Conn)
    requires Tracks(d, running + queued) && ConnOk(running, done, conn) && conn.id !in peers
    ensures Ids(peers[conn.id := conn.flags], Dynamic) + Ids(d.dialing, Dynamic)
         == Ids(peers, Dynamic) + Ids(d.dialing, Dynamic)
  {
    IdsAdd(peers, conn.id, conn.flags, Dynamic);
    if conn.flags.dynDialed {
      var f: Flags :| DialTask(f, conn.id) in running && (conn.flags == f || conn.flags == f.(trusted := true));
      assert DialTask(f, conn.id) in running + queued;
      assert TaskFor(d, DialTask(f, conn.id));
      assert conn.id in Ids(d.dialing, Dynamic);
    }
  }

  lemma AdmitAlive(peers: map<NodeId, Flags>, live: set<Conn>, conn: Conn)
    requires Alive(peers, live) && conn.id !in peers
    ensures Alive(peers[conn.id := conn.flags], live + {conn})
  {
    forall id | id in peers[conn.id := conn.flags] ensures HasLive(live + {conn}, id) {
      if id == conn.id {
        assert conn in live + {conn};
      } else {
        var p :| p in live && p.id == id;
        assert p in live + {conn};
      }
    }
  }

  lemma AdmitKeeps(c: Config, s: State, conn: Conn)
    requires Inv(c, s) && !s.quitting && ConnOk(s.running, s.done, conn)
    requires EncHandshakeChecks(c, s.peers, s.inboundCount, conn) == Accept
    ensures Inv(c, Admit(s, conn))
  {
    AdmitLimits(c, s.peers, conn);
    AdmitDyn(s.d, s.peers, s.running, s.queued, s.done, conn);
    AdmitAlive(s.peers, s.live, conn);
    IdsAddSize(s.peers, conn.id, conn.flags, Inbound);
  }

  lemma AddPeerKeeps(c: Config, s: State, i: nat, useless: bool)
    requires Inv(c, s) && !s.quitting && i < |s.setup|
    ensures Inv(c, HandleAddPeer(c, s, i, useless))
  {
    LeaveSetupKeeps(c, s, i);
    if ProtoHandshakeChecks(c, s.peers, s.inboundCount, s.setup[i], useless) == Accept {
      assert s.setup[i] in s.setup;
      AdmitKeeps(c, LeaveSetup(s, i), s.setup[i]);
    }
  }

  lemma DropDyn(d: Dialer, peers: map<NodeId, Flags>, id: NodeId)
    ensures |Ids(peers - {id}, Dynamic) + Ids(d.dialing, Dynamic)| <= |Ids(peers, Dynamic) + Ids(d.dialing, Dynamic)|
  {
    SubsetSize(Ids(peers - {id}, Dynamic) + Ids(d.dialing, Dynamic), Ids(peers, Dynamic) + Ids(d.dialing, Dynamic));
  }

  lemma DropAlive(peers: map<NodeId, Flags>, live: set<Conn>, peer: Conn)
    requires Alive(peers, live) && peer in live
    ensures Alive(peers - {peer.id}, live - {peer})
  {
    forall id | id in peers - {peer.id} ensures HasLive(live - {peer}, id) {
      var p :| p in live && p.id == id;
      assert p in live - {peer};
    }
  }

  lemma DropKeeps(c: Config, s: State, peer: Conn)
    requires Inv(c, s) && peer in s.live
    ensures Inv(c, Drop(s, peer))
  {
    DropDyn(s.d, s.peers, peer.id);
    DropAlive(s.peers, s.live, peer);
    IdsRemove(s.peers, peer.id, Inbound);
    IdsRemove(s.peers, peer.id, UntrustedInbound);
    IdsRemove(s.peers, peer.id, Plain);
  }

  // -------------------------------------------------------------------------------------- runs

  /** Every step keeps everything. */
  lemma StepKeepsInv(c: Config, s: State, e: Event)
    requires Inv(c, s) && Enabled(c, s, e)
    ensures Inv(c, Step(c, s, e))
  {
    if ForDialer(e) {
      DialerStepKeeps(c, s, e);
    } else {
      ConnStepKeeps(c, s, e);
    }
  }

  predicate ForDialer(e: Event) {
    e.Schedule? || e.Finish? || e.TaskDone? || e.AddStatic? || e.RemoveStatic? || e.Resolve?
  }

  lemma DialerStepKeeps(c: Config, s: State, e: Event)
    requires Inv(c, s) && Enabled(c, s, e) && ForDialer(e)
    ensures Inv(c, Step(c, s, e))
  {
    match e
    case Schedule(now, ch) => ScheduleKeeps(c, s, now, ch);
    case Finish(t) => FinishKeeps(c, s, t);
    case TaskDone(now, results) => TaskDoneKeeps(c, s, now, results);
    case AddStatic(n) => NodeChangeKeeps(c, s, n);
    case RemoveStatic(n) => NodeChangeKeeps(c, s, n);
    case Resolve(t, n, held) => ResolvedKeeps(c, s, t, n, held);
  }

  lemma ConnStepKeeps(c: Config, s: State, e: Event)
    requires Inv(c, s) && Enabled(c, s, e) && !ForDialer(e)
    ensures Inv(c, Step(c, s, e))
  {
    match e
    case PostHandshake(conn) => PostHandshakeKeeps(c, s, conn);
    case GiveUp(i) => LeaveSetupKeeps(c, s, i);
    case AddPeer(i, useless) => AddPeerKeeps(c, s, i, useless);
    case DelPeer(p) => DropKeeps(c, s, p);
    case Quit =>
  }

  ghost predicate IsRun(c: Config, s: State, es: seq<Event>)
    decreases |es|
  {
    |es| > 0 ==> Enabled(c, s, es[0]) && IsRun(c, Step(c, s, es[0]), es[1..])
  }

  ghost function Run(c: Config, s: State, es: seq<Event>): State
    requires IsRun(c, s, es)
    decreases |es|
  {
    if |es| == 0 then s else Run(c, Step(c, s, es[0]), es[1..])
  }

  lemma {:induction false} AddStaticsKept(d: Dialer, nodes: seq<Node>)
    requires WellKept(d)
    ensures WellKept(AddStatics(d, nodes)) && AddStatics(d, nodes) == d.(statics := AddStatics(d, nodes).statics)
    decreases |nodes|
  {
    if |nodes| > 0 {
      AddStaticsKept(Dial.AddStatic(d, nodes[0]), nodes[1..]);
    }
  }

  lemma {:induction false} AddStoremenKept(d: Dialer, nodes: seq<Node>)
    requires WellKept(d) && d.dialing == map[] && d.hist == map[] && !d.lookupRunning
    ensures var d' := AddStoremen(d, nodes);
            WellKept(d') && d'.dialing == map[] && d'.hist == map[] && !d'.lookupRunning
    decreases |nodes|
  {
    if |nodes| > 0 {
      AddStoremenKept(if HasAddress(nodes[0]) then AddStoreman(d, nodes[0]) else d, nodes[1..]);
    }
  }

  lemma StartInv(c: Config, statics: seq<Node>, storemen: seq<Node>, bootnodes: seq<Node>, now: Time)
    ensures Inv(c, Start(statics, storemen, bootnodes, now))
  {
    var d0 := Dialer(map[], map[], map[], false, [], bootnodes, map[], None);
    AddStaticsKept(d0, statics);
    AddStoremenKept(AddStatics(d0, statics), storemen);
    var s := Start(statics, storemen, bootnodes, now);
    assert s.running + s.queued == [];
    assert forall role :: Ids(s.peers, role) == {} && Ids(s.d.dialing, role) == {};
  }

  lemma {:induction false} RunFromKeepsInv(c: Config, s: State, es: seq<Event>)
    requires Inv(c, s) && IsRun(c, s, es)
    ensures Inv(c, Run(c, s, es))
    decreases |es|
  {
    if |es| > 0 {
      StepKeepsInv(c, s, es[0]);
      RunFromKeepsInv(c, Step(c, s, es[0]), es[1..]);
    }
  }

  ghost predicate Reachable(c: Config, s: State) {
    exists statics: seq<Node>, storemen: seq<Node>, bootnodes: seq<Node>, now: Time, es: seq<Event> ::
      var begun := Start(statics, storemen, bootnodes, now);
      IsRun(c, begun, es) && s == Run(c, begun, es)
  }

  lemma ReachableInv(c: Config, s: State)
    requires Reachable(c, s)
    ensures Inv(c, s)
  {
    var statics: seq<Node>, storemen: seq<Node>, bootnodes: seq<Node>, now: Time, es: seq<Event> :|
      var begun := Start(statics, storemen, bootnodes, now);
      IsRun(c, begun, es) && s == Run(c, begun, es);
    StartInv(c, statics, storemen, bootnodes, now);
    RunFromKeepsInv(c, Start(statics, storemen, bootnodes, now), es);
  }

  // ------------------------------------------------------------------------------ what follows

  /** Nodes connected or being dialed as dynamic never exceed the limit, even while a node is briefly both. */
  lemma DynamicLimit(c: Config, s: State)
    requires Reachable(c, s)
    ensures |Ids(s.peers, Dynamic) + Ids(s.d.dialing, Dynamic)| <= Max0(MaxDialedConns(c))
  {
    ReachableInv(c, s);
  }

  /** The inbound counter is exact, and the limits hold in every state before shutdown. */
  lemma AdmissionLimits(c: Config, s: State)
    requires Reachable(c, s)
    ensures !s.quitting ==> s.inboundCount == |Ids(s.peers, Inbound)|
    ensures |Ids(s.peers, UntrustedInbound)| <= Max0(MaxInboundConns(c))
    ensures |Ids(s.peers, Plain)| <= c.maxPeers
  {
    ReachableInv(c, s);
  }

  /** A node is being dialed exactly if one queued or running task dials it, and no two tasks dial the same node. */
  lemma DialingIsTasks(c: Config, s: State, id: NodeId)
    requires Reachable(c, s)
    ensures id in s.d.dialing <==> DialsTo(s.running + s.queued, id)
    ensures id in s.d.dialing ==> id !in s.d.hist
    ensures var ts := s.running + s.queued; forall i, j | 0 <= i < j < |ts| :: !SameDest(ts[i], ts[j])
  {
    ReachableInv(c, s);
    var ts := s.running + s.queued;
    if id in s.d.dialing {
      assert DialTask(s.d.dialing[id], id) in ts;
    }
    forall i, j | 0 <= i < j < |ts| ensures !SameDest(ts[i], ts[j]) {
      assert TaskFor(s.d, ts[i]) && TaskFor(s.d, ts[j]) && ts[i] != ts[j];
    }
  }

  ghost predicate DialsTo(ts: seq<Task>, id: NodeId) {
    exists t :: t in ts && t.DialTask? && t.id == id
  }

  predicate SameDest(t: Task, u: Task) {
    t.DialTask? && u.DialTask? && t.id == u.id
  }

  /** At most 37 tasks run, and a task that finishes always finds room in the taskdone channel. */
  lemma TaskdoneNeverBlocks(c: Config, s: State, t: Task)
    requires Reachable(c, s)
    ensures |s.running| <= MAX_ACTIVE_DIAL_TASKS
    ensures Active(s, t) ==> |s.done| < MAX_ACTIVE_DIAL_TASKS
  {
    ReachableInv(c, s);
    if Active(s, t) {
      RoomInChannel(s.running, s.done, t);
    }
  }

  lemma RoomInChannel(running: seq<Task>, done: seq<Task>, t: Task)
    requires Channel(running, done) && t in running && t !in done
    ensures |done| < MAX_ACTIVE_DIAL_TASKS
  {
    ElementsSize(done);
    ElementsSize(running);
    SubsetSize(Elements(done) + {t}, Elements(running));
  }

  /** A finished dial is not in the history yet, so the history never holds a node twice. */
  lemma HistoryAddIsNew(c: Config, s: State)
    requires Reachable(c, s) && |s.done| > 0 && s.done[0].DialTask?
    ensures s.done[0].id in s.d.dialing && s.done[0].id !in s.d.hist
  {
    ReachableInv(c, s);
    assert s.done[0] in s.running + s.queued;
    assert TaskFor(s.d, s.done[0]);
  }

  /**
    * A node is dialed again only more than 30 seconds after its last dial was finished, unless it was explicitly
    * removed from the history; and only if it is not connected.
    */
  lemma NoEarlyRedial(c: Config, s: State, now: Time, ch: Choice, id: NodeId)
    requires Reachable(c, s) && Enabled(c, s, Schedule(now, ch))
    requires id !in s.d.dialing && id in Step(c, s, Schedule(now, ch)).d.dialing
    ensures id !in s.peers
    ensures id in s.finished ==> s.finished[id] + HISTORY_EXPIRATION < now
  {
    ReachableInv(c, s);
    Redialed(c, s, now, ch, id);
    if id in s.finished {
      LongFinished(s.d.hist, s.finished, s.clock, now, id);
    }
  }

  lemma LongFinished(hist: map<NodeId, Time>, finished: map<NodeId, Time>, clock: Time, now: Time, id: NodeId)
    requires Remembers(hist, finished, clock) && clock <= now && id in finished && id !in Expire(hist, now)
    ensures finished[id] + HISTORY_EXPIRATION < now
  {
    ExpireRemembers(hist, finished, clock, now);
  }

  lemma Redialed(c: Config, s: State, now: Time, ch: Choice, id: NodeId)
    requires Inv(c, s) && id !in s.d.dialing && id in ScheduleTasks(c, s, now, ch).d.dialing
    ensures id !in s.peers && id !in Expire(s.d.hist, now)
  {
    StartQueuedKeeps(c, s);
    NewlyDialed(c, StartQueued(s), now, ch, id);
  }

  lemma NewlyDialed(c: Config, s: State, now: Time, ch: Choice, id: NodeId)
    requires DialSide(c, s.d, s.peers, s.running + s.queued) && s.queued == []
    requires id !in s.d.dialing && id in Replenish(c, s, now, ch).d.dialing
    ensures id !in s.peers && id !in Expire(s.d.hist, now)
  {
    assert s.running + s.queued == s.running;
    NewTasksKeeps(DialConfig(c), s.d, |s.running|, s.peers, now, ch, s.running);
  }

  /** Once stopped, the server only loses peers, and waits for exactly the ones that are running. */
  lemma ShutdownDrains(c: Config, s: State, e: Event)
    requires Reachable(c, s) && s.quitting && Enabled(c, s, e)
    ensures var s' := Step(c, s, e);
            && s'.quitting
            && |s'.peers| == |s.peers| - (if e.DelPeer? then 1 else 0)
            && (s'.live == {} <==> s'.peers == map[])
  {
    ReachableInv(c, s);
    if e.DelPeer? {
      DropAlive(s.peers, s.live, e.peer);
      OneLess(s.peers, e.peer.id);
    } else {
      QuittingKeepsPeers(c, s, e);
    }
    LiveIffPeers(Step(c, s, e).peers, Step(c, s, e).live);
  }

  lemma OneLess(peers: map<NodeId, Flags>, id: NodeId)
    requires id in peers
    ensures |peers - {id}| == |peers| - 1
  {
    assert (peers - {id}).Keys == peers.Keys - {id};
  }

  lemma QuittingKeepsPeers(c: Config, s: State, e: Event)
    requires s.quitting && Enabled(c, s, e) && !e.DelPeer?
    ensures var s' := Step(c, s, e); s'.quitting && s'.peers == s.peers && s'.live == s.live
  {
  }

  lemma LiveIffPeers(peers: map<NodeId, Flags>, live: set<Conn>)
    requires Alive(peers, live)
    ensures live == {} <==> peers == map[]
  {
    if peers != map[] {
      var id :| id in peers;
      assert HasLive(live, id);
    }
  }
}
