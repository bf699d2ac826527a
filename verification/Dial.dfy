/**
  * The dial scheduler of p2p/dial.go as functions on values: which tasks it issues, and the facts every issue keeps.
  */
module Dial {
  import opened Common

  type NodeId = nat
  type Time = int

  /** Nanoseconds. */
  const HISTORY_EXPIRATION: Time := 30_000_000_000
  const FALLBACK_INTERVAL: Time := 20_000_000_000

  /** A node without an address is an incomplete one. */
  datatype Node = Node(id: NodeId, ip: Option<nat>, udp: nat, tcp: nat)

  const UNSPECIFIED: Option<nat> := Some(0)

  /** The text form of an incomplete node has its identity only. */
  predicate SameText(a: Node, b: Node) {
    a.id == b.id && a.ip == b.ip && (a.ip.Some? ==> a.tcp == b.tcp && a.udp == b.udp)
  }

  datatype Flags = Flags(dynDialed: bool, staticDialed: bool, storemanDialed: bool, inbound: bool, trusted: bool)

  const DYN := Flags(true, false, false, false, false)
  const INBOUND := Flags(false, false, false, true, false)

  /** Groups of connections that are counted. */
  datatype Role = Dynamic | Inbound | UntrustedInbound | Plain

  predicate Has(f: Flags, role: Role) {
    match role
    case Dynamic => f.dynDialed
    case Inbound => f.inbound
    case UntrustedInbound => f.inbound && !f.trusted
    case Plain => !f.trusted && !f.staticDialed && !f.storemanDialed
  }

  function Ids(m: map<NodeId, Flags>, role: Role): set<NodeId> {
    set id | id in m && Has(m[id], role)
  }

  datatype Task = DialTask(flags: Flags, id: NodeId) | DiscoverTask | WaitExpireTask(wait: Time)

  /** `restrict` is the set of addresses that may be dialed; `discovery` says whether there is a node table. */
  datatype Config = Config(maxDyn: int, self: NodeId, discovery: bool, restrict: Option<set<nat>>)

  datatype Dialer = Dialer(
    dialing: map<NodeId, Flags>, statics: map<NodeId, Node>, storemen: map<NodeId, Node>, lookupRunning: bool,
    lookupBuf: seq<Node>, bootnodes: seq<Node>, hist: map<NodeId, Time>, start: Option<Time>)

  datatype Verdict = Ok | AlreadyDialing | AlreadyConnected | IsSelf | NotWhitelisted | RecentlyDialed

  predicate NotListed(c: Config, n: Node) {
    c.restrict.Some? && (n.ip.None? || n.ip.value !in c.restrict.value)
  }

  function CheckDial(c: Config, d: Dialer, n: Node, peers: map<NodeId, Flags>): Verdict {
    if n.id in d.dialing then AlreadyDialing
    else if n.id in peers then AlreadyConnected
    else if c.discovery && n.id == c.self then IsSelf
    else if NotListed(c, n) then NotWhitelisted
    else if n.id in d.hist then RecentlyDialed
    else Ok
  }

  // --------------------------------------------------------------------- nodes kept connected

  /** Static and storeman nodes are redialed whenever they are not connected. */
  datatype Kind = Static | Storeman

  function FlagsOf(kind: Kind): Flags {
    match kind
    case Static => Flags(false, true, false, false, false)
    case Storeman => Flags(false, false, true, false, false)
  }

  function Kept(d: Dialer, kind: Kind): map<NodeId, Node> {
    match kind case Static => d.statics case Storeman => d.storemen
  }

  function WithKept(d: Dialer, kind: Kind, m: map<NodeId, Node>): Dialer {
    match kind case Static => d.(statics := m) case Storeman => d.(storemen := m)
  }

  function AddStatic(d: Dialer, n: Node): Dialer {
    d.(statics := d.statics[n.id := n])
  }

  function RemoveStatic(d: Dialer, n: Node): Dialer {
    d.(statics := d.statics - {n.id}, hist := d.hist - {n.id})
  }

  /** A storeman node that comes back with another address is forgotten instead of replaced. */
  function AddStoreman(d: Dialer, n: Node): Dialer {
    if n.id in d.storemen && !SameText(d.storemen[n.id], n) then RemoveStoreman(d, n)
    else d.(storemen := d.storemen[n.id := n])
  }

  function RemoveStoreman(d: Dialer, n: Node): Dialer {
    d.(storemen := d.storemen - {n.id}, hist := d.hist - {n.id})
  }

  function AddStatics(d: Dialer, nodes: seq<Node>): Dialer
    decreases |nodes|
  {
    if |nodes| == 0 then d else AddStatics(AddStatic(d, nodes[0]), nodes[1..])
  }

  /** An incomplete node counts as having an address here. */
  predicate HasAddress(n: Node) {
    n.tcp != 0 && n.ip != UNSPECIFIED
  }

  /** Storeman nodes without an address are left out at start-up. */
  function AddStoremen(d: Dialer, nodes: seq<Node>): Dialer
    decreases |nodes|
  {
    if |nodes| == 0 then d
    else AddStoremen(if HasAddress(nodes[0]) then AddStoreman(d, nodes[0]) else d, nodes[1..])
  }

  function NewDialState(statics: seq<Node>, storemen: seq<Node>, bootnodes: seq<Node>): Dialer {
    AddStoremen(AddStatics(Dialer(map[], map[], map[], false, [], bootnodes, map[], None), statics), storemen)
  }

  // -------------------------------------------------------------------------------- new tasks

  /** What one call of newTasks has gathered so far, and how many dynamic dials it may still add. */
  datatype Plan = Plan(d: Dialer, tasks: seq<Task>, need: int)

  function AddDial(c: Config, p: Plan, peers: map<NodeId, Flags>, flags: Flags, n: Node): Plan {
    if CheckDial(c, p.d, n, peers) != Ok then p
    else
      Plan(p.d.(dialing := p.d.dialing[n.id := flags]), p.tasks + [DialTask(flags, n.id)],
           if flags.dynDialed then p.need - 1 else p.need)
  }

  function GiveUp(p: Plan, kind: Kind, n: Node): Plan {
    p.(d := WithKept(p.d, kind, Kept(p.d, kind) - {n.id}))
  }

  /** One round of the loop over the static or the storeman nodes. */
  function Redial(c: Config, p: Plan, peers: map<NodeId, Flags>, kind: Kind, id: NodeId): Plan {
    if id !in Kept(p.d, kind) then p
    else
      var n := Kept(p.d, kind)[id];
      var v := CheckDial(c, p.d, n, peers);
      if v == NotWhitelisted || v == IsSelf then GiveUp(p, kind, n)
      else AddDial(c, p, peers, FlagsOf(kind), n)
  }

  /** The rounds still to do, in the order in which the map is walked. */
  function RedialAll(c: Config, p: Plan, peers: map<NodeId, Flags>, kind: Kind, order: seq<NodeId>): Plan
    decreases |order|
  {
    if |order| == 0 then p else RedialAll(c, Redial(c, p, peers, kind, order[0]), peers, kind, order[1..])
  }

  predicate Waited(d: Dialer, now: Time) {
    d.start.Some? && now - d.start.value > FALLBACK_INTERVAL
  }

  /** With no peers at all for a while, the next bootnode is tried. */
  function Fallback(c: Config, p: Plan, peers: map<NodeId, Flags>, now: Time): Plan {
    if |peers| == 0 && |p.d.bootnodes| > 0 && p.need > 0 && Waited(p.d, now) then
      var n := p.d.bootnodes[0];
      AddDial(c, p.(d := p.d.(bootnodes := p.d.bootnodes[1..] + [n])), peers, DYN, n)
    else p
  }

  function DialEach(c: Config, p: Plan, peers: map<NodeId, Flags>, nodes: seq<Node>): Plan
    decreases |nodes|
  {
    if |nodes| == 0 then p else DialEach(c, AddDial(c, p, peers, DYN, nodes[0]), peers, nodes[1..])
  }

  function RandomCandidates(need: int, nodes: seq<Node>): (r: nat)
    ensures r <= |nodes| && (r > 0 ==> r < need)
  {
    if need <= 0 then 0 else if need / 2 < |nodes| then need / 2 else |nodes|
  }

  /** Takes nodes off the lookup buffer while dynamic dials are needed. */
  function DialBuffered(c: Config, p: Plan, peers: map<NodeId, Flags>): Plan
    decreases |p.d.lookupBuf|
  {
    if |p.d.lookupBuf| == 0 || p.need <= 0 then p
    else
      var n := p.d.lookupBuf[0];
      DialBuffered(c, AddDial(c, p.(d := p.d.(lookupBuf := p.d.lookupBuf[1..])), peers, DYN, n), peers)
  }

  function Lookup(p: Plan): Plan {
    if |p.d.lookupBuf| < p.need && !p.d.lookupRunning then
      p.(d := p.d.(lookupRunning := true), tasks := p.tasks + [DiscoverTask])
    else p
  }

  /** What newTasks does not decide itself: the orders of map iteration, the table's nodes, the top of the heap. */
  datatype Choice = Choice(statics: seq<NodeId>, storemen: seq<NodeId>, random: seq<Node>, first: NodeId)

  ghost predicate Walks<V>(order: seq<NodeId>, m: map<NodeId, V>) {
    Distinct(order) && forall id :: id in order <==> id in m
  }

  predicate Earliest(hist: map<NodeId, Time>, first: NodeId) {
    first in hist && forall id | id in hist :: hist[first] <= hist[id]
  }

  function Expire(hist: map<NodeId, Time>, now: Time): map<NodeId, Time> {
    map id | id in hist && !(hist[id] < now) :: hist[id]
  }

  /** The choices that can occur for a dialer at a time. */
  ghost predicate Possible(d: Dialer, now: Time, ch: Choice) {
    && Walks(ch.statics, d.statics) && Walks(ch.storemen, d.storemen)
    && (|Expire(d.hist, now)| > 0 ==> Earliest(Expire(d.hist, now), ch.first))
  }

  function Begin(c: Config, d: Dialer, peers: map<NodeId, Flags>, now: Time): Plan {
    var start := if d.start.None? then Some(now) else d.start;
    var need := c.maxDyn - |Ids(peers, Dynamic)| - |Ids(d.dialing, Dynamic)|;
    Plan(d.(start := start, hist := Expire(d.hist, now)), [], need)
  }

  function Dials(c: Config, d: Dialer, peers: map<NodeId, Flags>, now: Time, ch: Choice): Plan {
    var p0 := Begin(c, d, peers, now);
    var p1 := RedialAll(c, p0, peers, Static, ch.statics);
    var p2 := RedialAll(c, p1, peers, Storeman, ch.storemen);
    DynamicDials(c, p2, peers, now, ch.random)
  }

  function DynamicDials(c: Config, p: Plan, peers: map<NodeId, Flags>, now: Time, random: seq<Node>): Plan {
    var p1 := Fallback(c, p, peers, now);
    DialBuffered(c, DialEach(c, p1, peers, random[..RandomCandidates(p1.need, random)]), peers)
  }

  function Waiting(p: Plan, nRunning: nat, now: Time, first: NodeId): (Dialer, seq<Task>) {
    if nRunning == 0 && |p.tasks| == 0 && first in p.d.hist then (p.d, [WaitExpireTask(p.d.hist[first] - now)])
    else (p.d, p.tasks)
  }

  function NewTasks(c: Config, d: Dialer, nRunning: nat, peers: map<NodeId, Flags>, now: Time, ch: Choice)
    : (Dialer, seq<Task>)
  {
    Waiting(Lookup(Dials(c, d, peers, now, ch)), nRunning, now, ch.first)
  }

  /** Finishing a dial puts its node in the history. */
  function TaskDone(d: Dialer, t: Task, results: seq<Node>, now: Time): Dialer {
    match t
    case DialTask(_, id) => d.(hist := d.hist[id := now + HISTORY_EXPIRATION], dialing := d.dialing - {id})
    case DiscoverTask => d.(lookupRunning := false, lookupBuf := d.lookupBuf + results)
    case WaitExpireTask(_) => d
  }

  // ------------------------------------------------------------------------------- invariants

  predicate TaskFor(d: Dialer, t: Task) {
    match t
    case DialTask(flags, id) => id in d.dialing && d.dialing[id] == flags
    case DiscoverTask => d.lookupRunning
    case WaitExpireTask(_) => true
  }

  /** The nodes being dialed are the destinations of the tasks, each of one task; likewise for the lookup. */
  ghost predicate Tracks(d: Dialer, ts: seq<Task>) {
    && Distinct(ts)
    && (forall t | t in ts :: TaskFor(d, t))
    && (forall id | id in d.dialing :: DialTask(d.dialing[id], id) in ts)
    && (d.lookupRunning ==> DiscoverTask in ts)
  }

  /** No node is both being dialed and in the history. */
  ghost predicate Apart(d: Dialer) {
    forall id | id in d.dialing :: id !in d.hist
  }

  ghost predicate WellKept(d: Dialer) {
    && (forall id | id in d.statics :: d.statics[id].id == id)
    && (forall id | id in d.storemen :: d.storemen[id].id == id)
  }

  function Max0(x: int): (r: nat) {
    if x < 0 then 0 else x
  }

  /** Nodes connected or being dialed as dynamic, plus the dials still allowed, stay within the limit. */
  ghost predicate WithinDyn(c: Config, p: Plan, peers: map<NodeId, Flags>) {
    |Ids(peers, Dynamic) + Ids(p.d.dialing, Dynamic)| + Max0(p.need) <= Max0(c.maxDyn)
  }

  ghost predicate Good(c: Config, p: Plan, peers: map<NodeId, Flags>, base: seq<Task>) {
    Tracks(p.d, base + p.tasks) && Apart(p.d) && WellKept(p.d) && WithinDyn(c, p, peers)
  }

  predicate Barred(c: Config, n: Node) {
    (c.discovery && n.id == c.self) || NotListed(c, n)
  }

  /** Only barred nodes are given up. */
  ghost predicate Thinned(c: Config, was: map<NodeId, Node>, now: map<NodeId, Node>) {
    && (forall id | id in now :: id in was && now[id] == was[id])
    && (forall id | id in was && id !in now :: Barred(c, was[id]))
  }

  /** Seen from the start of a call: what was being dialed still is, and every added node passed the checks. */
  ghost predicate Issued(c: Config, d: Dialer, p: Plan, peers: map<NodeId, Flags>) {
    && p.d.hist == d.hist
    && (forall id | id in d.dialing :: id in p.d.dialing && p.d.dialing[id] == d.dialing[id])
    && (forall id | id in p.d.dialing && id !in d.dialing ::
          id !in peers && id !in d.hist && !(c.discovery && id == c.self))
    && Thinned(c, d.statics, p.d.statics) && Thinned(c, d.storemen, p.d.storemen)
  }

  lemma AddDialTracks(c: Config, p: Plan, peers: map<NodeId, Flags>, flags: Flags, n: Node, base: seq<Task>)
    requires Tracks(p.d, base + p.tasks)
    ensures var q := AddDial(c, p, peers, flags, n); Tracks(q.d, base + q.tasks)
  {
    var ts, t := base + p.tasks, DialTask(flags, n.id);
    if CheckDial(c, p.d, n, peers) == Ok {
      assert !TaskFor(p.d, t);
      DistinctAppend(ts, t);
      assert base + (p.tasks + [t]) == ts + [t];
    }
  }

  lemma IdsAdd(m: map<NodeId, Flags>, id: NodeId, flags: Flags, role: Role)
    requires id !in m
    ensures Ids(m[id := flags], role) == if Has(flags, role) then Ids(m, role) + {id} else Ids(m, role)
  {
  }

  lemma IdsRemove(m: map<NodeId, Flags>, id: NodeId, role: Role)
    requires id in m
    ensures |Ids(m - {id}, role)| == if Has(m[id], role) then |Ids(m, role)| - 1 else |Ids(m, role)|
  {
    assert Ids(m - {id}, role) == Ids(m, role) - {id};
  }

  lemma UnionAdd(a: set<NodeId>, b: set<NodeId>, id: NodeId)
    ensures |a + (b + {id})| <= |a + b| + 1
  {
    assert a + (b + {id}) == (a + b) + {id};
  }

  lemma UnionSize(a: set<NodeId>, b: set<NodeId>)
    ensures |a + b| <= |a| + |b|
  {
    assert |a + b| + |a * b| == |a| + |b|;
  }

  lemma DynGrows(peers: map<NodeId, Flags>, dialing: map<NodeId, Flags>, id: NodeId, flags: Flags)
    requires id !in dialing
    ensures |Ids(peers, Dynamic) + Ids(dialing[id := flags], Dynamic)|
         <= |Ids(peers, Dynamic) + Ids(dialing, Dynamic)| + if flags.dynDialed then 1 else 0
  {
    IdsAdd(dialing, id, flags, Dynamic);
    UnionAdd(Ids(peers, Dynamic), Ids(dialing, Dynamic), id);
  }

  lemma AddDialKeeps(c: Config, d: Dialer, p: Plan, peers: map<NodeId, Flags>, flags: Flags, n: Node, base: seq<Task>)
    requires Good(c, p, peers, base) && Issued(c, d, p, peers) && (flags.dynDialed ==> p.need > 0)
    ensures var q := AddDial(c, p, peers, flags, n); Good(c, q, peers, base) && Issued(c, d, q, peers)
  {
    AddDialTracks(c, p, peers, flags, n, base);
    AddDialCounts(c, p, peers, flags, n);
    AddDialIssued(c, d, p, peers, flags, n);
  }

  lemma AddDialCounts(c: Config, p: Plan, peers: map<NodeId, Flags>, flags: Flags, n: Node)
    requires Apart(p.d) && WellKept(p.d) && WithinDyn(c, p, peers) && (flags.dynDialed ==> p.need > 0)
    ensures var q := AddDial(c, p, peers, flags, n); Apart(q.d) && WellKept(q.d) && WithinDyn(c, q, peers)
  {
    if CheckDial(c, p.d, n, peers) == Ok {
      DynGrows(peers, p.d.dialing, n.id, flags);
    }
  }

  lemma AddDialIssued(c: Config, d: Dialer, p: Plan, peers: map<NodeId, Flags>, flags: Flags, n: Node)
    requires Issued(c, d, p, peers)
    ensures Issued(c, d, AddDial(c, p, peers, flags, n), peers)
  {
  }

  lemma {:induction false} RedialAllKeeps(c: Config, d: Dialer, p: Plan, peers: map<NodeId, Flags>, kind: Kind,
                                          order: seq<NodeId>, base: seq<Task>)
    requires Good(c, p, peers, base) && Issued(c, d, p, peers)
    ensures var q := RedialAll(c, p, peers, kind, order); Good(c, q, peers, base) && Issued(c, d, q, peers)
    decreases |order|
  {
    if |order| > 0 {
      RedialKeeps(c, d, p, peers, kind, order[0], base);
      RedialAllKeeps(c, d, Redial(c, p, peers, kind, order[0]), peers, kind, order[1..], base);
    }
  }

  /** A barred node is given up, unless it is being dialed or connected; any other may be dialed. */
  lemma RedialIs(c: Config, p: Plan, peers: map<NodeId, Flags>, kind: Kind, id: NodeId)
    requires WellKept(p.d) && id in Kept(p.d, kind)
    ensures var n := Kept(p.d, kind)[id]; var q := Redial(c, p, peers, kind, id);
            && n.id == id
            && (q == GiveUp(p, kind, n) || q == AddDial(c, p, peers, FlagsOf(kind), n))
            && (q != AddDial(c, p, peers, FlagsOf(kind), n) ==> Barred(c, n))
  {
    KeptId(p.d, kind, id);
  }

  lemma RedialKeeps(c: Config, d: Dialer, p: Plan, peers: map<NodeId, Flags>, kind: Kind, id: NodeId, base: seq<Task>)
    requires Good(c, p, peers, base) && Issued(c, d, p, peers)
    ensures var q := Redial(c, p, peers, kind, id); Good(c, q, peers, base) && Issued(c, d, q, peers)
  {
    if id in Kept(p.d, kind) {
      var n := Kept(p.d, kind)[id];
      RedialIs(c, p, peers, kind, id);
      if Redial(c, p, peers, kind, id) == AddDial(c, p, peers, FlagsOf(kind), n) {
        AddDialKeeps(c, d, p, peers, FlagsOf(kind), n, base);
      } else {
        GiveUpKeeps(c, d, p, peers, kind, n, base);
      }
    }
  }

  lemma KeptId(d: Dialer, kind: Kind, id: NodeId)
    requires WellKept(d) && id in Kept(d, kind)
    ensures Kept(d, kind)[id].id == id
  {
  }

  lemma GiveUpKeeps(c: Config, d: Dialer, p: Plan, peers: map<NodeId, Flags>, kind: Kind, n: Node, base: seq<Task>)
    requires Good(c, p, peers, base) && Issued(c, d, p, peers)
    requires n.id in Kept(p.d, kind) && Kept(p.d, kind)[n.id] == n && Barred(c, n)
    ensures var q := GiveUp(p, kind, n); Good(c, q, peers, base) && Issued(c, d, q, peers)
  {
    match kind
    case Static =>
    case Storeman =>
  }

  lemma FallbackKeeps(c: Config, d: Dialer, p: Plan, peers: map<NodeId, Flags>, now: Time, base: seq<Task>)
    requires Good(c, p, peers, base) && Issued(c, d, p, peers)
    ensures var q := Fallback(c, p, peers, now); Good(c, q, peers, base) && Issued(c, d, q, peers)
  {
    if |p.d.bootnodes| > 0 && p.need > 0 {
      var n := p.d.bootnodes[0];
      AddDialKeeps(c, d, p.(d := p.d.(bootnodes := p.d.bootnodes[1..] + [n])), peers, DYN, n, base);
    }
  }

  lemma {:induction false} DialEachKeeps(c: Config, d: Dialer, p: Plan, peers: map<NodeId, Flags>, nodes: seq<Node>,
                                         base: seq<Task>)
    requires (|nodes| > 0 ==> |nodes| < p.need) && Good(c, p, peers, base) && Issued(c, d, p, peers)
    ensures var q := DialEach(c, p, peers, nodes); Good(c, q, peers, base) && Issued(c, d, q, peers)
    decreases |nodes|
  {
    if |nodes| > 0 {
      AddDialKeeps(c, d, p, peers, DYN, nodes[0], base);
      DialEachKeeps(c, d, AddDial(c, p, peers, DYN, nodes[0]), peers, nodes[1..], base);
    }
  }

  lemma {:induction false} DialBufferedKeeps(c: Config, d: Dialer, p: Plan, peers: map<NodeId, Flags>, base: seq<Task>)
    requires Good(c, p, peers, base) && Issued(c, d, p, peers)
    ensures var q := DialBuffered(c, p, peers); Good(c, q, peers, base) && Issued(c, d, q, peers)
    decreases |p.d.lookupBuf|
  {
    if |p.d.lookupBuf| > 0 && p.need > 0 {
      var p', n := p.(d := p.d.(lookupBuf := p.d.lookupBuf[1..])), p.d.lookupBuf[0];
      AddDialKeeps(c, d, p', peers, DYN, n, base);
      DialBufferedKeeps(c, d, AddDial(c, p', peers, DYN, n), peers, base);
    }
  }

  lemma LookupKeeps(c: Config, d: Dialer, p: Plan, peers: map<NodeId, Flags>, base: seq<Task>)
    requires Good(c, p, peers, base) && Issued(c, d, p, peers)
    ensures var q := Lookup(p); Good(c, q, peers, base) && Issued(c, d, q, peers)
  {
    LookupTracks(p, base);
  }

  lemma LookupTracks(p: Plan, base: seq<Task>)
    requires Tracks(p.d, base + p.tasks)
    ensures var q := Lookup(p); Tracks(q.d, base + q.tasks)
  {
    if !p.d.lookupRunning {
      assert !TaskFor(p.d, DiscoverTask);
      DistinctAppend(base + p.tasks, DiscoverTask);
      assert base + (p.tasks + [DiscoverTask]) == (base + p.tasks) + [DiscoverTask];
    }
  }

  lemma BeginKeeps(c: Config, d: Dialer, peers: map<NodeId, Flags>, now: Time, base: seq<Task>)
    requires Tracks(d, base) && Apart(d) && WellKept(d)
    requires |Ids(peers, Dynamic) + Ids(d.dialing, Dynamic)| <= Max0(c.maxDyn)
    ensures var p := Begin(c, d, peers, now); Good(c, p, peers, base) && Issued(c, p.d, p, peers)
  {
    assert base + [] == base;
    UnionSize(Ids(peers, Dynamic), Ids(d.dialing, Dynamic));
  }

  lemma DialsKeep(c: Config, d: Dialer, peers: map<NodeId, Flags>, now: Time, ch: Choice, base: seq<Task>)
    requires Tracks(d, base) && Apart(d) && WellKept(d)
    requires |Ids(peers, Dynamic) + Ids(d.dialing, Dynamic)| <= Max0(c.maxDyn)
    ensures var p := Dials(c, d, peers, now, ch);
            Good(c, p, peers, base) && Issued(c, Begin(c, d, peers, now).d, p, peers)
  {
    var p0 := Begin(c, d, peers, now);
    BeginKeeps(c, d, peers, now, base);
    RedialAllKeeps(c, p0.d, p0, peers, Static, ch.statics, base);
    var p1 := RedialAll(c, p0, peers, Static, ch.statics);
    RedialAllKeeps(c, p0.d, p1, peers, Storeman, ch.storemen, base);
    var p2 := RedialAll(c, p1, peers, Storeman, ch.storemen);
    FallbackKeeps(c, p0.d, p2, peers, now, base);
    var p3 := Fallback(c, p2, peers, now);
    var random := ch.random[..RandomCandidates(p3.need, ch.random)];
    DialEachKeeps(c, p0.d, p3, peers, random, base);
    DialBufferedKeeps(c, p0.d, DialEach(c, p3, peers, random), peers, base);
  }

  /**
    * Whatever the orders and the table's nodes are, a call of newTasks keeps the dialing map, the tasks and the
    * dynamic limit in step, and dials only nodes that are not connected, not dialed already, not in the history.
    */
  lemma NewTasksKeeps(c: Config, d: Dialer, nRunning: nat, peers: map<NodeId, Flags>, now: Time, ch: Choice,
                      base: seq<Task>)
    requires Tracks(d, base) && Apart(d) && WellKept(d) && nRunning == |base|
    requires |Ids(peers, Dynamic) + Ids(d.dialing, Dynamic)| <= Max0(c.maxDyn)
    ensures var (d', ts) := NewTasks(c, d, nRunning, peers, now, ch);
            && Tracks(d', base + ts) && Apart(d') && WellKept(d')
            && |Ids(peers, Dynamic) + Ids(d'.dialing, Dynamic)| <= Max0(c.maxDyn)
            && d'.hist == Expire(d.hist, now)
            && (forall id | id in d.dialing :: id in d'.dialing && d'.dialing[id] == d.dialing[id])
            && (forall id | id in d'.dialing && id !in d.dialing ::
                  id !in peers && id !in d'.hist && !(c.discovery && id == c.self))
            && Thinned(c, d.statics, d'.statics) && Thinned(c, d.storemen, d'.storemen)
  {
    DialsKeep(c, d, peers, now, ch, base);
    LookupKeeps(c, Begin(c, d, peers, now).d, Dials(c, d, peers, now, ch), peers, base);
    WaitingKeeps(Lookup(Dials(c, d, peers, now, ch)), nRunning, now, ch.first, base);
  }

  lemma WaitingKeeps(p: Plan, nRunning: nat, now: Time, first: NodeId, base: seq<Task>)
    requires Tracks(p.d, base + p.tasks) && nRunning == |base|
    ensures var (d, ts) := Waiting(p, nRunning, now, first); d == p.d && Tracks(d, base + ts)
  {
    if nRunning == 0 && |p.tasks| == 0 {
      assert base + p.tasks == [];
    }
  }

  // ----------------------------------------------------------------- kept nodes are not missed

  /** A node that is still kept is being dialed, connected, or waiting in the history. */
  ghost predicate Settled(c: Config, d: Dialer, peers: map<NodeId, Flags>, kind: Kind, id: NodeId) {
    id in Kept(d, kind) ==> id in d.dialing || id in peers || id in d.hist
  }

  lemma StaysSettled(c: Config, d: Dialer, p: Plan, peers: map<NodeId, Flags>, kind: Kind, id: NodeId)
    requires Issued(c, d, p, peers) && Settled(c, d, peers, kind, id)
    ensures Settled(c, p.d, peers, kind, id)
  {
    match kind
    case Static =>
    case Storeman =>
  }

  lemma AddDialSettles(c: Config, p: Plan, peers: map<NodeId, Flags>, flags: Flags, n: Node)
    requires !Barred(c, n)
    ensures var d := AddDial(c, p, peers, flags, n).d; n.id in d.dialing || n.id in peers || n.id in d.hist
  {
  }

  lemma GiveUpSettles(p: Plan, kind: Kind, n: Node)
    ensures n.id !in Kept(GiveUp(p, kind, n).d, kind)
  {
  }

  lemma RedialSettles(c: Config, p: Plan, peers: map<NodeId, Flags>, kind: Kind, id: NodeId)
    requires WellKept(p.d)
    ensures Settled(c, Redial(c, p, peers, kind, id).d, peers, kind, id)
  {
    if id in Kept(p.d, kind) {
      var n := Kept(p.d, kind)[id];
      KeptId(p.d, kind, id);
      if !Barred(c, n) {
        AddDialSettles(c, p, peers, FlagsOf(kind), n);
      } else {
        GiveUpSettles(p, kind, n);
      }
    }
  }

  lemma IssuedRefl(c: Config, p: Plan, peers: map<NodeId, Flags>)
    ensures Issued(c, p.d, p, peers)
  {
  }

  lemma {:induction false} RedialAllSettles(c: Config, p: Plan, peers: map<NodeId, Flags>, kind: Kind,
                                            order: seq<NodeId>, id: NodeId, base: seq<Task>)
    requires Good(c, p, peers, base) && (id in order || Settled(c, p.d, peers, kind, id))
    ensures Settled(c, RedialAll(c, p, peers, kind, order).d, peers, kind, id)
    decreases |order|
  {
    if |order| > 0 {
      var q := Redial(c, p, peers, kind, order[0]);
      IssuedRefl(c, p, peers);
      RedialKeeps(c, p.d, p, peers, kind, order[0], base);
      if id == order[0] {
        RedialSettles(c, p, peers, kind, id);
      } else if id !in order {
        StaysSettled(c, p.d, q, peers, kind, id);
      }
      RedialAllSettles(c, q, peers, kind, order[1..], id, base);
    }
  }

  /** After both loops every kept node is settled; the dynamic dials that follow do not undo it. */
  lemma KeptAreDialed(c: Config, d: Dialer, peers: map<NodeId, Flags>, now: Time, ch: Choice, base: seq<Task>,
                      kind: Kind, id: NodeId)
    requires Tracks(d, base) && Apart(d) && WellKept(d) && Possible(d, now, ch)
    requires |Ids(peers, Dynamic) + Ids(d.dialing, Dynamic)| <= Max0(c.maxDyn)
    ensures Settled(c, NewTasks(c, d, |base|, peers, now, ch).0, peers, kind, id)
  {
    var p0 := Begin(c, d, peers, now);
    BeginKeeps(c, d, peers, now, base);
    StaticsSettle(c, p0, peers, ch, base, kind, id);
    AfterStatics(c, RedialAll(c, p0, peers, Static, ch.statics), peers, now, ch, base, kind, id);
  }

  /** After the first loop the static nodes are settled, and the storeman nodes are still to come. */
  lemma StaticsSettle(c: Config, p0: Plan, peers: map<NodeId, Flags>, ch: Choice, base: seq<Task>, kind: Kind,
                      id: NodeId)
    requires Good(c, p0, peers, base) && Issued(c, p0.d, p0, peers)
    requires Walks(ch.statics, p0.d.statics) && Walks(ch.storemen, p0.d.storemen)
    ensures var p1 := RedialAll(c, p0, peers, Static, ch.statics);
            Good(c, p1, peers, base) && (Settled(c, p1.d, peers, kind, id) || (kind == Storeman && id in ch.storemen))
  {
    RedialAllKeeps(c, p0.d, p0, peers, Static, ch.statics, base);
    if kind == Static {
      RedialAllSettles(c, p0, peers, Static, ch.statics, id, base);
    } else if id !in ch.storemen {
      StaysSettled(c, p0.d, RedialAll(c, p0, peers, Static, ch.statics), peers, Storeman, id);
    }
  }

  lemma AfterStatics(c: Config, p1: Plan, peers: map<NodeId, Flags>, now: Time, ch: Choice, base: seq<Task>,
                     kind: Kind, id: NodeId)
    requires Good(c, p1, peers, base)
    requires Settled(c, p1.d, peers, kind, id) || (kind == Storeman && id in ch.storemen)
    ensures var p2 := RedialAll(c, p1, peers, Storeman, ch.storemen);
            Settled(c, Lookup(DynamicDials(c, p2, peers, now, ch.random)).d, peers, kind, id)
  {
    var p2 := RedialAll(c, p1, peers, Storeman, ch.storemen);
    IssuedRefl(c, p1, peers);
    RedialAllKeeps(c, p1.d, p1, peers, Storeman, ch.storemen, base);
    if kind == Storeman {
      RedialAllSettles(c, p1, peers, Storeman, ch.storemen, id, base);
    } else {
      StaysSettled(c, p1.d, p2, peers, kind, id);
    }
    AfterKept(c, p2, peers, now, ch, base, kind, id);
  }

  lemma AfterKept(c: Config, p2: Plan, peers: map<NodeId, Flags>, now: Time, ch: Choice, base: seq<Task>, kind: Kind,
                  id: NodeId)
    requires Good(c, p2, peers, base) && Settled(c, p2.d, peers, kind, id)
    ensures Settled(c, Lookup(DynamicDials(c, p2, peers, now, ch.random)).d, peers, kind, id)
  {
    IssuedRefl(c, p2, peers);
    FallbackKeeps(c, p2.d, p2, peers, now, base);
    var p3 := Fallback(c, p2, peers, now);
    var random := ch.random[..RandomCandidates(p3.need, ch.random)];
    DialEachKeeps(c, p2.d, p3, peers, random, base);
    var p4 := DialEach(c, p3, peers, random);
    DialBufferedKeeps(c, p2.d, p4, peers, base);
    LookupKeeps(c, p2.d, DialBuffered(c, p4, peers), peers, base);
    StaysSettled(c, p2.d, Lookup(DialBuffered(c, p4, peers)), peers, kind, id);
  }

  // --------------------------------------------------------------------- a choice always exists

  lemma {:induction false} SomeWalk(m: map<NodeId, Node>) returns (order: seq<NodeId>)
    ensures Walks(order, m)
    decreases |m|
  {
    order := [];
    if m != map[] {
      var id :| id in m;
      order := SomeWalk(m - {id});
      DistinctAppend(order, id);
      order := order + [id];
    }
  }

  lemma {:induction false} SomeEarliest(hist: map<NodeId, Time>) returns (first: NodeId)
    ensures |hist| > 0 ==> Earliest(hist, first)
    decreases |hist|
  {
    first := 0;
    if |hist| > 0 {
      var id :| id in hist;
      var rest := hist - {id};
      first := SomeEarliest(rest);
      assert hist.Keys == rest.Keys + {id};
      if |rest| == 0 || hist[id] < rest[first] {
        first := id;
      }
    }
  }

  lemma SomeChoice(d: Dialer, now: Time) returns (ch: Choice)
    ensures Possible(d, now, ch)
  {
    var statics := SomeWalk(d.statics);
    var storemen := SomeWalk(d.storemen);
    var first := SomeEarliest(Expire(d.hist, now));
    ch := Choice(statics, storemen, [], first);
  }
}
