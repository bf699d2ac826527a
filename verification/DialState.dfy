/** The dial scheduler as p2p/dial.go runs it: maps, buffers and the heap updated in place by loops. */
module DialState {
  import opened Common
  import opened Dial
  import opened DialHistory

  lemma {:induction false} RedialAllAppend(c: Config, p: Plan, peers: map<NodeId, Flags>, kind: Kind,
                                           order: seq<NodeId>, id: NodeId)
    ensures RedialAll(c, p, peers, kind, order + [id])
         == Redial(c, RedialAll(c, p, peers, kind, order), peers, kind, id)
    decreases |order|
  {
    if |order| == 0 {
      assert (order + [id])[1..] == [];
    } else {
      assert (order + [id])[1..] == order[1..] + [id];
      RedialAllAppend(c, Redial(c, p, peers, kind, order[0]), peers, kind, order[1..], id);
    }
  }

  lemma {:induction false} DialEachAppend(c: Config, p: Plan, peers: map<NodeId, Flags>, nodes: seq<Node>, n: Node)
    ensures DialEach(c, p, peers, nodes + [n]) == AddDial(c, DialEach(c, p, peers, nodes), peers, DYN, n)
    decreases |nodes|
  {
    if |nodes| == 0 {
      assert (nodes + [n])[1..] == [];
    } else {
      assert (nodes + [n])[1..] == nodes[1..] + [n];
      DialEachAppend(c, AddDial(c, p, peers, DYN, nodes[0]), peers, nodes[1..], n);
    }
  }

  /** The keys are those visited in order, once each, and those still to do. */
  ghost predicate Visited(order: seq<NodeId>, keys: set<NodeId>, todo: set<NodeId>) {
    Distinct(order) && todo <= keys && forall id :: id in order <==> id in keys && id !in todo
  }

  lemma VisitOne(order: seq<NodeId>, keys: set<NodeId>, todo: set<NodeId>, id: NodeId)
    requires Visited(order, keys, todo) && id in todo
    ensures Visited(order + [id], keys, todo - {id}) && |todo - {id}| < |todo|
  {
    DistinctAppend(order, id);
  }

  /** Counts the dynamic entries of a map by walking over it. */
  method CountDynamic(m: map<NodeId, Flags>) returns (n: nat)
    ensures n == |Ids(m, Dynamic)|
  {
    n := 0;
    var rest := m;
    while rest != map[]
      invariant n + |Ids(rest, Dynamic)| == |Ids(m, Dynamic)|
      decreases |rest|
    {
      var id :| id in rest;
      IdsRemove(rest, id, Dynamic);
      if rest[id].dynDialed {
        n := n + 1;
      }
      rest := rest - {id};
    }
  }

  lemma RepresentsForget(es: multiset<PastDial>, m: map<NodeId, Time>, id: NodeId, es': multiset<PastDial>)
    requires Represents(es, m)
    requires if id in m then exists e: PastDial :: e in es && e.id == id && es' == es - multiset{e} else es' == es
    ensures Represents(es', m - {id})
  {
    if id in m {
      var e: PastDial :| e in es && e.id == id && es' == es - multiset{e};
      RepresentsRemove(es, m, e);
    } else {
      assert m - {id} == m;
    }
  }

  lemma RepresentsEmpty(es: multiset<PastDial>, m: map<NodeId, Time>)
    requires Represents(es, m)
    ensures |es| == 0 <==> |m| == 0
  {
    if m != map[] {
      var id :| id in m;
      assert PastDial(id, m[id]) in es;
    }
  }

  function Entered(es: multiset<PastDial>, t: Task, now: Time): multiset<PastDial> {
    if t.DialTask? then es + multiset{PastDial(t.id, now + HISTORY_EXPIRATION)} else es
  }

  class DialState {
    const c: Config
    var dialing: map<NodeId, Flags>
    var statics: map<NodeId, Node>
    var storemen: map<NodeId, Node>
    var lookupRunning: bool
    var lookupBuf: seq<Node>
    var bootnodes: seq<Node>
    var start: Option<Time>
    const hist: DialHistory
    ghost var past: map<NodeId, Time>

    ghost predicate Valid()
      reads this, hist
    {
      hist.Valid() && Represents(multiset(hist.h), past) && WellKept(Model())
    }

    ghost function Model(): Dialer
      reads this
    {
      Dialer(dialing, statics, storemen, lookupRunning, lookupBuf, bootnodes, past, start)
    }

    constructor (c: Config, statics: seq<Node>, storemen: seq<Node>, bootnodes: seq<Node>)
      ensures Valid() && this.c == c && fresh(hist) && Model() == NewDialState(statics, storemen, bootnodes)
    {
      this.c := c;
      dialing, this.statics, this.storemen := map[], map[], map[];
      lookupRunning, lookupBuf, this.bootnodes, start := false, [], bootnodes, None;
      past := map[];
      hist := new DialHistory();
      new;
      AddAllStatics(statics);
      AddAllStoremen(storemen);
    }

    method AddAllStatics(nodes: seq<Node>)
      requires Valid()
      modifies this`statics
      ensures Valid() && Model() == AddStatics(old(Model()), nodes)
    {
      var rest := nodes;
      while |rest| > 0
        invariant Valid() && AddStatics(Model(), rest) == AddStatics(old(Model()), nodes)
      {
        AddStatic(rest[0]);
        rest := rest[1..];
      }
    }

    method AddAllStoremen(nodes: seq<Node>)
      requires Valid()
      modifies this, hist
      ensures Valid() && Model() == AddStoremen(old(Model()), nodes)
    {
      var rest := nodes;
      while |rest| > 0
        invariant Valid() && AddStoremen(Model(), rest) == AddStoremen(old(Model()), nodes)
      {
        if HasAddress(rest[0]) {
          AddStoreman(rest[0]);
        }
        rest := rest[1..];
      }
    }

    method CheckDial(n: Node, peers: map<NodeId, Flags>) returns (v: Verdict)
      requires Valid()
      ensures v == Dial.CheckDial(c, Model(), n, peers)
    {
      if n.id in dialing {
        return AlreadyDialing;
      } else if n.id in peers {
        return AlreadyConnected;
      } else if c.discovery && n.id == c.self {
        return IsSelf;
      } else if NotListed(c, n) {
        return NotWhitelisted;
      }
      var recent := hist.Contains(n.id);
      RepresentsNone(multiset(hist.h), past, n.id);
      return if recent then RecentlyDialed else Ok;
    }

    method Forget(id: NodeId)
      requires Valid()
      modifies this`past, hist
      ensures Valid() && past == old(past) - {id}
    {
      ghost var es := multiset(hist.h);
      RepresentsNone(es, past, id);
      var found := hist.Remove(id);
      RepresentsForget(es, past, id, multiset(hist.h));
      past := past - {id};
    }

    method AddStatic(n: Node)
      requires Valid()
      modifies this`statics
      ensures Valid() && Model() == Dial.AddStatic(old(Model()), n)
    {
      statics := statics[n.id := n];
    }

    method RemoveStatic(n: Node)
      requires Valid()
      modifies this, hist
      ensures Valid() && Model() == Dial.RemoveStatic(old(Model()), n)
    {
      statics := statics - {n.id};
      Forget(n.id);
    }

    method AddStoreman(n: Node)
      requires Valid()
      modifies this, hist
      ensures Valid() && Model() == Dial.AddStoreman(old(Model()), n)
    {
      if n.id in storemen && !SameText(storemen[n.id], n) {
        storemen := storemen - {n.id};
        Forget(n.id);
        return;
      }
      storemen := storemen[n.id := n];
    }

    method RemoveStoreman(n: Node)
      requires Valid()
      modifies this, hist
      ensures Valid() && Model() == Dial.RemoveStoreman(old(Model()), n)
    {
      storemen := storemen - {n.id};
      Forget(n.id);
    }

    /**
      * Puts a finished dial into the heap, also if its node has an entry there, and exactly then a node has two
      * entries. In the server that never happens (`Server.HistoryAddIsNew`).
      */
    method TaskDone(t: Task, results: seq<Node>, now: Time)
      requires Valid()
      modifies this, hist
      ensures Model() == Dial.TaskDone(old(Model()), t, results, now) && WellKept(Model()) && hist.Valid()
      ensures multiset(hist.h) == Entered(old(multiset(hist.h)), t, now)
      ensures Valid() <==> (t.DialTask? ==> t.id !in old(past))
    {
      match t
      case DialTask(_, id) =>
        RepresentsAddExact(multiset(hist.h), past, id, now + HISTORY_EXPIRATION);
        hist.Add(id, now + HISTORY_EXPIRATION);
        past := past[id := now + HISTORY_EXPIRATION];
        dialing := dialing - {id};
      case DiscoverTask =>
        lookupRunning := false;
        lookupBuf := lookupBuf + results;
      case WaitExpireTask(_) =>
    }

    method AddDial(flags: Flags, n: Node, peers: map<NodeId, Flags>, tasks: seq<Task>, need: int)
      returns (tasks': seq<Task>, need': int)
      requires Valid()
      modifies this`dialing
      ensures Valid()
      ensures Plan(Model(), tasks', need') == Dial.AddDial(c, Plan(old(Model()), tasks, need), peers, flags, n)
    {
      tasks', need' := tasks, need;
      var v := CheckDial(n, peers);
      if v == Ok {
        dialing := dialing[n.id := flags];
        tasks' := tasks + [DialTask(flags, n.id)];
        if flags.dynDialed {
          need' := need - 1;
        }
      }
    }

    ghost function PlanNow(tasks: seq<Task>, need: int): Plan
      reads this
    {
      Plan(Model(), tasks, need)
    }

    method Unkeep(kind: Kind, id: NodeId)
      requires Valid()
      modifies this`statics, this`storemen
      ensures Valid() && Model() == WithKept(old(Model()), kind, Kept(old(Model()), kind) - {id})
    {
      if kind == Static {
        statics := statics - {id};
      } else {
        storemen := storemen - {id};
      }
    }

    /** One kept node: dialed, given up if it never can be, or left alone. */
    method RedialOne(kind: Kind, id: NodeId, peers: map<NodeId, Flags>, tasks: seq<Task>, need: int)
      returns (tasks': seq<Task>)
      requires Valid()
      modifies this`dialing, this`statics, this`storemen
      ensures Valid() && PlanNow(tasks', need) == Redial(c, old(PlanNow(tasks, need)), peers, kind, id)
      ensures if kind == Static then storemen == old(storemen) else statics == old(statics)
    {
      tasks' := tasks;
      var kept := if kind == Static then statics else storemen;
      if id in kept {
        var n := kept[id];
        var v := CheckDial(n, peers);
        if v == NotWhitelisted || v == IsSelf {
          Unkeep(kind, n.id);
        } else if v == Ok {
          dialing := dialing[n.id := FlagsOf(kind)];
          tasks' := tasks + [DialTask(FlagsOf(kind), n.id)];
        }
      }
    }

    method RedialNext(kind: Kind, id: NodeId, peers: map<NodeId, Flags>, tasks: seq<Task>, need: int,
                      ghost begun: Plan, ghost order: seq<NodeId>)
      returns (tasks': seq<Task>)
      requires Valid() && PlanNow(tasks, need) == RedialAll(c, begun, peers, kind, order)
      modifies this`dialing, this`statics, this`storemen
      ensures Valid() && PlanNow(tasks', need) == RedialAll(c, begun, peers, kind, order + [id])
      ensures if kind == Static then storemen == old(storemen) else statics == old(statics)
    {
      tasks' := RedialOne(kind, id, peers, tasks, need);
      RedialAllAppend(c, begun, peers, kind, order, id);
    }

    /** Walks over the static or storeman nodes in some order. */
    method RedialKept(kind: Kind, peers: map<NodeId, Flags>, tasks: seq<Task>, need: int)
      returns (tasks': seq<Task>, ghost order: seq<NodeId>)
      requires Valid()
      modifies this`dialing, this`statics, this`storemen
      ensures Valid() && Walks(order, old(Kept(Model(), kind)))
      ensures if kind == Static then storemen == old(storemen) else statics == old(statics)
      ensures PlanNow(tasks', need) == RedialAll(c, old(PlanNow(tasks, need)), peers, kind, order)
    {
      tasks', order := tasks, [];
      ghost var keys := Kept(Model(), kind).Keys;
      var todo := if kind == Static then statics.Keys else storemen.Keys;
      while todo != {}
        invariant Valid() && Visited(order, keys, todo)
        invariant if kind == Static then storemen == old(storemen) else statics == old(statics)
        invariant PlanNow(tasks', need) == RedialAll(c, old(PlanNow(tasks, need)), peers, kind, order)
        decreases |todo|
      {
        var id :| id in todo;
        VisitOne(order, keys, todo, id);
        todo := todo - {id};
        tasks' := RedialNext(kind, id, peers, tasks', need, old(PlanNow(tasks, need)), order);
        order := order + [id];
      }
    }

    method TryBootnode(peers: map<NodeId, Flags>, now: Time, tasks: seq<Task>, need: int)
      returns (tasks': seq<Task>, need': int)
      requires Valid()
      modifies this`dialing, this`bootnodes
      ensures Valid() && PlanNow(tasks', need') == Fallback(c, old(PlanNow(tasks, need)), peers, now)
    {
      tasks', need' := tasks, need;
      if |peers| == 0 && |bootnodes| > 0 && need > 0 && start.Some? && now - start.value > FALLBACK_INTERVAL {
        var n := bootnodes[0];
        bootnodes := bootnodes[1..] + [n];
        tasks', need' := AddDial(DYN, n, peers, tasks, need);
      }
    }

    method DialRandom(peers: map<NodeId, Flags>, random: seq<Node>, tasks: seq<Task>, need: int)
      returns (tasks': seq<Task>, need': int)
      requires Valid()
      modifies this`dialing
      ensures Valid()
      ensures PlanNow(tasks', need')
           == DialEach(c, old(PlanNow(tasks, need)), peers, random[..RandomCandidates(need, random)])
    {
      tasks', need' := tasks, need;
      var i: nat := 0;
      while i < RandomCandidates(need, random)
        invariant i <= RandomCandidates(need, random) && Valid()
        invariant PlanNow(tasks', need') == DialEach(c, old(PlanNow(tasks, need)), peers, random[..i])
      {
        tasks', need' := AddDial(DYN, random[i], peers, tasks', need');
        DialEachAppend(c, old(PlanNow(tasks, need)), peers, random[..i], random[i]);
        assert random[..i + 1] == random[..i] + [random[i]];
        i := i + 1;
      }
    }

    method DialLookupBuffer(peers: map<NodeId, Flags>, tasks: seq<Task>, need: int)
      returns (tasks': seq<Task>, need': int)
      requires Valid()
      modifies this`dialing, this`lookupBuf
      ensures Valid() && PlanNow(tasks', need') == DialBuffered(c, old(PlanNow(tasks, need)), peers)
    {
      tasks', need' := tasks, need;
      while |lookupBuf| > 0 && need' > 0
        invariant Valid()
        invariant DialBuffered(c, PlanNow(tasks', need'), peers) == DialBuffered(c, old(PlanNow(tasks, need)), peers)
        decreases |lookupBuf|
      {
        tasks', need' := DialNextBuffered(peers, tasks', need');
      }
    }

    /** Takes one node off the buffer; what the loop computes stays the same. */
    method DialNextBuffered(peers: map<NodeId, Flags>, tasks: seq<Task>, need: int)
      returns (tasks': seq<Task>, need': int)
      requires Valid() && |lookupBuf| > 0 && need > 0
      modifies this`dialing, this`lookupBuf
      ensures Valid() && |lookupBuf| == |old(lookupBuf)| - 1
      ensures DialBuffered(c, PlanNow(tasks', need'), peers) == DialBuffered(c, old(PlanNow(tasks, need)), peers)
    {
      var n := lookupBuf[0];
      lookupBuf := lookupBuf[1..];
      tasks', need' := AddDial(DYN, n, peers, tasks, need);
    }

    method Prepare(peers: map<NodeId, Flags>, now: Time) returns (need: int)
      requires Valid()
      modifies this`start, this`past, hist
      ensures Valid() && PlanNow([], need) == Begin(c, old(Model()), peers, now)
    {
      if start.None? {
        start := Some(now);
      }
      var connected := CountDynamic(peers);
      var pending := CountDynamic(dialing);
      need := c.maxDyn - connected - pending;
      ExpireHistory(now);
    }

    method ExpireHistory(now: Time)
      requires Valid()
      modifies this`past, hist
      ensures Valid() && past == Expire(old(past), now)
    {
      ghost var es := multiset(hist.h);
      hist.Expire(now);
      RepresentsExpire(es, past, now, multiset(hist.h));
      past := Expire(past, now);
    }

    /** The node whose entry expires first, if the history holds any. */
    method FirstToExpire() returns (first: Option<PastDial>)
      requires Valid()
      ensures first.None? <==> |past| == 0
      ensures first.Some? ==> Earliest(past, first.value.id) && past[first.value.id] == first.value.exp
    {
      RepresentsEmpty(multiset(hist.h), past);
      if |hist.h| == 0 {
        return None;
      }
      var e := hist.Min();
      assert e in multiset(hist.h);
      forall id | id in past ensures e.exp <= past[id] {
        assert PastDial(id, past[id]) in multiset(hist.h);
        assert PastDial(id, past[id]) in hist.h;
      }
      first := Some(e);
    }

    method RedialBoth(peers: map<NodeId, Flags>, need: int)
      returns (tasks: seq<Task>, ghost order1: seq<NodeId>, ghost order2: seq<NodeId>)
      requires Valid()
      modifies this`dialing, this`statics, this`storemen
      ensures Valid() && Walks(order1, old(statics)) && Walks(order2, old(storemen))
      ensures PlanNow(tasks, need)
           == RedialAll(c, RedialAll(c, old(PlanNow([], need)), peers, Static, order1), peers, Storeman, order2)
    {
      tasks, order1 := RedialKept(Static, peers, [], need);
      tasks, order2 := RedialKept(Storeman, peers, tasks, need);
    }

    method DialDynamic(peers: map<NodeId, Flags>, now: Time, random: seq<Node>, tasks: seq<Task>, need: int)
      returns (tasks': seq<Task>, need': int)
      requires Valid()
      modifies this`dialing, this`bootnodes, this`lookupBuf
      ensures Valid() && PlanNow(tasks', need') == DynamicDials(c, old(PlanNow(tasks, need)), peers, now, random)
    {
      tasks', need' := TryBootnode(peers, now, tasks, need);
      tasks', need' := DialRandom(peers, random, tasks', need');
      tasks', need' := DialLookupBuffer(peers, tasks', need');
    }

    method LaunchLookup(tasks: seq<Task>, need: int) returns (tasks': seq<Task>)
      requires Valid()
      modifies this`lookupRunning
      ensures Valid() && PlanNow(tasks', need) == Lookup(old(PlanNow(tasks, need)))
    {
      tasks' := tasks;
      if |lookupBuf| < need && !lookupRunning {
        lookupRunning := true;
        tasks' := tasks + [DiscoverTask];
      }
    }

    method WaitIfIdle(nRunning: nat, now: Time, tasks: seq<Task>, ghost need: int)
      returns (tasks': seq<Task>, ghost first: NodeId)
      requires Valid()
      ensures |past| > 0 ==> Earliest(past, first)
      ensures (Model(), tasks') == Waiting(PlanNow(tasks, need), nRunning, now, first)
    {
      tasks' := tasks;
      var e := FirstToExpire();
      first := if e.Some? then e.value.id else 0;
      if nRunning == 0 && |tasks| == 0 && e.Some? {
        tasks' := [WaitExpireTask(e.value.exp - now)];
      }
    }

    method PlanTasks(peers: map<NodeId, Flags>, now: Time, random: seq<Node>)
      returns (tasks: seq<Task>, need: int, ghost order1: seq<NodeId>, ghost order2: seq<NodeId>)
      requires Valid()
      modifies this, hist
      ensures Valid() && past == Expire(old(past), now)
      ensures Walks(order1, old(statics)) && Walks(order2, old(storemen))
      ensures var p := RedialAll(c, Begin(c, old(Model()), peers, now), peers, Static, order1);
              var q := RedialAll(c, p, peers, Storeman, order2);
              PlanNow(tasks, need) == Lookup(DynamicDials(c, q, peers, now, random))
    {
      need := Prepare(peers, now);
      tasks, order1, order2 := RedialBoth(peers, need);
      tasks, need := DialDynamic(peers, now, random, tasks, need);
      tasks := LaunchLookup(tasks, need);
    }

    /** One call of newTasks does what the function `Dial.NewTasks` says, for some possible choice. */
    method NewTasks(nRunning: nat, peers: map<NodeId, Flags>, now: Time, random: seq<Node>)
      returns (tasks: seq<Task>, ghost ch: Choice)
      requires Valid()
      modifies this, hist
      ensures Valid() && ch.random == random && Possible(old(Model()), now, ch)
      ensures (Model(), tasks) == Dial.NewTasks(c, old(Model()), nRunning, peers, now, ch)
    {
      var need;
      ghost var order1, order2, first;
      tasks, need, order1, order2 := PlanTasks(peers, now, random);
      tasks, first := WaitIfIdle(nRunning, now, tasks, need);
      ch := Choice(order1, order2, random, first);
    }
  }
}
