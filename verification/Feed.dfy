/**
  * One-to-many delivery. New channels wait in an inbox; a send moves them to the list of cases, delivers to the
  * cases one by one in any order, swapping each served case behind a shrinking front part of the same list, and
  * takes requests to remove a channel while it waits for receivers.
  */
module Feed {

  /** A channel; the one that carries removal requests is number zero and is never subscribed. */
  type Chan = nat

  const REMOVE_SUB: Chan := 0

  /** Removes the case at `i`. */
  function DeleteAt(cs: seq<Chan>, i: nat): (r: seq<Chan>)
    requires i < |cs|
    ensures |r| == |cs| - 1
  {
    cs[..i] + cs[i + 1..]
  }

  /** Swaps case `i` to the end of the first `k` cases. */
  function SwapOut(cs: seq<Chan>, k: nat, i: nat): (r: seq<Chan>)
    requires i < k <= |cs|
    ensures |r| == |cs|
  {
    cs[i := cs[k - 1]][k - 1 := cs[i]]
  }

  /** Position of the first case for `ch`, or -1. */
  function Find(cs: seq<Chan>, ch: Chan): (r: int)
    ensures -1 <= r < |cs|
    ensures r == -1 <==> ch !in cs
    ensures r >= 0 ==> cs[r] == ch && ch !in cs[..r]
    decreases |cs|
  {
    if cs == [] then -1
    else if cs[0] == ch then 0
    else
      var r := Find(cs[1..], ch);
      if r == -1 then -1
      else
        assert cs[..r + 1] == [cs[0]] + cs[1..][..r];
        r + 1
  }

  /** A send in progress: the cases still to be served are the first `k`; the rest keeps the account. */
  datatype Phase =
    | Idle
    | Sending(k: nat, nsent: nat, initial: multiset<Chan>, delivered: multiset<Chan>, dropped: multiset<Chan>)

  /**
    * `live` are the subscriptions nobody has begun to cancel, `leaving` those whose cancellation did not find
    * them in the inbox and waits to be handed to a send or for the send lock.
    */
  datatype State = State(
    inbox: seq<Chan>, cases: seq<Chan>, phase: Phase, live: multiset<Chan>, leaving: multiset<Chan>)

  datatype Event =
    | Subscribe(ch: Chan)
    | Unsubscribe(ch: Chan)
    | RemoveIdle(ch: Chan)
    | SendBegin
    | Deliver(i: nat)
    | RemoveDuringSend(ch: Chan)
    | SendEnd

  const Init := State([], [REMOVE_SUB], Idle, multiset{}, multiset{})

  predicate Enabled(s: State, e: Event) {
    match e
    case Subscribe(ch) => ch != REMOVE_SUB
    case Unsubscribe(ch) => ch in s.live
    case RemoveIdle(ch) => s.phase.Idle? && ch in s.leaving
    case SendBegin => s.phase.Idle?
    case Deliver(i) => s.phase.Sending? && 1 <= i < s.phase.k
    case RemoveDuringSend(ch) => s.phase.Sending? && s.phase.k > 1 && ch in s.leaving
    case SendEnd => s.phase.Sending? && s.phase.k == 1
  }

  /** The step an event makes; a removal that does not find its channel makes none. */
  function Step(s: State, e: Event): State {
    match e
    case Subscribe(ch) => s.(inbox := s.inbox + [ch], live := s.live + multiset{ch})
    case Unsubscribe(ch) =>
      var i := Find(s.inbox, ch);
      var t := s.(live := s.live - multiset{ch});
      if i >= 0 then t.(inbox := DeleteAt(s.inbox, i)) else t.(leaving := s.leaving + multiset{ch})
    case RemoveIdle(ch) =>
      var i := Find(s.cases, ch);
      if i < 0 then s else s.(cases := DeleteAt(s.cases, i), leaving := s.leaving - multiset{ch})
    case SendBegin =>
      var cases := s.cases + s.inbox;
      s.(inbox := [], cases := cases,
         phase := Sending(|cases|, 0, multiset(Tail(cases)), multiset{}, multiset{}))
    case Deliver(i) =>
      if !s.phase.Sending? || !(1 <= i < s.phase.k <= |s.cases|) then s
      else
        var p := s.phase;
        s.(cases := SwapOut(s.cases, p.k, i),
           phase := p.(k := p.k - 1, nsent := p.nsent + 1, delivered := p.delivered + multiset{s.cases[i]}))
    case RemoveDuringSend(ch) =>
      var i := Find(s.cases, ch);
      if i < 0 || !s.phase.Sending? || s.phase.k == 0 then s
      else
        var p := s.phase;
        s.(cases := DeleteAt(s.cases, i), leaving := s.leaving - multiset{ch},
           phase := if i < p.k then p.(k := p.k - 1, dropped := p.dropped + multiset{ch}) else p)
    case SendEnd => s.(phase := Idle)
  }

  function Tail(cs: seq<Chan>): seq<Chan> {
    if cs == [] then [] else cs[1..]
  }

  /** The cases still to be served, and those that have been. */
  function Unserved(cs: seq<Chan>, k: nat): seq<Chan> {
    if 1 <= k <= |cs| then cs[1..k] else []
  }

  function Served(cs: seq<Chan>, k: nat): seq<Chan> {
    if k <= |cs| then cs[k..] else []
  }

  /** How often `c` occurs. */
  function Count(cs: seq<Chan>, c: Chan): nat {
    if cs == [] then 0 else (if cs[0] == c then 1 else 0) + Count(cs[1..], c)
  }

  function One(x: Chan, c: Chan): nat {
    if x == c then 1 else 0
  }

  /**
    * For each channel: every subscription has exactly one case, a cancellation under way has its case in the
    * list, and during a send what was there at the start is served, removed before it was served, or waiting.
    */
  predicate Balanced(s: State, c: Chan) {
    && Count(s.inbox, c) + Count(Tail(s.cases), c) == s.live[c] + s.leaving[c]
    && s.leaving[c] <= Count(Tail(s.cases), c)
    && (s.phase.Sending? ==>
          && s.phase.initial[c] == s.phase.delivered[c] + s.phase.dropped[c] + Count(Unserved(s.cases, s.phase.k), c)
          && Count(Served(s.cases, s.phase.k), c) <= s.phase.delivered[c])
  }

  /** The removal channel sits at index zero and nowhere else, and a send counts its deliveries. */
  predicate WellFormed(s: State) {
    && |s.cases| >= 1 && s.cases[0] == REMOVE_SUB
    && Count(Tail(s.cases), REMOVE_SUB) == 0 && Count(s.inbox, REMOVE_SUB) == 0
    && (s.phase.Sending? ==> 1 <= s.phase.k <= |s.cases| && s.phase.nsent == |s.phase.delivered|)
  }

  ghost predicate Inv(s: State) {
    WellFormed(s) && forall c: Chan :: Balanced(s, c)
  }

  // ------------------------------------------------------------------------------ case lists

  lemma {:induction false} CountConcat(a: seq<Chan>, b: seq<Chan>, c: Chan)
    ensures Count(a + b, c) == Count(a, c) + Count(b, c)
  {
    var t := a + b;
    if a == [] {
      assert t == b;
    } else {
      CountConcat(a[1..], b, c);
      assert t[0] == a[0] && t[1..] == a[1..] + b;
    }
  }

  lemma {:induction false} CountIn(cs: seq<Chan>, c: Chan)
    ensures Count(cs, c) > 0 <==> c in cs
  {
    if cs != [] {
      CountIn(cs[1..], c);
    }
  }

  /** A slice around position `i`. */
  lemma CountSplit(cs: seq<Chan>, a: nat, i: nat, b: nat, c: Chan)
    requires a <= i < b <= |cs|
    ensures Count(cs[a..b], c) == Count(cs[a..i], c) + One(cs[i], c) + Count(cs[i + 1..b], c)
  {
    var tail := cs[i..b];
    assert cs[a..b] == cs[a..i] + tail;
    CountConcat(cs[a..i], tail, c);
    assert tail[0] == cs[i] && tail[1..] == cs[i + 1..b];
  }

  lemma CountDelete(cs: seq<Chan>, a: nat, i: nat, b: nat, c: Chan)
    requires a <= i < b <= |cs|
    ensures Count(DeleteAt(cs, i)[a..b - 1], c) == Count(cs[a..b], c) - One(cs[i], c)
  {
    CountSplit(cs, a, i, b, c);
    CountConcat(cs[a..i], cs[i + 1..b], c);
    assert DeleteAt(cs, i)[a..b - 1] == cs[a..i] + cs[i + 1..b];
  }

  lemma {:induction false} CountMultiset(cs: seq<Chan>, c: Chan)
    ensures multiset(cs)[c] == Count(cs, c)
  {
    if cs != [] {
      CountMultiset(cs[1..], c);
      assert cs == [cs[0]] + cs[1..];
    }
  }

  lemma Plus(m: multiset<Chan>, x: Chan, c: Chan)
    ensures (m + multiset{x})[c] == m[c] + One(x, c)
  {
  }

  lemma Minus(m: multiset<Chan>, x: Chan, c: Chan)
    requires x in m
    ensures (m - multiset{x})[c] == m[c] - One(x, c)
  {
  }

  lemma DeleteWhole(cs: seq<Chan>, i: nat, c: Chan)
    requires i < |cs|
    ensures Count(DeleteAt(cs, i), c) == Count(cs, c) - One(cs[i], c)
  {
    CountDelete(cs, 0, i, |cs|, c);
    assert cs[0..|cs|] == cs && DeleteAt(cs, i)[0..|cs| - 1] == DeleteAt(cs, i);
  }

  lemma DeleteTail(cs: seq<Chan>, i: nat, c: Chan)
    requires 1 <= i < |cs|
    ensures Count(Tail(DeleteAt(cs, i)), c) == Count(Tail(cs), c) - One(cs[i], c)
  {
    CountDelete(cs, 1, i, |cs|, c);
    assert cs[1..|cs|] == cs[1..];
    assert DeleteAt(cs, i)[1..|cs| - 1] == DeleteAt(cs, i)[1..];
  }

  /** Deleting a case takes it from the part it is in and leaves the other part alone. */
  lemma DeleteUnserved(cs: seq<Chan>, k: nat, i: nat, c: Chan)
    requires 1 <= i < k <= |cs|
    ensures Count(Unserved(DeleteAt(cs, i), k - 1), c) == Count(Unserved(cs, k), c) - One(cs[i], c)
    ensures Served(DeleteAt(cs, i), k - 1) == Served(cs, k)
  {
    CountDelete(cs, 1, i, k, c);
  }

  lemma DeleteServed(cs: seq<Chan>, k: nat, i: nat, c: Chan)
    requires 1 <= k <= i < |cs|
    ensures Unserved(DeleteAt(cs, i), k) == Unserved(cs, k)
    ensures Count(Served(DeleteAt(cs, i), k), c) == Count(Served(cs, k), c) - One(cs[i], c)
  {
    CountDelete(cs, k, i, |cs|, c);
    assert cs[k..|cs|] == cs[k..];
    assert DeleteAt(cs, i)[k..|cs| - 1] == DeleteAt(cs, i)[k..];
  }

  lemma SwapUnserved(cs: seq<Chan>, k: nat, i: nat, c: Chan)
    requires 1 <= i < k - 1 < |cs|
    ensures var w := SwapOut(cs, k, i); Count(w[1..k - 1], c) == Count(cs[1..k], c) - One(cs[i], c)
  {
    var w := SwapOut(cs, k, i);
    CountSplit(cs, 1, i, k, c);
    CountSplit(w, 1, i, k - 1, c);
    CountSplit(cs, i + 1, k - 1, k, c);
    assert w[1..i] == cs[1..i] && w[i + 1..k - 1] == cs[i + 1..k - 1];
    assert cs[k - 1 + 1..k] == [];
  }

  lemma SwapLast(cs: seq<Chan>, k: nat, c: Chan)
    requires 1 < k <= |cs|
    ensures var w := SwapOut(cs, k, k - 1); Count(w[1..k - 1], c) == Count(cs[1..k], c) - One(cs[k - 1], c)
  {
    CountSplit(cs, 1, k - 1, k, c);
    assert SwapOut(cs, k, k - 1)[1..k - 1] == cs[1..k - 1];
    assert cs[k - 1 + 1..k] == [];
  }

  lemma SwapServed(cs: seq<Chan>, k: nat, i: nat, c: Chan)
    requires 1 <= i < k <= |cs|
    ensures var w := SwapOut(cs, k, i); |w| == |cs| && Count(w[k - 1..], c) == Count(cs[k..], c) + One(cs[i], c)
  {
    assert SwapOut(cs, k, i)[k - 1..] == [cs[i]] + cs[k..];
    assert ([cs[i]] + cs[k..])[1..] == cs[k..];
  }

  /** Serving a case moves it from the unserved part to the served part. */
  lemma SwapParts(cs: seq<Chan>, k: nat, i: nat, c: Chan)
    requires 1 <= i < k <= |cs|
    ensures Count(Unserved(SwapOut(cs, k, i), k - 1), c) == Count(Unserved(cs, k), c) - One(cs[i], c)
    ensures Count(Served(SwapOut(cs, k, i), k - 1), c) == Count(Served(cs, k), c) + One(cs[i], c)
  {
    SwapServed(cs, k, i, c);
    if i == k - 1 {
      SwapLast(cs, k, c);
    } else {
      SwapUnserved(cs, k, i, c);
    }
  }

  lemma PartsOfTail(cs: seq<Chan>, k: nat, c: Chan)
    requires 1 <= k <= |cs|
    ensures Count(Tail(cs), c) == Count(Unserved(cs, k), c) + Count(Served(cs, k), c)
  {
    assert Tail(cs) == cs[1..k] + cs[k..];
    CountConcat(cs[1..k], cs[k..], c);
  }

  lemma FindCase(s: State, ch: Chan)
    requires WellFormed(s) && Count(Tail(s.cases), ch) > 0
    ensures Find(s.cases, ch) >= 1
  {
    CountIn(Tail(s.cases), ch);
  }

  // ------------------------------------------------------------------------------ invariants

  lemma SubscribeKeeps(s: State, ch: Chan)
    requires Inv(s) && Enabled(s, Subscribe(ch))
    ensures Inv(Step(s, Subscribe(ch)))
  {
    var t := Step(s, Subscribe(ch));
    forall c: Chan ensures Balanced(t, c) && Count(t.inbox, c) == Count(s.inbox, c) + One(ch, c) {
      CountConcat(s.inbox, [ch], c);
      assert Balanced(s, c);
    }
  }

  lemma UnsubscribeAt(s: State, ch: Chan, t: State, c: Chan)
    requires Balanced(s, c) && Enabled(s, Unsubscribe(ch)) && t == Step(s, Unsubscribe(ch))
    ensures Balanced(t, c) && Count(t.inbox, c) <= Count(s.inbox, c)
  {
    var i := Find(s.inbox, ch);
    Minus(s.live, ch, c);
    if i >= 0 {
      DeleteWhole(s.inbox, i, c);
    } else {
      CountIn(s.inbox, ch);
      Plus(s.leaving, ch, c);
    }
  }

  lemma UnsubscribeKeeps(s: State, ch: Chan)
    requires Inv(s) && Enabled(s, Unsubscribe(ch))
    ensures Inv(Step(s, Unsubscribe(ch)))
  {
    var t := Step(s, Unsubscribe(ch));
    forall c: Chan ensures Balanced(t, c) && Count(t.inbox, c) <= Count(s.inbox, c) {
      assert Balanced(s, c);
      UnsubscribeAt(s, ch, t, c);
    }
  }

  lemma RemoveIdleKeeps(s: State, ch: Chan)
    requires Inv(s) && Enabled(s, RemoveIdle(ch))
    ensures Find(s.cases, ch) >= 1 && Inv(Step(s, RemoveIdle(ch)))
  {
    assert Balanced(s, ch);
    FindCase(s, ch);
    var i := Find(s.cases, ch);
    var t := Step(s, RemoveIdle(ch));
    forall c: Chan ensures Balanced(t, c) && Count(Tail(t.cases), c) <= Count(Tail(s.cases), c) {
      assert Balanced(s, c);
      DeleteTail(s.cases, i, c);
    }
  }

  lemma SendBeginAt(s: State, t: State, c: Chan)
    requires WellFormed(s) && Balanced(s, c) && s.phase.Idle? && t == Step(s, SendBegin)
    ensures Balanced(t, c) && Count(Tail(t.cases), c) == Count(Tail(s.cases), c) + Count(s.inbox, c)
  {
    BeginParts(s.cases, s.inbox);
    CountConcat(Tail(s.cases), s.inbox, c);
    CountMultiset(Tail(t.cases), c);
  }

  lemma BeginParts(cs: seq<Chan>, inbox: seq<Chan>)
    requires |cs| >= 1
    ensures var w := cs + inbox; Tail(w) == Tail(cs) + inbox && Unserved(w, |w|) == Tail(w) && Served(w, |w|) == []
  {
  }

  lemma SendBeginKeeps(s: State)
    requires Inv(s) && Enabled(s, SendBegin)
    ensures Inv(Step(s, SendBegin))
  {
    var t := Step(s, SendBegin);
    forall c: Chan ensures Balanced(t, c) && Count(Tail(t.cases), c) == Count(Tail(s.cases), c) + Count(s.inbox, c) {
      assert Balanced(s, c);
      SendBeginAt(s, t, c);
    }
  }

  lemma DeliverAt(s: State, i: nat, t: State, c: Chan)
    requires WellFormed(s) && Balanced(s, c) && Enabled(s, Deliver(i)) && t == Step(s, Deliver(i))
    ensures Balanced(t, c) && Count(Tail(t.cases), c) == Count(Tail(s.cases), c)
  {
    SwapParts(s.cases, s.phase.k, i, c);
    PartsOfTail(s.cases, s.phase.k, c);
    PartsOfTail(t.cases, t.phase.k, c);
    Plus(s.phase.delivered, s.cases[i], c);
  }

  lemma DeliverKeeps(s: State, i: nat)
    requires Inv(s) && Enabled(s, Deliver(i))
    ensures Inv(Step(s, Deliver(i)))
  {
    var t := Step(s, Deliver(i));
    forall c: Chan ensures Balanced(t, c) && Count(Tail(t.cases), c) == Count(Tail(s.cases), c) {
      assert Balanced(s, c);
      DeliverAt(s, i, t, c);
    }
  }

  /** The case at `i` and its removal request are gone. */
  predicate CaseGone(s: State, ch: Chan, i: nat, t: State) {
    && 1 <= i < |s.cases| && s.cases[i] == ch && ch in s.leaving
    && t.inbox == s.inbox && t.live == s.live
    && t.cases == DeleteAt(s.cases, i) && t.leaving == s.leaving - multiset{ch}
  }

  lemma RemoveUnservedAt(s: State, ch: Chan, i: nat, t: State, c: Chan)
    requires Balanced(s, c) && s.phase.Sending? && CaseGone(s, ch, i, t) && i < s.phase.k <= |s.cases|
    requires t.phase == s.phase.(k := s.phase.k - 1, dropped := s.phase.dropped + multiset{ch})
    ensures Balanced(t, c) && Count(Tail(t.cases), c) <= Count(Tail(s.cases), c)
  {
    DeleteTail(s.cases, i, c);
    Minus(s.leaving, ch, c);
    DeleteUnserved(s.cases, s.phase.k, i, c);
    Plus(s.phase.dropped, ch, c);
  }

  lemma RemoveServedAt(s: State, ch: Chan, i: nat, t: State, c: Chan)
    requires Balanced(s, c) && s.phase.Sending? && CaseGone(s, ch, i, t) && 1 <= s.phase.k <= i && t.phase == s.phase
    ensures Balanced(t, c) && Count(Tail(t.cases), c) <= Count(Tail(s.cases), c)
  {
    DeleteTail(s.cases, i, c);
    Minus(s.leaving, ch, c);
    DeleteServed(s.cases, s.phase.k, i, c);
  }

  lemma RemoveDuringSendKeeps(s: State, ch: Chan)
    requires Inv(s) && Enabled(s, RemoveDuringSend(ch))
    ensures Find(s.cases, ch) >= 1 && Inv(Step(s, RemoveDuringSend(ch)))
  {
    assert Balanced(s, ch);
    FindCase(s, ch);
    var i := Find(s.cases, ch);
    var t := Step(s, RemoveDuringSend(ch));
    forall c: Chan ensures Balanced(t, c) && Count(Tail(t.cases), c) <= Count(Tail(s.cases), c) {
      assert Balanced(s, c);
      if i < s.phase.k {
        RemoveUnservedAt(s, ch, i, t, c);
      } else {
        RemoveServedAt(s, ch, i, t, c);
      }
    }
  }

  lemma StepKeepsInv(s: State, e: Event)
    requires Inv(s) && Enabled(s, e)
    ensures Inv(Step(s, e))
  {
    match e
    case Subscribe(ch) => SubscribeKeeps(s, ch);
    case Unsubscribe(ch) => UnsubscribeKeeps(s, ch);
    case RemoveIdle(ch) => RemoveIdleKeeps(s, ch);
    case SendBegin => SendBeginKeeps(s);
    case Deliver(i) => DeliverKeeps(s, i);
    case RemoveDuringSend(ch) => RemoveDuringSendKeeps(s, ch);
    case SendEnd =>
      forall c: Chan ensures Balanced(Step(s, e), c) {
        assert Balanced(s, c);
      }
  }

  // ------------------------------------------------------------------------------------ runs

  function Run(s: State, es: seq<Event>): State
    decreases |es|
  {
    if es == [] then s else Run(Step(s, es[0]), es[1..])
  }

  /** Every event happens only when it can. */
  predicate IsRun(s: State, es: seq<Event>)
    decreases |es|
  {
    es == [] || (Enabled(s, es[0]) && IsRun(Step(s, es[0]), es[1..]))
  }

  lemma {:induction false} RunKeepsInv(s: State, es: seq<Event>)
    requires Inv(s) && IsRun(s, es)
    ensures Inv(Run(s, es))
    decreases |es|
  {
    if es != [] {
      StepKeepsInv(s, es[0]);
      RunKeepsInv(Step(s, es[0]), es[1..]);
    }
  }

  lemma InitInv()
    ensures Inv(Init)
  {
    assert Tail(Init.cases) == [];
    forall c: Chan ensures Balanced(Init, c) {
    }
  }

  /**
    * Over every run of subscriptions, sends and cancellations, in any interleaving: the channels in the inbox
    * and the case list are, with multiplicity, those of the subscriptions that have not been removed.
    */
  lemma CasesAreSubscriptions(es: seq<Event>)
    requires IsRun(Init, es)
    ensures var s := Run(Init, es); multiset(s.inbox) + multiset(Tail(s.cases)) == s.live + s.leaving
  {
    InitInv();
    RunKeepsInv(Init, es);
    var s := Run(Init, es);
    forall c: Chan ensures (multiset(s.inbox) + multiset(Tail(s.cases)))[c] == (s.live + s.leaving)[c] {
      assert Balanced(s, c);
      CountMultiset(s.inbox, c);
      CountMultiset(Tail(s.cases), c);
    }
  }

  /** In every run, whoever takes a removal finds the channel behind index zero: nothing is deleted by mistake. */
  lemma RemovalFindsItsCase(es: seq<Event>, e: Event)
    requires IsRun(Init, es + [e]) && (e.RemoveIdle? || e.RemoveDuringSend?)
    ensures Find(Run(Init, es).cases, e.ch) >= 1
  {
    InitInv();
    SplitRun(Init, es, [e]);
    RunKeepsInv(Init, es);
    if e.RemoveIdle? {
      RemoveIdleKeeps(Run(Init, es), e.ch);
    } else {
      RemoveDuringSendKeeps(Run(Init, es), e.ch);
    }
  }

  lemma {:induction false} SplitRun(s: State, es: seq<Event>, fs: seq<Event>)
    requires IsRun(s, es + fs)
    ensures IsRun(s, es) && IsRun(Run(s, es), fs)
    decreases |es|
  {
    if es == [] {
      assert es + fs == fs;
    } else {
      assert (es + fs)[0] == es[0] && (es + fs)[1..] == es[1..] + fs;
      SplitRun(Step(s, es[0]), es[1..], fs);
    }
  }

  /** Events while a send is in progress. */
  predicate DuringSend(es: seq<Event>) {
    forall i :: 0 <= i < |es| ==> !es[i].SendBegin? && !es[i].SendEnd? && !es[i].RemoveIdle?
  }

  function DeliveredBy(s: State, e: Event, c: Chan): nat {
    if e.Deliver? && e.i < |s.cases| then One(s.cases[e.i], c) else 0
  }

  function RemovedBy(s: State, e: Event, c: Chan): nat {
    if e.RemoveDuringSend? && s.phase.Sending? && 0 <= Find(s.cases, e.ch) < s.phase.k then One(e.ch, c) else 0
  }

  /** Values handed to channel `c`, counted along the run. */
  function Deliveries(s: State, es: seq<Event>, c: Chan): nat
    decreases |es|
  {
    if es == [] then 0 else DeliveredBy(s, es[0], c) + Deliveries(Step(s, es[0]), es[1..], c)
  }

  /** Cases for channel `c` that are removed before they were served, counted along the run. */
  function Removals(s: State, es: seq<Event>, c: Chan): nat
    decreases |es|
  {
    if es == [] then 0 else RemovedBy(s, es[0], c) + Removals(Step(s, es[0]), es[1..], c)
  }

  lemma AccountStep(s: State, e: Event, c: Chan)
    requires Inv(s) && s.phase.Sending? && Enabled(s, e) && !e.SendEnd?
    ensures var t := Step(s, e);
            && t.phase.Sending? && t.phase.initial == s.phase.initial
            && t.phase.delivered[c] == s.phase.delivered[c] + DeliveredBy(s, e, c)
            && t.phase.dropped[c] == s.phase.dropped[c] + RemovedBy(s, e, c)
  {
    if e.RemoveDuringSend? {
      RemoveDuringSendKeeps(s, e.ch);
    }
  }

  lemma {:induction false} SendAccount(s: State, es: seq<Event>, c: Chan)
    requires Inv(s) && IsRun(s, es) && s.phase.Sending? && DuringSend(es)
    ensures var t := Run(s, es);
            && t.phase.Sending? && t.phase.initial == s.phase.initial
            && s.phase.delivered[c] + Deliveries(s, es, c) == t.phase.delivered[c]
            && s.phase.dropped[c] + Removals(s, es, c) == t.phase.dropped[c]
    decreases |es|
  {
    if es != [] {
      StepKeepsInv(s, es[0]);
      AccountStep(s, es[0], c);
      SendAccount(Step(s, es[0]), es[1..], c);
    }
  }

  /**
    * One send, whatever is interleaved with it: when it ends, each channel has received the value as often as it
    * was subscribed at the start, less the cases removed before their turn, and the result counts the deliveries.
    */
  lemma SendDeliversOnce(s: State, es: seq<Event>, c: Chan)
    requires Inv(s) && Enabled(s, SendBegin) && IsRun(s, [SendBegin] + es + [SendEnd]) && DuringSend(es)
    ensures var b := Step(s, SendBegin);
            && Deliveries(b, es, c) + Removals(b, es, c) == Count(s.inbox, c) + Count(Tail(s.cases), c)
            && Run(b, es).phase.Sending? && Run(b, es).phase.nsent == |Run(b, es).phase.delivered|
            && Run(b, es).phase.delivered[c] == Deliveries(b, es, c)
  {
    var b := Step(s, SendBegin);
    SendBeginKeeps(s);
    SplitRun(s, [SendBegin] + es, [SendEnd]);
    SplitRun(s, [SendBegin], es);
    assert [SendBegin][1..] == [];
    assert Run(s, [SendBegin]) == b;
    SendAccount(b, es, c);
    RunKeepsInv(b, es);
    RunJoin(s, [SendBegin], es);
    var t := Run(b, es);
    assert Balanced(t, c) && Unserved(t.cases, 1) == [];
    assert Balanced(s, c);
    SendBeginAt(s, b, c);
    CountMultiset(Tail(b.cases), c);
  }

  lemma {:induction false} RunJoin(s: State, es: seq<Event>, fs: seq<Event>)
    ensures Run(s, es + fs) == Run(Run(s, es), fs)
    decreases |es|
  {
    if es == [] {
      assert es + fs == fs;
    } else {
      assert (es + fs)[0] == es[0] && (es + fs)[1..] == es[1..] + fs;
      RunJoin(Step(s, es[0]), es[1..], fs);
    }
  }

  /** Every round of a send shrinks the case list or its unserved front; subscribing and unsubscribing do neither. */
  lemma SendProgress(s: State, e: Event)
    requires Inv(s) && s.phase.Sending? && Enabled(s, e) && !e.SendEnd?
    ensures var t := Step(s, e);
            && t.phase.Sending?
            && (e.Deliver? || e.RemoveDuringSend? ==> |t.cases| + t.phase.k < |s.cases| + s.phase.k)
            && (e.Subscribe? || e.Unsubscribe? ==> t.cases == s.cases && t.phase == s.phase)
  {
    if e.RemoveDuringSend? {
      RemoveDuringSendKeeps(s, e.ch);
    }
  }
}
