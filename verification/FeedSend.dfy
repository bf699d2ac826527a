/** The feed's own lists: cases in an array of which a send uses a shrinking front part, changed in place. */
module FeedSend {
  import M = Feed

  type Chan = M.Chan

  /** Index of the first of the first `n` cases that is for `ch`, or -1. */
  method FindIn(a: array<Chan>, n: nat, ch: Chan) returns (r: int)
    requires n <= a.Length
    ensures r == M.Find(a[..n], ch)
  {
    ghost var cs := a[..n];
    for i := 0 to n
      invariant ch !in cs[..i]
    {
      if a[i] == ch {
        FindIsFirst(cs, ch, i);
        return i;
      }
      assert cs[..i + 1] == cs[..i] + [cs[i]];
    }
    assert cs[..n] == cs;
    return -1;
  }

  lemma {:induction false} FindIsFirst(cs: seq<Chan>, ch: Chan, i: nat)
    requires i < |cs| && cs[i] == ch && ch !in cs[..i]
    ensures M.Find(cs, ch) == i
  {
    if i > 0 {
      assert cs[..i][0] == cs[0];
      assert cs[1..][..i - 1] == cs[..i][1..];
      FindIsFirst(cs[1..], ch, i - 1);
    }
  }

  /** Removes case `i` of the first `n` by moving the later ones down. */
  method DeleteIn(a: array<Chan>, n: nat, i: nat)
    requires i < n <= a.Length
    modifies a
    ensures a[..n - 1] == M.DeleteAt(old(a[..n]), i)
  {
    ghost var was := a[..n];
    var j := i;
    while j < n - 1
      invariant i <= j <= n - 1
      invariant forall x | 0 <= x < i :: a[x] == was[x]
      invariant forall x | i <= x < j :: a[x] == was[x + 1]
      invariant forall x | j <= x < n :: a[x] == was[x]
    {
      a[j] := a[j + 1];
      j := j + 1;
    }
    assert a[..n - 1] == was[..i] + was[i + 1..];
  }

  /** Swaps case `i` to the end of the first `k`. */
  method DeactivateIn(a: array<Chan>, n: nat, k: nat, i: nat)
    requires i < k <= n <= a.Length
    modifies a
    ensures a[..n] == M.SwapOut(old(a[..n]), k, i)
  {
    ghost var was := a[..n];
    a[i], a[k - 1] := a[k - 1], a[i];
    assert a[..n] == was[i := was[k - 1]][k - 1 := was[i]];
  }

  class Feed {
    var inbox: seq<Chan>
    var store: array<Chan>
    var len: nat
    /** Channels of the subscriptions that are live, and of the cancellations waiting for their second half. */
    var live: multiset<Chan>
    var leaving: multiset<Chan>
    ghost var state: M.State

    ghost predicate Valid()
      reads this, store
    {
      && len <= store.Length && store[..len] == state.cases && inbox == state.inbox
      && live == state.live && leaving == state.leaving
      && M.Inv(state)
    }

    constructor ()
      ensures Valid() && state == M.Init && fresh(store)
    {
      inbox := [];
      store := new Chan[1](_ => M.REMOVE_SUB);
      len := 1;
      live, leaving := multiset{}, multiset{};
      state := M.Init;
      M.InitInv();
      new;
      assert store[..1] == [M.REMOVE_SUB];
    }

    /** A step of the model that leaves the case list alone. */
    ghost method Happen(e: M.Event)
      requires M.Inv(state) && M.Enabled(state, e)
      modifies this`state
      ensures state == M.Step(old(state), e) && M.Inv(state)
    {
      M.StepKeepsInv(state, e);
      state := M.Step(state, e);
    }

    method Subscribe(ch: Chan)
      requires Valid() && ch != M.REMOVE_SUB
      modifies this`inbox, this`live, this`state
      ensures Valid() && state == M.Step(old(state), M.Subscribe(ch))
    {
      inbox := inbox + [ch];
      live := live + multiset{ch};
      Happen(M.Subscribe(ch));
    }

    /** The first half of a cancellation: a channel still in the inbox is simply taken out of it. */
    method RemoveFromInbox(ch: Chan) returns (done: bool)
      requires Valid() && ch in live
      modifies this`inbox, this`live, this`leaving, this`state
      ensures Valid() && state == M.Step(old(state), M.Unsubscribe(ch))
      ensures done <==> ch in old(inbox)
    {
      var i := M.Find(inbox, ch);
      done := i >= 0;
      live := live - multiset{ch};
      if done {
        inbox := inbox[..i] + inbox[i + 1..];
      } else {
        leaving := leaving + multiset{ch};
      }
      Happen(M.Unsubscribe(ch));
    }

    /** Takes out the case of a channel that leaves; the state of the model lags behind. */
    method DeleteCase(ch: Chan) returns (i: nat)
      requires Valid() && ch in leaving
      modifies this`len, this`leaving, store
      ensures 1 <= i == M.Find(state.cases, ch) && i <= len == old(len) - 1
      ensures len <= store.Length && store[..len] == M.DeleteAt(state.cases, i)
      ensures leaving == state.leaving - multiset{ch} && leaving == old(leaving) - multiset{ch}
    {
      HasCase(state, ch);
      i := FindIn(store, len, ch);
      DeleteIn(store, len, i);
      len := len - 1;
      leaving := leaving - multiset{ch};
    }

    /** The other half when no send is in progress: the channel has a case, and that case is deleted. */
    method RemoveFromCases(ch: Chan)
      requires Valid() && state.phase.Idle? && ch in leaving
      modifies this`len, this`leaving, this`state, store
      ensures Valid() && store == old(store) && state == M.Step(old(state), M.RemoveIdle(ch))
      ensures leaving == old(leaving) - multiset{ch}
    {
      var _ := DeleteCase(ch);
      Happen(M.RemoveIdle(ch));
    }

    /** Moves the inbox to the case list, in a larger array. */
    method TakeInbox()
      requires Valid() && state.phase.Idle?
      modifies this
      ensures Valid() && fresh(store) && state == M.Step(old(state), M.SendBegin)
      ensures state.phase.k == len
    {
      var all := store[..len] + inbox;
      var bigger := new Chan[|all|](i requires 0 <= i < |all| => all[i]);
      assert bigger[..] == all;
      store, len, inbox := bigger, |all|, [];
      Happen(M.SendBegin);
      assert store[..len] == all;
    }

    /** Other goroutines subscribe and begin to unsubscribe at any time. */
    method Interference()
      requires Valid()
      modifies this`inbox, this`live, this`leaving, this`state
      ensures Valid() && state.cases == old(state.cases) && state.phase == old(state.phase)
    {
      var n: int := *;
      while n > 0
        invariant Valid() && state.cases == old(state.cases) && state.phase == old(state.phase)
      {
        var ch: Chan := *;
        if ch in live {
          var done := RemoveFromInbox(ch);
        } else if ch != M.REMOVE_SUB {
          Subscribe(ch);
        }
        n := n - 1;
      }
    }

    /** A receiver takes the value of case `i`. */
    method Serve(k: nat, i: nat)
      requires Valid() && state.phase.Sending? && state.phase.k == k && 1 <= i < k
      modifies this`state, store
      ensures Valid() && store == old(store) && state == M.Step(old(state), M.Deliver(i))
      ensures state.phase.Sending? && state.phase.k == k - 1 && state.phase.nsent == old(state.phase.nsent) + 1
      ensures state.phase.initial == old(state.phase.initial)
    {
      DeactivateIn(store, len, k, i);
      Happen(M.Deliver(i));
    }

    /** A removal request arrives while the send waits for receivers. */
    method RemoveWhileSending(k: nat, ch: Chan) returns (k': nat)
      requires Valid() && state.phase.Sending? && state.phase.k == k > 1 && ch in leaving
      modifies this`len, this`leaving, this`state, store
      ensures Valid() && store == old(store) && state == M.Step(old(state), M.RemoveDuringSend(ch))
      ensures state.phase.Sending? && k' == state.phase.k <= k && len == old(len) - 1
      ensures state.phase.initial == old(state.phase.initial) && state.phase.nsent == old(state.phase.nsent)
    {
      var i := DeleteCase(ch);
      k' := if i < k then k - 1 else k;
      RemovalStep(state, ch, i);
      Happen(M.RemoveDuringSend(ch));
    }

    /** Waits for a receiver or a removal request, whichever comes, and serves it. */
    method Select(k0: nat, nsent0: nat, ghost begun: M.State) returns (k: nat, nsent: nat)
      requires Valid() && Progress(begun, k0, nsent0) && k0 > 1
      modifies this`len, this`inbox, this`live, this`leaving, this`state, store
      ensures Valid() && store == old(store) && Progress(begun, k, nsent) && len + k < old(len) + k0
    {
      Interference();
      var removal: bool := *;
      if removal && leaving != multiset{} {
        var ch :| ch in leaving;
        k := RemoveWhileSending(k0, ch);
        nsent := nsent0;
      } else {
        var chosen :| 1 <= chosen < k0;
        Serve(k0, chosen);
        k, nsent := k0 - 1, nsent0 + 1;
      }
    }

    /**
      * Delivers to every case. Which receivers are ready, which of them the select picks, and which removals
      * come in between is not up to the feed.
      */
    method Send() returns (nsent: nat, ghost begun: M.State, ghost ended: M.State)
      requires Valid() && state.phase.Idle?
      modifies this, store
      ensures Valid() && state.phase.Idle? && begun == M.Step(old(state), M.SendBegin)
      ensures ended.phase.Sending? && ended.phase.initial == begun.phase.initial && nsent == |ended.phase.delivered|
      ensures ended.phase.delivered + ended.phase.dropped == begun.phase.initial
    {
      TakeInbox();
      begun := state;
      var k := len;
      nsent := 0;
      while true
        invariant Valid() && Progress(begun, k, nsent) && fresh(store)
        decreases len + k
      {
        k, nsent := ServeReady(k, nsent, begun);
        if k == 1 {
          break;
        }
        k, nsent := Select(k, nsent, begun);
      }
      ended := state;
      AllAccounted(state);
      Happen(M.SendEnd);
    }

    ghost predicate Progress(begun: M.State, k: nat, nsent: nat)
      reads this
    {
      && state.phase.Sending? && begun.phase.Sending?
      && state.phase.k == k && state.phase.nsent == nsent && state.phase.initial == begun.phase.initial
    }

    /** Tries every unserved case once without waiting. */
    method ServeReady(k0: nat, nsent0: nat, ghost begun: M.State) returns (k: nat, nsent: nat)
      requires Valid() && Progress(begun, k0, nsent0)
      modifies this`state, store
      ensures Valid() && store == old(store) && Progress(begun, k, nsent) && k <= k0
    {
      k, nsent := k0, nsent0;
      var i := 1;
      while i < k
        invariant Valid() && store == old(store) && Progress(begun, k, nsent) && 1 <= i && k <= k0
        decreases k - i
      {
        if * {
          Serve(k, i);
          k, nsent := k - 1, nsent + 1;
        } else {
          i := i + 1;
        }
      }
    }
  }

  /** What a removal during a send changes. */
  lemma RemovalStep(s: M.State, ch: Chan, i: nat)
    requires s.phase.Sending? && s.phase.k > 1 && i == M.Find(s.cases, ch)
    ensures var t := M.Step(s, M.RemoveDuringSend(ch));
            && t.cases == M.DeleteAt(s.cases, i) && t.inbox == s.inbox && t.live == s.live
            && t.leaving == s.leaving - multiset{ch}
            && t.phase.Sending? && t.phase.k == (if i < s.phase.k then s.phase.k - 1 else s.phase.k)
            && t.phase.initial == s.phase.initial && t.phase.nsent == s.phase.nsent
  {
  }

  lemma HasCase(s: M.State, ch: Chan)
    requires M.Inv(s) && ch in s.leaving
    ensures M.Find(s.cases, ch) >= 1
  {
    assert M.Balanced(s, ch);
    M.FindCase(s, ch);
  }

  lemma AllAccounted(s: M.State)
    requires M.Inv(s) && s.phase.Sending? && s.phase.k == 1
    ensures s.phase.delivered + s.phase.dropped == s.phase.initial && s.phase.nsent == |s.phase.delivered|
  {
    forall c: Chan ensures (s.phase.delivered + s.phase.dropped)[c] == s.phase.initial[c] {
      assert M.Balanced(s, c) && M.Unserved(s.cases, 1) == [];
    }
  }
}
