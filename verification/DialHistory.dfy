/** The dial history of p2p/dial.go: a binary heap of recent dials, kept in a growing list. */
module DialHistory {
  import opened Dial

  datatype PastDial = PastDial(id: NodeId, exp: Time)

  function Parent(k: nat): nat
    requires k > 0
  {
    (k - 1) / 2
  }

  predicate Le(h: seq<PastDial>, k: nat)
    requires 0 < k < |h|
  {
    h[Parent(k)].exp <= h[k].exp
  }

  /** No entry of the first `n` expires before its parent. */
  ghost predicate Heap(h: seq<PastDial>, n: nat)
    requires n <= |h|
  {
    forall k | 0 < k < n :: Le(h, k)
  }

  /** The order holds except around `i`, whose children still come after its parent. */
  ghost predicate OffAt(h: seq<PastDial>, n: nat, i: nat)
    requires n <= |h| && i < n
  {
    && (forall k | 0 < k < n && k != i && Parent(k) != i :: Le(h, k))
    && (forall k | 0 < k < n && Parent(k) == i && i > 0 :: h[Parent(i)].exp <= h[k].exp)
  }

  ghost predicate ChildrenOk(h: seq<PastDial>, n: nat, i: nat)
    requires n <= |h|
  {
    forall k | 0 < k < n && Parent(k) == i :: Le(h, k)
  }

  function Swapped(h: seq<PastDial>, i: nat, j: nat): (r: seq<PastDial>)
    requires i < |h| && j < |h|
    ensures |r| == |h|
  {
    h[i := h[j]][j := h[i]]
  }

  lemma SwapSame(h: seq<PastDial>, i: nat, j: nat)
    requires i < |h| && j < |h|
    ensures multiset(Swapped(h, i, j)) == multiset(h)
  {
  }

  lemma UpSwap(h: seq<PastDial>, n: nat, j: nat)
    requires 0 < j < n <= |h| && OffAt(h, n, j) && ChildrenOk(h, n, j) && !Le(h, j)
    ensures var i := Parent(j); var r := Swapped(h, i, j); OffAt(r, n, i) && ChildrenOk(r, n, i)
  {
  }

  method Up(h: seq<PastDial>, ghost n: nat, j0: nat) returns (r: seq<PastDial>)
    requires j0 < n <= |h| && OffAt(h, n, j0) && ChildrenOk(h, n, j0)
    ensures |r| == |h| && Heap(r, n) && multiset(r) == multiset(h) && r[n..] == h[n..]
  {
    r := h;
    var j: nat := j0;
    while j > 0 && r[j].exp < r[Parent(j)].exp
      invariant j < n && |r| == |h| && multiset(r) == multiset(h) && r[n..] == h[n..]
      invariant OffAt(r, n, j) && ChildrenOk(r, n, j)
    {
      SwapSame(r, Parent(j), j);
      UpSwap(r, n, j);
      r := Swapped(r, Parent(j), j);
      j := Parent(j);
    }
  }

  lemma DownSwap(h: seq<PastDial>, n: nat, i: nat, j: nat)
    requires n <= |h| && 0 < j < n && Parent(j) == i && OffAt(h, n, i) && h[j].exp < h[i].exp
    requires forall k | 0 < k < n && Parent(k) == i :: h[j].exp <= h[k].exp
    ensures var r := Swapped(h, i, j); OffAt(r, n, j) && Le(r, j)
  {
  }

  /** The child of `i` that expires first. */
  method EarlierChild(h: seq<PastDial>, n: nat, i: nat) returns (j: nat)
    requires n <= |h| && 2 * i + 1 < n
    ensures 0 < j < n && Parent(j) == i
    ensures forall k | 0 < k < n && Parent(k) == i :: h[j].exp <= h[k].exp
  {
    j := 2 * i + 1;
    if j + 1 < n && !(h[j].exp < h[j + 1].exp) {
      j := j + 1;
    }
  }

  /** Moves the entry at `i0` down; if it does not move, only its place below its parent can still be wrong. */
  method Down(h: seq<PastDial>, i0: nat, n: nat) returns (r: seq<PastDial>, moved: bool)
    requires i0 < n <= |h| && OffAt(h, n, i0)
    ensures |r| == |h| && multiset(r) == multiset(h) && r[n..] == h[n..]
    ensures moved ==> Heap(r, n)
    ensures !moved ==> r == h && ChildrenOk(h, n, i0)
  {
    r := h;
    var i: nat := i0;
    while 2 * i + 1 < n
      invariant i0 <= i < n && |r| == |h| && multiset(r) == multiset(h) && r[n..] == h[n..] && OffAt(r, n, i)
      invariant if i == i0 then r == h else Le(r, i)
    {
      var j := EarlierChild(r, n, i);
      if !(r[j].exp < r[i].exp) {
        break;
      }
      SwapSame(r, i, j);
      DownSwap(r, n, i, j);
      r := Swapped(r, i, j);
      i := j;
    }
    assert ChildrenOk(r, n, i);
    moved := i > i0;
  }

  lemma {:induction false} RootIsFirst(h: seq<PastDial>, n: nat, k: nat)
    requires k < n <= |h| && Heap(h, n)
    ensures h[0].exp <= h[k].exp
    decreases k
  {
    if k > 0 {
      assert Le(h, k);
      RootIsFirst(h, n, Parent(k));
    }
  }

  lemma SwapOut(h: seq<PastDial>, n: nat, i: nat)
    requires n < |h| && i < n && Heap(h, |h|)
    ensures OffAt(Swapped(h, i, n), n, i)
  {
    var r := Swapped(h, i, n);
    forall k | 0 < k < n && k != i && Parent(k) != i ensures Le(r, k) {
      assert Le(h, k);
    }
    forall k | 0 < k < n && Parent(k) == i && i > 0 ensures r[Parent(i)].exp <= r[k].exp {
      assert Le(h, k) && Le(h, i);
    }
  }

  lemma Prefix(h: seq<PastDial>, n: nat)
    requires n <= |h| && Heap(h, n)
    ensures Heap(h[..n], n)
  {
    forall k | 0 < k < n ensures Le(h[..n], k) {
      assert Le(h, k);
    }
  }

  lemma AllLater(h: seq<PastDial>, now: Time, e: PastDial)
    requires Heap(h, |h|) && (|h| > 0 ==> h[0].exp >= now)
    ensures e in h ==> e.exp >= now
  {
    if e in h {
      var k: nat :| k < |h| && h[k] == e;
      RootIsFirst(h, |h|, k);
    }
  }

  /** Takes the entry at `i` out of a heap. */
  method RemoveAt(h: seq<PastDial>, i: nat) returns (r: seq<PastDial>)
    requires i < |h| && Heap(h, |h|)
    ensures Heap(r, |r|) && multiset(r) == multiset(h) - multiset{h[i]}
  {
    var n := |h| - 1;
    r := h;
    if n != i {
      SwapOut(h, n, i);
      SwapSame(h, i, n);
      r := Swapped(h, i, n);
      var moved;
      r, moved := Down(r, i, n);
      if !moved {
        r := Up(r, n, i);
      }
    }
    assert r[n..][0] == h[i];
    assert r == r[..n] + [h[i]];
    Prefix(r, n);
    r := r[..n];
  }

  lemma PushOff(h: seq<PastDial>, e: PastDial)
    requires Heap(h, |h|)
    ensures var r := h + [e]; OffAt(r, |r|, |h|) && ChildrenOk(r, |r|, |h|)
  {
    var r := h + [e];
    forall k | 0 < k < |h| ensures Le(r, k) {
      assert Le(h, k);
    }
  }

  /** The entries are those of a map from nodes to expiry times: at most one for each node. */
  ghost predicate Represents(es: multiset<PastDial>, m: map<NodeId, Time>) {
    && (forall e | e in es :: es[e] == 1 && e.id in m && m[e.id] == e.exp)
    && (forall id | id in m :: PastDial(id, m[id]) in es)
  }

  /** Adding an entry leaves one for each node exactly if the node had none. */
  lemma RepresentsAddExact(es: multiset<PastDial>, m: map<NodeId, Time>, id: NodeId, exp: Time)
    requires Represents(es, m)
    ensures Represents(es + multiset{PastDial(id, exp)}, m[id := exp]) <==> id !in m
  {
    if id in m {
      var e := PastDial(id, m[id]);
      assert e in es;
      assert e in es + multiset{PastDial(id, exp)};
    } else {
      RepresentsAdd(es, m, id, exp);
    }
  }

  lemma RepresentsAdd(es: multiset<PastDial>, m: map<NodeId, Time>, id: NodeId, exp: Time)
    requires Represents(es, m) && id !in m
    ensures Represents(es + multiset{PastDial(id, exp)}, m[id := exp])
  {
    var e, m' := PastDial(id, exp), m[id := exp];
    assert e !in es;
    forall i | i in m' ensures PastDial(i, m'[i]) in es + multiset{e} {
      if i != id {
        assert PastDial(i, m[i]) in es;
      }
    }
  }

  lemma RepresentsRemove(es: multiset<PastDial>, m: map<NodeId, Time>, e: PastDial)
    requires Represents(es, m) && e in es
    ensures Represents(es - multiset{e}, m - {e.id})
  {
    forall f | f in es - multiset{e} ensures (es - multiset{e})[f] == 1 && f.id in m - {e.id} && m[f.id] == f.exp {
      assert es[f] == 1 && m[f.id] == f.exp;
    }
    forall id | id in m - {e.id} ensures PastDial(id, (m - {e.id})[id]) in es - multiset{e} {
      assert PastDial(id, m[id]) in es;
    }
  }

  lemma RepresentsNone(es: multiset<PastDial>, m: map<NodeId, Time>, id: NodeId)
    requires Represents(es, m)
    ensures id in m <==> exists e: PastDial :: e in es && e.id == id
  {
    if id in m {
      assert PastDial(id, m[id]) in es;
    }
  }

  lemma RepresentsExpire(es: multiset<PastDial>, m: map<NodeId, Time>, now: Time, es': multiset<PastDial>)
    requires Represents(es, m) && forall e: PastDial :: es'[e] == if e.exp < now then 0 else es[e]
    ensures Represents(es', Dial.Expire(m, now))
  {
    forall e | e in es' ensures es'[e] == 1 && e.id in Dial.Expire(m, now) && Dial.Expire(m, now)[e.id] == e.exp {
      assert e in es;
    }
    forall id | id in Dial.Expire(m, now) ensures PastDial(id, Dial.Expire(m, now)[id]) in es' {
      assert PastDial(id, m[id]) in es;
    }
  }

  class DialHistory {
    var h: seq<PastDial>

    ghost predicate Valid()
      reads this
    {
      Heap(h, |h|)
    }

    constructor ()
      ensures Valid() && h == []
    {
      h := [];
    }

    method Min() returns (e: PastDial)
      requires Valid() && |h| > 0
      ensures e in h && forall k | 0 <= k < |h| :: e.exp <= h[k].exp
    {
      e := h[0];
      forall k | 0 <= k < |h| ensures e.exp <= h[k].exp {
        RootIsFirst(h, |h|, k);
      }
    }

    method Add(id: NodeId, exp: Time)
      requires Valid()
      modifies this
      ensures Valid() && multiset(h) == old(multiset(h)) + multiset{PastDial(id, exp)}
    {
      PushOff(h, PastDial(id, exp));
      var n := |h|;
      h := h + [PastDial(id, exp)];
      h := Up(h, |h|, n);
    }

    /** Drops the first entry found for a node. */
    method Remove(id: NodeId) returns (found: bool)
      requires Valid()
      modifies this
      ensures Valid() && (found <==> exists e: PastDial :: e in old(h) && e.id == id)
      ensures !found ==> h == old(h)
      ensures found ==> exists e: PastDial :: e in old(h) && e.id == id && multiset(h) == old(multiset(h)) - multiset{e}
    {
      for i := 0 to |h|
        invariant h == old(h) && Valid()
        invariant forall k | 0 <= k < i :: h[k].id != id
      {
        if h[i].id == id {
          ghost var e := h[i];
          assert e in h;
          h := RemoveAt(h, i);
          return true;
        }
      }
      found := false;
    }

    method Contains(id: NodeId) returns (found: bool)
      ensures found <==> exists e: PastDial :: e in h && e.id == id
    {
      for i := 0 to |h|
        invariant forall k | 0 <= k < i :: h[k].id != id
      {
        if h[i].id == id {
          assert h[i] in h;
          return true;
        }
      }
      found := false;
    }

    /** Leaves exactly the entries that do not expire before `now`. */
    method Expire(now: Time)
      requires Valid()
      modifies this
      ensures Valid() && forall e: PastDial :: multiset(h)[e] == if e.exp < now then 0 else old(multiset(h))[e]
    {
      while |h| > 0 && h[0].exp < now
        invariant Valid()
        invariant forall e: PastDial | e.exp < now :: multiset(h)[e] <= old(multiset(h))[e]
        invariant forall e: PastDial | e.exp >= now :: multiset(h)[e] == old(multiset(h))[e]
        decreases |h|
      {
        h := RemoveAt(h, 0);
      }
      forall e: PastDial ensures e in h ==> e.exp >= now {
        AllLater(h, now, e);
      }
    }
  }
}
