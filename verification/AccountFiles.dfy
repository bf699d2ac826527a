/**
  * Deleting an account by its file. The list is sorted by URL, the search bisects it by path: what is found and what is
  * missed, on every list.
  */
module AccountFiles {
  import opened Lex
  import opened Accounts

  predicate PathsAscend(s: seq<Account>) {
    forall i, j | 0 <= i < j < |s| :: !Less(s[j].url.path, s[i].url.path)
  }

  predicate PathsDistinct(s: seq<Account>) {
    forall i, j | 0 <= i < j < |s| :: s[i].url.path != s[j].url.path
  }

  predicate AllFound(s: seq<Account>) {
    forall k | 0 <= k < |s| :: Found(s, s[k].url.path)
  }

  // -------------------------------------------------------------------------- the route of a search

  /** The places a bisection looks at on its way to `k`, whatever is in the list. */
  function Route(k: nat, i: nat, j: nat): seq<nat>
    requires i <= k <= j
    decreases j - i
  {
    if i == j then []
    else
      var h := Middle(i, j);
      [h] + if h < k then Route(k, h + 1, j) else Route(k, i, h)
  }

  /** Before `k` the paths on the route are smaller, from `k` on they are not. */
  predicate Leads(s: seq<Account>, path: string, k: nat, route: seq<nat>) {
    forall x | 0 <= x < |route| :: route[x] < |s| && (Less(s[route[x]].url.path, path) <==> route[x] < k)
  }

  lemma LeadsFirst(s: seq<Account>, path: string, k: nat, h: nat, rest: seq<nat>)
    ensures Leads(s, path, k, [h] + rest) <==>
              h < |s| && (Less(s[h].url.path, path) <==> h < k) && Leads(s, path, k, rest)
  {
    var route := [h] + rest;
    assert route[0] == h && forall x | 0 <= x < |rest| :: route[x + 1] == rest[x];
  }

  /** A search ends at `k` exactly if every place on the route to `k` sends it the right way. */
  lemma {:induction false} EndsExact(s: seq<Account>, path: string, k: nat, i: nat, j: nat)
    requires i <= k <= j <= |s|
    ensures Bisect(s, path, i, j) == k <==> Leads(s, path, k, Route(k, i, j))
    decreases j - i
  {
    if i < j {
      var h := Middle(i, j);
      var (i', j') := if h < k then (h + 1, j) else (i, h);
      EndsExact(s, path, k, i', j');
      LeadsFirst(s, path, k, h, Route(k, i', j'));
      BisectFirst(s, path, k, i, j, h, i', j');
    }
  }

  lemma BisectFirst(s: seq<Account>, path: string, k: nat, i: nat, j: nat, h: nat, i': nat, j': nat)
    requires i <= k <= j <= |s| && i < j && h == Middle(i, j) && (i', j') == if h < k then (h + 1, j) else (i, h)
    ensures Bisect(s, path, i, j) == k <==> (Less(s[h].url.path, path) <==> h < k) && Bisect(s, path, i', j') == k
  {
  }

  /** The place has the path, and every place on the route to it sends the search the right way. */
  predicate Reached(s: seq<Account>, path: string, k: nat) {
    k < |s| && s[k].url.path == path && Leads(s, path, k, Route(k, 0, |s|))
  }

  /** A path is found exactly if it is reached at some place; an account of the list is then taken out there. */
  lemma FoundExact(s: seq<Account>, path: string)
    ensures Found(s, path) <==> exists k :: Reached(s, path, k)
  {
    EndsExact(s, path, PathPlace(s, path), 0, |s|);
    if Found(s, path) {
      assert Reached(s, path, PathPlace(s, path));
    }
    if k: nat :| Reached(s, path, k) {
      EndsExact(s, path, k, 0, |s|);
    }
  }

  // ----------------------------------------------------------------------------------- all are found

  /** With distinct paths, two places whose paths are found are in the order of their paths. */
  lemma {:induction false} Separated(s: seq<Account>, a: nat, b: nat, i: nat, j: nat)
    requires i <= a < b <= j <= |s| && b < |s|
    requires Bisect(s, s[a].url.path, i, j) == a && Bisect(s, s[b].url.path, i, j) == b
    ensures Less(s[a].url.path, s[b].url.path)
    decreases j - i
  {
    var h := Middle(i, j);
    if h < a {
      Separated(s, a, b, h + 1, j);
    } else if b <= h {
      Separated(s, a, b, i, h);
    } else {
      NotLessThenLess(s[a].url.path, s[h].url.path, s[b].url.path);
    }
  }

  lemma NotLessThenLess(a: string, b: string, c: string)
    requires !Less(b, a) && Less(b, c)
    ensures Less(a, c)
  {
    Total(a, b);
    if Less(a, b) {
      Transitive(a, b, c);
    }
  }

  predicate SmallerBefore(s: seq<Account>, path: string, i: nat) {
    0 < i <= |s| ==> Less(s[i - 1].url.path, path)
  }

  predicate NotSmallerAt(s: seq<Account>, path: string, j: nat) {
    j < |s| ==> !Less(s[j].url.path, path)
  }

  /** Wherever the search ends, the order turns there. */
  lemma {:induction false} BisectTurns(s: seq<Account>, path: string, i: nat, j: nat)
    requires i <= j <= |s| && SmallerBefore(s, path, i) && NotSmallerAt(s, path, j)
    ensures var r := Bisect(s, path, i, j); SmallerBefore(s, path, r) && NotSmallerAt(s, path, r)
    decreases j - i
  {
    if i < j {
      var h := Middle(i, j);
      if Less(s[h].url.path, path) {
        BisectTurns(s, path, h + 1, j);
      } else {
        BisectTurns(s, path, i, h);
      }
    }
  }

  /** If the paths ascend, a path is found exactly if an account has it. */
  lemma AscendingFound(s: seq<Account>, path: string)
    requires PathsAscend(s)
    ensures Found(s, path) <==> exists k :: 0 <= k < |s| && s[k].url.path == path
  {
    if k :| 0 <= k < |s| && s[k].url.path == path {
      BisectTurns(s, path, 0, |s|);
      AscendingPlace(s, path, PathPlace(s, path), k);
    }
  }

  lemma AscendingPlace(s: seq<Account>, path: string, i: nat, k: nat)
    requires PathsAscend(s) && i <= |s| && k < |s| && s[k].url.path == path
    requires SmallerBefore(s, path, i) && NotSmallerAt(s, path, i)
    ensures i <= k && s[i].url.path == path
  {
    Irreflexive(path);
    assert i > 0 ==> Less(s[i - 1].url.path, s[k].url.path);
    if i < k {
      Total(s[i].url.path, path);
    }
  }

  /** No path of the list comes before the first, after the last, or between two neighbours. */
  ghost predicate NoneSkipped(s: seq<Account>) {
    forall k | 0 <= k < |s| :: !Skips(s, s[k].url.path)
  }

  ghost predicate Skips(s: seq<Account>, path: string)
    requires |s| > 0
  {
    || Less(path, s[0].url.path) || Less(s[|s| - 1].url.path, path)
    || exists i | 0 < i < |s| :: Less(s[i - 1].url.path, path) && Less(path, s[i].url.path)
  }

  /** If no path is skipped, every account is found, whether or not paths repeat. */
  lemma NoneSkippedFound(s: seq<Account>)
    requires NoneSkipped(s)
    ensures AllFound(s)
  {
    forall k | 0 <= k < |s| ensures Found(s, s[k].url.path) {
      NotSkipped(s, s[k].url.path);
    }
  }

  lemma NotSkipped(s: seq<Account>, path: string)
    requires |s| > 0 && !Skips(s, path)
    ensures Found(s, path)
  {
    BisectTurns(s, path, 0, |s|);
    var i := PathPlace(s, path);
    if i < |s| {
      Total(s[i].url.path, path);
    }
  }

  /** With distinct paths every account is found by its path exactly if the paths ascend. */
  lemma DistinctFoundExact(s: seq<Account>)
    requires PathsDistinct(s)
    ensures AllFound(s) <==> PathsAscend(s)
  {
    if PathsAscend(s) {
      forall k | 0 <= k < |s| ensures Found(s, s[k].url.path) {
        AscendingFound(s, s[k].url.path);
      }
    }
    if AllFound(s) {
      forall a, b | 0 <= a < b < |s| ensures !Less(s[b].url.path, s[a].url.path) {
        FoundAtItself(s, a);
        FoundAtItself(s, b);
        Separated(s, a, b, 0, |s|);
        Asymmetric(s[a].url.path, s[b].url.path);
      }
    }
  }

  lemma FoundAtItself(s: seq<Account>, k: nat)
    requires PathsDistinct(s) && k < |s| && Found(s, s[k].url.path)
    ensures PathPlace(s, s[k].url.path) == k
  {
    var i := PathPlace(s, s[k].url.path);
    assert s[i].url.path == s[k].url.path;
  }

  /** In a list sorted by URLs of one scheme the paths ascend. */
  lemma OneSchemeAscends(s: seq<Account>)
    requires Sorted(s) && forall i, j | 0 <= i < j < |s| :: s[i].url.scheme == s[j].url.scheme
    ensures PathsAscend(s)
  {
  }

  // -------------------------------------------------------------------------------------- two inputs

  const AZ := Account(1, Url("a", "z"))
  const BY := Account(2, Url("b", "y"))

  /** With two schemes the paths need not ascend: here neither account is found by its file. */
  lemma TwoSchemesNotFound()
    ensures Sorted([AZ, BY]) && !Found([AZ, BY], "z") && !Found([AZ, BY], "y")
  {
    var s := [AZ, BY];
    assert Less("a", "b") && Less("y", "z");
    Asymmetric("a", "b");
    Asymmetric("y", "z");
    Irreflexive("y");
    assert Bisect(s, "z", 0, 2) == Bisect(s, "z", 2, 2) == 2;
    assert Bisect(s, "y", 0, 2) == Bisect(s, "y", 0, 1) == Bisect(s, "y", 0, 0) == 0;
  }

  const AA := Account(1, Url("a", "a"))
  const AB := Account(2, Url("a", "b"))
  const BA := Account(3, Url("b", "a"))

  /** With a path twice all may be found although the paths do not ascend and one is skipped. */
  lemma TwicePathFound()
    ensures var s := [AA, AB, BA]; Sorted(s) && !PathsAscend(s) && !NoneSkipped(s) && AllFound(s)
  {
    var s := [AA, AB, BA];
    assert Less("a", "b");
    Asymmetric("a", "b");
    Irreflexive("a");
    Irreflexive("b");
    assert Less(s[2].url.path, s[1].url.path) && Skips(s, s[1].url.path);
    assert Bisect(s, "a", 0, 3) == Bisect(s, "a", 0, 1) == Bisect(s, "a", 0, 0) == 0;
    assert Bisect(s, "b", 0, 3) == Bisect(s, "b", 0, 1) == Bisect(s, "b", 1, 1) == 1;
  }
}
