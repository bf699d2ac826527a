/** The three account lists over whole runs of any additions, deletions and refreshes. */
module AccountViews {
  import opened Accounts
  import opened Wallets

  datatype Views = Views(cache: Cache, wallets: seq<Account>, manager: seq<Account>)

  datatype Event = AddAccount(a: Account) | DeleteAccount(a: Account) | DeleteFile(path: string) | RefreshAll

  function Step(v: Views, e: Event): Views {
    match e
    case AddAccount(a) => v.(cache := Add(v.cache, a))
    case DeleteAccount(a) => v.(cache := Delete(v.cache, a))
    case DeleteFile(path) => v.(cache := DeleteByFile(v.cache, path))
    case RefreshAll =>
      var (ws, es) := Refresh(v.wallets, v.cache.all);
      v.(wallets := ws, manager := ApplyAll(v.manager, es))
  }

  function Run(v: Views, es: seq<Event>): Views
    decreases |es|
  {
    if |es| == 0 then v else Run(Step(v, es[0]), es[1..])
  }

  // ----------------------------------------------------------------------------------- every run

  /** The lists are sorted, the index is exact, and the manager lists at least the wallets, URL by URL. */
  ghost predicate Inv(v: Views) {
    CacheOk(v.cache) && Sorted(v.wallets) && Sorted(v.manager) && Covers(v.manager, v.wallets)
  }

  /** How many other wallets the manager lists under a URL. */
  function Others(v: Views, u: Url): int {
    |Under(v.manager, u)| - |Under(v.wallets, u)|
  }

  lemma CacheKeeps(c: Cache, e: Event)
    requires CacheOk(c) && !e.RefreshAll?
    ensures CacheOk(Step(Views(c, [], []), e).cache)
  {
    match e
    case AddAccount(a) => AddOk(c, a);
    case DeleteAccount(a) => DeleteOk(c, a);
    case DeleteFile(path) => DeleteByFileOk(c, path);
  }

  lemma RefreshKeeps(v: Views, u: Url)
    requires Inv(v)
    ensures Inv(Step(v, RefreshAll)) && Others(Step(v, RefreshAll), u) == Others(v, u)
  {
    var v' := Step(v, RefreshAll);
    RefreshSorted(v.wallets, v.cache.all);
    ManagerUnder(v.manager, v.wallets, v.cache.all, u);
    forall t ensures |Under(v'.wallets, t)| <= |Under(v'.manager, t)| && Others(v', t) == Others(v, t) {
      assert |Under(v.wallets, t)| <= |Under(v.manager, t)|;
      ManagerCounts(v.manager, v.wallets, v.cache.all, t);
    }
  }

  lemma StepKeepsInv(v: Views, e: Event, u: Url)
    requires Inv(v)
    ensures Inv(Step(v, e)) && Others(Step(v, e), u) == Others(v, u)
  {
    if e.RefreshAll? {
      RefreshKeeps(v, u);
    } else {
      CacheKeeps(v.cache, e);
    }
  }

  /** Over every run the lists stay sorted, the index exact, and the number of other wallets under a URL the same. */
  lemma {:induction false} RunKeepsInv(v: Views, es: seq<Event>, u: Url)
    requires Inv(v)
    ensures Inv(Run(v, es)) && Others(Run(v, es), u) == Others(v, u)
    decreases |es|
  {
    if |es| > 0 {
      StepKeepsInv(v, es[0], u);
      RunKeepsInv(Step(v, es[0]), es[1..], u);
    }
  }

  /**
    * After every run, a refresh makes the wallets equal to the accounts exactly if, at every URL, the wallets so far
    * begin with the accounts or the accounts with the wallets.
    */
  lemma RefreshAfterRun(v: Views, es: seq<Event>)
    requires Inv(v)
    ensures var w := Run(v, es);
            Step(w, RefreshAll).wallets == w.cache.all
            <==> forall u :: InPrefix(Under(w.wallets, u), Under(w.cache.all, u))
  {
    RunKeepsInv(v, es, Url("", ""));
    RefreshExact(Run(v, es).wallets, Run(v, es).cache.all);
  }

  // ------------------------------------------------------------------ runs in which URLs name addresses

  /** The keystore's scheme, and the address each URL names. */
  datatype Setting = Setting(scheme: string, names: Url -> nat)

  predicate Ours(c: Setting, a: Account) {
    a.url.scheme == c.scheme && a.address == c.names(a.url)
  }

  predicate Named(c: Setting, es: seq<Event>) {
    forall i | 0 <= i < |es| :: es[i].AddAccount? ==> Ours(c, es[i].a)
  }

  ghost predicate ListOk(c: Setting, s: seq<Account>) {
    Strict(s) && forall i | 0 <= i < |s| :: Ours(c, s[i])
  }

  /** Under the keystore's URLs the manager lists the wallets. */
  ghost predicate Agreed(c: Setting, v: Views) {
    && Inv(v) && ListOk(c, v.cache.all) && ListOk(c, v.wallets)
    && forall u: Url | u.scheme == c.scheme :: Under(v.manager, u) == Under(v.wallets, u)
  }

  lemma StrictUnder(c: Setting, s: seq<Account>, u: Url)
    requires ListOk(c, s)
    ensures Under(s, u) == [] || (u.scheme == c.scheme && Under(s, u) == [Account(c.names(u), u)])
  {
    if |s| > 0 {
      assert Ours(c, s[0]);
      StrictUnder(c, s[1..], u);
      if s[0].url == u {
        UnderBefore(u, s[1..]);
      }
    }
  }

  lemma StrictSorted(s: seq<Account>)
    requires Strict(s)
    ensures Sorted(s)
  {
    forall i, j | 0 <= i < j < |s| ensures !UrlLess(s[j].url, s[i].url) {
      UrlAsymmetric(s[i].url, s[j].url);
    }
  }

  lemma InsertStrict(s: seq<Account>, n: nat, a: Account)
    requires Strict(s) && n <= |s| && (forall i | 0 <= i < n :: UrlLess(s[i].url, a.url)) && Before(a.url, s[n..])
    ensures Strict(InsertAt(s, n, a))
  {
    var t := InsertAt(s, n, a);
    forall i, j | 0 <= i < j < |t| ensures UrlLess(t[i].url, t[j].url) {
      if i == n {
        assert t[j] == s[n..][j - 1 - n];
      }
    }
  }

  lemma AddKeepsList(c: Setting, s: seq<Account>, a: Account)
    requires ListOk(c, s) && Ours(c, a)
    ensures ListOk(c, AddTo(s, a))
  {
    if !Present(s, a) {
      var n := LowerBound(s, a.url);
      if n < |s| {
        assert Ours(c, s[n]);
        UrlTotal(s[n].url, a.url);
      }
      StrictSorted(s);
      SortedBefore(a.url, s[n..]);
      InsertStrict(s, n, a);
    }
  }

  lemma DeleteKeepsList(c: Setting, s: seq<Account>, i: nat)
    requires ListOk(c, s) && i < |s|
    ensures ListOk(c, DeleteAt(s, i))
  {
    DeleteSorted(s, i);
  }

  lemma CacheListOk(c: Setting, v: Views, e: Event)
    requires ListOk(c, v.cache.all) && (e.AddAccount? ==> Ours(c, e.a))
    ensures ListOk(c, Step(v, e).cache.all)
  {
    match e
    case AddAccount(a) => AddKeepsList(c, v.cache.all, a);
    case DeleteAccount(a) =>
      var i := RemoveIsDelete(v.cache.all, a);
      if a in v.cache.all {
        DeleteKeepsList(c, v.cache.all, i);
      }
    case DeleteFile(path) =>
      if Found(v.cache.all, path) {
        DeleteKeepsList(c, v.cache.all, PathPlace(v.cache.all, path));
      }
    case RefreshAll =>
  }

  lemma WalletsFollow(c: Setting, v: Views)
    requires Agreed(c, v)
    ensures Step(v, RefreshAll).wallets == v.cache.all
  {
    forall u ensures InPrefix(Under(v.wallets, u), Under(v.cache.all, u)) {
      StrictUnder(c, v.wallets, u);
      StrictUnder(c, v.cache.all, u);
    }
    RefreshExact(v.wallets, v.cache.all);
  }

  /** The manager then lists the accounts under the keystore's URLs, and what it did under all others. */
  lemma ManagerFollows(c: Setting, v: Views, u: Url)
    requires Agreed(c, v)
    ensures Under(Step(v, RefreshAll).manager, u) == Under(if u.scheme == c.scheme then v.cache.all else v.manager, u)
  {
    ManagerUnder(v.manager, v.wallets, v.cache.all, u);
    StrictUnder(c, v.wallets, u);
    StrictUnder(c, v.cache.all, u);
    OneListed(Under(v.manager, u), Under(v.wallets, u), Under(v.cache.all, u), Account(c.names(u), u));
  }

  lemma OneListed(m: seq<Account>, w: seq<Account>, a: seq<Account>, x: Account)
    requires (w == [] || w == [x]) && (a == [] || a == [x]) && |w| <= |m|
    ensures w == a ==> Listed(m, w, a) == m
    ensures m == w ==> Listed(m, w, a) == a
  {
    assert [x][1..] == [] && Reversed([]) + [x] == [x];
    assert Coming([x], [x]) == [] && Leaving([x], [x]) == [] && m[0..] == m;
  }

  lemma AgreedStep(c: Setting, v: Views, e: Event, u: Url)
    requires Agreed(c, v) && (e.AddAccount? ==> Ours(c, e.a))
    ensures Agreed(c, Step(v, e))
    ensures u.scheme != c.scheme ==> Under(Step(v, e).manager, u) == Under(v.manager, u)
  {
    CacheListOk(c, v, e);
    StepKeepsInv(v, e, u);
    if e.RefreshAll? {
      WalletsFollow(c, v);
      ManagerFollows(c, v, u);
      forall t: Url | t.scheme == c.scheme ensures Under(Step(v, e).manager, t) == Under(v.cache.all, t) {
        ManagerFollows(c, v, t);
      }
    }
  }

  lemma {:induction false} AgreedRun(c: Setting, v: Views, es: seq<Event>, u: Url)
    requires Agreed(c, v) && Named(c, es)
    ensures Agreed(c, Run(v, es))
    ensures u.scheme != c.scheme ==> Under(Run(v, es).manager, u) == Under(v.manager, u)
    decreases |es|
  {
    if |es| > 0 {
      AgreedStep(c, v, es[0], u);
      assert Named(c, es[1..]);
      AgreedRun(c, Step(v, es[0]), es[1..], u);
    }
  }

  /**
    * After any such run from an agreeing state one refresh makes the wallets equal to the account list, which is
    * strictly sorted and indexed exactly. The manager lists these accounts under the keystore's URLs; the wallets of
    * other backends are listed as at the start.
    */
  lemma ViewsAgree(c: Setting, v: Views, es: seq<Event>, u: Url)
    requires Agreed(c, v) && Named(c, es)
    ensures var w := Step(Run(v, es), RefreshAll);
            && w.wallets == w.cache.all && Strict(w.cache.all) && Indexed(w.cache) && Sorted(w.manager)
            && Under(w.manager, u) == Under(if u.scheme == c.scheme then w.cache.all else v.manager, u)
  {
    AgreedRun(c, v, es, u);
    AgreedStep(c, Run(v, es), RefreshAll, u);
    WalletsFollow(c, Run(v, es));
    ManagerFollows(c, Run(v, es), u);
  }

  /** With no other backend all three lists are equal. */
  lemma ThreeEqual(c: Setting, v: Views, es: seq<Event>)
    requires Agreed(c, v) && Named(c, es) && v.manager == v.wallets
    ensures var w := Step(Run(v, es), RefreshAll); w.wallets == w.cache.all == w.manager
  {
    var w := Step(Run(v, es), RefreshAll);
    forall u ensures Under(w.manager, u) == Under(w.cache.all, u) {
      ViewsAgree(c, v, es, u);
      AgreedRun(c, v, es, u);
      if u.scheme != c.scheme {
        StrictUnder(c, v.wallets, u);
        StrictUnder(c, Run(v, es).cache.all, u);
      }
    }
    ViewsAgree(c, v, es, Url("", ""));
    StrictSorted(w.cache.all);
    SortedByUrl(w.manager, w.cache.all);
  }
}
