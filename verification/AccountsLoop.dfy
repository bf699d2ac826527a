/** The account lists as the program keeps them: slices searched by bisection and changed in place. */
module AccountsLoop {
  import opened Lex
  import opened Accounts
  import opened Wallets

  lemma SmallerBefore(s: seq<Account>, k: nat, h: nat, url: Url)
    requires Sorted(s) && k <= h < |s| && UrlLess(s[h].url, url)
    ensures UrlLess(s[k].url, url)
  {
    if k < h {
      UrlTotal(s[k].url, s[h].url);
      if UrlLess(s[k].url, s[h].url) {
        UrlTransitive(s[k].url, s[h].url, url);
      }
    }
  }

  /** Bisection for the first place whose URL is not smaller. */
  method Search(s: seq<Account>, url: Url) returns (i: nat)
    requires Sorted(s)
    ensures i == LowerBound(s, url)
  {
    i := 0;
    var j: nat := |s|;
    while i < j
      invariant i <= j <= |s|
      invariant forall k | 0 <= k < i :: UrlLess(s[k].url, url)
      invariant j < |s| ==> !UrlLess(s[j].url, url)
    {
      var h := (i + j) / 2;
      if UrlLess(s[h].url, url) {
        forall k | 0 <= k <= h ensures UrlLess(s[k].url, url) {
          SmallerBefore(s, k, h, url);
        }
        i := h + 1;
      } else {
        j := h;
      }
    }
  }

  /** Bisection for a path, on a list that need not be sorted by path. */
  method SearchPath(s: seq<Account>, path: string) returns (i: nat)
    ensures i == PathPlace(s, path)
  {
    i := 0;
    var j: nat := |s|;
    while i < j
      invariant i <= j <= |s| && Bisect(s, path, i, j) == PathPlace(s, path)
    {
      var h := (i + j) / 2;
      if Less(s[h].url.path, path) {
        i := h + 1;
      } else {
        j := h;
      }
    }
  }

  /** Removes the first occurrence of an account. */
  method Remove(s: seq<Account>, a: Account) returns (r: seq<Account>)
    ensures r == RemoveAccount(s, a)
  {
    var i: nat := 0;
    while i < |s|
      invariant i <= |s| && RemoveAccount(s, a) == s[..i] + RemoveAccount(s[i..], a)
    {
      if s[i] == a {
        assert s[i..][1..] == s[i + 1..];
        return s[..i] + s[i + 1..];
      }
      assert s[i..][1..] == s[i + 1..];
      assert s[..i + 1] == s[..i] + [s[i]];
      i := i + 1;
    }
    return s;
  }

  datatype Found = One(account: Account) | NoMatch | Ambiguous(matches: seq<Account>)

  predicate Fits(a: Account, address: nat) {
    address == 0 || a.address == address
  }

  predicate HasUrl(s: seq<Account>, address: nat, url: Url) {
    exists i | 0 <= i < |s| :: s[i].url == url && Fits(s[i], address)
  }

  lemma Candidates(c: Cache, address: nat, a: Account)
    requires Indexed(c) && address != 0
    ensures a in At(c.byAddr, address) <==> a in c.all && a.address == address
  {
    assert Filed(c.byAddr, address) && Indexes(c, a);
    CountIn(At(c.byAddr, a.address), a);
    CountIn(c.all, a);
  }

  /** Sorts by inserting one account after the other. */
  method SortByUrl(s: seq<Account>) returns (r: seq<Account>)
    ensures Sorted(r) && |r| == |s| && forall a: Account :: Count(r, a) == Count(s, a)
  {
    r := [];
    var i: nat := 0;
    while i < |s|
      invariant i <= |s| && Sorted(r) && |r| == i
      invariant forall a: Account :: Count(r, a) == Count(s[..i], a)
    {
      var n := Search(r, s[i].url);
      InsertSorted(r, s[i]);
      assert s[..i + 1] == s[..i] + [s[i]];
      forall a: Account ensures Count(InsertAt(r, n, s[i]), a) == Count(s[..i + 1], a) {
        CountInsert(r, n, s[i], a);
        CountConcat(s[..i], [s[i]], a);
      }
      r := InsertAt(r, n, s[i]);
      i := i + 1;
    }
    assert s[..i] == s;
  }

  /** Completes a path that is only the name of a file. */
  function Completed(join: string -> string, url: Url): Url {
    if '/' in url.path then url else url.(path := join(url.path))
  }

  class AccountCache {
    /** Joins the key directory and the name of a file. */
    const join: string -> string
    var all: seq<Account>
    var byAddr: map<nat, seq<Account>>

    ghost function Model(): Cache
      reads this
    {
      Cache(all, byAddr)
    }

    constructor (join: string -> string)
      ensures this.join == join && CacheOk(Model()) && Model() == Cache([], map[])
    {
      this.join := join;
      all, byAddr := [], map[];
    }

    method Add(a: Account)
      requires CacheOk(Model())
      modifies this
      ensures Model() == Accounts.Add(old(Model()), a) && CacheOk(Model())
    {
      AddOk(Model(), a);
      var i := Search(all, a.url);
      if i < |all| && all[i] == a {
        return;
      }
      all := all[..i] + [a] + all[i..];
      byAddr := byAddr[a.address := At(byAddr, a.address) + [a]];
    }

    /**
      * Searches by address, by URL, or by both; address zero and the empty path stand for not given. A path that is
      * only the name of a file is completed to one in the key directory.
      */
    method Find(address: nat, wanted: Url) returns (r: Found)
      requires CacheOk(Model())
      ensures r.One? ==> r.account in all && Fits(r.account, address)
      ensures var url := Completed(join, wanted); var byUrl := wanted.path != "" && HasUrl(all, address, url);
              && (r.One? ==>
                    if byUrl then r.account.url == url else forall a | a in all && Fits(a, address) :: a == r.account)
              && (byUrl ==> r.One?)
              && (wanted.path != "" && address == 0 ==> (r.One? <==> byUrl) && (r.NoMatch? <==> !byUrl))
              && (r.NoMatch? && (wanted.path == "" || address != 0) ==> forall a | a in all :: !Fits(a, address))
      ensures r.Ambiguous? ==>
                && |r.matches| > 1 && Sorted(r.matches)
                && forall a :: a in r.matches <==> a in all && Fits(a, address)
    {
      var url := wanted;
      if '/' !in wanted.path {
        url := wanted.(path := join(wanted.path));
      }
      var matches := if address != 0 then At(byAddr, address) else all;
      if address != 0 {
        forall a ensures a in matches <==> a in all && Fits(a, address) {
          Candidates(Model(), address, a);
        }
      }
      if wanted.path != "" {
        for i := 0 to |matches|
          invariant forall k | 0 <= k < i :: matches[k].url != url
        {
          if matches[i].url == url {
            return One(matches[i]);
          }
        }
        if address == 0 {
          return NoMatch;
        }
      }
      if |matches| == 1 {
        return One(matches[0]);
      } else if |matches| == 0 {
        return NoMatch;
      }
      var sorted := SortByUrl(matches);
      forall a ensures a in sorted <==> a in matches {
        CountIn(sorted, a);
        CountIn(matches, a);
      }
      return Ambiguous(sorted);
    }

    method Unfile(a: Account)
      modifies this`byAddr
      ensures byAddr == Unfiled(old(byAddr), a)
    {
      var ba := Remove(At(byAddr, a.address), a);
      if |ba| == 0 {
        byAddr := byAddr - {a.address};
      } else {
        byAddr := byAddr[a.address := ba];
      }
    }

    method Delete(a: Account)
      requires CacheOk(Model())
      modifies this
      ensures Model() == Accounts.Delete(old(Model()), a) && CacheOk(Model())
    {
      DeleteOk(Model(), a);
      all := Remove(all, a);
      Unfile(a);
    }

    method DeleteByFile(path: string)
      requires CacheOk(Model())
      modifies this
      ensures Model() == Accounts.DeleteByFile(old(Model()), path) && CacheOk(Model())
    {
      DeleteByFileOk(Model(), path);
      var i := SearchPath(all, path);
      if i < |all| && all[i].url.path == path {
        var removed := all[i];
        all := all[..i] + all[i + 1..];
        Unfile(removed);
      }
    }
  }

  class KeyStore {
    var wallets: seq<Account>

    /** Drops the wallets in front of the next account. */
    method DropFront(url: Url, rest: seq<Account>, events: seq<WalletEvent>) returns (events': seq<WalletEvent>)
      requires |rest| > 0 && rest[0].url == url
      modifies this
      ensures |wallets| == 0 || !UrlLess(wallets[0].url, url)
      ensures Refresh(old(wallets), rest).0 == Refresh(wallets, rest).0
      ensures events + Refresh(old(wallets), rest).1 == events' + Refresh(wallets, rest).1
      ensures |wallets| <= |old(wallets)|
    {
      events' := events;
      while |wallets| > 0 && UrlLess(wallets[0].url, url)
        invariant Refresh(old(wallets), rest).0 == Refresh(wallets, rest).0
        invariant events + Refresh(old(wallets), rest).1 == events' + Refresh(wallets, rest).1
        decreases |wallets|
      {
        ghost var more := Refresh(wallets[1..], rest).1;
        assert events' + ([Dropped(wallets[0])] + more) == (events' + [Dropped(wallets[0])]) + more;
        events' := events' + [Dropped(wallets[0])];
        wallets := wallets[1..];
      }
    }

    /** Replaces the wallets by those of the given accounts, and returns the events to send. */
    method RefreshWallets(accs: seq<Account>) returns (events: seq<WalletEvent>)
      modifies this
      ensures (wallets, events) == Refresh(old(wallets), accs)
    {
      var renewed := [];
      events := [];
      var i: nat := 0;
      while i < |accs|
        invariant i <= |accs|
        invariant renewed + Refresh(wallets, accs[i..]).0 == Refresh(old(wallets), accs).0
        invariant events + Refresh(wallets, accs[i..]).1 == Refresh(old(wallets), accs).1
      {
        var a := accs[i];
        assert accs[i..][1..] == accs[i + 1..];
        events := DropFront(a.url, accs[i..], events);
        if |wallets| == 0 || UrlLess(a.url, wallets[0].url) {
          Moved(renewed, a, Refresh(wallets, accs[i + 1..]).0);
          EventMoved(events, Arrived(a), Refresh(wallets, accs[i + 1..]).1);
          events := events + [Arrived(a)];
          renewed := renewed + [a];
        } else if wallets[0] == a {
          Moved(renewed, a, Refresh(wallets[1..], accs[i + 1..]).0);
          renewed := renewed + [a];
          wallets := wallets[1..];
        }
        i := i + 1;
      }
      assert accs[i..] == [] && renewed + [] == renewed;
      events := DropRest(events);
      wallets := renewed;
    }

    method DropRest(events: seq<WalletEvent>) returns (events': seq<WalletEvent>)
      ensures events' == events + AllDropped(wallets)
    {
      events' := events;
      var j: nat := 0;
      while j < |wallets|
        invariant j <= |wallets| && events' + AllDropped(wallets[j..]) == events + AllDropped(wallets)
      {
        assert wallets[j..][1..] == wallets[j + 1..];
        EventMoved(events', Dropped(wallets[j]), AllDropped(wallets[j + 1..]));
        events' := events' + [Dropped(wallets[j])];
        j := j + 1;
      }
    }
  }

  lemma Moved(a: seq<Account>, x: Account, b: seq<Account>)
    ensures a + ([x] + b) == (a + [x]) + b
  {
  }

  lemma EventMoved(a: seq<WalletEvent>, x: WalletEvent, b: seq<WalletEvent>)
    ensures a + ([x] + b) == (a + [x]) + b
  {
  }

  class Manager {
    var wallets: seq<Account>

    /** Inserts an arrived wallet at its place, or takes out what sits at the place of a dropped one. */
    method Update(e: WalletEvent)
      requires Sorted(wallets)
      modifies this
      ensures wallets == Apply(old(wallets), e) && Sorted(wallets)
    {
      var n := Search(wallets, e.wallet.url);
      match e
      case Arrived(w) =>
        InsertSorted(wallets, w);
        wallets := wallets[..n] + [w] + wallets[n..];
      case Dropped(w) =>
        if n < |wallets| {
          DeleteSorted(wallets, n);
          wallets := wallets[..n] + wallets[n + 1..];
        }
    }
  }
}
