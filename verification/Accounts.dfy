/**
  * The three account lists: the keystore's cache (accounts/keystore/account_cache.go), its wallets
  * (accounts/keystore/keystore.go) and the manager's list (accounts/manager.go), as functions on values.
  */
module Accounts {
  import opened Lex

  datatype Url = Url(scheme: string, path: string)

  datatype Account = Account(address: nat, url: Url)

  predicate UrlLess(a: Url, b: Url) {
    if a.scheme == b.scheme then Less(a.path, b.path) else Less(a.scheme, b.scheme)
  }

  lemma UrlTotal(a: Url, b: Url)
    ensures UrlLess(a, b) || a == b || UrlLess(b, a)
  {
    Lex.Total(a.scheme, b.scheme);
    Lex.Total(a.path, b.path);
  }

  lemma UrlTransitive(a: Url, b: Url, c: Url)
    requires UrlLess(a, b) && UrlLess(b, c)
    ensures UrlLess(a, c)
  {
    if a.scheme == b.scheme == c.scheme {
      Transitive(a.path, b.path, c.path);
    } else if a.scheme != b.scheme && b.scheme != c.scheme {
      Transitive(a.scheme, b.scheme, c.scheme);
      Asymmetric(a.scheme, b.scheme);
    }
  }

  lemma UrlAsymmetric(a: Url, b: Url)
    ensures !(UrlLess(a, b) && UrlLess(b, a)) && !UrlLess(a, a)
  {
    Irreflexive(a.path);
    if UrlLess(a, b) {
      if a.scheme == b.scheme {
        Asymmetric(a.path, b.path);
      } else {
        Asymmetric(a.scheme, b.scheme);
      }
    }
  }

  /** Sorted by URL, and strictly so if no URL occurs twice. */
  predicate Sorted(s: seq<Account>) {
    forall i, j | 0 <= i < j < |s| :: !UrlLess(s[j].url, s[i].url)
  }

  predicate Strict(s: seq<Account>) {
    forall i, j | 0 <= i < j < |s| :: UrlLess(s[i].url, s[j].url)
  }

  /** The first place whose URL is not smaller. */
  function LowerBound(s: seq<Account>, url: Url): (r: nat)
    ensures r <= |s| && (forall i | 0 <= i < r :: UrlLess(s[i].url, url)) && (r < |s| ==> !UrlLess(s[r].url, url))
  {
    if |s| == 0 || !UrlLess(s[0].url, url) then 0 else 1 + LowerBound(s[1..], url)
  }

  function InsertAt(s: seq<Account>, i: nat, a: Account): seq<Account>
    requires i <= |s|
  {
    s[..i] + [a] + s[i..]
  }

  function DeleteAt(s: seq<Account>, i: nat): seq<Account>
    requires i < |s|
  {
    s[..i] + s[i + 1..]
  }

  // ----------------------------------------------------------------------------------- the cache

  /** Whether an account is found where the search for its URL ends. */
  predicate Present(s: seq<Account>, a: Account) {
    var i := LowerBound(s, a.url);
    i < |s| && s[i] == a
  }

  function AddTo(s: seq<Account>, a: Account): seq<Account> {
    if Present(s, a) then s else InsertAt(s, LowerBound(s, a.url), a)
  }

  function RemoveAccount(s: seq<Account>, a: Account): seq<Account> {
    if |s| == 0 then [] else if s[0] == a then s[1..] else [s[0]] + RemoveAccount(s[1..], a)
  }

  datatype Cache = Cache(all: seq<Account>, byAddr: map<nat, seq<Account>>)

  function At(byAddr: map<nat, seq<Account>>, address: nat): seq<Account> {
    if address in byAddr then byAddr[address] else []
  }

  function Put(byAddr: map<nat, seq<Account>>, address: nat, s: seq<Account>): map<nat, seq<Account>> {
    if |s| == 0 then byAddr - {address} else byAddr[address := s]
  }

  function Unfiled(byAddr: map<nat, seq<Account>>, a: Account): map<nat, seq<Account>> {
    Put(byAddr, a.address, RemoveAccount(At(byAddr, a.address), a))
  }

  function Add(c: Cache, a: Account): Cache {
    if Present(c.all, a) then c
    else Cache(AddTo(c.all, a), c.byAddr[a.address := At(c.byAddr, a.address) + [a]])
  }

  function Delete(c: Cache, a: Account): Cache {
    Cache(RemoveAccount(c.all, a), Unfiled(c.byAddr, a))
  }

  function Middle(i: nat, j: nat): (h: nat)
    requires i < j
    ensures i <= h < j
  {
    (i + j) / 2
  }

  /** Bisection between `i` and `j` for a place whose path is not smaller, on any list. */
  function Bisect(s: seq<Account>, path: string, i: nat, j: nat): (r: nat)
    requires i <= j <= |s|
    ensures i <= r <= j
    decreases j - i
  {
    if i == j then i
    else
      var h := Middle(i, j);
      if Less(s[h].url.path, path) then Bisect(s, path, h + 1, j) else Bisect(s, path, i, h)
  }

  function PathPlace(s: seq<Account>, path: string): (r: nat)
    ensures r <= |s|
  {
    Bisect(s, path, 0, |s|)
  }

  /** The search for a path ends at that path. */
  predicate Found(s: seq<Account>, path: string) {
    var i := PathPlace(s, path);
    i < |s| && s[i].url.path == path
  }

  function DeleteByFile(c: Cache, path: string): Cache {
    if Found(c.all, path) then
      var i := PathPlace(c.all, path);
      Cache(DeleteAt(c.all, i), Unfiled(c.byAddr, c.all[i]))
    else c
  }

  function Count(s: seq<Account>, a: Account): nat {
    if |s| == 0 then 0 else Count(s[1..], a) + if s[0] == a then 1 else 0
  }

  lemma {:induction false} CountConcat(s: seq<Account>, t: seq<Account>, a: Account)
    ensures Count(s + t, a) == Count(s, a) + Count(t, a)
  {
    if |s| == 0 {
      assert s + t == t;
    } else {
      CountConcat(s[1..], t, a);
      assert (s + t)[1..] == s[1..] + t;
    }
  }

  lemma {:induction false} CountIn(s: seq<Account>, a: Account)
    ensures Count(s, a) > 0 <==> a in s
  {
    if |s| > 0 {
      CountIn(s[1..], a);
      assert s == [s[0]] + s[1..];
    }
  }

  lemma CountInsert(s: seq<Account>, i: nat, a: Account, b: Account)
    requires i <= |s|
    ensures Count(InsertAt(s, i, a), b) == Count(s, b) + if a == b then 1 else 0
  {
    CountConcat(s[..i] + [a], s[i..], b);
    CountConcat(s[..i], [a], b);
    CountConcat(s[..i], s[i..], b);
    assert s[..i] + s[i..] == s;
  }

  lemma CountDelete(s: seq<Account>, i: nat, b: Account)
    requires i < |s|
    ensures Count(DeleteAt(s, i), b) == Count(s, b) - if s[i] == b then 1 else 0
  {
    CountInsert(DeleteAt(s, i), i, s[i], b);
    assert InsertAt(DeleteAt(s, i), i, s[i]) == s;
  }

  lemma {:induction false} CountRemove(s: seq<Account>, a: Account, b: Account)
    ensures Count(RemoveAccount(s, a), b) == Count(s, b) - if a == b && a in s then 1 else 0
  {
    if |s| > 0 {
      assert s == [s[0]] + s[1..];
      CountRemove(s[1..], a, b);
      if s[0] != a {
        CountConcat([s[0]], RemoveAccount(s[1..], a), b);
      }
    }
  }

  predicate Filed(byAddr: map<nat, seq<Account>>, address: nat) {
    && (address in byAddr ==> |byAddr[address]| > 0)
    && forall a | a in At(byAddr, address) :: a.address == address
  }

  predicate Indexes(c: Cache, a: Account) {
    Count(At(c.byAddr, a.address), a) == Count(c.all, a)
  }

  /** The index holds under each address exactly the accounts of that address, as often as the list does. */
  ghost predicate Indexed(c: Cache) {
    (forall address: nat :: Filed(c.byAddr, address)) && (forall a: Account :: Indexes(c, a))
  }

  lemma AddIndexed(c: Cache, a: Account)
    requires Indexed(c)
    ensures Indexed(Add(c, a))
  {
    if !Present(c.all, a) {
      var c' := Add(c, a);
      forall address: nat ensures Filed(c'.byAddr, address) {
        assert Filed(c.byAddr, address);
      }
      forall b: Account ensures Indexes(c', b) {
        assert Indexes(c, b);
        CountInsert(c.all, LowerBound(c.all, a.url), a, b);
        CountConcat(At(c.byAddr, a.address), [a], b);
      }
    }
  }

  lemma RemoveSubset(s: seq<Account>, a: Account, b: Account)
    requires b in RemoveAccount(s, a)
    ensures b in s
  {
    CountRemove(s, a, b);
    CountIn(s, b);
    CountIn(RemoveAccount(s, a), b);
  }

  lemma UnfiledAt(byAddr: map<nat, seq<Account>>, a: Account, address: nat)
    requires Filed(byAddr, address)
    ensures At(Unfiled(byAddr, a), address)
         == if address == a.address then RemoveAccount(At(byAddr, address), a) else At(byAddr, address)
    ensures Filed(Unfiled(byAddr, a), address)
  {
    forall b | b in RemoveAccount(At(byAddr, address), a) ensures b in At(byAddr, address) {
      RemoveSubset(At(byAddr, address), a, b);
    }
  }

  /** The index follows any list that loses one occurrence of an account, or none if it has none. */
  lemma ShrinkIndexed(c: Cache, a: Account, all: seq<Account>)
    requires Indexed(c)
    requires forall b: Account :: Count(all, b) == Count(c.all, b) - if a == b && a in c.all then 1 else 0
    ensures Indexed(Cache(all, Unfiled(c.byAddr, a)))
  {
    var c' := Cache(all, Unfiled(c.byAddr, a));
    forall address: nat ensures Filed(c'.byAddr, address) {
      assert Filed(c.byAddr, address);
      UnfiledAt(c.byAddr, a, address);
    }
    forall b: Account ensures Indexes(c', b) {
      assert Indexes(c, b) && Filed(c.byAddr, b.address);
      UnfiledAt(c.byAddr, a, b.address);
      CountRemove(At(c.byAddr, a.address), a, b);
      CountIn(At(c.byAddr, a.address), a);
      CountIn(c.all, a);
    }
  }

  lemma DeleteIndexed(c: Cache, a: Account)
    requires Indexed(c)
    ensures Indexed(Delete(c, a))
  {
    forall b: Account
      ensures Count(RemoveAccount(c.all, a), b) == Count(c.all, b) - if a == b && a in c.all then 1 else 0
    {
      CountRemove(c.all, a, b);
    }
    ShrinkIndexed(c, a, RemoveAccount(c.all, a));
  }

  lemma DeleteAtIndexed(c: Cache, i: nat)
    requires Indexed(c) && i < |c.all|
    ensures Indexed(Cache(DeleteAt(c.all, i), Unfiled(c.byAddr, c.all[i])))
  {
    var a := c.all[i];
    forall b: Account
      ensures Count(DeleteAt(c.all, i), b) == Count(c.all, b) - if a == b && a in c.all then 1 else 0
    {
      CountDelete(c.all, i, b);
    }
    ShrinkIndexed(c, a, DeleteAt(c.all, i));
  }

  // ------------------------------------------------------------------------------ sorted lists

  lemma NotLessTransitive(a: Url, b: Url, c: Url)
    requires !UrlLess(b, a) && !UrlLess(c, b)
    ensures !UrlLess(c, a)
  {
    UrlTotal(a, b);
    UrlTotal(b, c);
    UrlAsymmetric(a, c);
    if UrlLess(a, b) && UrlLess(b, c) {
      UrlTransitive(a, b, c);
    }
  }

  /** Insertion at the search position keeps a list sorted, whatever is in it. */
  lemma InsertSorted(s: seq<Account>, a: Account)
    requires Sorted(s)
    ensures Sorted(InsertAt(s, LowerBound(s, a.url), a))
  {
    var n := LowerBound(s, a.url);
    var t := InsertAt(s, n, a);
    forall i, j | 0 <= i < j < |t| ensures !UrlLess(t[j].url, t[i].url) {
      if i < n && j == n {
        UrlAsymmetric(s[i].url, a.url);
      } else if i == n {
        if n < j - 1 {
          NotLessTransitive(a.url, s[n].url, s[j - 1].url);
        }
      }
    }
  }

  lemma DeleteSorted(s: seq<Account>, i: nat)
    requires i < |s|
    ensures Sorted(s) ==> Sorted(DeleteAt(s, i))
    ensures Strict(s) ==> Strict(DeleteAt(s, i))
  {
  }

  lemma {:induction false} RemoveIsDelete(s: seq<Account>, a: Account) returns (i: nat)
    ensures a in s ==> i < |s| && s[i] == a && RemoveAccount(s, a) == DeleteAt(s, i)
    ensures a !in s ==> RemoveAccount(s, a) == s
  {
    i := 0;
    if |s| > 0 && s[0] != a {
      var k := RemoveIsDelete(s[1..], a);
      i := k + 1;
      assert s == [s[0]] + s[1..];
    }
  }

  /** Whatever is added and deleted, the cache stays sorted by URL and its index stays exact. */
  ghost predicate CacheOk(c: Cache) {
    Sorted(c.all) && Indexed(c)
  }

  /** `t` is `s` with one occurrence of `a` more or less. */
  ghost predicate Differs(s: seq<Account>, t: seq<Account>, a: Account, n: int) {
    forall b: Account :: Count(t, b) == Count(s, b) + if a == b then n else 0
  }

  lemma AddOk(c: Cache, a: Account)
    requires CacheOk(c)
    ensures CacheOk(Add(c, a)) && a in Add(c, a).all
    ensures Differs(c.all, Add(c, a).all, a, if Present(c.all, a) then 0 else 1)
  {
    InsertSorted(c.all, a);
    AddIndexed(c, a);
    forall b: Account
      ensures Count(Add(c, a).all, b) == Count(c.all, b) + if a == b && !Present(c.all, a) then 1 else 0
    {
      CountInsert(c.all, LowerBound(c.all, a.url), a, b);
    }
  }

  lemma DeleteOk(c: Cache, a: Account)
    requires CacheOk(c)
    ensures CacheOk(Delete(c, a)) && Differs(c.all, Delete(c, a).all, a, if a in c.all then -1 else 0)
  {
    var i := RemoveIsDelete(c.all, a);
    if a in c.all {
      DeleteSorted(c.all, i);
    }
    DeleteIndexed(c, a);
    forall b: Account ensures Count(Delete(c, a).all, b) == Count(c.all, b) - if a == b && a in c.all then 1 else 0 {
      CountRemove(c.all, a, b);
    }
  }

  /** Deleting by file takes out the account at the place where the search ends, if it has the path, and no other. */
  lemma DeleteByFileOk(c: Cache, path: string)
    requires CacheOk(c)
    ensures CacheOk(DeleteByFile(c, path))
    ensures if Found(c.all, path) then Differs(c.all, DeleteByFile(c, path).all, c.all[PathPlace(c.all, path)], -1)
            else DeleteByFile(c, path) == c
  {
    if Found(c.all, path) {
      var i := PathPlace(c.all, path);
      DeleteSorted(c.all, i);
      forall b: Account ensures Count(DeleteAt(c.all, i), b) == Count(c.all, b) - if c.all[i] == b then 1 else 0 {
        CountDelete(c.all, i, b);
      }
      DeleteAtIndexed(c, i);
    }
  }
}
