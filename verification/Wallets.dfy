/**
  * Wallets follow accounts, and the manager's list follows the wallets' events. Several accounts can have the same URL:
  * what happens is told for the accounts of each URL.
  */
module Wallets {
  import opened Lex
  import opened Accounts

  datatype WalletEvent = Arrived(wallet: Account) | Dropped(wallet: Account)

  // ---------------------------------------------------------------------------------- refreshing

  function AllDropped(ws: seq<Account>): seq<WalletEvent> {
    if |ws| == 0 then [] else [Dropped(ws[0])] + AllDropped(ws[1..])
  }

  /** One pass over both sorted lists: the new wallets and the events they give rise to. */
  function Refresh(ws: seq<Account>, accs: seq<Account>): (seq<Account>, seq<WalletEvent>)
    decreases |ws| + |accs|
  {
    if |accs| == 0 then ([], AllDropped(ws))
    else if |ws| > 0 && UrlLess(ws[0].url, accs[0].url) then
      var (r, es) := Refresh(ws[1..], accs);
      (r, [Dropped(ws[0])] + es)
    else if |ws| == 0 || UrlLess(accs[0].url, ws[0].url) then
      var (r, es) := Refresh(ws, accs[1..]);
      ([accs[0]] + r, [Arrived(accs[0])] + es)
    else if ws[0] == accs[0] then
      var (r, es) := Refresh(ws[1..], accs[1..]);
      ([accs[0]] + r, es)
    else Refresh(ws, accs[1..])
  }

  // ------------------------------------------------------------------------------ lists by URL

  /** The accounts with a URL, in the order of the list. */
  function Under(s: seq<Account>, u: Url): seq<Account> {
    if |s| == 0 then [] else if s[0].url == u then [s[0]] + Under(s[1..], u) else Under(s[1..], u)
  }

  /** Every URL of the list is larger. */
  predicate Before(u: Url, s: seq<Account>) {
    forall i | 0 <= i < |s| :: UrlLess(u, s[i].url)
  }

  lemma UnderCons(a: Account, s: seq<Account>, u: Url)
    ensures Under([a] + s, u) == if a.url == u then [a] + Under(s, u) else Under(s, u)
  {
    assert ([a] + s)[1..] == s;
  }

  lemma {:induction false} UnderConcat(s: seq<Account>, t: seq<Account>, u: Url)
    ensures Under(s + t, u) == Under(s, u) + Under(t, u)
    decreases |s|
  {
    if |s| == 0 {
      assert s + t == t;
    } else {
      assert s + t == [s[0]] + (s[1..] + t);
      UnderCons(s[0], s[1..] + t, u);
      UnderConcat(s[1..], t, u);
    }
  }

  lemma {:induction false} UnderAre(s: seq<Account>, u: Url, a: Account)
    ensures a in Under(s, u) <==> a in s && a.url == u
  {
    if |s| > 0 {
      UnderAre(s[1..], u, a);
      assert s == [s[0]] + s[1..];
    }
  }

  lemma UnderNone(s: seq<Account>, u: Url)
    requires forall i | 0 <= i < |s| :: s[i].url != u
    ensures Under(s, u) == []
  {
    if |Under(s, u)| > 0 {
      UnderAre(s, u, Under(s, u)[0]);
    }
  }

  lemma UnderBefore(u: Url, s: seq<Account>)
    requires Before(u, s)
    ensures Under(s, u) == []
  {
    UrlAsymmetric(u, u);
    UnderNone(s, u);
  }

  lemma SortedTail(s: seq<Account>)
    requires Sorted(s) && |s| > 0
    ensures Sorted(s[1..]) && forall i | 0 <= i < |s[1..]| :: !UrlLess(s[1..][i].url, s[0].url)
  {
  }

  lemma SortedCons(a: Account, s: seq<Account>)
    requires Sorted(s) && forall i | 0 <= i < |s| :: !UrlLess(s[i].url, a.url)
    ensures Sorted([a] + s)
  {
  }

  lemma SortedBefore(u: Url, s: seq<Account>)
    requires Sorted(s) && (|s| > 0 ==> UrlLess(u, s[0].url))
    ensures Before(u, s)
  {
    forall i | 0 <= i < |s| ensures UrlLess(u, s[i].url) {
      UrlAsymmetric(s[0].url, s[0].url);
      LessThenNotLess(u, s[0].url, s[i].url);
    }
  }

  lemma LessThenNotLess(a: Url, b: Url, c: Url)
    requires UrlLess(a, b) && !UrlLess(c, b)
    ensures UrlLess(a, c)
  {
    UrlTotal(b, c);
    if UrlLess(b, c) {
      UrlTransitive(a, b, c);
    }
  }

  /** A sorted list is determined by its accounts under each URL. */
  lemma {:induction false} SortedByUrl(a: seq<Account>, b: seq<Account>)
    requires Sorted(a) && Sorted(b) && forall u :: Under(a, u) == Under(b, u)
    ensures a == b
  {
    if |a| == 0 || |b| == 0 {
      NoneLeft(a, b);
      NoneLeft(b, a);
    } else {
      FirstsEqual(a, b);
      SortedTail(a);
      SortedTail(b);
      assert a == [a[0]] + a[1..] && b == [b[0]] + b[1..];
      forall u ensures Under(a[1..], u) == Under(b[1..], u) {
        assert Under(a, u) == Under(b, u);
        UnderCons(a[0], a[1..], u);
        UnderCons(b[0], b[1..], u);
        SameRest(a[0], Under(a[1..], u), Under(b[1..], u));
      }
      SortedByUrl(a[1..], b[1..]);
    }
  }

  lemma SameRest(x: Account, s: seq<Account>, t: seq<Account>)
    ensures [x] + s == [x] + t <==> s == t
  {
    assert ([x] + s)[1..] == s && ([x] + t)[1..] == t;
  }

  lemma NoneLeft(a: seq<Account>, b: seq<Account>)
    requires forall u :: Under(a, u) == Under(b, u)
    ensures |a| == 0 ==> |b| == 0
  {
    if |b| > 0 {
      assert Under(b, b[0].url) != [] && Under(a, b[0].url) == Under(b, b[0].url);
    }
  }

  lemma FirstsEqual(a: seq<Account>, b: seq<Account>)
    requires Sorted(a) && Sorted(b) && |a| > 0 && |b| > 0 && forall u :: Under(a, u) == Under(b, u)
    ensures a[0] == b[0]
  {
    FirstNotLess(a, b);
    FirstNotLess(b, a);
    UrlTotal(a[0].url, b[0].url);
    assert Under(a, a[0].url)[0] == a[0] && Under(b, b[0].url)[0] == b[0];
  }

  lemma FirstNotLess(a: seq<Account>, b: seq<Account>)
    requires Sorted(b) && |a| > 0 && |b| > 0 && forall u :: Under(a, u) == Under(b, u)
    ensures !UrlLess(a[0].url, b[0].url)
  {
    assert Under(b, a[0].url) == Under(a, a[0].url) != [];
    if UrlLess(a[0].url, b[0].url) {
      SortedBefore(a[0].url, b);
      UnderBefore(a[0].url, b);
    }
  }

  // --------------------------------------------------------------------------- what refreshing does

  /** What becomes of the wallets of one URL: equal ones in front are kept, what does not fit the first is left out. */
  function Group(w: seq<Account>, a: seq<Account>): seq<Account>
    decreases |a|
  {
    if |a| == 0 then []
    else if |w| == 0 then a
    else if w[0] == a[0] then [a[0]] + Group(w[1..], a[1..])
    else Group(w, a[1..])
  }

  lemma {:induction false} RefreshUnder(ws: seq<Account>, accs: seq<Account>, u: Url)
    requires Sorted(ws) && Sorted(accs)
    ensures Under(Refresh(ws, accs).0, u) == Group(Under(ws, u), Under(accs, u))
    decreases |ws| + |accs|
  {
    if |accs| > 0 {
      SortedTail(accs);
      if |ws| > 0 && UrlLess(ws[0].url, accs[0].url) {
        SortedTail(ws);
        RefreshUnder(ws[1..], accs, u);
        SortedBefore(ws[0].url, accs);
        UnderBefore(ws[0].url, accs);
      } else if |ws| == 0 || UrlLess(accs[0].url, ws[0].url) {
        RefreshUnder(ws, accs[1..], u);
        SortedBefore(accs[0].url, ws);
        UnderBefore(accs[0].url, ws);
        UnderCons(accs[0], Refresh(ws, accs[1..]).0, u);
        GroupOfNone(Under(accs[1..], u));
      } else {
        UrlTotal(ws[0].url, accs[0].url);
        RefreshSame(ws, accs, u);
      }
    }
  }

  lemma GroupOfNone(a: seq<Account>)
    ensures Group([], a) == a
  {
  }

  lemma {:induction false} RefreshSame(ws: seq<Account>, accs: seq<Account>, u: Url)
    requires Sorted(ws) && Sorted(accs) && |ws| > 0 && |accs| > 0 && ws[0].url == accs[0].url
    requires !UrlLess(ws[0].url, accs[0].url) && !UrlLess(accs[0].url, ws[0].url)
    ensures Under(Refresh(ws, accs).0, u) == Group(Under(ws, u), Under(accs, u))
    decreases |ws| + |accs|, 0
  {
    SortedTail(accs);
    if ws[0] == accs[0] {
      SortedTail(ws);
      RefreshUnder(ws[1..], accs[1..], u);
      UnderCons(accs[0], Refresh(ws[1..], accs[1..]).0, u);
    } else {
      RefreshUnder(ws, accs[1..], u);
    }
  }

  lemma {:induction false} RefreshFrom(ws: seq<Account>, accs: seq<Account>, a: Account)
    requires a in Refresh(ws, accs).0
    ensures a in accs
    decreases |ws| + |accs|
  {
    if |accs| > 0 {
      if |ws| > 0 && UrlLess(ws[0].url, accs[0].url) {
        RefreshFrom(ws[1..], accs, a);
      } else if a != accs[0] {
        RefreshFrom(if |ws| > 0 && ws[0] == accs[0] then ws[1..] else ws, accs[1..], a);
      }
    }
  }

  lemma {:induction false} RefreshSorted(ws: seq<Account>, accs: seq<Account>)
    requires Sorted(accs)
    ensures Sorted(Refresh(ws, accs).0)
    decreases |ws| + |accs|
  {
    if |accs| > 0 {
      if |ws| > 0 && UrlLess(ws[0].url, accs[0].url) {
        RefreshSorted(ws[1..], accs);
      } else {
        SortedTail(accs);
        var ws' := if |ws| > 0 && ws[0] == accs[0] then ws[1..] else ws;
        RefreshSorted(ws', accs[1..]);
        var r := Refresh(ws', accs[1..]).0;
        forall i | 0 <= i < |r| ensures !UrlLess(r[i].url, accs[0].url) {
          RefreshFrom(ws', accs[1..], r[i]);
        }
        SortedCons(accs[0], r);
      }
    }
  }

  // ------------------------------------------------------------------ when the wallets are the accounts

  lemma PrefixCons(w: seq<Account>, a: seq<Account>)
    requires |w| > 0 && |a| > 0 && w[0] == a[0]
    ensures w <= a <==> w[1..] <= a[1..]
  {
    assert w == [w[0]] + w[1..] && a == [a[0]] + a[1..];
  }

  lemma {:induction false} GroupExact(w: seq<Account>, a: seq<Account>)
    ensures |Group(w, a)| <= |a|
    ensures Group(w, a) == a <==> w <= a || a <= w
    decreases |a|
  {
    if |w| > 0 && |a| > 0 {
      if w[0] == a[0] {
        GroupExact(w[1..], a[1..]);
        PrefixCons(w, a);
        PrefixCons(a, w);
        assert a == [a[0]] + a[1..];
      } else {
        GroupExact(w, a[1..]);
      }
    }
  }

  /** How far two lists agree. */
  function Agreeing(w: seq<Account>, a: seq<Account>): (k: nat)
    ensures k <= |w| && k <= |a|
  {
    if |w| == 0 || |a| == 0 || w[0] != a[0] then 0 else 1 + Agreeing(w[1..], a[1..])
  }

  /** The first wallet that does not fit is not among the accounts still to come. */
  predicate Recovers(w: seq<Account>, a: seq<Account>) {
    var k := Agreeing(w, a);
    k < |w| ==> w[k] !in a[k..]
  }

  lemma {:induction false} GroupNone(w: seq<Account>, a: seq<Account>)
    requires |w| > 0
    ensures Group(w, a) == [] <==> w[0] !in a
    ensures w[0] in a ==> |Group(w, a)| > 0 && Group(w, a)[0] == w[0]
    decreases |a|
  {
    if |a| > 0 {
      assert a == [a[0]] + a[1..];
      if w[0] != a[0] {
        GroupNone(w, a[1..]);
      }
    }
  }

  lemma {:induction false} GroupTwice(w: seq<Account>, a: seq<Account>)
    ensures Group(Group(w, a), a) == a <==> Recovers(w, a)
    decreases |a|
  {
    if |a| > 0 {
      if |w| == 0 {
        GroupExact(a, a);
      } else if w[0] == a[0] {
        GroupTwice(w[1..], a[1..]);
        SameFirst(w, a);
        SameRecovers(w, a);
      } else {
        GroupNone(w, a[1..]);
        assert w[0] in a <==> w[0] in a[1..];
        GroupExact(Group(w, a), a[1..]);
      }
    }
  }

  lemma GroupCons(w: seq<Account>, a: seq<Account>)
    requires |a| > 0
    ensures Group([a[0]] + w, a) == [a[0]] + Group(w, a[1..])
  {
    assert ([a[0]] + w)[1..] == w;
  }

  lemma SameRecovers(w: seq<Account>, a: seq<Account>)
    requires |w| > 0 && |a| > 0 && w[0] == a[0]
    ensures Recovers(w, a) <==> Recovers(w[1..], a[1..])
  {
    var k := Agreeing(w[1..], a[1..]);
    assert a[1..][k..] == a[k + 1..];
  }

  lemma SameFirst(w: seq<Account>, a: seq<Account>)
    requires |w| > 0 && |a| > 0 && w[0] == a[0]
    ensures Group(Group(w, a), a) == a <==> Group(Group(w[1..], a[1..]), a[1..]) == a[1..]
  {
    GroupCons(Group(w[1..], a[1..]), a);
    SameRest(a[0], Group(Group(w[1..], a[1..]), a[1..]), a[1..]);
    assert a == [a[0]] + a[1..];
  }

  lemma NotAllEqual(a: seq<Account>, b: seq<Account>)
    requires Sorted(a) && Sorted(b) && a != b
    ensures exists u :: Under(a, u) != Under(b, u)
  {
    if forall u :: Under(a, u) == Under(b, u) {
      SortedByUrl(a, b);
    }
  }

  lemma EqualByUrl(ws: seq<Account>, accs: seq<Account>)
    requires Sorted(ws) && Sorted(accs)
    ensures ws == accs <==> forall u :: Under(ws, u) == Under(accs, u)
  {
    if ws != accs {
      NotAllEqual(ws, accs);
    }
  }

  /** One of the two lists begins with the other. */
  predicate InPrefix(w: seq<Account>, a: seq<Account>) {
    w <= a || a <= w
  }

  /** One refresh makes the wallets equal to the accounts exactly if at every URL one list begins with the other. */
  lemma RefreshExact(ws: seq<Account>, accs: seq<Account>)
    requires Sorted(ws) && Sorted(accs)
    ensures Refresh(ws, accs).0 == accs <==> forall u :: InPrefix(Under(ws, u), Under(accs, u))
  {
    var r := Refresh(ws, accs).0;
    RefreshSorted(ws, accs);
    forall u ensures Under(r, u) == Under(accs, u) <==> InPrefix(Under(ws, u), Under(accs, u)) {
      RefreshUnder(ws, accs, u);
      GroupExact(Under(ws, u), Under(accs, u));
    }
    EqualByUrl(r, accs);
  }

  /** Two refreshes make them equal exactly if at every URL the first wallet that does not fit is not there any more. */
  lemma SecondRefreshExact(ws: seq<Account>, accs: seq<Account>)
    requires Sorted(ws) && Sorted(accs)
    ensures Refresh(Refresh(ws, accs).0, accs).0 == accs <==> forall u :: Recovers(Under(ws, u), Under(accs, u))
  {
    var r := Refresh(ws, accs).0;
    RefreshSorted(ws, accs);
    RefreshSorted(r, accs);
    forall u ensures Under(Refresh(r, accs).0, u) == Under(accs, u) <==> Recovers(Under(ws, u), Under(accs, u)) {
      RefreshUnder(ws, accs, u);
      RefreshUnder(r, accs, u);
      GroupTwice(Under(ws, u), Under(accs, u));
    }
    EqualByUrl(Refresh(r, accs).0, accs);
  }

  // ---------------------------------------------------------------------------- refreshing again and again

  function RefreshTimes(ws: seq<Account>, accs: seq<Account>, n: nat): seq<Account>
    decreases n
  {
    if n == 0 then ws else RefreshTimes(Refresh(ws, accs).0, accs, n - 1)
  }

  function GroupTimes(w: seq<Account>, a: seq<Account>, n: nat): seq<Account>
    decreases n
  {
    if n == 0 then w else GroupTimes(Group(w, a), a, n - 1)
  }

  /** A wallet that does not fit and is still among the accounts stays the first that does not fit. */
  lemma {:induction false} MisfitStays(w: seq<Account>, a: seq<Account>)
    requires !Recovers(w, a)
    ensures !Recovers(Group(w, a), a)
    decreases |a|
  {
    if w[0] == a[0] {
      SameRecovers(w, a);
      MisfitStays(w[1..], a[1..]);
      var g := Group(w[1..], a[1..]);
      assert ([a[0]] + g)[1..] == g;
      SameRecovers([a[0]] + g, a);
    } else {
      assert a[0..] == a;
      GroupNone(w, a);
    }
  }

  lemma {:induction false} SelfRecovers(a: seq<Account>)
    ensures Recovers(a, a) && Group(a, a) == a
  {
    GroupExact(a, a);
    AgreesWithItself(a);
  }

  lemma {:induction false} AgreesWithItself(a: seq<Account>)
    ensures Agreeing(a, a) == |a|
  {
    if |a| > 0 {
      AgreesWithItself(a[1..]);
    }
  }

  lemma {:induction false} MisfitForever(w: seq<Account>, a: seq<Account>, n: nat)
    requires !Recovers(w, a)
    ensures GroupTimes(w, a, n) != a
    decreases n
  {
    if n == 0 {
      SelfRecovers(a);
    } else {
      MisfitStays(w, a);
      MisfitForever(Group(w, a), a, n - 1);
    }
  }

  lemma {:induction false} EqualForever(a: seq<Account>, n: nat)
    ensures GroupTimes(a, a, n) == a
    decreases n
  {
    if n > 0 {
      SelfRecovers(a);
      EqualForever(a, n - 1);
    }
  }

  lemma GroupTimesExact(w: seq<Account>, a: seq<Account>, n: nat)
    requires n >= 2
    ensures GroupTimes(w, a, n) == a <==> Recovers(w, a)
  {
    if Recovers(w, a) {
      GroupTwice(w, a);
      EqualForever(a, n - 2);
    } else {
      MisfitForever(w, a, n);
    }
  }

  lemma {:induction false} RefreshTimesUnder(ws: seq<Account>, accs: seq<Account>, n: nat, u: Url)
    requires Sorted(ws) && Sorted(accs)
    ensures Sorted(RefreshTimes(ws, accs, n))
    ensures Under(RefreshTimes(ws, accs, n), u) == GroupTimes(Under(ws, u), Under(accs, u), n)
    decreases n
  {
    if n > 0 {
      RefreshSorted(ws, accs);
      RefreshUnder(ws, accs, u);
      RefreshTimesUnder(Refresh(ws, accs).0, accs, n - 1, u);
    }
  }

  /**
    * However often it is done from the second time on, refreshing makes the wallets equal to the accounts exactly if at
    * every URL the first wallet that does not fit is not among the accounts still to come there.
    */
  lemma RefreshTimesExact(ws: seq<Account>, accs: seq<Account>, n: nat)
    requires Sorted(ws) && Sorted(accs) && n >= 2
    ensures RefreshTimes(ws, accs, n) == accs <==> forall u :: Recovers(Under(ws, u), Under(accs, u))
  {
    var r := RefreshTimes(ws, accs, n);
    forall u ensures Under(r, u) == Under(accs, u) <==> Recovers(Under(ws, u), Under(accs, u)) {
      RefreshTimesUnder(ws, accs, n, u);
      GroupTimesExact(Under(ws, u), Under(accs, u), n);
    }
    RefreshTimesUnder(ws, accs, n, Url("", ""));
    EqualByUrl(r, accs);
  }

  /** Such a wallet is lost by one refresh: dropped, and its account left out. */
  lemma ReboundUrlLosesWallet()
    ensures var (u, v) := (Url("keystore", "a"), Url("keystore", "b"));
            Refresh([Account(1, u), Account(3, v)], [Account(2, u), Account(3, v)])
            == ([Account(3, v)], [Dropped(Account(1, u))])
  {
    var (u, v) := (Url("keystore", "a"), Url("keystore", "b"));
    UrlAsymmetric(u, v);
    UrlAsymmetric(v, v);
    assert Less("a", "b");
    var w1, w2, w3 := Account(1, u), Account(2, u), Account(3, v);
    assert [w3][1..] == [] && [w1, w3][1..] == [w3] && [w2, w3][1..] == [w3];
    var nothing: seq<Account>, quiet: seq<WalletEvent> := [], [];
    assert Refresh(nothing, nothing) == (nothing, quiet);
    assert [w3] + nothing == [w3] && [Dropped(w1)] + quiet == [Dropped(w1)];
    assert Refresh([w3], [w3]) == ([w3], quiet);
    assert Refresh([w1, w3], [w3]) == ([w3], [Dropped(w1)]);
  }

  /** With two accounts under one URL no refresh may ever help: the wallets stay as they are. */
  lemma RefreshNeverHelps()
    ensures var u := Url("keystore", "a"); var (w, a) := ([Account(1, u)], [Account(2, u), Account(1, u)]);
            Sorted(w) && Sorted(a) && Refresh(w, a).0 == w
  {
    var u := Url("keystore", "a");
    UrlAsymmetric(u, u);
    var w1, w2 := Account(1, u), Account(2, u);
    assert [w2, w1][1..] == [w1] && [w1][1..] == [];
    assert Refresh([w1], [w1]).0 == [w1] + Refresh([], []).0;
  }

  // ----------------------------------------------------------------------------- the manager's list

  function Merge(ms: seq<Account>, w: Account): seq<Account> {
    InsertAt(ms, LowerBound(ms, w.url), w)
  }

  /** Drops whatever sits where the wallet is searched. */
  function DropFrom(ms: seq<Account>, w: Account): seq<Account> {
    var n := LowerBound(ms, w.url);
    if n == |ms| then ms else DeleteAt(ms, n)
  }

  function Apply(ms: seq<Account>, e: WalletEvent): seq<Account> {
    match e
    case Arrived(w) => Merge(ms, w)
    case Dropped(w) => DropFrom(ms, w)
  }

  function ApplyAll(ms: seq<Account>, es: seq<WalletEvent>): seq<Account>
    decreases |es|
  {
    if |es| == 0 then ms else ApplyAll(Apply(ms, es[0]), es[1..])
  }

  lemma LowerBoundUnder(ms: seq<Account>, u: Url)
    requires Sorted(ms)
    ensures var n := LowerBound(ms, u); Under(ms[..n], u) == [] && Under(ms, u) == Under(ms[n..], u)
    ensures var n := LowerBound(ms, u); Under(ms, u) != [] <==> n < |ms| && ms[n].url == u
  {
    var n := LowerBound(ms, u);
    UrlAsymmetric(u, u);
    UnderNone(ms[..n], u);
    UnderSplit(ms, n, u);
    if n < |ms| && ms[n].url != u {
      UrlTotal(ms[n].url, u);
      SortedBefore(u, ms[n..]);
      UnderBefore(u, ms[n..]);
    }
  }

  /** A wallet is put in front of those with the same URL. */
  lemma MergeExact(ms: seq<Account>, w: Account, u: Url)
    requires Sorted(ms)
    ensures Sorted(Merge(ms, w))
    ensures Under(Merge(ms, w), u) == if u == w.url then [w] + Under(ms, u) else Under(ms, u)
  {
    var n := LowerBound(ms, w.url);
    InsertSorted(ms, w);
    InsertUnder(ms[..n], w, ms[n..], u);
    LowerBoundUnder(ms, w.url);
    UnderSplit(ms, n, u);
  }

  lemma UnderSplit(s: seq<Account>, n: nat, u: Url)
    requires n <= |s|
    ensures Under(s, u) == Under(s[..n], u) + Under(s[n..], u)
  {
    UnderConcat(s[..n], s[n..], u);
    assert s == s[..n] + s[n..];
  }

  lemma InsertUnder(s: seq<Account>, w: Account, t: seq<Account>, u: Url)
    ensures Under(s + [w] + t, u) == Under(s, u) + if u == w.url then [w] + Under(t, u) else Under(t, u)
  {
    assert s + [w] + t == s + ([w] + t);
    UnderConcat(s, [w] + t, u);
    UnderCons(w, t, u);
  }

  /**
    * Dropping takes out the first wallet with the URL. If there is none, the next one of a larger URL is lost instead,
    * if there is one.
    */
  lemma DropExact(ms: seq<Account>, w: Account, u: Url)
    requires Sorted(ms)
    ensures Sorted(DropFrom(ms, w))
    ensures Under(ms, w.url) != [] ==>
              Under(DropFrom(ms, w), u) == if u == w.url then Under(ms, u)[1..] else Under(ms, u)
    ensures Under(ms, w.url) == [] ==>
              (DropFrom(ms, w) == ms <==> forall i | 0 <= i < |ms| :: UrlLess(ms[i].url, w.url))
  {
    var n := LowerBound(ms, w.url);
    LowerBoundUnder(ms, w.url);
    if n < |ms| {
      DeleteSorted(ms, n);
      assert ms == ms[..n] + [ms[n]] + ms[n + 1..];
      InsertUnder(ms[..n], ms[n], ms[n + 1..], u);
      UnderConcat(ms[..n], ms[n + 1..], u);
    }
  }

  function Reversed(s: seq<Account>): seq<Account> {
    if |s| == 0 then [] else Reversed(s[1..]) + [s[0]]
  }

  /** The wallets of one URL that a refresh drops, and the accounts that arrive. */
  function Leaving(w: seq<Account>, a: seq<Account>): (r: seq<Account>)
    ensures |r| <= |w|
    decreases |a|
  {
    if |a| == 0 then w
    else if |w| == 0 then []
    else Leaving(if w[0] == a[0] then w[1..] else w, a[1..])
  }

  function Coming(w: seq<Account>, a: seq<Account>): seq<Account>
    decreases |a|
  {
    if |a| == 0 then []
    else if |w| == 0 then a
    else Coming(if w[0] == a[0] then w[1..] else w, a[1..])
  }

  /** What the manager lists under one URL afterwards. */
  function Listed(m: seq<Account>, w: seq<Account>, a: seq<Account>): seq<Account>
    requires |w| <= |m|
  {
    Reversed(Coming(w, a)) + m[|Leaving(w, a)|..]
  }

  /** The manager lists at least as many wallets under each URL. */
  ghost predicate Covers(ms: seq<Account>, ws: seq<Account>) {
    forall u :: |Under(ws, u)| <= |Under(ms, u)|
  }

  lemma CoversDrop(ms: seq<Account>, ws: seq<Account>)
    requires Sorted(ms) && Covers(ms, ws) && |ws| > 0
    ensures Under(ms, ws[0].url) != [] && Covers(DropFrom(ms, ws[0]), ws[1..])
  {
    assert |Under(ws, ws[0].url)| <= |Under(ms, ws[0].url)|;
    forall u ensures |Under(ws[1..], u)| <= |Under(DropFrom(ms, ws[0]), u)| {
      assert |Under(ws, u)| <= |Under(ms, u)|;
      DropExact(ms, ws[0], u);
    }
  }

  lemma CoversMerge(ms: seq<Account>, ws: seq<Account>, a: Account)
    requires Sorted(ms) && Covers(ms, ws)
    ensures Covers(Merge(ms, a), ws)
  {
    forall u ensures |Under(ws, u)| <= |Under(Merge(ms, a), u)| {
      assert |Under(ws, u)| <= |Under(ms, u)|;
      MergeExact(ms, a, u);
    }
  }

  lemma CoversTail(ms: seq<Account>, ws: seq<Account>)
    requires Covers(ms, ws) && |ws| > 0
    ensures Covers(ms, ws[1..])
  {
    forall u ensures |Under(ws[1..], u)| <= |Under(ms, u)| {
      assert |Under(ws, u)| <= |Under(ms, u)|;
    }
  }

  lemma FirstEvent(ms: seq<Account>, e: WalletEvent, es: seq<WalletEvent>)
    ensures ApplyAll(ms, [e] + es) == ApplyAll(Apply(ms, e), es)
  {
    assert ([e] + es)[1..] == es;
  }

  lemma {:induction false} DropAllUnder(ms: seq<Account>, ws: seq<Account>, u: Url)
    requires Sorted(ms) && Covers(ms, ws)
    ensures Sorted(ApplyAll(ms, AllDropped(ws)))
    ensures |Under(ws, u)| <= |Under(ms, u)| && Under(ApplyAll(ms, AllDropped(ws)), u) == Under(ms, u)[|Under(ws, u)|..]
    decreases |ws|
  {
    assert |Under(ws, u)| <= |Under(ms, u)|;
    if |ws| > 0 {
      CoversDrop(ms, ws);
      DropExact(ms, ws[0], u);
      FirstEvent(ms, Dropped(ws[0]), AllDropped(ws[1..]));
      DropAllUnder(DropFrom(ms, ws[0]), ws[1..], u);
    }
  }

  /** What the manager's list becomes when it applies the events of a refresh in order, whatever else it holds. */
  lemma {:induction false} ManagerUnder(ms: seq<Account>, ws: seq<Account>, accs: seq<Account>, u: Url)
    requires Sorted(ms) && Sorted(ws) && Sorted(accs) && Covers(ms, ws)
    ensures Sorted(ApplyAll(ms, Refresh(ws, accs).1)) && |Under(ws, u)| <= |Under(ms, u)|
    ensures Under(ApplyAll(ms, Refresh(ws, accs).1), u) == Listed(Under(ms, u), Under(ws, u), Under(accs, u))
    decreases |ws| + |accs|, 1
  {
    assert |Under(ws, u)| <= |Under(ms, u)|;
    if |accs| == 0 {
      DropAllUnder(ms, ws, u);
    } else {
      SortedTail(accs);
      if |ws| > 0 && UrlLess(ws[0].url, accs[0].url) {
        DropUnder(ms, ws, accs, u);
      } else if |ws| == 0 || UrlLess(accs[0].url, ws[0].url) {
        ArriveUnder(ms, ws, accs, u);
      } else {
        UrlTotal(ws[0].url, accs[0].url);
        if ws[0] == accs[0] {
          SortedTail(ws);
          CoversTail(ms, ws);
          ManagerUnder(ms, ws[1..], accs[1..], u);
        } else {
          ManagerUnder(ms, ws, accs[1..], u);
        }
      }
    }
  }

  lemma {:induction false} DropUnder(ms: seq<Account>, ws: seq<Account>, accs: seq<Account>, u: Url)
    requires Sorted(ms) && Sorted(ws) && Sorted(accs) && Covers(ms, ws) && |ws| > 0 && |accs| > 0
    requires UrlLess(ws[0].url, accs[0].url) && |Under(ws, u)| <= |Under(ms, u)|
    ensures Sorted(ApplyAll(ms, Refresh(ws, accs).1))
    ensures Under(ApplyAll(ms, Refresh(ws, accs).1), u) == Listed(Under(ms, u), Under(ws, u), Under(accs, u))
    decreases |ws| + |accs|, 0
  {
    SortedTail(ws);
    SortedBefore(ws[0].url, accs);
    UnderBefore(ws[0].url, accs);
    CoversDrop(ms, ws);
    DropExact(ms, ws[0], u);
    FirstEvent(ms, Dropped(ws[0]), Refresh(ws[1..], accs).1);
    ManagerUnder(DropFrom(ms, ws[0]), ws[1..], accs, u);
  }

  lemma {:induction false} ArriveUnder(ms: seq<Account>, ws: seq<Account>, accs: seq<Account>, u: Url)
    requires Sorted(ms) && Sorted(ws) && Sorted(accs) && Covers(ms, ws) && |accs| > 0
    requires |ws| == 0 || UrlLess(accs[0].url, ws[0].url)
    requires !(|ws| > 0 && UrlLess(ws[0].url, accs[0].url)) && |Under(ws, u)| <= |Under(ms, u)|
    ensures Sorted(ApplyAll(ms, Refresh(ws, accs).1))
    ensures Under(ApplyAll(ms, Refresh(ws, accs).1), u) == Listed(Under(ms, u), Under(ws, u), Under(accs, u))
    decreases |ws| + |accs|, 0
  {
    var a := accs[0];
    SortedTail(accs);
    SortedBefore(a.url, ws);
    UnderBefore(a.url, ws);
    MergeExact(ms, a, u);
    CoversMerge(ms, ws, a);
    FirstEvent(ms, Arrived(a), Refresh(ws, accs[1..]).1);
    ManagerUnder(Merge(ms, a), ws, accs[1..], u);
    if u == a.url {
      ArriveListed(Under(ms, u), a, Under(accs[1..], u));
    }
  }

  lemma ArriveListed(m: seq<Account>, a: Account, rest: seq<Account>)
    ensures Listed([a] + m, [], rest) == Listed(m, [], [a] + rest)
  {
    assert ([a] + rest)[1..] == rest;
    assert Reversed(rest) + ([a] + m) == Reversed(rest) + [a] + m;
    assert Coming([], rest) == rest && Leaving([], rest) == [];
  }

  // ---------------------------------------------------------------------- which wallets it lists

  lemma AddBoth(x: Account, g: multiset<Account>, l: multiset<Account>, w: multiset<Account>, c: multiset<Account>)
    requires g + l == w + c
    ensures multiset{x} + g + l == multiset{x} + w + c
  {
    assert multiset{x} + g + l == multiset{x} + (g + l);
  }

  /** Kept and left, or kept and new: nothing else. */
  lemma {:induction false} GroupBalance(w: seq<Account>, a: seq<Account>)
    ensures multiset(Group(w, a)) + multiset(Leaving(w, a)) == multiset(w) + multiset(Coming(w, a))
    ensures |Group(w, a)| + |Leaving(w, a)| == |w| + |Coming(w, a)|
    decreases |a|
  {
    if |a| > 0 && |w| > 0 {
      if w[0] == a[0] {
        GroupBalance(w[1..], a[1..]);
        assert w == [w[0]] + w[1..];
        var g, l, c := Group(w[1..], a[1..]), Leaving(w, a), Coming(w, a);
        AddBoth(w[0], multiset(g), multiset(l), multiset(w[1..]), multiset(c));
        assert multiset(Group(w, a)) == multiset{w[0]} + multiset(g);
      } else {
        GroupBalance(w, a[1..]);
      }
    } else if |w| == 0 {
      assert w == [];
    }
  }

  lemma {:induction false} ReversedSame(s: seq<Account>)
    ensures multiset(Reversed(s)) == multiset(s) && |Reversed(s)| == |s|
  {
    if |s| > 0 {
      ReversedSame(s[1..]);
      assert s == [s[0]] + s[1..];
    }
  }

  lemma Cancel(m1: multiset<Account>, m2: multiset<Account>, o: multiset<Account>, w: multiset<Account>,
               g: multiset<Account>, l: multiset<Account>, k: multiset<Account>)
    requires m1 + m2 == o + w && g + l == w + k
    ensures k + m2 == o + g <==> m1 == l
  {
    forall x: Account ensures (k + m2)[x] == (o + g)[x] <==> m1[x] == l[x] {
      assert (m1 + m2)[x] == (o + w)[x] && (g + l)[x] == (w + k)[x];
    }
  }

  /**
    * Let the manager list, under a URL, the wallets and some others. After a refresh it lists the new wallets and these
    * others exactly if the wallets that leave were the first of its list there.
    */
  lemma ManagerExact(ms: seq<Account>, ws: seq<Account>, accs: seq<Account>, u: Url, others: multiset<Account>)
    requires Sorted(ms) && Sorted(ws) && Sorted(accs) && Covers(ms, ws)
    requires multiset(Under(ms, u)) == others + multiset(Under(ws, u))
    ensures var leaving := Leaving(Under(ws, u), Under(accs, u)); var (r, es) := Refresh(ws, accs);
            && |leaving| <= |Under(ms, u)|
            && (multiset(Under(ApplyAll(ms, es), u)) == others + multiset(Under(r, u))
                <==> multiset(Under(ms, u)[..|leaving|]) == multiset(leaving))
  {
    var m, w, a := Under(ms, u), Under(ws, u), Under(accs, u);
    ManagerUnder(ms, ws, accs, u);
    RefreshUnder(ws, accs, u);
    GroupBalance(w, a);
    ReversedSame(Coming(w, a));
    var d := |Leaving(w, a)|;
    assert m == m[..d] + m[d..];
    var g, l, k := multiset(Group(w, a)), multiset(Leaving(w, a)), multiset(Coming(w, a));
    Cancel(multiset(m[..d]), multiset(m[d..]), others, multiset(w), g, l, k);
  }

  lemma ListedSize(m: seq<Account>, w: seq<Account>, a: seq<Account>)
    requires |w| <= |m|
    ensures |Listed(m, w, a)| - |Group(w, a)| == |m| - |w|
  {
    GroupBalance(w, a);
    ReversedSame(Coming(w, a));
  }

  /** Whatever the accounts, the manager lists as many wallets of others under each URL as before. */
  lemma ManagerCounts(ms: seq<Account>, ws: seq<Account>, accs: seq<Account>, u: Url)
    requires Sorted(ms) && Sorted(ws) && Sorted(accs) && Covers(ms, ws)
    ensures var (r, es) := Refresh(ws, accs);
            |Under(ApplyAll(ms, es), u)| - |Under(r, u)| == |Under(ms, u)| - |Under(ws, u)|
  {
    ManagerUnder(ms, ws, accs, u);
    RefreshUnder(ws, accs, u);
    ListedSize(Under(ms, u), Under(ws, u), Under(accs, u));
  }

  /** An input on which they are other wallets: another one of the same URL is dropped instead. */
  lemma ManagerDropsAnother()
    ensures var u := Url("keystore", "a"); var (w, o) := (Account(1, u), Account(2, u));
            Refresh([w], []) == ([], [Dropped(w)]) && ApplyAll([o, w], [Dropped(w)]) == [w]
  {
    var u := Url("keystore", "a");
    var w, o := Account(1, u), Account(2, u);
    UrlAsymmetric(u, u);
    assert [w][1..] == [] && [o, w][1..] == [w];
    FirstEvent([o, w], Dropped(w), []);
    assert DropFrom([o, w], w) == [w];
    assert AllDropped([w]) == [Dropped(w)] + AllDropped([]) == [Dropped(w)];
    assert [Dropped(w)] + [] == [Dropped(w)];
  }
}
