/** Sub-protocol matching as p2p/peer.go runs it: capabilities sorted in place, then two nested loops. */
module MatchLoop {
  import opened Bytes
  import opened Common
  import opened Lex
  import opened Match
  import opened Words

  // -------------------------------------------------------------------------------------- sorting

  function Insert(s: seq<Cap>, x: Cap): (r: seq<Cap>)
    ensures |r| == |s| + 1
  {
    if |s| == 0 || !CapLess(x, s[|s| - 1]) then s + [x]
    else Insert(s[..|s| - 1], x) + [s[|s| - 1]]
  }

  function Sort(s: seq<Cap>): (r: seq<Cap>)
    ensures |r| == |s|
  {
    if |s| == 0 then [] else Insert(Sort(s[..|s| - 1]), s[|s| - 1])
  }

  lemma {:induction false} InsertAdds(s: seq<Cap>, x: Cap)
    ensures multiset(Insert(s, x)) == multiset(s) + multiset{x}
  {
    var n := |s| - 1;
    if |s| > 0 && CapLess(x, s[n]) {
      InsertAdds(s[..n], x);
      assert s == s[..n] + [s[n]];
    }
  }

  lemma {:induction false} SortPermutes(s: seq<Cap>)
    ensures multiset(Sort(s)) == multiset(s)
  {
    if |s| > 0 {
      var n := |s| - 1;
      SortPermutes(s[..n]);
      InsertAdds(Sort(s[..n]), s[n]);
      assert s == s[..n] + [s[n]];
    }
  }

  lemma NotLess(a: Cap, b: Cap)
    ensures !CapLess(b, a) <==> Less(a.name, b.name) || (a.name == b.name && a.version <= b.version)
  {
    Lex.Total(a.name, b.name);
    Irreflexive(a.name);
    if Less(a.name, b.name) {
      Asymmetric(a.name, b.name);
    }
  }

  lemma NotLessTransitive(a: Cap, b: Cap, c: Cap)
    requires !CapLess(b, a) && !CapLess(c, b)
    ensures !CapLess(c, a)
  {
    NotLess(a, b);
    NotLess(b, c);
    NotLess(a, c);
    if Less(a.name, b.name) && Less(b.name, c.name) {
      Transitive(a.name, b.name, c.name);
    }
  }

  lemma SortedSnoc(s: seq<Cap>, x: Cap)
    requires Sorted(s) && forall i | 0 <= i < |s| :: !CapLess(x, s[i])
    ensures Sorted(s + [x])
  {
  }

  lemma {:induction false} InsertSorted(s: seq<Cap>, x: Cap)
    requires Sorted(s)
    ensures Sorted(Insert(s, x))
  {
    var n := |s| - 1;
    if |s| > 0 && CapLess(x, s[n]) {
      InsertSorted(s[..n], x);
      InsertAdds(s[..n], x);
      forall i | 0 <= i < |Insert(s[..n], x)| ensures !CapLess(s[n], Insert(s[..n], x)[i]) {
        InsertBelow(s[..n], x, s[n], Insert(s[..n], x)[i]);
      }
      SortedSnoc(Insert(s[..n], x), s[n]);
    } else {
      forall i | 0 <= i < |s| ensures !CapLess(x, s[i]) {
        if i < n {
          NotLessTransitive(s[i], s[n], x);
        }
      }
      SortedSnoc(s, x);
    }
  }

  lemma InsertBelow(s: seq<Cap>, x: Cap, top: Cap, y: Cap)
    requires multiset(Insert(s, x)) == multiset(s) + multiset{x} && CapLess(x, top) && y in Insert(s, x)
    requires forall i | 0 <= i < |s| :: !CapLess(top, s[i])
    ensures !CapLess(top, y)
  {
    assert y in multiset(Insert(s, x));
    if y == x {
      NotLess(x, top);
    }
  }

  lemma {:induction false} SortSorts(s: seq<Cap>)
    ensures Sorted(Sort(s))
  {
    if |s| > 0 {
      SortSorts(s[..|s| - 1]);
      InsertSorted(Sort(s[..|s| - 1]), s[|s| - 1]);
    }
  }

  /** Sinks the element at `i` into the sorted part before it. */
  method Sink(caps: array<Cap>, i: nat)
    requires i < caps.Length
    modifies caps
    ensures caps[..i + 1] == Insert(old(caps[..i]), old(caps[i])) && caps[i + 1..] == old(caps[i + 1..])
  {
    var j: nat, x := i, caps[i];
    while j > 0 && CapLess(caps[j], caps[j - 1])
      invariant j <= i && caps[j] == x && caps[i + 1..] == old(caps[i + 1..])
      invariant caps[..j] == old(caps[..j])
      invariant Insert(old(caps[..i]), x) == Insert(caps[..j], x) + caps[j + 1..i + 1]
    {
      assert caps[..j][..j - 1] == caps[..j - 1];
      ghost var before := caps[..j - 1];
      ghost var y, after := caps[j - 1], caps[j + 1..i + 1];
      caps[j], caps[j - 1] := caps[j - 1], caps[j];
      assert caps[..j - 1] == before && caps[j..i + 1] == [y] + after;
      Assoc(Insert(before, x), [y], after);
      j := j - 1;
    }
    assert Insert(caps[..j], x) == caps[..j] + [x];
    assert caps[..i + 1] == caps[..j] + [x] + caps[j + 1..i + 1];
  }

  /** Sorts capabilities in place. */
  method SortCaps(caps: array<Cap>)
    modifies caps
    ensures caps[..] == Sort(old(caps[..]))
  {
    var i: nat := 0;
    while i < caps.Length
      invariant i <= caps.Length && caps[..i] == Sort(old(caps[..i])) && caps[i..] == old(caps[i..])
    {
      ghost var x := old(caps[..i + 1]);
      assert x[..i] == old(caps[..i]) && x[i] == caps[i];
      assert caps[i..][1..] == caps[i + 1..];
      Sink(caps, i);
      i := i + 1;
    }
    assert caps[..] == caps[..i] && old(caps[..]) == old(caps[..i]);
  }

  // ------------------------------------------------------------------------------------- matching

  /** Searches the protocols in order. */
  method FindProto(protocols: seq<Proto>, cap: Cap) returns (r: Option<Proto>)
    ensures r == Find(protocols, cap)
  {
    var j: nat := 0;
    while j < |protocols|
      invariant j <= |protocols| && Find(protocols[j..], cap) == Find(protocols, cap)
    {
      if protocols[j].name == cap.name && protocols[j].version == cap.version {
        return Some(protocols[j]);
      }
      assert protocols[j..][1..] == protocols[j + 1..];
      j := j + 1;
    }
    return None;
  }

  /** Matches sorted capabilities in order, giving back the codes of an older version of the same protocol. */
  method MatchInOrder(protocols: seq<Proto>, caps: seq<Cap>) returns (result: map<string, Entry>)
    ensures result == MatchProtocols(protocols, caps)
  {
    var offset: uint64 := BASE_PROTOCOL_LENGTH;
    result := map[];
    var i: nat := 0;
    while i < |caps|
      invariant i <= |caps|
      invariant PlaceAll(Matching(offset, result), Matched(protocols, caps[i..]))
             == PlaceAll(NOTHING, Matched(protocols, caps))
    {
      var p := FindProto(protocols, caps[i]);
      ghost var rest := Matched(protocols, caps[i + 1..]);
      assert caps[i..][1..] == caps[i + 1..];
      if p.Some? {
        assert ([p.value] + rest)[1..] == rest;
        if p.value.name in result {
          offset := Sub64(offset, result[p.value.name].proto.length);
        }
        result := result[p.value.name := Entry(p.value, offset)];
        offset := Add64(offset, p.value.length);
      }
      i := i + 1;
    }
  }

  /** Sorts a peer's capabilities in place and matches them. */
  method MatchCaps(protocols: seq<Proto>, caps: array<Cap>) returns (result: map<string, Entry>)
    modifies caps
    ensures Sorted(caps[..]) && multiset(caps[..]) == old(multiset(caps[..]))
    ensures result == MatchProtocols(protocols, caps[..])
  {
    SortSorts(caps[..]);
    SortPermutes(caps[..]);
    SortCaps(caps);
    result := MatchInOrder(protocols, caps[..]);
  }

  /** Finds a protocol that accepts a code, going through the running ones in any order. */
  method GetProto(running: map<string, Entry>, code: uint64) returns (name: Option<string>)
    ensures name.Some? ==> name.value in running && Accepts(running[name.value], code)
    ensures name.None? ==> forall n | n in running :: !Accepts(running[n], code)
  {
    var rest := running;
    while rest != map[]
      invariant forall n | n in rest :: n in running && rest[n] == running[n]
      invariant forall n | n in running && n !in rest :: !Accepts(running[n], code)
      decreases |rest|
    {
      var n :| n in rest;
      if code >= rest[n].offset && code < Add64(rest[n].offset, rest[n].proto.length) {
        return Some(n);
      }
      rest := rest - {n};
    }
    return None;
  }

  // ------------------------------------------------------------------------------------- counting

  /** The matching pairs of a capability before the `i`-th, or the `i`-th and a protocol before the `j`-th. */
  ghost function PairsBefore(protocols: seq<Proto>, caps: seq<Cap>, i: nat, j: nat): set<(nat, nat)> {
    set a: nat, b: nat
      | a < |caps| && b < |protocols| && (a < i || (a == i && b < j)) && CapOf(protocols[b]) == caps[a]
      :: (a, b)
  }

  ghost function Pairs(protocols: seq<Proto>, caps: seq<Cap>): set<(nat, nat)> {
    PairsBefore(protocols, caps, |caps|, 0)
  }

  lemma PairsStep(protocols: seq<Proto>, caps: seq<Cap>, i: nat, j: nat)
    requires i < |caps| && j < |protocols|
    ensures var now := PairsBefore(protocols, caps, i, j);
            && (i, j) !in now
            && PairsBefore(protocols, caps, i, j + 1) == if CapOf(protocols[j]) == caps[i] then now + {(i, j)} else now
  {
  }

  lemma PairsRow(protocols: seq<Proto>, caps: seq<Cap>, i: nat)
    ensures PairsBefore(protocols, caps, i, |protocols|) == PairsBefore(protocols, caps, i + 1, 0)
  {
  }

  /** Counts the pairs that match. */
  method CountMatchingProtocols(protocols: seq<Proto>, caps: seq<Cap>) returns (n: nat)
    ensures n == |Pairs(protocols, caps)|
    ensures n == 0 <==> Matched(protocols, caps) == []
  {
    n := 0;
    assert PairsBefore(protocols, caps, 0, 0) == {};
    for i := 0 to |caps|
      invariant n == |PairsBefore(protocols, caps, i, 0)|
    {
      for j := 0 to |protocols|
        invariant n == |PairsBefore(protocols, caps, i, j)|
      {
        PairsStep(protocols, caps, i, j);
        if protocols[j].name == caps[i].name && protocols[j].version == caps[i].version {
          n := n + 1;
        }
      }
      PairsRow(protocols, caps, i);
    }
    NoPairs(protocols, caps);
  }

  lemma NoPairs(protocols: seq<Proto>, caps: seq<Cap>)
    ensures Pairs(protocols, caps) == {} <==> Matched(protocols, caps) == []
  {
    NothingMatched(protocols, caps);
    forall i | 0 <= i < |caps| ensures Find(protocols, caps[i]).None? <==> NotPaired(protocols, caps, i) {
      FindNone(protocols, caps[i]);
    }
    if !NoneFound(protocols, caps, |caps|) {
      var i :| 0 <= i < |caps| && !NotPaired(protocols, caps, i);
      var k :| 0 <= k < |protocols| && CapOf(protocols[k]) == caps[i];
      assert (i, k) in Pairs(protocols, caps);
    }
  }

  ghost predicate NotPaired(protocols: seq<Proto>, caps: seq<Cap>, i: nat)
    requires i < |caps|
  {
    forall k | 0 <= k < |protocols| :: CapOf(protocols[k]) != caps[i]
  }

  ghost predicate NoneFound(protocols: seq<Proto>, caps: seq<Cap>, n: nat)
    requires n <= |caps|
  {
    forall i | 0 <= i < n :: Find(protocols, caps[i]).None?
  }

  lemma FindNone(protocols: seq<Proto>, cap: Cap)
    ensures Find(protocols, cap).None? <==> forall k | 0 <= k < |protocols| :: CapOf(protocols[k]) != cap
  {
  }

  lemma NothingMatched(protocols: seq<Proto>, caps: seq<Cap>)
    ensures Matched(protocols, caps) == [] <==> NoneFound(protocols, caps, |caps|)
  {
    var ps := Matched(protocols, caps);
    if |ps| > 0 {
      MatchedAre(protocols, caps, ps[0]);
    }
    if i :| 0 <= i < |caps| && Find(protocols, caps[i]).Some? {
      MatchedAre(protocols, caps, Find(protocols, caps[i]).value);
    }
  }
}
