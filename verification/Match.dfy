/** Sub-protocol matching and message code allocation (p2p/peer.go), as functions on values. */
module Match {
  import opened Bytes
  import opened Common
  import opened Lex
  import opened Words

  const BASE_PROTOCOL_LENGTH: nat := 16
  const HANDSHAKE_MSG: nat := 0x10
  const DISC_MSG: nat := 0x11
  const PING_MSG: nat := 0x12
  const PONG_MSG: nat := 0x13

  datatype Proto = Proto(name: string, version: nat, length: uint64)

  datatype Cap = Cap(name: string, version: nat)

  /** A matched protocol and the offset of its message codes. */
  datatype Entry = Entry(proto: Proto, offset: uint64)

  function CapOf(p: Proto): Cap {
    Cap(p.name, p.version)
  }

  predicate CapLess(a: Cap, b: Cap) {
    Less(a.name, b.name) || (a.name == b.name && a.version < b.version)
  }

  predicate Sorted(caps: seq<Cap>) {
    forall i, j | 0 <= i < j < |caps| :: !CapLess(caps[j], caps[i])
  }

  /** The first protocol with the name and version of a capability. */
  function Find(protocols: seq<Proto>, cap: Cap): (r: Option<Proto>)
    ensures r.Some? ==> CapOf(r.value) == cap && r.value in protocols
    ensures r.None? ==> forall p | p in protocols :: CapOf(p) != cap
  {
    if |protocols| == 0 then None
    else if CapOf(protocols[0]) == cap then Some(protocols[0])
    else Find(protocols[1..], cap)
  }

  datatype Matching = Matching(offset: uint64, result: map<string, Entry>)

  const NOTHING := Matching(BASE_PROTOCOL_LENGTH, map[])

  /** One match: an older version of the same protocol gives its codes back first. */
  function Place(m: Matching, p: Proto): Matching {
    var offset := if p.name in m.result then Sub64(m.offset, m.result[p.name].proto.length) else m.offset;
    Matching(Add64(offset, p.length), m.result[p.name := Entry(p, offset)])
  }

  function PlaceAll(m: Matching, ps: seq<Proto>): Matching
    decreases |ps|
  {
    if |ps| == 0 then m else PlaceAll(Place(m, ps[0]), ps[1..])
  }

  /** The protocols that match, in the order of the capabilities. */
  function Matched(protocols: seq<Proto>, caps: seq<Cap>): seq<Proto> {
    if |caps| == 0 then []
    else
      match Find(protocols, caps[0])
      case None => Matched(protocols, caps[1..])
      case Some(p) => [p] + Matched(protocols, caps[1..])
  }

  /** What matching computes for capabilities in sorted order. */
  function MatchProtocols(protocols: seq<Proto>, caps: seq<Cap>): map<string, Entry> {
    PlaceAll(NOTHING, Matched(protocols, caps)).result
  }

  // ------------------------------------------------------------------------- one entry per name

  predicate Ascending(ps: seq<Proto>) {
    forall i, j | 0 <= i < j < |ps| :: !CapLess(CapOf(ps[j]), CapOf(ps[i]))
  }

  /** The last of each run of equal names: the highest version, since the versions ascend. */
  function Winners(ps: seq<Proto>): seq<Proto> {
    if |ps| == 0 then []
    else if |ps| > 1 && ps[0].name == ps[1].name then Winners(ps[1..])
    else [ps[0]] + Winners(ps[1..])
  }

  predicate NamesAscend(ps: seq<Proto>) {
    forall i, j | 0 <= i < j < |ps| :: Less(ps[i].name, ps[j].name)
  }

  /** Number of codes of the first `i` protocols. */
  function Sum(ps: seq<Proto>, i: nat): nat
    requires i <= |ps|
  {
    if i == 0 then 0 else Sum(ps, i - 1) + ps[i - 1].length
  }

  /** Consecutive ranges of codes, from an offset on. */
  function Ranges(offset: nat, ps: seq<Proto>): map<string, Entry>
    decreases |ps|
  {
    if |ps| == 0 then map[]
    else Ranges(offset + ps[0].length, ps[1..])[ps[0].name := Entry(ps[0], Mod64(offset))]
  }

  lemma {:induction false} MatchedAre(protocols: seq<Proto>, caps: seq<Cap>, p: Proto)
    ensures p in Matched(protocols, caps) <==> CapOf(p) in caps && Find(protocols, CapOf(p)) == Some(p)
  {
    if |caps| > 0 {
      MatchedAre(protocols, caps[1..], p);
      assert caps == [caps[0]] + caps[1..];
    }
  }

  lemma {:induction false} MatchedAscend(protocols: seq<Proto>, caps: seq<Cap>)
    requires Sorted(caps)
    ensures Ascending(Matched(protocols, caps))
  {
    if |caps| > 0 {
      MatchedAscend(protocols, caps[1..]);
      var rest := Matched(protocols, caps[1..]);
      forall j | 0 <= j < |rest| ensures !CapLess(CapOf(rest[j]), caps[0]) {
        MatchedAre(protocols, caps[1..], rest[j]);
        var k :| 0 <= k < |caps[1..]| && caps[1..][k] == CapOf(rest[j]);
        assert caps[k + 1] == CapOf(rest[j]);
      }
      if Find(protocols, caps[0]).Some? {
        AscendingCons(Find(protocols, caps[0]).value, rest);
      }
    }
  }

  lemma AscendingCons(p: Proto, ps: seq<Proto>)
    requires Ascending(ps) && forall j | 0 <= j < |ps| :: !CapLess(CapOf(ps[j]), CapOf(p))
    ensures Ascending([p] + ps)
  {
    var qs := [p] + ps;
    forall i, j | 0 <= i < j < |qs| ensures !CapLess(CapOf(qs[j]), CapOf(qs[i])) {
      assert qs[j] == ps[j - 1];
      if i > 0 {
        assert qs[i] == ps[i - 1];
      }
    }
  }

  /** The same capability always finds the same protocol. */
  predicate Coherent(ps: seq<Proto>) {
    forall i, j | 0 <= i < |ps| && 0 <= j < |ps| && CapOf(ps[i]) == CapOf(ps[j]) :: ps[i] == ps[j]
  }

  lemma MatchedCoherent(protocols: seq<Proto>, caps: seq<Cap>)
    ensures Coherent(Matched(protocols, caps))
  {
    var ps := Matched(protocols, caps);
    forall i, j | 0 <= i < |ps| && 0 <= j < |ps| && CapOf(ps[i]) == CapOf(ps[j]) ensures ps[i] == ps[j] {
      MatchedAre(protocols, caps, ps[i]);
      MatchedAre(protocols, caps, ps[j]);
    }
  }

  /** In ascending order a new name is larger than all names before it. */
  lemma NamesApart(ps: seq<Proto>, j: nat)
    requires Ascending(ps) && 0 < j < |ps|
    ensures ps[0].name == ps[j].name || Less(ps[0].name, ps[j].name)
    ensures |ps| > 1 && ps[0].name != ps[1].name ==> Less(ps[0].name, ps[j].name)
  {
    assert !CapLess(CapOf(ps[j]), CapOf(ps[0]));
    Lex.Total(ps[0].name, ps[j].name);
    if ps[0].name != ps[1].name {
      assert !CapLess(CapOf(ps[1]), CapOf(ps[0]));
      Lex.Total(ps[0].name, ps[1].name);
      if j > 1 {
        assert !CapLess(CapOf(ps[j]), CapOf(ps[1]));
        Lex.Total(ps[1].name, ps[j].name);
        if Less(ps[1].name, ps[j].name) {
          Transitive(ps[0].name, ps[1].name, ps[j].name);
        }
      }
    }
  }

  lemma AscendingTail(ps: seq<Proto>)
    requires Ascending(ps) && |ps| > 0
    ensures Ascending(ps[1..])
  {
    forall i, j | 0 <= i < j < |ps[1..]| ensures !CapLess(CapOf(ps[1..][j]), CapOf(ps[1..][i])) {
      assert ps[1..][i] == ps[i + 1] && ps[1..][j] == ps[j + 1];
    }
  }

  lemma {:induction false} WinnersIn(ps: seq<Proto>, w: Proto)
    requires w in Winners(ps)
    ensures w in ps
  {
    if |ps| > 0 {
      assert ps == [ps[0]] + ps[1..];
      if w in Winners(ps[1..]) {
        WinnersIn(ps[1..], w);
      }
    }
  }

  lemma {:induction false} WinnersAscend(ps: seq<Proto>)
    requires Ascending(ps)
    ensures NamesAscend(Winners(ps))
  {
    if |ps| > 0 {
      AscendingTail(ps);
      WinnersAscend(ps[1..]);
      var ws := Winners(ps[1..]);
      if |ps| == 1 || ps[0].name != ps[1].name {
        forall j | 0 <= j < |ws| ensures Less(ps[0].name, ws[j].name) {
          WinnersIn(ps[1..], ws[j]);
          var k :| 0 <= k < |ps[1..]| && ps[1..][k] == ws[j];
          NamesApart(ps, k + 1);
        }
        NamesCons(ps[0], ws);
      }
    }
  }

  lemma NamesCons(p: Proto, ps: seq<Proto>)
    requires NamesAscend(ps) && forall j | 0 <= j < |ps| :: Less(p.name, ps[j].name)
    ensures NamesAscend([p] + ps)
  {
    var qs := [p] + ps;
    forall i, j | 0 <= i < j < |qs| ensures Less(qs[i].name, qs[j].name) {
      assert qs[j] == ps[j - 1];
      if i > 0 {
        assert qs[i] == ps[i - 1];
      }
    }
  }

  /** Every matched protocol is beaten by a winner of its name with no lower version. */
  lemma {:induction false} WinnerOf(ps: seq<Proto>, p: Proto) returns (w: Proto)
    requires Ascending(ps) && p in ps
    ensures w in Winners(ps) && w.name == p.name && w.version >= p.version
  {
    AscendingTail(ps);
    if |ps| > 1 && ps[0].name == ps[1].name {
      if p == ps[0] {
        assert !CapLess(CapOf(ps[1]), CapOf(ps[0]));
        w := WinnerOf(ps[1..], ps[1]);
      } else {
        assert p in ps[1..];
        w := WinnerOf(ps[1..], p);
      }
    } else if p == ps[0] {
      w := p;
    } else {
      assert p in ps[1..];
      w := WinnerOf(ps[1..], p);
    }
  }

  lemma NamesUnique(ws: seq<Proto>, a: Proto, b: Proto)
    requires NamesAscend(ws) && a in ws && b in ws && a.name == b.name
    ensures a == b
  {
    Irreflexive(a.name);
  }

  /** The winners are the matched protocols of the highest version for their name. */
  lemma WinnersAreHighest(ps: seq<Proto>, w: Proto)
    requires Ascending(ps) && Coherent(ps)
    ensures w in Winners(ps) <==> w in ps && forall p | p in ps && p.name == w.name :: p.version <= w.version
  {
    WinnersAscend(ps);
    if w in Winners(ps) {
      WinnersIn(ps, w);
      forall p | p in ps && p.name == w.name ensures p.version <= w.version {
        var v := WinnerOf(ps, p);
        NamesUnique(Winners(ps), v, w);
      }
    } else if w in ps && forall p | p in ps && p.name == w.name :: p.version <= w.version {
      var v := WinnerOf(ps, w);
      WinnersIn(ps, v);
    }
  }

  lemma {:induction false} SortedUnique(a: seq<Proto>, b: seq<Proto>)
    requires NamesAscend(a) && NamesAscend(b) && forall p :: p in a <==> p in b
    ensures a == b
  {
    EmptyTogether(a, b);
    if |a| > 0 {
      SameFirst(a, b);
      TailElements(a);
      TailElements(b);
      SortedUnique(a[1..], b[1..]);
      assert a == [a[0]] + a[1..] && b == [b[0]] + b[1..];
    }
  }

  lemma EmptyTogether(a: seq<Proto>, b: seq<Proto>)
    requires forall p :: p in a <==> p in b
    ensures |a| == 0 <==> |b| == 0
    ensures |a| > 0 ==> a[0] in b && b[0] in a
  {
    if |a| > 0 {
      assert a[0] in b;
    }
    if |b| > 0 {
      assert b[0] in a;
    }
  }

  lemma SameFirst(a: seq<Proto>, b: seq<Proto>)
    requires NamesAscend(a) && NamesAscend(b) && |a| > 0 && |b| > 0 && a[0] in b && b[0] in a
    ensures a[0] == b[0]
  {
    if a[0] != b[0] {
      Asymmetric(b[0].name, a[0].name);
    }
  }

  lemma TailElements(a: seq<Proto>)
    requires NamesAscend(a) && |a| > 0
    ensures NamesAscend(a[1..]) && forall p :: p in a[1..] <==> p in a && p != a[0]
  {
    forall i, j | 0 <= i < j < |a[1..]| ensures Less(a[1..][i].name, a[1..][j].name) {
      assert a[1..][i] == a[i + 1] && a[1..][j] == a[j + 1];
    }
    assert a == [a[0]] + a[1..];
    forall p ensures p in a[1..] <==> p in a && p != a[0] {
      if p in a[1..] {
        var k :| 0 <= k < |a[1..]| && a[1..][k] == p;
        Asymmetric(a[0].name, a[k + 1].name);
      }
    }
  }

  // ------------------------------------------------------------------------ offsets given back

  /** Placing a newer version right after an older one is as if the older one had never matched. */
  lemma Replace(m: Matching, p: Proto, q: Proto)
    requires p.name == q.name && p.name !in m.result
    ensures Place(Place(m, p), q) == Place(m, q)
  {
    GiveBack(m.offset, p.length);
    var e, f := Entry(p, m.offset), Entry(q, m.offset);
    assert m.result[p.name := e][q.name := f] == m.result[q.name := f];
  }

  lemma {:induction false} PlaceWinners(m: Matching, ps: seq<Proto>)
    requires Ascending(ps) && forall p | p in ps :: p.name !in m.result
    ensures PlaceAll(m, ps) == PlaceAll(m, Winners(ps))
    decreases |ps|
  {
    if |ps| > 0 {
      AscendingTail(ps);
      if |ps| > 1 && ps[0].name == ps[1].name {
        Replace(m, ps[0], ps[1]);
        assert ps[1..][1..] == ps[2..];
        PlaceWinners(m, ps[1..]);
      } else {
        forall p | p in ps[1..] ensures p.name !in Place(m, ps[0]).result {
          var k :| 0 <= k < |ps[1..]| && ps[1..][k] == p;
          NamesApart(ps, k + 1);
          Irreflexive(ps[0].name);
        }
        PlaceWinners(Place(m, ps[0]), ps[1..]);
        assert ([ps[0]] + Winners(ps[1..]))[1..] == Winners(ps[1..]);
      }
    }
  }

  lemma {:induction false} RangesKeys(offset: nat, ps: seq<Proto>, name: string)
    ensures name in Ranges(offset, ps) <==> exists i | 0 <= i < |ps| :: ps[i].name == name
    decreases |ps|
  {
    if |ps| > 0 {
      RangesKeys(offset + ps[0].length, ps[1..], name);
      if i :| 0 < i < |ps| && ps[i].name == name {
        assert ps[1..][i - 1].name == name;
      }
    }
  }

  lemma {:induction false} PlaceAllIsRanges(m: Matching, offset: nat, ws: seq<Proto>)
    requires NamesAscend(ws) && m.offset == Mod64(offset) && forall w | w in ws :: w.name !in m.result
    ensures PlaceAll(m, ws).result == m.result + Ranges(offset, ws)
    decreases |ws|
  {
    if |ws| > 0 {
      var m', offset' := Place(m, ws[0]), offset + ws[0].length;
      TailElements(ws);
      PlaceNew(m, offset, ws[0]);
      forall w | w in ws[1..] ensures w.name !in m'.result {
        NotFirst(ws, w);
      }
      PlaceAllIsRanges(m', offset', ws[1..]);
      FirstNotInTail(offset', ws);
      PutFirst(m.result, ws[0].name, Entry(ws[0], Mod64(offset)), Ranges(offset', ws[1..]));
    }
  }

  lemma PlaceNew(m: Matching, offset: nat, w: Proto)
    requires m.offset == Mod64(offset) && w.name !in m.result
    ensures Place(m, w) == Matching(Mod64(offset + w.length), m.result[w.name := Entry(w, Mod64(offset))])
  {
    ModAdd(offset, w.length);
  }

  lemma FirstNotInTail(offset: nat, ws: seq<Proto>)
    requires NamesAscend(ws) && |ws| > 0
    ensures ws[0].name !in Ranges(offset, ws[1..])
  {
    RangesKeys(offset, ws[1..], ws[0].name);
    if i :| 0 <= i < |ws[1..]| && ws[1..][i].name == ws[0].name {
      NotFirst(ws, ws[1..][i]);
    }
  }

  lemma PutFirst(m: map<string, Entry>, k: string, e: Entry, r: map<string, Entry>)
    requires k !in r
    ensures m[k := e] + r == m + r[k := e]
  {
  }

  lemma NotFirst(ws: seq<Proto>, w: Proto)
    requires NamesAscend(ws) && |ws| > 0 && w in ws[1..]
    ensures w.name != ws[0].name && w in ws
  {
    var k :| 0 <= k < |ws[1..]| && ws[1..][k] == w;
    assert ws[k + 1] == w;
    Asymmetric(ws[0].name, w.name);
  }

  /** Matching against sorted capabilities gives consecutive ranges, one for each winner, in the order of the names. */
  lemma MatchIsRanges(protocols: seq<Proto>, caps: seq<Cap>)
    requires Sorted(caps)
    ensures var ws := Winners(Matched(protocols, caps));
            NamesAscend(ws) && MatchProtocols(protocols, caps) == Ranges(BASE_PROTOCOL_LENGTH, ws)
  {
    var ps := Matched(protocols, caps);
    MatchedAscend(protocols, caps);
    WinnersAscend(ps);
    PlaceWinners(NOTHING, ps);
    PlaceAllIsRanges(NOTHING, BASE_PROTOCOL_LENGTH, Winners(ps));
  }

  /** The highest version both sides know is chosen for each name. */
  lemma HighestShared(protocols: seq<Proto>, caps: seq<Cap>, name: string)
    requires Sorted(caps)
    ensures var r := MatchProtocols(protocols, caps);
            && (name in r <==> exists p :: p in Matched(protocols, caps) && p.name == name)
            && (name in r ==>
                  var proto := r[name].proto;
                  && proto in Matched(protocols, caps) && proto.name == name
                  && forall p | p in Matched(protocols, caps) && p.name == name :: p.version <= proto.version)
  {
    var ps := Matched(protocols, caps);
    MatchIsRanges(protocols, caps);
    MatchedAscend(protocols, caps);
    MatchedCoherent(protocols, caps);
    RangesKeys(BASE_PROTOCOL_LENGTH, Winners(ps), name);
    if p :| p in ps && p.name == name {
      var w := WinnerOf(ps, p);
      assert exists i | 0 <= i < |Winners(ps)| :: Winners(ps)[i].name == name;
    }
    if i :| 0 <= i < |Winners(ps)| && Winners(ps)[i].name == name {
      WinnersAreHighest(ps, Winners(ps)[i]);
      RangesAt(BASE_PROTOCOL_LENGTH, Winners(ps), i);
    }
  }

  lemma {:induction false} SumFront(ps: seq<Proto>, i: nat)
    requires 0 < i <= |ps|
    ensures Sum(ps, i) == ps[0].length + Sum(ps[1..], i - 1)
  {
    if i > 1 {
      SumFront(ps, i - 1);
    }
  }

  lemma {:induction false} RangesAt(offset: nat, ws: seq<Proto>, i: nat)
    requires NamesAscend(ws) && i < |ws|
    ensures ws[i].name in Ranges(offset, ws)
    ensures Ranges(offset, ws)[ws[i].name] == Entry(ws[i], Mod64(offset + Sum(ws, i)))
    decreases |ws|
  {
    if i > 0 {
      TailElements(ws);
      SumFront(ws, i);
      assert ws[1..][i - 1] == ws[i];
      Asymmetric(ws[0].name, ws[i].name);
      RangesAt(offset + ws[0].length, ws[1..], i - 1);
    }
  }

  // ----------------------------------------------------------------------------- both peers agree

  ghost predicate CapsOf(protocols: seq<Proto>, caps: seq<Cap>) {
    forall cap :: cap in caps <==> exists p :: p in protocols && CapOf(p) == cap
  }

  /** A protocol both sides offer in the same version has the same number of codes on both. */
  ghost predicate SameLengths(a: seq<Proto>, b: seq<Proto>) {
    forall cap :: Find(a, cap).Some? && Find(b, cap).Some? ==> Find(a, cap) == Find(b, cap)
  }

  lemma MatchedBoth(a: seq<Proto>, b: seq<Proto>, capsA: seq<Cap>, capsB: seq<Cap>, p: Proto)
    requires CapsOf(a, capsA) && CapsOf(b, capsB) && SameLengths(a, b)
    ensures p in Matched(a, capsB) ==> p in Matched(b, capsA)
  {
    MatchedAre(a, capsB, p);
    MatchedAre(b, capsA, p);
    if p in Matched(a, capsB) {
      assert p in a && CapOf(p) in capsA;
      assert Find(b, CapOf(p)).Some?;
    }
  }

  /** Two peers that match each other's capabilities compute the same protocols with the same offsets. */
  lemma PeersAgree(a: seq<Proto>, b: seq<Proto>, capsA: seq<Cap>, capsB: seq<Cap>)
    requires CapsOf(a, capsA) && CapsOf(b, capsB) && SameLengths(a, b) && Sorted(capsA) && Sorted(capsB)
    ensures MatchProtocols(a, capsB) == MatchProtocols(b, capsA)
  {
    var pa, pb := Matched(a, capsB), Matched(b, capsA);
    MatchIsRanges(a, capsB);
    MatchIsRanges(b, capsA);
    forall p ensures p in pa <==> p in pb {
      MatchedBoth(a, b, capsA, capsB, p);
      MatchedBoth(b, a, capsB, capsA, p);
    }
    SameWinners(a, b, capsA, capsB);
    SortedUnique(Winners(pa), Winners(pb));
  }

  lemma SameWinners(a: seq<Proto>, b: seq<Proto>, capsA: seq<Cap>, capsB: seq<Cap>)
    requires Sorted(capsA) && Sorted(capsB) && forall p :: p in Matched(a, capsB) <==> p in Matched(b, capsA)
    ensures forall w :: w in Winners(Matched(a, capsB)) <==> w in Winners(Matched(b, capsA))
  {
    MatchedAscend(a, capsB);
    MatchedAscend(b, capsA);
    MatchedCoherent(a, capsB);
    MatchedCoherent(b, capsA);
    forall w ensures w in Winners(Matched(a, capsB)) <==> w in Winners(Matched(b, capsA)) {
      WinnersAreHighest(Matched(a, capsB), w);
      WinnersAreHighest(Matched(b, capsA), w);
    }
  }

  // -------------------------------------------------------------------------------- routing codes

  /** The test by which an incoming code is given to a protocol; the sum is a 64-bit one. */
  predicate Accepts(e: Entry, code: uint64) {
    e.offset <= code < Add64(e.offset, e.proto.length)
  }

  /** Code `c` of protocol `name` is given to that protocol and to no other. */
  ghost predicate Routes(r: map<string, Entry>, name: string, c: uint64)
    requires name in r
  {
    && Accepts(r[name], Add64(r[name].offset, c))
    && forall n | n in r && Accepts(r[n], Add64(r[name].offset, c)) :: n == name
  }

  lemma {:induction false} SumMono(ws: seq<Proto>, i: nat, j: nat)
    requires i <= j <= |ws|
    ensures Sum(ws, i) <= Sum(ws, j)
    decreases j
  {
    if i < j {
      SumMono(ws, i, j - 1);
    }
  }

  lemma OffsetAt(ws: seq<Proto>, i: nat, at: nat)
    requires NamesAscend(ws) && i < |ws| && at == BASE_PROTOCOL_LENGTH + Sum(ws, i) < TWO64
    ensures ws[i].name in Ranges(BASE_PROTOCOL_LENGTH, ws)
    ensures Ranges(BASE_PROTOCOL_LENGTH, ws)[ws[i].name] == Entry(ws[i], at)
  {
    RangesAt(BASE_PROTOCOL_LENGTH, ws, i);
    assert Mod64(at) == at;
  }

  lemma EntryAt(ws: seq<Proto>, i: nat)
    requires NamesAscend(ws) && i < |ws| && BASE_PROTOCOL_LENGTH + Sum(ws, |ws|) < TWO64
    ensures ws[i].name in Ranges(BASE_PROTOCOL_LENGTH, ws)
    ensures var e := Ranges(BASE_PROTOCOL_LENGTH, ws)[ws[i].name];
            e.proto == ws[i] && e.offset == BASE_PROTOCOL_LENGTH + Sum(ws, i)
    ensures Sum(ws, i + 1) <= Sum(ws, |ws|)
  {
    SumMono(ws, i + 1, |ws|);
    OffsetAt(ws, i, BASE_PROTOCOL_LENGTH + Sum(ws, i));
  }

  lemma AcceptsAt(ws: seq<Proto>, i: nat, code: uint64)
    requires NamesAscend(ws) && i < |ws| && BASE_PROTOCOL_LENGTH + Sum(ws, |ws|) < TWO64
    ensures ws[i].name in Ranges(BASE_PROTOCOL_LENGTH, ws)
    ensures Accepts(Ranges(BASE_PROTOCOL_LENGTH, ws)[ws[i].name], code)
       <==> BASE_PROTOCOL_LENGTH + Sum(ws, i) <= code < BASE_PROTOCOL_LENGTH + Sum(ws, i + 1)
  {
    EntryAt(ws, i);
    NoWrap(BASE_PROTOCOL_LENGTH + Sum(ws, i), ws[i].length);
  }

  lemma OneAccepts(ws: seq<Proto>, i: nat, j: nat, code: uint64)
    requires NamesAscend(ws) && i < |ws| && j < |ws| && BASE_PROTOCOL_LENGTH + Sum(ws, |ws|) < TWO64
    requires BASE_PROTOCOL_LENGTH + Sum(ws, i) <= code < BASE_PROTOCOL_LENGTH + Sum(ws, i + 1)
    requires BASE_PROTOCOL_LENGTH + Sum(ws, j) <= code < BASE_PROTOCOL_LENGTH + Sum(ws, j + 1)
    ensures i == j
  {
    if j < i {
      SumMono(ws, j + 1, i);
    } else if i < j {
      SumMono(ws, i + 1, j);
    }
  }

  lemma RoutesWithin(ws: seq<Proto>, i: nat, c: uint64)
    requires NamesAscend(ws) && i < |ws| && c < ws[i].length && BASE_PROTOCOL_LENGTH + Sum(ws, |ws|) < TWO64
    ensures ws[i].name in Ranges(BASE_PROTOCOL_LENGTH, ws) && Routes(Ranges(BASE_PROTOCOL_LENGTH, ws), ws[i].name, c)
  {
    var r := Ranges(BASE_PROTOCOL_LENGTH, ws);
    EntryAt(ws, i);
    var code := Add64(r[ws[i].name].offset, c);
    ModIs(BASE_PROTOCOL_LENGTH + Sum(ws, i) + c);
    AcceptsAt(ws, i, code);
    forall n | n in r && Accepts(r[n], code) ensures n == ws[i].name {
      RangesKeys(BASE_PROTOCOL_LENGTH, ws, n);
      var j :| 0 <= j < |ws| && ws[j].name == n;
      AcceptsAt(ws, j, code);
      OneAccepts(ws, i, j, code);
    }
  }

  /** The protocol at which the codes run out. */
  lemma {:induction false} Crossing(ws: seq<Proto>, k: nat) returns (i: nat)
    requires k <= |ws| && BASE_PROTOCOL_LENGTH + Sum(ws, k) >= TWO64
    ensures i < k && BASE_PROTOCOL_LENGTH + Sum(ws, i) < TWO64 <= BASE_PROTOCOL_LENGTH + Sum(ws, i) + ws[i].length
    decreases k
  {
    if BASE_PROTOCOL_LENGTH + Sum(ws, k - 1) < TWO64 {
      i := k - 1;
    } else {
      i := Crossing(ws, k - 1);
    }
  }

  /** There the very first code is not accepted: the end of its range has wrapped around. */
  lemma CrossingLost(ws: seq<Proto>) returns (i: nat)
    requires NamesAscend(ws) && BASE_PROTOCOL_LENGTH + Sum(ws, |ws|) >= TWO64
    ensures i < |ws| && 0 < ws[i].length && ws[i].name in Ranges(BASE_PROTOCOL_LENGTH, ws)
    ensures !Routes(Ranges(BASE_PROTOCOL_LENGTH, ws), ws[i].name, 0)
  {
    i := Crossing(ws, |ws|);
    RangesAt(BASE_PROTOCOL_LENGTH, ws, i);
    ModIs(BASE_PROTOCOL_LENGTH + Sum(ws, i));
    ModIs(BASE_PROTOCOL_LENGTH + Sum(ws, i) + ws[i].length);
  }

  ghost predicate AllRouted(r: map<string, Entry>) {
    forall name, c | name in r && 0 <= c < r[name].proto.length :: Routes(r, name, c)
  }

  /** Every code of every protocol reaches it, and only it, exactly if all codes together stay below 2^64. */
  lemma RoutingExact(ws: seq<Proto>)
    requires NamesAscend(ws)
    ensures AllRouted(Ranges(BASE_PROTOCOL_LENGTH, ws)) <==> BASE_PROTOCOL_LENGTH + Sum(ws, |ws|) < TWO64
  {
    var r := Ranges(BASE_PROTOCOL_LENGTH, ws);
    if BASE_PROTOCOL_LENGTH + Sum(ws, |ws|) < TWO64 {
      forall name, c | name in r && 0 <= c < r[name].proto.length ensures Routes(r, name, c) {
        RangesKeys(BASE_PROTOCOL_LENGTH, ws, name);
        var i :| 0 <= i < |ws| && ws[i].name == name;
        RangesAt(BASE_PROTOCOL_LENGTH, ws, i);
        RoutesWithin(ws, i, c);
      }
    } else {
      var i := CrossingLost(ws);
      RangesAt(BASE_PROTOCOL_LENGTH, ws, i);
    }
  }

  // ------------------------------------------------------------------- from sender to receiver

  /** A protocol's message as it goes out: its code is checked and moved to the protocol's range. */
  function Outgoing(e: Entry, c: uint64): Option<uint64> {
    if c >= e.proto.length then None else Some(Add64(e.offset, c))
  }

  /** The code as the protocol sees it again. */
  function Incoming(e: Entry, code: uint64): uint64 {
    Sub64(code, e.offset)
  }

  /** Whether an incoming message is given to a protocol: two codes are answered by the peer itself before that. */
  predicate HandedTo(r: map<string, Entry>, code: uint64, name: string)
    requires name in r
  {
    code != PING_MSG && code != DISC_MSG && code >= BASE_PROTOCOL_LENGTH && Accepts(r[name], code)
  }

  /**
    * A message reaches the same protocol on the other side, and no other, under its own code; except that the absolute
    * codes 0x11 and 0x12, which lie in the range given to protocols, never do.
    */
  lemma DeliveryExact(a: seq<Proto>, b: seq<Proto>, capsA: seq<Cap>, capsB: seq<Cap>, name: string, c: uint64)
    requires CapsOf(a, capsA) && CapsOf(b, capsB) && SameLengths(a, b) && Sorted(capsA) && Sorted(capsB)
    requires var ws := Winners(Matched(a, capsB)); BASE_PROTOCOL_LENGTH + Sum(ws, |ws|) < TWO64
    requires name in MatchProtocols(a, capsB) && c < MatchProtocols(a, capsB)[name].proto.length
    ensures var ra, rb := MatchProtocols(a, capsB), MatchProtocols(b, capsA);
            && name in rb && Outgoing(ra[name], c).Some?
            && var code := Outgoing(ra[name], c).value;
               && (HandedTo(rb, code, name) <==> code != PING_MSG && code != DISC_MSG)
               && (forall n | n in rb && HandedTo(rb, code, n) :: n == name)
               && Incoming(rb[name], code) == c
  {
    PeersAgree(a, b, capsA, capsB);
    MatchIsRanges(a, capsB);
    var ws := Winners(Matched(a, capsB));
    RangesKeys(BASE_PROTOCOL_LENGTH, ws, name);
    var i :| 0 <= i < |ws| && ws[i].name == name;
    RangesAt(BASE_PROTOCOL_LENGTH, ws, i);
    Delivered(ws, i, c);
  }

  lemma Delivered(ws: seq<Proto>, i: nat, c: uint64)
    requires NamesAscend(ws) && i < |ws| && c < ws[i].length && BASE_PROTOCOL_LENGTH + Sum(ws, |ws|) < TWO64
    ensures var r := Ranges(BASE_PROTOCOL_LENGTH, ws);
            && ws[i].name in r
            && var code := Add64(r[ws[i].name].offset, c);
               && (HandedTo(r, code, ws[i].name) <==> code != PING_MSG && code != DISC_MSG)
               && (forall n | n in r && HandedTo(r, code, n) :: n == ws[i].name)
               && Incoming(r[ws[i].name], code) == c
  {
    RoutesWithin(ws, i, c);
    EntryAt(ws, i);
    NoWrap(BASE_PROTOCOL_LENGTH + Sum(ws, i), c);
  }

  /** The first protocol in the order of names always starts at 16, so its codes 1 and 2 are lost, if it has them. */
  lemma FirstProtocolLosesCodes(protocols: seq<Proto>, caps: seq<Cap>)
    requires Sorted(caps) && |Winners(Matched(protocols, caps))| > 0
    ensures var r := MatchProtocols(protocols, caps);
            var name := Winners(Matched(protocols, caps))[0].name;
            && name in r && r[name].offset == BASE_PROTOCOL_LENGTH
            && !HandedTo(r, DISC_MSG, name) && !HandedTo(r, PING_MSG, name)
            && (Outgoing(r[name], 1) == Some(DISC_MSG) <==> r[name].proto.length > 1)
            && (Outgoing(r[name], 2) == Some(PING_MSG) <==> r[name].proto.length > 2)
  {
    MatchIsRanges(protocols, caps);
    RangesAt(BASE_PROTOCOL_LENGTH, Winners(Matched(protocols, caps)), 0);
  }

  // ------------------------------------------------------------ codes of the base protocol itself

  predicate HandedOn(r: map<string, Entry>, code: uint64) {
    exists name :: name in r && HandedTo(r, code, name)
  }

  /** The protocol whose range holds the `k`-th code. */
  lemma {:induction false} Holder(ws: seq<Proto>, k: nat, n: nat) returns (i: nat)
    requires n <= |ws| && k < Sum(ws, n)
    ensures i < n && Sum(ws, i) <= k < Sum(ws, i + 1)
    decreases n
  {
    if Sum(ws, n - 1) <= k {
      i := n - 1;
    } else {
      i := Holder(ws, k, n - 1);
    }
  }

  /** A code is handed on exactly if it lies in the ranges given out and is neither ping nor disconnect. */
  lemma HandedOnExact(ws: seq<Proto>, k: nat)
    requires NamesAscend(ws) && BASE_PROTOCOL_LENGTH + Sum(ws, |ws|) < TWO64 && BASE_PROTOCOL_LENGTH + k < TWO64
    ensures var code := BASE_PROTOCOL_LENGTH + k;
            HandedOn(Ranges(BASE_PROTOCOL_LENGTH, ws), code)
            <==> k < Sum(ws, |ws|) && code != PING_MSG && code != DISC_MSG
  {
    var r, code := Ranges(BASE_PROTOCOL_LENGTH, ws), BASE_PROTOCOL_LENGTH + k;
    if name :| name in r && HandedTo(r, code, name) {
      RangesKeys(BASE_PROTOCOL_LENGTH, ws, name);
      var i :| 0 <= i < |ws| && ws[i].name == name;
      AcceptsAt(ws, i, code);
      SumMono(ws, i + 1, |ws|);
    }
    if k < Sum(ws, |ws|) && code != PING_MSG && code != DISC_MSG {
      var i := Holder(ws, k, |ws|);
      AcceptsAt(ws, i, code);
      assert HandedTo(r, code, ws[i].name);
    }
  }

  /**
    * The base protocol's own codes lie in the same range. Of the four, a sub-protocol gets the handshake code if any
    * code was given out, and every pong if more than three were; the other two never.
    */
  lemma BaseCodesHandedOn(protocols: seq<Proto>, caps: seq<Cap>)
    requires Sorted(caps)
    requires var ws := Winners(Matched(protocols, caps)); BASE_PROTOCOL_LENGTH + Sum(ws, |ws|) < TWO64
    ensures var r, ws := MatchProtocols(protocols, caps), Winners(Matched(protocols, caps));
            && (HandedOn(r, HANDSHAKE_MSG) <==> Sum(ws, |ws|) > 0)
            && (HandedOn(r, PONG_MSG) <==> Sum(ws, |ws|) > 3)
            && !HandedOn(r, DISC_MSG) && !HandedOn(r, PING_MSG)
  {
    MatchIsRanges(protocols, caps);
    var ws := Winners(Matched(protocols, caps));
    HandedOnExact(ws, 0);
    HandedOnExact(ws, 1);
    HandedOnExact(ws, 2);
    HandedOnExact(ws, 3);
  }

  /** A pong reaches the first protocol as its own code 3 exactly if that protocol has more than three codes. */
  lemma PongReachesFirst(ws: seq<Proto>)
    requires NamesAscend(ws) && |ws| > 0 && BASE_PROTOCOL_LENGTH + Sum(ws, |ws|) < TWO64
    ensures var r := Ranges(BASE_PROTOCOL_LENGTH, ws);
            && ws[0].name in r
            && (HandedTo(r, PONG_MSG, ws[0].name) <==> ws[0].length > 3)
            && Incoming(r[ws[0].name], PONG_MSG) == 3
  {
    AcceptsAt(ws, 0, PONG_MSG);
    EntryAt(ws, 0);
    assert Sum(ws, 1) == ws[0].length;
  }

  // --------------------------------------------------------------------- a protocol that is too long

  /** A protocol with 2^64 - 1 codes does not get the first of them. */
  lemma LongProtocolUnreachable()
    ensures var r := MatchProtocols([Proto("a", 1, TWO64 - 1)], [Cap("a", 1)]);
            "a" in r && r["a"].offset == BASE_PROTOCOL_LENGTH && !Routes(r, "a", 0)
  {
    var p := Proto("a", 1, TWO64 - 1);
    assert [Cap("a", 1)][1..] == [];
    assert Matched([p], [Cap("a", 1)]) == [p];
    assert [p][1..] == [];
    assert PlaceAll(NOTHING, [p]) == PlaceAll(Place(NOTHING, p), []) == Place(NOTHING, p);
    assert Place(NOTHING, p).result == map["a" := Entry(p, BASE_PROTOCOL_LENGTH)];
    ModIs(BASE_PROTOCOL_LENGTH + (TWO64 - 1));
  }
}
