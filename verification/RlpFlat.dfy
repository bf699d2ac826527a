/**
  * What the encoder's two-part buffer holds for an item: the string data without any list header, and the
  * deferred list headers with their offsets into that data. The assembly of the two is the encoding.
  */
module RlpFlat {
  import opened Bytes
  import opened RlpSpec

  /** A deferred list header: where it goes in the string data, and the size of the list's payload. */
  datatype Deferred = Deferred(offset: nat, size: nat)

  function FlatStr(v: Item): seq<byte>
    requires Encodable(v)
    decreases v, 1
  {
    match v
    case Str(b) => EncodeStr(b)
    case List(items) => FlatStrAll(items)
  }

  function FlatStrAll(vs: seq<Item>): seq<byte>
    requires EncodableAll(vs)
    decreases vs, 0
  {
    if vs == [] then []
    else
      EncodableParts(vs, |vs| - 1);
      FlatStrAll(vs[..|vs| - 1]) + FlatStr(vs[|vs| - 1])
  }

  /** The headers of `v` in the order they are opened, when its string data starts at offset `at`. */
  function FlatHeads(v: Item, at: nat): seq<Deferred>
    requires Encodable(v)
    decreases v, 1
  {
    match v
    case Str(b) => []
    case List(items) => [Deferred(at, EncSizeAll(items))] + FlatHeadsAll(items, at)
  }

  function FlatHeadsAll(vs: seq<Item>, at: nat): seq<Deferred>
    requires EncodableAll(vs)
    decreases vs, 0
  {
    if vs == [] then []
    else
      EncodableParts(vs, |vs| - 1);
      var front := vs[..|vs| - 1];
      FlatHeadsAll(front, at) + FlatHeads(vs[|vs| - 1], at + |FlatStrAll(front)|)
  }

  /** Total size of the list headers of an item. */
  function HeadsSize(v: Item): nat
    decreases v, 1
  {
    match v
    case Str(b) => 0
    case List(items) => HeadSize(EncSizeAll(items)) + HeadsSizeAll(items)
  }

  function HeadsSizeAll(vs: seq<Item>): nat
    decreases vs, 0
  {
    if vs == [] then 0 else HeadsSizeAll(vs[..|vs| - 1]) + HeadsSize(vs[|vs| - 1])
  }

  /** Prefixes and members of an encodable sequence are encodable. */
  lemma {:induction false} EncodableParts(vs: seq<Item>, k: nat)
    requires EncodableAll(vs) && k < |vs|
    ensures EncodableAll(vs[..k]) && Encodable(vs[k]) && EncodableAll(vs[k..])
    decreases k
  {
    if k > 0 {
      EncodableParts(vs[1..], k - 1);
      assert vs[..k] == [vs[0]] + vs[1..][..k - 1];
      assert vs[..k][1..] == vs[1..][..k - 1];
      assert vs[k..] == vs[1..][k - 1..];
    } else {
      assert vs[..0] == [];
      assert vs[0..] == vs;
    }
  }

  /** The last item of a sequence contributes its own encoding at the end. */
  lemma {:induction false} EncodeAllLast(vs: seq<Item>)
    requires EncodableAll(vs) && vs != []
    ensures EncodableAll(vs[..|vs| - 1]) && Encodable(vs[|vs| - 1])
    ensures EncSizeAll(vs) == EncSizeAll(vs[..|vs| - 1]) + EncSize(vs[|vs| - 1])
    ensures EncodeAll(vs) == EncodeAll(vs[..|vs| - 1]) + Encode(vs[|vs| - 1])
  {
    var front, last := vs[..|vs| - 1], vs[|vs| - 1];
    assert vs == front + [last];
    AppendOne(front, last);
  }

  lemma {:induction false} AppendOne(front: seq<Item>, last: Item)
    requires EncodableAll(front + [last])
    ensures EncodableAll(front) && Encodable(last)
    ensures EncSizeAll(front + [last]) == EncSizeAll(front) + EncSize(last)
    ensures EncodeAll(front + [last]) == EncodeAll(front) + Encode(last)
  {
    EncodableAppend(front, [last]);
    SingleItem(last);
    EncodeAllAppend(front, [last]);
  }

  lemma SingleItem(v: Item)
    ensures EncodableAll([v]) == Encodable(v) && EncSizeAll([v]) == EncSize(v)
    ensures Encodable(v) ==> EncodeAll([v]) == Encode(v)
  {
    assert [v][1..] == [];
    if Encodable(v) {
      Neutral(Encode(v));
    }
  }

  /** The last item's data and headers come last in the buffer. */
  lemma FlatStrLast(vs: seq<Item>, front: seq<Item>, last: Item)
    requires EncodableAll(vs) && vs != [] && front == vs[..|vs| - 1] && last == vs[|vs| - 1]
    requires EncodableAll(front) && Encodable(last)
    ensures FlatStrAll(vs) == FlatStrAll(front) + FlatStr(last)
  {
  }

  lemma FlatHeadsLast(vs: seq<Item>, at: nat, front: seq<Item>, last: Item, mid: nat)
    requires EncodableAll(vs) && vs != [] && front == vs[..|vs| - 1] && last == vs[|vs| - 1]
    requires EncodableAll(front) && Encodable(last) && mid == at + |FlatStrAll(front)|
    ensures FlatHeadsAll(vs, at) == FlatHeadsAll(front, at) + FlatHeads(last, mid)
  {
  }

  lemma FlatLast(vs: seq<Item>, at: nat, front: seq<Item>, last: Item, mid: nat)
    requires EncodableAll(vs) && vs != [] && front == vs[..|vs| - 1] && last == vs[|vs| - 1]
    requires EncodableAll(front) && Encodable(last) && mid == at + |FlatStrAll(front)|
    ensures FlatStrAll(vs) == FlatStrAll(front) + FlatStr(last)
    ensures FlatHeadsAll(vs, at) == FlatHeadsAll(front, at) + FlatHeads(last, mid)
  {
    FlatStrLast(vs, front, last);
    FlatHeadsLast(vs, at, front, last, mid);
  }

  /** String data and headers together have the size of the encoding. */
  lemma {:induction false} FlatSize(v: Item)
    requires Encodable(v)
    ensures |FlatStr(v)| + HeadsSize(v) == EncSize(v)
    decreases v, 1
  {
    match v
    case Str(b) =>
    case List(items) => FlatSizeAll(items);
  }

  lemma {:induction false} FlatSizeAll(vs: seq<Item>)
    requires EncodableAll(vs)
    ensures |FlatStrAll(vs)| + HeadsSizeAll(vs) == EncSizeAll(vs)
    decreases vs, 0
  {
    if vs != [] {
      EncodeAllLast(vs);
      FlatSizeAll(vs[..|vs| - 1]);
      FlatSize(vs[|vs| - 1]);
    }
  }

  /** The headers lie in order inside the string data after `from`, and their sizes fit 64 bits. */
  predicate InOrder(heads: seq<Deferred>, from: nat, to: nat) {
    if heads == [] then from <= to
    else from <= heads[0].offset <= to && heads[0].size < TWO64 && InOrder(heads[1..], heads[0].offset, to)
  }

  function Slice(s: seq<byte>, from: nat, to: nat): seq<byte> {
    if from <= to <= |s| then s[from..to] else []
  }

  function ListHeadBytes(size: nat): seq<byte> {
    if size < TWO64 then Head(LIST_SMALL, LIST_LARGE, size) else []
  }

  /** The output of writing the data from `from` on, with every header put in at its offset. */
  function Assemble(str: seq<byte>, heads: seq<Deferred>, from: nat): seq<byte>
    decreases |heads|
  {
    if heads == [] then Slice(str, from, |str|)
    else Slice(str, from, heads[0].offset) + ListHeadBytes(heads[0].size) + Assemble(str, heads[1..], heads[0].offset)
  }

  lemma {:induction false} InOrderConcat(a: seq<Deferred>, b: seq<Deferred>, from: nat, mid: nat, to: nat)
    requires InOrder(a, from, mid) && InOrder(b, mid, to)
    ensures InOrder(a + b, from, to)
  {
    var t := a + b;
    if a == [] {
      assert t == b;
    } else {
      InOrderConcat(a[1..], b, a[0].offset, mid, to);
      assert t[0] == a[0] && t[1..] == a[1..] + b;
    }
  }

  lemma {:induction false} InOrderBounds(heads: seq<Deferred>, from: nat, to: nat)
    requires InOrder(heads, from, to)
    ensures from <= to
  {
    if heads != [] {
      InOrderBounds(heads[1..], heads[0].offset, to);
    }
  }

  lemma {:induction false} FlatHeadsInOrder(v: Item, at: nat)
    requires Encodable(v)
    ensures InOrder(FlatHeads(v, at), at, at + |FlatStr(v)|)
    decreases v, 1
  {
    match v
    case Str(b) =>
    case List(items) => FlatHeadsAllInOrder(items, at);
  }

  lemma {:induction false} FlatHeadsAllInOrder(vs: seq<Item>, at: nat)
    requires EncodableAll(vs)
    ensures InOrder(FlatHeadsAll(vs, at), at, at + |FlatStrAll(vs)|)
    decreases vs, 0
  {
    if vs != [] {
      EncodableParts(vs, |vs| - 1);
      FlatHeadsAllInOrder(vs[..|vs| - 1], at);
      var mid := at + |FlatStrAll(vs[..|vs| - 1])|;
      FlatHeadsInOrder(vs[|vs| - 1], mid);
      InOrderConcat(FlatHeadsAll(vs[..|vs| - 1], at), FlatHeads(vs[|vs| - 1], mid), at, mid, at + |FlatStrAll(vs)|);
    }
  }

  /** No header of `heads` belongs in front of position `at`. */
  predicate StartsAt(heads: seq<Deferred>, at: nat, len: nat) {
    at <= len && (heads != [] ==> at <= heads[0].offset <= len)
  }

  /** Data with no header in it is copied as it is. */
  lemma AssembleSkip(str: seq<byte>, heads: seq<Deferred>, from: nat, to: nat)
    requires from <= to && StartsAt(heads, to, |str|)
    ensures Assemble(str, heads, from) == str[from..to] + Assemble(str, heads, to)
  {
    if heads == [] {
      Slices(str, from, to, |str|);
    } else {
      var h := heads[0].offset;
      Slices(str, from, to, h);
      Assoc(str[from..to], str[to..h], ListHeadBytes(heads[0].size));
      Assoc(str[from..to], str[to..h] + ListHeadBytes(heads[0].size), Assemble(str, heads[1..], h));
    }
  }

  /** A header at the current position comes out first. */
  lemma AssembleCons(h: Deferred, str: seq<byte>, rest: seq<Deferred>)
    requires h.offset <= |str|
    ensures Assemble(str, [h] + rest, h.offset) == ListHeadBytes(h.size) + Assemble(str, rest, h.offset)
  {
    First(h, rest);
    assert str[h.offset..h.offset] == [];
    Neutral(ListHeadBytes(h.size));
  }

  /** Two adjacent stretches of the buffer, each assembling to its own output, assemble to both outputs. */
  lemma AssembleJoin(str: seq<byte>, a: seq<Deferred>, b: seq<Deferred>, ab: seq<Deferred>, more: seq<Deferred>,
                     at: nat, mid: nat, end: nat, x: seq<byte>, y: seq<byte>, xy: seq<byte>)
    requires ab == a + b && xy == x + y
    requires Assemble(str, a + (b + more), at) == x + Assemble(str, b + more, mid)
    requires Assemble(str, b + more, mid) == y + Assemble(str, more, end)
    ensures Assemble(str, ab + more, at) == xy + Assemble(str, more, end)
  {
    Assoc(a, b, more);
    Assoc(x, y, Assemble(str, more, end));
  }

  /**
    * Wherever the data and headers of an item sit in the buffer, assembly yields the item's encoding there
    * and goes on with what follows.
    */
  lemma {:induction false} AssembleItem(v: Item, str: seq<byte>, at: nat, end: nat, more: seq<Deferred>)
    requires Encodable(v) && end == at + |FlatStr(v)|
    requires StartsAt(more, end, |str|) && str[at..end] == FlatStr(v)
    ensures Assemble(str, FlatHeads(v, at) + more, at) == Encode(v) + Assemble(str, more, end)
    decreases v, 1
  {
    match v
    case Str(b) =>
      assert FlatHeads(v, at) + more == more;
      AssembleSkip(str, more, at, end);
    case List(items) =>
      AssembleItems(items, str, at, end, more);
      var head := Deferred(at, EncSizeAll(items));
      AssembleCons(head, str, FlatHeadsAll(items, at) + more);
      AssembleJoin(str, [head], FlatHeadsAll(items, at), FlatHeads(v, at), more,
                   at, at, end, ListHeadBytes(EncSizeAll(items)), EncodeAll(items), Encode(v));
  }

  lemma FlatSplit(vs: seq<Item>, str: seq<byte>, at: nat, mid: nat, end: nat, front: seq<Item>, last: Item)
    requires EncodableAll(vs) && EncodableAll(front) && Encodable(last)
    requires FlatStrAll(vs) == FlatStrAll(front) + FlatStr(last)
    requires end == at + |FlatStrAll(vs)| <= |str| && mid == at + |FlatStrAll(front)| && str[at..end] == FlatStrAll(vs)
    ensures at <= mid <= end && str[at..mid] == FlatStrAll(front) && str[mid..end] == FlatStr(last)
    ensures mid + |FlatStr(last)| == end
  {
    SliceOfConcat(str, at, FlatStrAll(front), FlatStr(last));
  }

  lemma {:induction false} AssembleItems(vs: seq<Item>, str: seq<byte>, at: nat, end: nat, more: seq<Deferred>)
    requires EncodableAll(vs) && end == at + |FlatStrAll(vs)|
    requires StartsAt(more, end, |str|) && str[at..end] == FlatStrAll(vs)
    ensures Assemble(str, FlatHeadsAll(vs, at) + more, at) == EncodeAll(vs) + Assemble(str, more, end)
    decreases vs, 0
  {
    if vs == [] {
      assert FlatHeadsAll(vs, at) + more == more;
    } else {
      EncodeAllLast(vs);
      var front, last := vs[..|vs| - 1], vs[|vs| - 1];
      var mid := at + |FlatStrAll(front)|;
      FlatLast(vs, at, front, last, mid);
      FlatSplit(vs, str, at, mid, end, front, last);
      AssembleItem(last, str, mid, end, more);
      AssembleItems(front, str, at, mid, FlatHeads(last, mid) + more);
      AssembleJoin(str, FlatHeadsAll(front, at), FlatHeads(last, mid), FlatHeadsAll(vs, at), more,
                   at, mid, end, EncodeAll(front), Encode(last), EncodeAll(vs));
    }
  }

  /**
    * Deferred headers are sound: for every sequence of items, assembling the flat string data with the
    * deferred headers gives the concatenation of the recursive encodings.
    */
  lemma DeferredHeadersEncode(vs: seq<Item>)
    requires EncodableAll(vs)
    ensures InOrder(FlatHeadsAll(vs, 0), 0, |FlatStrAll(vs)|)
    ensures Assemble(FlatStrAll(vs), FlatHeadsAll(vs, 0), 0) == EncodeAll(vs)
    ensures |FlatStrAll(vs)| + HeadsSizeAll(vs) == |EncodeAll(vs)|
  {
    var str := FlatStrAll(vs);
    assert str[0..|str|] == str;
    FlatHeadsAllInOrder(vs, 0);
    FlatSizeAll(vs);
    AssembleItems(vs, str, 0, |str|, []);
    Neutral(FlatHeadsAll(vs, 0));
    Neutral(EncodeAll(vs));
    assert Assemble(str, [], |str|) == [];
  }
}
