/** The two halves of the codec undo each other: decoding accepts exactly the encodings, and gives their trees. */
module RlpRoundTrip {
  import opened Bytes
  import opened Common
  import opened RlpSpec
  import opened RlpStream
  import opened RlpDecode

  /** Between two values: nothing cached and no error pending. */
  predicate Ready(s: Stream) {
    Valid(s) && s.kind == Unknown && s.kinderr == None
  }

  /** `t` is the stream `n` bytes after `s`. */
  predicate After(s: Stream, n: nat, t: Stream) {
    CanRead(s, n) && Ready(t) && t == Advance(s, n).(size := t.size, byteval := t.byteval)
  }

  /** The end of a list is reported only there, and without touching the stream. */
  lemma EndOfListOnlyAtEnd(s: Stream)
    requires Ready(s) && DecodeItem(s).1 == Err(EndOfList)
    ensures s.stack != [] && Top(s).pos == Top(s).size && DecodeItem(s).0 == s
  {
    if s.stack != [] && Top(s).pos == Top(s).size {
    } else {
      NextKindNoEnd(s);
      DecodeNoEnd(s);
    }
  }

  lemma ReadFullNoEnd(s: Stream, n: nat)
    ensures ReadFull(s, n).1 != Err(EndOfList)
  {
  }

  lemma ReadSizeNoEnd(s: Stream, kind: Kind, n: nat)
    requires 1 <= n <= 8
    ensures ReadSize(s, kind, n).3 != Some(EndOfList)
  {
    ReadFullNoEnd(s, n);
  }

  lemma ReadKindNoEnd(s: Stream)
    ensures ReadKind(s).3 != Some(EndOfList)
  {
    ReadFullNoEnd(s, 1);
    var (s1, r) := ReadByte(s);
    if r.Ok? && 0xB8 <= r.value < 0xC0 {
      ReadSizeNoEnd(s1.(byteval := 0), String, r.value - 0xB7);
    } else if r.Ok? && 0xF8 <= r.value {
      ReadSizeNoEnd(s1.(byteval := 0), ListOf, r.value - 0xF7);
    }
  }

  lemma NextKindNoEnd(s: Stream)
    requires s.stack == [] || Top(s).pos != Top(s).size
    requires s.kind == Unknown
    ensures NextKind(s).1 != Err(EndOfList)
  {
    ReadKindNoEnd(s.(kinderr := None));
  }

  lemma DecodeNoEnd(s: Stream)
    requires NextKind(s).1 != Err(EndOfList)
    ensures DecodeItem(s).1 != Err(EndOfList)
  {
    NextKindShrinks(s);
    var s1 := NextKind(s).0;
    if NextKind(s).1.Ok? {
      assert NextKind(s1) == (s1, Ok((s1.kind, s1.size)));
      if s1.kind == ListOf {
        ListNoEnd(s1);
      } else {
        BytesNoEnd(s1);
      }
    }
  }

  lemma {:induction false} BytesNoEnd(s: Stream)
    requires NextKind(s) == (s, Ok((s.kind, s.size)))
    ensures NextBytes(s).1 != Err(EndOfList)
  {
    ReadFullNoEnd(s, s.size);
  }

  lemma {:induction false} ListNoEnd(s: Stream)
    requires NextKind(s) == (s, Ok((s.kind, s.size)))
    ensures DecodeList(s).1 != Err(EndOfList)
  {
    if s.kind == ListOf {
      ElemsNoEnd(OpenList(s).0);
    }
  }

  lemma {:induction false} ElemsNoEnd(s: Stream)
    requires s.kind == Unknown
    ensures DecodeElems(s).1 != Err(EndOfList)
    decreases |s.input|
  {
    var (s1, r1) := DecodeItem(s);
    if r1.Ok? {
      ElemsNoEnd(s1);
    }
  }

  // ------------------------------------------------------------------------------- soundness

  /** After the header of a list, opening the list gives a stream at the start of its payload. */
  lemma OpenListReady(s: Stream, n: nat, size: uint64)
    requires Ready(s) && CanRead(s, n) && Fits(s, n, size)
    ensures var s1 := Cached(Advance(s, n), ListOf, size, 0);
            && NextKind(s1) == (s1, Ok((ListOf, size)))
            && OpenList(s1) == (Opened(s, n, size), Ok(size)) && Ready(Opened(s, n, size))
  {
    AdvanceTwice(s, n, 0);
  }

  /** The stream inside a list whose header of `n` bytes has just been read. */
  function Opened(s: Stream, n: nat, size: uint64): Stream
    requires CanRead(s, n)
  {
    var a := Advance(s, n);
    a.(stack := a.stack + [Frame(0, size)], size := 0, byteval := 0, kinderr := None)
  }

  /** Once a list's payload is consumed, closing the list leaves the stream after header and payload. */
  lemma CloseListAfter(s: Stream, n: nat, size: uint64, t: Stream)
    requires Ready(s) && CanRead(s, n) && Fits(s, n, size) && After(Opened(s, n, size), size, t)
    ensures CloseList(t).1 == None && After(s, n + size, CloseList(t).0)
  {
    var o := Opened(s, n, size);
    var a := Advance(s, n);
    assert Top(o) == Frame(0, size);
    assert t.stack == a.stack + [Frame(size, size)];
    assert t.stack[..|t.stack| - 1] == a.stack;
    AdvanceTwice(s, n, size);
    AdvanceTwice(s, n + size, 0);
  }

  /** The bytes of the next `n + m` input positions are a header followed by its content. */
  lemma HeadAndContent(input: seq<byte>, n: nat, m: nat, head: seq<byte>, content: seq<byte>)
    requires n + m <= |input| && input[..n] == head && input[n..][..m] == content
    ensures input[..n + m] == head + content
  {
  }

  /** The content of a string is read exactly when it is there and did not have to be a single byte. */
  lemma StringContent(s: Stream, n: nat, size: uint64)
    requires Ready(s) && CanRead(s, n) && Fits(s, n, size)
    ensures var r := NextBytes(Cached(Advance(s, n), String, size, 0));
            && (r.1.Ok? <==> CanRead(s, n + size) && !SingleByte(s.input[n..][..size]))
            && (r.1.Ok? ==> r == (Advance(s, n + size).(size := size, byteval := 0), Ok(s.input[n..][..size])))
  {
    var s1 := Cached(Advance(s, n), String, size, 0);
    AdvanceTwice(s, n, size);
    ReadFullOk(s1, size);
    assert NextKind(s1) == (s1, Ok((String, size)));
    assert CanRead(s1, size) <==> CanRead(s, n + size);
  }

  /** The bytes between `s` and `t` are the encoding of `v`. */
  predicate Decoded(s: Stream, v: Item, t: Stream) {
    Encodable(v) && After(s, EncSize(v), t) && s.input[..EncSize(v)] == Encode(v)
  }

  /** The bytes between `s` and `t` are the encodings of `vs` and end the innermost list. */
  predicate DecodedAll(s: Stream, vs: seq<Item>, t: Stream) {
    && EncodableAll(vs) && After(s, EncSizeAll(vs), t) && s.input[..EncSizeAll(vs)] == EncodeAll(vs)
    && s.stack != [] && Top(s).pos + EncSizeAll(vs) == Top(s).size
  }

  lemma ListSound(s: Stream, n: nat, size: uint64, vs: seq<Item>, t: Stream)
    requires Ready(s) && CanRead(s, n) && Fits(s, n, size) && s.input[..n] == Head(LIST_SMALL, LIST_LARGE, size)
    requires DecodedAll(Opened(s, n, size), vs, t)
    ensures CloseList(t).1 == None && Decoded(s, List(vs), CloseList(t).0)
  {
    var o := Opened(s, n, size);
    assert Top(o) == Frame(0, size);
    CloseListAfter(s, n, size, t);
    HeadAndContent(s.input, n, size, Head(LIST_SMALL, LIST_LARGE, size), EncodeAll(vs));
  }

  lemma ElemSound(s: Stream, v: Item, s1: Stream, vs: seq<Item>, t: Stream)
    requires Ready(s) && Decoded(s, v, s1) && DecodedAll(s1, vs, t)
    ensures DecodedAll(s, [v] + vs, t)
  {
    var ws := [v] + vs;
    assert ws[0] == v && ws[1..] == vs;
    AdvanceTwice(s, EncSize(v), EncSizeAll(vs));
    HeadAndContent(s.input, EncSize(v), EncSizeAll(vs), Encode(v), EncodeAll(vs));
  }

  /** Decoding a string consumed exactly its encoding. */
  lemma StringSound(s: Stream, n: nat, size: uint64, total: nat)
    requires Ready(s) && n == HeadSize(size) && total == n + size
    requires CanRead(s, n) && Fits(s, n, size) && s.input[..n] == Head(STRING_SMALL, STRING_LARGE, size)
    ensures var (t, r) := NextBytes(Cached(Advance(s, n), String, size, 0));
            r.Ok? ==> Encodable(Str(r.value)) && EncSize(Str(r.value)) == total
                      && After(s, total, t) && s.input[..total] == Encode(Str(r.value))
  {
    StringContent(s, n, size);
    var (t, r) := NextBytes(Cached(Advance(s, n), String, size, 0));
    if r.Ok? {
      AdvanceTwice(s, total, 0);
      HeadAndContent(s.input, n, size, Head(STRING_SMALL, STRING_LARGE, size), r.value);
    }
  }

  lemma ByteItem(s: Stream)
    requires Ready(s) && NextKind(s).1.Ok? && NextKind(s).1.value.0 == Byte
    ensures var (t, r) := DecodeItem(s); r.Ok? && Decoded(s, r.value, t)
  {
    NextKindSound(s);
    NextKindShrinks(s);
    AdvanceTwice(s, 1, 0);
  }

  lemma StringItem(s: Stream)
    requires Ready(s) && NextKind(s).1.Ok? && NextKind(s).1.value.0 == String
    ensures var (t, r) := DecodeItem(s); r.Ok? ==> Decoded(s, r.value, t)
  {
    NextKindSound(s);
    NextKindShrinks(s);
    var size := NextKind(s).1.value.1;
    StringSound(s, HeadSize(size), size, HeadSize(size) + size);
    assert DecodeItem(s).1.Ok? ==>
             DecodeItem(s) == (NextBytes(NextKind(s).0).0, Ok(Str(NextBytes(NextKind(s).0).1.value)));
  }

  /** Decoding a list is opening it, decoding its elements unless there are none, and closing it. */
  lemma ListSteps(s: Stream, n: nat, size: uint64, o: Stream)
    requires Ready(s) && CanRead(s, n) && Fits(s, n, size) && o == Opened(s, n, size)
    requires NextKind(s) == (Cached(Advance(s, n), ListOf, size, 0), Ok((ListOf, size)))
    ensures Ready(o)
    ensures size == 0 && CloseList(o).1 == None ==> DecodeItem(s) == (CloseList(o).0, Ok(List([])))
    ensures size != 0 && DecodeElems(o).1.Err? ==> DecodeItem(s).1.Err?
    ensures size != 0 && DecodeElems(o).1.Ok? && CloseList(DecodeElems(o).0).1 == None ==>
              DecodeItem(s) == (CloseList(DecodeElems(o).0).0, Ok(List(DecodeElems(o).1.value)))
  {
    OpenListReady(s, n, size);
  }

  /**
    * Canonicality of the stream decoder: whatever it accepts, anywhere in a stream, is exactly the encoding of
    * the tree it returns, and the stream is left right behind it.
    */
  lemma {:induction false} DecodeItemSound(s: Stream)
    requires Ready(s)
    ensures var (t, r) := DecodeItem(s); r.Ok? ==> Decoded(s, r.value, t)
    decreases |s.input|, 0
  {
    if DecodeItem(s).1.Ok? {
      NextKindSound(s);
      NextKindShrinks(s);
      var k := NextKind(s).1.value.0;
      if k == Byte {
        ByteItem(s);
      } else if k == String {
        StringItem(s);
      } else {
        var size := NextKind(s).1.value.1;
        var n := HeadSize(size);
        var o := Opened(s, n, size);
        ListSteps(s, n, size, o);
        if size == 0 {
          AdvanceNothing(o);
          ListSound(s, n, size, [], o);
        } else {
          DecodeElemsSound(o);
          ListSound(s, n, size, DecodeElems(o).1.value, DecodeElems(o).0);
        }
      }
    }
  }

  lemma {:induction false} DecodeElemsSound(s: Stream)
    requires Ready(s) && s.stack != []
    ensures var (t, r) := DecodeElems(s); r.Ok? ==> DecodedAll(s, r.value, t)
    decreases |s.input|, 1
  {
    var (s1, r1) := DecodeItem(s);
    DecodeItemSound(s);
    if r1.Ok? {
      DecodeElemsSound(s1);
      if DecodeElems(s1).1.Ok? {
        ElemSound(s, r1.value, s1, DecodeElems(s1).1.value, DecodeElems(s1).0);
      }
    } else if r1.error == EndOfList {
      EndOfListOnlyAtEnd(s);
      AdvanceNothing(s);
    }
  }

  lemma AdvanceNothing(s: Stream)
    requires Ready(s)
    ensures After(s, 0, s)
  {
    assert s.input[0..] == s.input;
    assert Bump(s.stack, 0) == s.stack;
  }

  // ---------------------------------------------------------------------------- completeness

  /** The encoding of `v` lies ahead, inside all bounds. */
  predicate Ahead(s: Stream, v: Item) {
    Encodable(v) && CanRead(s, EncSize(v)) && s.input[..EncSize(v)] == Encode(v)
  }

  predicate AheadAll(s: Stream, vs: seq<Item>) {
    && EncodableAll(vs) && CanRead(s, EncSizeAll(vs)) && s.input[..EncSizeAll(vs)] == EncodeAll(vs)
    && s.stack != [] && Top(s).pos + EncSizeAll(vs) == Top(s).size
  }

  lemma SplitAhead(input: seq<byte>, a: seq<byte>, b: seq<byte>)
    requires |a| + |b| <= |input| && input[..|a| + |b|] == a + b
    ensures input[..|a|] == a && input[|a|..][..|b|] == b
  {
    var w := input[..|a| + |b|];
    assert w[..|a|] == a && w[|a|..] == b;
    assert input[..|a|] == w[..|a|];
    assert input[|a|..][..|b|] == w[|a|..];
  }

  lemma ByteComplete(s: Stream, b: seq<byte>)
    requires Ready(s) && Ahead(s, Str(b)) && SingleByte(b)
    ensures DecodeItem(s).1 == Ok(Str(b))
  {
    NextKindComplete(s, Byte, 0, b[0]);
    NextKindShrinks(s);
  }

  lemma StringComplete(s: Stream, b: seq<byte>)
    requires Ready(s) && Ahead(s, Str(b)) && !SingleByte(b)
    ensures DecodeItem(s).1 == Ok(Str(b))
  {
    var n := HeadSize(|b|);
    SplitAhead(s.input, Head(STRING_SMALL, STRING_LARGE, |b|), b);
    NextKindComplete(s, String, |b|, 0);
    NextKindShrinks(s);
    StringContent(s, n, |b|);
    assert DecodeItem(s).1 == Ok(Str(NextBytes(NextKind(s).0).1.value));
  }

  /** The header of a list ahead is accepted, and its elements are ahead once the list is open. */
  lemma ListAhead(s: Stream, items: seq<Item>, size: uint64, n: nat, o: Stream)
    requires Ready(s) && Ahead(s, List(items)) && size == EncSizeAll(items) && n == HeadSize(size)
    requires CanRead(s, n) && o == Opened(s, n, size)
    ensures Fits(s, n, size) && s.input[..n] == Head(LIST_SMALL, LIST_LARGE, size)
    ensures NextKind(s) == (Cached(Advance(s, n), ListOf, size, 0), Ok((ListOf, size)))
    ensures Ready(o) && AheadAll(o, items)
  {
    OpenListReady(s, n, size);
    SplitAhead(s.input, Head(LIST_SMALL, LIST_LARGE, size), EncodeAll(items));
    NextKindComplete(s, ListOf, size, 0);
    AdvanceTwice(s, n, size);
    assert Top(o) == Frame(0, size);
  }

  lemma FirstAhead(s: Stream, vs: seq<Item>, n: nat, k: nat)
    requires Ready(s) && AheadAll(s, vs) && vs != [] && n == EncSize(vs[0]) && k == EncSizeAll(vs[1..])
    ensures Ahead(s, vs[0]) && CanRead(s, n + k) && s.input[n..][..k] == EncodeAll(vs[1..])
  {
    SplitAhead(s.input, Encode(vs[0]), EncodeAll(vs[1..]));
  }

  lemma NextAhead(s: Stream, vs: seq<Item>, s1: Stream, n: nat, k: nat)
    requires Ready(s) && AheadAll(s, vs) && vs != [] && n == EncSize(vs[0]) && k == EncSizeAll(vs[1..])
    requires CanRead(s, n + k) && s.input[n..][..k] == EncodeAll(vs[1..])
    requires After(s, n, s1)
    ensures AheadAll(s1, vs[1..])
  {
    AdvanceTwice(s, n, k);
  }

  lemma SizeZero(vs: seq<Item>)
    requires EncodableAll(vs)
    ensures EncSizeAll(vs) == 0 ==> vs == []
  {
    if vs != [] {
      assert |Encode(vs[0])| >= 1;
    }
  }

  lemma ListComplete(s: Stream, items: seq<Item>, size: uint64, n: nat, o: Stream)
    requires Ready(s) && CanRead(s, n) && Fits(s, n, size) && s.input[..n] == Head(LIST_SMALL, LIST_LARGE, size)
    requires EncodableAll(items) && size == EncSizeAll(items)
    requires NextKind(s) == (Cached(Advance(s, n), ListOf, size, 0), Ok((ListOf, size)))
    requires o == Opened(s, n, size) && Ready(o) && (size != 0 ==> DecodeElems(o).1 == Ok(items))
    ensures DecodeItem(s).1 == Ok(List(items))
  {
    ListSteps(s, n, size, o);
    if size == 0 {
      SizeZero(items);
      AdvanceNothing(o);
      ListSound(s, n, size, [], o);
    } else {
      DecodeElemsSound(o);
      ListSound(s, n, size, items, DecodeElems(o).0);
    }
  }

  /** Completeness of the stream decoder: an encoding ahead is decoded to the tree it came from. */
  lemma {:induction false} DecodeItemComplete(s: Stream, v: Item)
    requires Ready(s) && Ahead(s, v)
    ensures DecodeItem(s).1 == Ok(v)
    decreases v, 1
  {
    match v
    case Str(b) =>
      if SingleByte(b) { ByteComplete(s, b); } else { StringComplete(s, b); }
    case List(items) =>
      var size: uint64 := EncSizeAll(items);
      var n := HeadSize(size);
      var o := Opened(s, n, size);
      ListAhead(s, items, size, n, o);
      if size != 0 {
        DecodeElemsComplete(o, items);
      }
      ListComplete(s, items, size, n, o);
  }

  /** The first element is decoded, and the others are ahead. */
  lemma {:induction false} FirstDecoded(s: Stream, vs: seq<Item>)
    requires Ready(s) && AheadAll(s, vs) && vs != []
    ensures var (s1, r) := DecodeItem(s); r == Ok(vs[0]) && Ready(s1) && AheadAll(s1, vs[1..])
    decreases vs, 0
  {
    FirstAhead(s, vs, EncSize(vs[0]), EncSizeAll(vs[1..]));
    DecodeItemComplete(s, vs[0]);
    DecodeItemSound(s);
    NextAhead(s, vs, DecodeItem(s).0, EncSize(vs[0]), EncSizeAll(vs[1..]));
  }

  lemma {:induction false} DecodeElemsComplete(s: Stream, vs: seq<Item>)
    requires Ready(s) && AheadAll(s, vs)
    ensures DecodeElems(s).1 == Ok(vs)
    decreases vs, 1
  {
    if vs != [] {
      FirstDecoded(s, vs);
      DecodeElemsComplete(DecodeItem(s).0, vs[1..]);
      assert [vs[0]] + vs[1..] == vs;
    }
  }

  // ------------------------------------------------------------------------------- theorems

  /** Decoding a whole byte string gives a tree exactly when the string is that tree's encoding. */
  lemma DecodeBytesExact(b: seq<byte>, v: Item)
    requires |b| < TWO64
    ensures DecodeBytes(b) == Ok(v) <==> Encodable(v) && Encode(v) == b
  {
    var s := NewStream(b);
    var t := DecodeItem(s).0;
    if DecodeBytes(b) == Ok(v) {
      DecodeItemSound(s);
      assert b[..|b|] == b;
    }
    if Encodable(v) && Encode(v) == b {
      assert b[..|b|] == b;
      DecodeItemComplete(s, v);
      DecodeItemSound(s);
    }
  }

  /** Round trip, with the stream it leaves: no input, no open list. */
  lemma RoundTrip(v: Item)
    requires Encodable(v) && EncSize(v) < TWO64
    ensures DecodeBytes(Encode(v)) == Ok(v)
    ensures var t := DecodeItem(NewStream(Encode(v))).0; t.input == [] && t.stack == [] && t.remaining == 0
  {
    DecodeBytesExact(Encode(v), v);
    DecodeItemSound(NewStream(Encode(v)));
  }

  /** No two byte strings decode to the same tree. */
  lemma DecodeInjective(a: seq<byte>, b: seq<byte>)
    requires |a| < TWO64 && |b| < TWO64
    requires DecodeBytes(a).Ok? && DecodeBytes(a) == DecodeBytes(b)
    ensures a == b
  {
    DecodeBytesExact(a, DecodeBytes(a).value);
    DecodeBytesExact(b, DecodeBytes(a).value);
  }

  /** No encoding is a proper prefix of another: a stream of values has one reading. */
  lemma PrefixFree(v: Item, w: Item, x: seq<byte>, y: seq<byte>)
    requires Encodable(v) && Encodable(w) && Encode(v) + x == Encode(w) + y
    ensures v == w && x == y
  {
    var b := Encode(v) + x;
    var s := Stream(b, false, 0, Unknown, 0, 0, None, []);
    assert b[..EncSize(v)] == Encode(v) && b[..EncSize(w)] == Encode(w);
    DecodeItemComplete(s, v);
    DecodeItemComplete(s, w);
    assert b[EncSize(v)..] == x && b[EncSize(w)..] == y;
  }
}
