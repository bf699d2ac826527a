/**
  * The encoder: a flat string buffer, a list of deferred list headers, and the loops that put them together.
  */
module RlpEncode {
  import opened Bytes
  import opened RlpSpec
  import opened RlpFlat

  /** The bytes that the eight-way switch of `putint` writes. */
  function IntBytes(i: uint64): seq<byte> {
    if i < 0x100 then [i]
    else if i < 0x1_0000 then [i / 0x100, i % 0x100]
    else if i < 0x100_0000 then [i / 0x1_0000, i / 0x100 % 0x100, i % 0x100]
    else if i < 0x1_0000_0000 then [i / 0x100_0000, i / 0x1_0000 % 0x100, i / 0x100 % 0x100, i % 0x100]
    else if i < 0x100_0000_0000 then
      [i / 0x1_0000_0000, i / 0x100_0000 % 0x100, i / 0x1_0000 % 0x100, i / 0x100 % 0x100, i % 0x100]
    else if i < 0x1_0000_0000_0000 then
      [i / 0x100_0000_0000, i / 0x1_0000_0000 % 0x100, i / 0x100_0000 % 0x100, i / 0x1_0000 % 0x100,
       i / 0x100 % 0x100, i % 0x100]
    else if i < 0x100_0000_0000_0000 then
      [i / 0x1_0000_0000_0000, i / 0x100_0000_0000 % 0x100, i / 0x1_0000_0000 % 0x100, i / 0x100_0000 % 0x100,
       i / 0x1_0000 % 0x100, i / 0x100 % 0x100, i % 0x100]
    else
      [i / 0x100_0000_0000_0000, i / 0x1_0000_0000_0000 % 0x100, i / 0x100_0000_0000 % 0x100,
       i / 0x1_0000_0000 % 0x100, i / 0x100_0000 % 0x100, i / 0x1_0000 % 0x100, i / 0x100 % 0x100, i % 0x100]
  }

  /** Dropping the last byte of the switch's output is the switch on the number shifted right by one byte. */
  lemma IntBytesShift(i: uint64)
    requires i >= 0x100
    ensures IntBytes(i) == IntBytes(i / 0x100) + [i % 0x100]
  {
    var j := i / 0x100;
    assert j / 0x100 == i / 0x1_0000 && j / 0x1_0000 == i / 0x100_0000 && j / 0x100_0000 == i / 0x1_0000_0000;
    assert j / 0x1_0000_0000 == i / 0x100_0000_0000 && j / 0x100_0000_0000 == i / 0x1_0000_0000_0000;
    assert j / 0x1_0000_0000_0000 == i / 0x100_0000_0000_0000;
  }

  /** The switch writes the shortest big-endian form, whatever the number of bytes. */
  lemma {:induction false} IntBytesMinimal(i: uint64)
    ensures IntBytes(i) == BigEndian(i)
  {
    if i >= 0x100 {
      IntBytesShift(i);
      IntBytesMinimal(i / 0x100);
    }
  }

  /** `s` with `src` written over it from position `at` on. */
  function Overwrite(s: seq<byte>, at: nat, src: seq<byte>): (r: seq<byte>)
    requires at + |src| <= |s|
    ensures |r| == |s|
  {
    s[..at] + src + s[at + |src|..]
  }

  lemma OverwriteFront(s: seq<byte>, at: nat, src: seq<byte>)
    requires at + |src| <= |s|
    ensures Overwrite(s, at, src)[..at + |src|] == s[..at] + src
    ensures at == 0 ==> Overwrite(s, 0, src)[..|src|] == src
  {
  }

  lemma OverwriteNothing(s: seq<byte>, at: nat)
    requires at <= |s|
    ensures Overwrite(s, at, []) == s
  {
  }

  lemma OverwriteHead(s: seq<byte>, at: nat, tag: byte, digits: seq<byte>)
    requires at + 1 + |digits| <= |s|
    ensures Overwrite(s, at + 1, digits)[at := tag] == Overwrite(s, at, [tag] + digits)
  {
  }

  /** Copies `src` into `dst` from position `at` on. */
  method CopyInto(dst: array<byte>, at: nat, src: seq<byte>)
    requires at + |src| <= dst.Length
    modifies dst
    ensures dst[..] == Overwrite(old(dst[..]), at, src)
  {
    var n := 0;
    while n < |src|
      invariant n <= |src|
      invariant dst[..at] == old(dst[..at])
      invariant dst[at..at + n] == src[..n]
      invariant dst[at + n..] == old(dst[at + n..])
    {
      dst[at + n] := src[n];
      n := n + 1;
    }
    assert src[..|src|] == src;
    assert dst[..] == dst[..at] + dst[at..at + n] + dst[at + n..];
  }

  method SetByte(dst: array<byte>, at: nat, x: byte)
    requires at < dst.Length
    modifies dst
    ensures dst[..] == old(dst[..])[at := x]
  {
    dst[at] := x;
  }

  /** Number of bytes needed to store `i`: shifts right by one byte until nothing is left. */
  method IntSize(i: uint64) returns (size: nat)
    ensures size == |BigEndian(i)|
  {
    size := 1;
    var rest := i / 0x100;
    while rest != 0
      invariant 0 <= rest < TWO64 && size >= 1
      invariant rest == 0 ==> size == |BigEndian(i)|
      invariant rest != 0 ==> size + |BigEndian(rest)| == |BigEndian(i)|
      decreases rest
    {
      size := size + 1;
      rest := rest / 0x100;
    }
  }

  /** Writes `i` at position `at` of `b` and returns the number of bytes written. */
  method PutInt(b: array<byte>, at: nat, i: uint64) returns (size: nat)
    requires at + |BigEndian(i)| <= b.Length
    modifies b
    ensures size == |BigEndian(i)|
    ensures b[..] == Overwrite(old(b[..]), at, BigEndian(i))
  {
    IntBytesMinimal(i);
    CopyInto(b, at, IntBytes(i));
    size := |IntBytes(i)|;
  }

  /** Writes a byte that tells the size of an integer, and the integer after it. */
  method PutTagged(b: array<byte>, at: nat, tag: byte, i: uint64) returns (n: nat)
    requires tag <= 0xF7 && at + 1 + |BigEndian(i)| <= b.Length
    modifies b
    ensures |BigEndian(i)| <= 8 && n == 1 + |BigEndian(i)|
    ensures b[..] == Overwrite(old(b[..]), at, [tag + |BigEndian(i)|] + BigEndian(i))
  {
    Uint64Length(i);
    var size := PutInt(b, at + 1, i);
    SetByte(b, at, tag + size);
    n := size + 1;
    OverwriteHead(old(b[..]), at, tag + size, BigEndian(i));
  }

  /** Writes a list or string header at position `at` of `b` and returns its size. */
  method PutHead(b: array<byte>, at: nat, small: byte, large: byte, size: uint64) returns (n: nat)
    requires small <= 0xC0 && large <= 0xF7
    requires at + HeadSize(size) <= b.Length
    modifies b
    ensures n == HeadSize(size)
    ensures b[..] == Overwrite(old(b[..]), at, Head(small, large, size))
  {
    if size < 56 {
      SetByte(b, at, small + size);
      n := 1;
      OverwriteHead(old(b[..]), at, small + size, []);
      OverwriteNothing(old(b[..]), at + 1);
    } else {
      n := PutTagged(b, at, large, size);
    }
  }

  /** Writes a stretch of string data and the list header after it; returns the number of bytes written. */
  method Emit(out: array<byte>, pos: nat, chunk: seq<byte>, size: uint64) returns (n: nat)
    requires pos + |chunk| + HeadSize(size) <= out.Length
    modifies out
    ensures n == |chunk| + HeadSize(size)
    ensures out[..][..pos + n] == old(out[..])[..pos] + chunk + ListHeadBytes(size)
  {
    CopyInto(out, pos, chunk);
    OverwriteFront(old(out[..]), pos, chunk);
    ghost var was := out[..];
    var m := PutHead(out, pos + |chunk|, LIST_SMALL, LIST_LARGE, size);
    OverwriteFront(was, pos + |chunk|, ListHeadBytes(size));
    n := |chunk| + m;
  }

  /** A header whose place is fixed when its list is opened and whose size is known when the list is closed. */
  class ListHead {
    var offset: nat
    var size: nat

    constructor (offset: nat, size: nat)
      ensures this.offset == offset && this.size == size
    {
      this.offset, this.size := offset, size;
    }
  }

  class Encbuf {
    var str: seq<byte>
    var lheads: seq<ListHead>
    var lhsize: nat
    const sizebuf: array<byte>

    /** Values of the header objects. */
    ghost function Heads(): (r: seq<Deferred>)
      reads this, lheads
      ensures |r| == |lheads|
    {
      seq(|lheads|, i requires 0 <= i < |lheads| reads this, lheads => Deferred(lheads[i].offset, lheads[i].size))
    }

    /** The buffer holds exactly the items written so far. */
    ghost predicate Holds(vs: seq<Item>)
      reads this, lheads
    {
      && sizebuf.Length == 9
      && EncodableAll(vs)
      && str == FlatStrAll(vs)
      && Heads() == FlatHeadsAll(vs, 0)
      && lhsize == HeadsSizeAll(vs)
    }

    constructor ()
      ensures fresh(sizebuf) && sizebuf.Length == 9
      ensures str == [] && lheads == [] && lhsize == 0
    {
      str, lheads, lhsize := [], [], 0;
      sizebuf := new byte[9];
    }

    /** Puts an integer and its size into the scratch buffer and returns what is there. */
    method Tagged(tag: byte, i: uint64) returns (r: seq<byte>)
      requires sizebuf.Length == 9 && tag <= 0xF7 && |BigEndian(i)| <= 8
      modifies sizebuf
      ensures r == [tag + |BigEndian(i)|] + BigEndian(i)
    {
      ghost var was := sizebuf[..];
      var n := PutTagged(sizebuf, 0, tag, i);
      OverwriteFront(was, 0, [tag + |BigEndian(i)|] + BigEndian(i));
      var all := sizebuf[..];
      r := all[..n];
    }

    method EncodeStringHeader(size: uint64)
      requires sizebuf.Length == 9
      modifies this`str, sizebuf
      ensures str == old(str) + Head(STRING_SMALL, STRING_LARGE, size)
    {
      if size < 56 {
        str := str + [0x80 + size];
      } else {
        Uint64Length(size);
        var head := Tagged(0xB7, size);
        str := str + head;
      }
    }

    method EncodeString(b: seq<byte>)
      requires sizebuf.Length == 9 && |b| < TWO64
      modifies this`str, sizebuf
      ensures str == old(str) + EncodeStr(b)
    {
      if |b| == 1 && b[0] <= 0x7F {
        str := str + [b[0]];
      } else {
        EncodeStringHeader(|b|);
        str := str + b;
      }
    }

    /** An unsigned integer is written as the string of its bytes, zero as the empty string. */
    method WriteUint(i: uint64)
      requires sizebuf.Length == 9
      modifies this`str, sizebuf
      ensures |UintBytes(i)| <= 8 && str == old(str) + EncodeStr(UintBytes(i))
    {
      Uint64Length(i);
      if i == 0 {
        str := str + [0x80];
      } else if i < 128 {
        str := str + [i];
      } else {
        var bytes := Tagged(0x80, i);
        str := str + bytes;
      }
    }

    /** Opens a list: its header remembers the header bytes counted so far until the list is closed. */
    method List() returns (lh: ListHead)
      modifies this`lheads
      ensures fresh(lh) && lh.offset == |str| && lh.size == lhsize
      ensures lheads == old(lheads) + [lh]
    {
      lh := new ListHead(|str|, lhsize);
      lheads := lheads + [lh];
    }

    /** Closes a list: everything written since it was opened is its payload. */
    method ListEnd(lh: ListHead)
      requires |str| + lhsize >= lh.offset + lh.size
      requires |str| + lhsize - lh.offset - lh.size < TWO64
      modifies this`lhsize, lh`size
      ensures lh.size == |str| + old(lhsize) - lh.offset - old(lh.size)
      ensures lhsize == old(lhsize) + HeadSize(lh.size)
    {
      lh.size := |str| + lhsize - lh.offset - lh.size;
      if lh.size < 56 {
        lhsize := lhsize + 1;
      } else {
        var n := IntSize(lh.size);
        lhsize := lhsize + 1 + n;
      }
    }

    /** Only the header of the closed list changes. */
    method CloseList(lh: ListHead, ghost heads: seq<Deferred>, ghost mark: nat, ghost inner: seq<Deferred>)
      requires |heads| < |lheads| && lheads[|heads|] == lh
      requires forall j | 0 <= j < |lheads| && lheads[j] == lh :: j == |heads|
      requires Heads() == heads + [Deferred(lh.offset, mark)] + inner
      requires 0 <= |str| + lhsize - lh.offset - lh.size < TWO64
      modifies this`lhsize, lh`size
      ensures lh.size == |str| + old(lhsize) - lh.offset - old(lh.size)
      ensures lhsize == old(lhsize) + HeadSize(lh.size)
      ensures Heads() == heads + ([Deferred(lh.offset, lh.size)] + inner)
    {
      ghost var was := Heads();
      ListEnd(lh);
      assert Heads() == was[|heads| := Deferred(lh.offset, lh.size)];
      SetMiddle(heads, Deferred(lh.offset, mark), Deferred(lh.offset, lh.size), inner);
    }

    /** Writes an item tree after whatever the buffer holds; earlier headers keep their values. */
    method WriteItem(v: Item)
      requires sizebuf.Length == 9 && Encodable(v)
      modifies this, sizebuf
      ensures str == old(str) + FlatStr(v)
      ensures old(lheads) <= lheads && forall j :: |old(lheads)| <= j < |lheads| ==> fresh(lheads[j])
      ensures Heads() == old(Heads()) + FlatHeads(v, |old(str)|)
      ensures lhsize == old(lhsize) + HeadsSize(v)
      decreases v, 1
    {
      match v {
        case Str(b) =>
          EncodeString(b);
        case List(items) =>
          WriteList(items);
      }
    }

    method WriteList(items: seq<Item>)
      requires sizebuf.Length == 9 && Encodable(Item.List(items))
      modifies this, sizebuf
      ensures str == old(str) + FlatStr(Item.List(items))
      ensures old(lheads) <= lheads && forall j :: |old(lheads)| <= j < |lheads| ==> fresh(lheads[j])
      ensures Heads() == old(Heads()) + FlatHeads(Item.List(items), |old(str)|)
      ensures lhsize == old(lhsize) + HeadsSize(Item.List(items))
      decreases items, 1
    {
      ghost var heads, at := Heads(), |str|;
      var lh := List();
      ghost var mark := lhsize;
      assert Heads() == heads + [Deferred(at, mark)];
      WriteItems(items);
      FlatSizeAll(items);
      CloseList(lh, heads, mark, FlatHeadsAll(items, at));
    }

    /** Writes the elements of a list one after the other. */
    method WriteItems(vs: seq<Item>)
      requires sizebuf.Length == 9 && EncodableAll(vs)
      modifies this, sizebuf
      ensures str == old(str) + FlatStrAll(vs)
      ensures old(lheads) <= lheads && forall j :: |old(lheads)| <= j < |lheads| ==> fresh(lheads[j])
      ensures Heads() == old(Heads()) + FlatHeadsAll(vs, |old(str)|)
      ensures lhsize == old(lhsize) + HeadsSizeAll(vs)
      decreases vs, 0
    {
      ghost var start, heads, at := str, Heads(), |str|;
      for i := 0 to |vs|
        invariant EncodableAll(vs[..i])
        invariant str == start + FlatStrAll(vs[..i])
        invariant old(lheads) <= lheads && forall j :: |old(lheads)| <= j < |lheads| ==> fresh(lheads[j])
        invariant Heads() == heads + FlatHeadsAll(vs[..i], at)
        invariant lhsize == old(lhsize) + HeadsSizeAll(vs[..i])
      {
        ghost var mid := |str|;
        NextItem(vs, i, at, mid);
        WriteItem(vs[i]);
        Assoc(start, FlatStrAll(vs[..i]), FlatStr(vs[i]));
        Assoc(heads, FlatHeadsAll(vs[..i], at), FlatHeads(vs[i], mid));
      }
      assert vs[..|vs|] == vs;
    }

    /**
      * Puts string data and headers together. The output has room for exactly `size()` bytes and every one of
      * them is written: it is the encoding of the items, one after the other.
      */
    method ToBytes(ghost vs: seq<Item>) returns (out: array<byte>)
      requires Holds(vs)
      ensures fresh(out) && out.Length == |str| + lhsize
      ensures out[..] == EncodeAll(vs)
    {
      DeferredHeadersEncode(vs);
      out := new byte[|str| + lhsize];
      Fill(out, Heads());
    }

    /** Copies the string data before a header, and the header. */
    method FillHead(out: array<byte>, k: nat, strpos: nat, pos: nat, ghost heads: seq<Deferred>) returns (end: nat)
      requires k < |heads| == |lheads| && heads[k] == Deferred(lheads[k].offset, lheads[k].size)
      requires pos <= out.Length && InOrder(heads[k..], strpos, |str|)
      requires |out[..][..pos] + Assemble(str, heads[k..], strpos)| == out.Length
      modifies out
      ensures end <= out.Length && InOrder(heads[k + 1..], heads[k].offset, |str|)
      ensures old(out[..][..pos]) + Assemble(str, heads[k..], strpos)
           == out[..][..end] + Assemble(str, heads[k + 1..], heads[k].offset)
    {
      NextHead(str, heads, k, strpos, out[..][..pos]);
      var head := lheads[k];
      var n := Emit(out, pos, str[strpos..head.offset], head.size);
      end := pos + n;
    }

    /** Copies the string data between two headers and then the header, until the headers are used up. */
    method FillHeads(out: array<byte>, ghost heads: seq<Deferred>) returns (strpos: nat, pos: nat)
      requires |heads| == |lheads|
      requires forall k :: 0 <= k < |heads| ==> heads[k] == Deferred(lheads[k].offset, lheads[k].size)
      requires InOrder(heads, 0, |str|) && |Assemble(str, heads, 0)| == out.Length
      modifies out
      ensures strpos <= |str| && pos <= out.Length && Assemble(str, heads, 0) == out[..][..pos] + str[strpos..]
    {
      ghost var all := Assemble(str, heads, 0);
      strpos, pos := 0, 0;
      assert heads[0..] == heads;
      Neutral(all);
      for k := 0 to |lheads|
        invariant pos <= out.Length
        invariant InOrder(heads[k..], strpos, |str|)
        invariant all == out[..][..pos] + Assemble(str, heads[k..], strpos)
      {
        pos := FillHead(out, k, strpos, pos, heads);
        strpos := lheads[k].offset;
      }
    }

    method Fill(out: array<byte>, ghost heads: seq<Deferred>)
      requires |heads| == |lheads|
      requires forall k :: 0 <= k < |heads| ==> heads[k] == Deferred(lheads[k].offset, lheads[k].size)
      requires InOrder(heads, 0, |str|) && |Assemble(str, heads, 0)| == out.Length
      modifies out
      ensures out[..] == Assemble(str, heads, 0)
    {
      var strpos, pos := FillHeads(out, heads);
      ghost var was := out[..];
      CopyInto(out, pos, str[strpos..]);
      OverwriteFront(was, pos, str[strpos..]);
    }
  }

  /** The encoding of one value, as a fresh byte array. */
  method EncodeToBytes(v: Item) returns (out: array<byte>)
    requires Encodable(v)
    ensures fresh(out) && out[..] == Encode(v)
  {
    var eb := new Encbuf();
    eb.WriteItem(v);
    Single(v);
    out := eb.ToBytes([v]);
  }

  lemma Single(v: Item)
    requires Encodable(v)
    ensures EncodableAll([v]) && EncodeAll([v]) == Encode(v)
    ensures FlatStrAll([v]) == [] + FlatStr(v) && FlatHeadsAll([v], 0) == [] + FlatHeads(v, 0)
    ensures HeadsSizeAll([v]) == HeadsSize(v)
  {
    assert [v][1..] == [] && [v][..0] == [];
    EncodableParts([v], 0);
    assert EncodeAll([v]) == Encode(v) + [];
    FlatLast([v], 0, [], v, 0);
  }

  lemma NextItem(vs: seq<Item>, i: nat, at: nat, mid: nat)
    requires i < |vs| && EncodableAll(vs) && EncodableAll(vs[..i]) && mid == at + |FlatStrAll(vs[..i])|
    ensures Encodable(vs[i]) && EncodableAll(vs[..i + 1])
    ensures FlatStrAll(vs[..i + 1]) == FlatStrAll(vs[..i]) + FlatStr(vs[i])
    ensures FlatHeadsAll(vs[..i + 1], at) == FlatHeadsAll(vs[..i], at) + FlatHeads(vs[i], mid)
    ensures HeadsSizeAll(vs[..i + 1]) == HeadsSizeAll(vs[..i]) + HeadsSize(vs[i])
  {
    EncodableParts(vs, i);
    if i + 1 < |vs| {
      EncodableParts(vs, i + 1);
    }
    var ws := vs[..i + 1];
    assert ws[..i] == vs[..i];
    assert i + 1 == |vs| ==> ws == vs;
    FlatLast(ws, at, vs[..i], vs[i], mid);
  }

  lemma SetMiddle<T>(a: seq<T>, x: T, y: T, b: seq<T>)
    ensures (a + [x] + b)[|a| := y] == a + ([y] + b)
  {
  }

  /**
    * A reader over an encode buffer: it hands out string data and headers piece by piece, keeping the part of
    * a piece that did not fit the caller's buffer.
    */
  class EncReader {
    var buf: Encbuf?
    var lhpos: nat
    var strpos: nat
    var piece: seq<byte>

    ghost var heads: seq<Deferred>

    /** The buffer is not changed while it is read: its header objects keep the values in `heads`. */
    ghost predicate Valid()
      reads this, buf, if buf == null then {} else set h | h in buf.lheads
    {
      buf != null ==>
        && lhpos <= |heads| == |buf.lheads|
        && (forall k :: 0 <= k < |heads| ==> heads[k] == Deferred(buf.lheads[k].offset, buf.lheads[k].size))
        && InOrder(heads[lhpos..], strpos, |buf.str|)
    }

    /** Everything that is still to be read. */
    ghost function Rest(): seq<byte>
      reads this, buf
    {
      if buf == null || lhpos > |heads| then [] else piece + Assemble(buf.str, heads[lhpos..], strpos)
    }

    constructor (eb: Encbuf, ghost vs: seq<Item>)
      requires eb.Holds(vs)
      ensures Valid() && Rest() == EncodeAll(vs) && buf == eb
    {
      buf, lhpos, strpos, piece, heads := eb, 0, 0, [], eb.Heads();
      DeferredHeadersEncode(vs);
      assert eb.Heads()[0..] == eb.Heads();
      Neutral(EncodeAll(vs));
    }

    /** The next piece; empty only at the end of the data. */
    method Next() returns (p: seq<byte>)
      requires Valid() && buf != null
      modifies this`lhpos, this`strpos, this`piece
      ensures Valid()
      ensures p == [] <==> old(Rest()) == []
      ensures piece == p && Rest() == old(Rest())
    {
      if piece != [] {
        return piece;
      }
      Neutral(Assemble(buf.str, heads[lhpos..], strpos));
      if lhpos < |buf.lheads| {
        p := NextBeforeEnd();
      } else if strpos < |buf.str| {
        p := buf.str[strpos..];
        strpos := |buf.str|;
        Neutral(p);
      } else {
        p := [];
      }
      piece := p;
    }

    /** The string data before the next header, if there are any left, and otherwise the header. */
    method NextBeforeEnd() returns (p: seq<byte>)
      requires Valid() && buf != null && lhpos < |buf.lheads|
      modifies this`lhpos, this`strpos
      ensures Valid() && p != []
      ensures p + Assemble(buf.str, heads[lhpos..], strpos) == old(Assemble(buf.str, heads[lhpos..], strpos))
    {
      var head := buf.lheads[lhpos];
      assert heads[lhpos..][0] == heads[lhpos] && heads[lhpos..][1..] == heads[lhpos + 1..];
      if head.offset > strpos {
        p := buf.str[strpos..head.offset];
        AssembleSkip(buf.str, heads[lhpos..], strpos, head.offset);
        strpos := head.offset;
      } else {
        AssembleCons(heads[lhpos], buf.str, heads[lhpos + 1..]);
        p := ListHeadBytes(head.size);
        assert [heads[lhpos]] + heads[lhpos + 1..] == heads[lhpos..];
        lhpos := lhpos + 1;
      }
    }

    /** Copies what fits of the current piece to `b` from position `n` on. */
    method CopyPiece(b: array<byte>, n: nat) returns (nn: nat)
      requires Valid() && buf != null && piece != [] && n <= b.Length
      modifies this`piece, b
      ensures Valid() && n + nn <= b.Length && nn <= |old(Rest())|
      ensures b[..] == Overwrite(old(b[..]), n, old(Rest())[..nn])
      ensures Rest() == old(Rest())[nn..]
      ensures piece != [] ==> n + nn == b.Length
      ensures piece == [] ==> nn > 0
    {
      var p := piece;
      nn := if |p| <= b.Length - n then |p| else b.Length - n;
      CopyInto(b, n, p[..nn]);
      piece := p[nn..];
      TakePart(p, nn, Assemble(buf.str, heads[lhpos..], strpos));
    }

    /** Copies from the next piece, unless there is none. */
    method ReadPiece(b: array<byte>, n: nat) returns (nn: nat, end: bool)
      requires Valid() && buf != null && n <= b.Length
      modifies this, b
      ensures Valid() && n + nn <= b.Length && nn <= |old(Rest())|
      ensures b[..] == Overwrite(old(b[..]), n, old(Rest())[..nn])
      ensures Rest() == old(Rest())[nn..]
      ensures end <==> old(Rest()) == []
      ensures !end ==> buf != null && if piece == [] then nn > 0 else n + nn == b.Length && Rest() != []
    {
      var p := Next();
      end, nn := p == [], 0;
      if end {
        buf := null;
        OverwriteNothing(b[..], n);
      } else {
        nn := CopyPiece(b, n);
      }
    }

    method ReadOn(b: array<byte>, n: nat, ghost all: seq<byte>, ghost was: seq<byte>) returns (m: nat, end: bool)
      requires Valid() && buf != null && n <= b.Length && SoFar(all, was, n, b[..], Rest())
      modifies this, b
      ensures Valid() && m <= b.Length && SoFar(all, was, m, b[..], Rest())
      ensures end <==> n == |all|
      ensures !end ==> buf != null && if piece == [] then m > n else m == b.Length < |all|
      ensures end ==> m == n
    {
      ghost var now, rest := b[..], Rest();
      var nn;
      nn, end := ReadPiece(b, n);
      Advance(all, was, n, now, rest, nn);
      m := n + nn;
    }

    /**
      * Fills `b` from the front with as much of the remaining data as fits, and reports the end of the data
      * exactly when everything left did fit.
      */
    method Read(b: array<byte>) returns (n: nat, eof: bool)
      requires Valid()
      modifies this, b
      ensures Valid()
      ensures n == if |old(Rest())| <= b.Length then |old(Rest())| else b.Length
      ensures b[..] == old(Rest())[..n] + old(b[..])[n..]
      ensures Rest() == old(Rest())[n..]
      ensures eof <==> |old(Rest())| <= b.Length
    {
      ghost var all, was := Rest(), b[..];
      n, eof := 0, true;
      var more := buf != null;
      NothingRead(all, was);
      while more
        invariant Valid() && (more ==> buf != null && eof)
        invariant SoFar(all, was, n, b[..], Rest())
        invariant !more ==> if eof then n == |all| else n == b.Length < |all|
        decreases more, |all| - n
      {
        var end;
        n, end := ReadOn(b, n, all, was);
        more := !end && piece == [];
        eof := end || piece == [];
      }
    }
  }

  /** The first `n` bytes have been read over what was in the buffer. */
  ghost predicate SoFar(all: seq<byte>, was: seq<byte>, n: nat, now: seq<byte>, rest: seq<byte>) {
    n <= |all| && n <= |was| && |now| == |was| && |rest| == |all| - n && now == all[..n] + was[n..] && rest == all[n..]
  }

  lemma NothingRead(all: seq<byte>, was: seq<byte>)
    ensures SoFar(all, was, 0, was, all)
  {
  }

  lemma Advance(all: seq<byte>, was: seq<byte>, n: nat, now: seq<byte>, rest: seq<byte>, k: nat)
    requires SoFar(all, was, n, now, rest) && k <= |rest| && n + k <= |was|
    ensures SoFar(all, was, n + k, Overwrite(now, n, rest[..k]), rest[k..])
  {
  }

  lemma TakePart<T>(p: seq<T>, k: nat, rest: seq<T>)
    requires k <= |p|
    ensures (p + rest)[..k] == p[..k] && (p + rest)[k..] == p[k..] + rest
  {
  }

  /** One round of assembly: the data up to the next header and the header move to the finished part. */
  lemma NextHead(str: seq<byte>, heads: seq<Deferred>, k: nat, strpos: nat, done: seq<byte>)
    requires k < |heads| && InOrder(heads[k..], strpos, |str|)
    ensures heads[k].size < TWO64 && strpos <= heads[k].offset <= |str|
    ensures InOrder(heads[k + 1..], heads[k].offset, |str|)
    ensures |Assemble(str, heads[k..], strpos)| >= |str[strpos..heads[k].offset]| + HeadSize(heads[k].size)
    ensures done + Assemble(str, heads[k..], strpos)
         == ((done + str[strpos..heads[k].offset]) + ListHeadBytes(heads[k].size)
             + Assemble(str, heads[k + 1..], heads[k].offset))
  {
    assert heads[k..][0] == heads[k] && heads[k..][1..] == heads[k + 1..];
    InOrderBounds(heads[k..], strpos, |str|);
    var a, b := str[strpos..heads[k].offset], ListHeadBytes(heads[k].size);
    var c := Assemble(str, heads[k + 1..], heads[k].offset);
    Assoc(done, a + b, c);
    Assoc(done, a, b);
  }
}
