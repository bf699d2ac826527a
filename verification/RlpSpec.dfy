/**
  * Recursive Length Prefix, as the Ethereum Yellow Paper's Appendix B defines it: the item tree and its
  * recursive encoding. Both the deferred-header encoder and the stream decoder are proved against it.
  */
module RlpSpec {
  import opened Bytes

  datatype Item = Str(bytes: seq<byte>) | List(items: seq<Item>)

  const STRING_SMALL: byte := 0x80
  const STRING_LARGE: byte := 0xB7
  const LIST_SMALL: byte := 0xC0
  const LIST_LARGE: byte := 0xF7

  /** Size of the header in front of `size` bytes of content. */
  function HeadSize(size: nat): nat {
    if size < 56 then 1 else 1 + |BigEndian(size)|
  }

  /** The header itself, with one of the two tag pairs (0x80, 0xB7) and (0xC0, 0xF7). */
  function Head(small: byte, large: byte, size: nat): (r: seq<byte>)
    requires size < TWO64
    requires small <= 0xC0 && large <= 0xF7
    ensures |r| == HeadSize(size)
  {
    if size < 56 then [small + size]
    else
      Uint64Length(size);
      [large + |BigEndian(size)|] + BigEndian(size)
  }

  predicate SingleByte(b: seq<byte>) {
    |b| == 1 && b[0] <= 0x7F
  }

  function EncSize(v: Item): nat
    decreases v, 1
  {
    match v
    case Str(b) => if SingleByte(b) then 1 else HeadSize(|b|) + |b|
    case List(items) => HeadSize(EncSizeAll(items)) + EncSizeAll(items)
  }

  function EncSizeAll(vs: seq<Item>): nat
    decreases vs, 0
  {
    if vs == [] then 0 else EncSize(vs[0]) + EncSizeAll(vs[1..])
  }

  /** Every content size can be written in a header: it fits 64 bits. */
  predicate Encodable(v: Item)
    decreases v, 1
  {
    match v
    case Str(b) => |b| < TWO64
    case List(items) => EncSizeAll(items) < TWO64 && EncodableAll(items)
  }

  predicate EncodableAll(vs: seq<Item>)
    decreases vs, 0
  {
    vs == [] || (Encodable(vs[0]) && EncodableAll(vs[1..]))
  }

  function EncodeStr(b: seq<byte>): seq<byte>
    requires |b| < TWO64
  {
    if SingleByte(b) then b else Head(STRING_SMALL, STRING_LARGE, |b|) + b
  }

  function Encode(v: Item): (r: seq<byte>)
    requires Encodable(v)
    ensures |r| == EncSize(v) >= 1
    decreases v, 1
  {
    match v
    case Str(b) => EncodeStr(b)
    case List(items) => Head(LIST_SMALL, LIST_LARGE, EncSizeAll(items)) + EncodeAll(items)
  }

  function EncodeAll(vs: seq<Item>): (r: seq<byte>)
    requires EncodableAll(vs)
    ensures |r| == EncSizeAll(vs)
    decreases vs, 0
  {
    if vs == [] then [] else Encode(vs[0]) + EncodeAll(vs[1..])
  }

  /** An unsigned integer is encoded as its minimal big-endian string, zero as the empty string. */
  function UintBytes(i: nat): seq<byte> {
    if i == 0 then [] else BigEndian(i)
  }

  lemma {:induction false} EncodableAppend(vs: seq<Item>, ws: seq<Item>)
    ensures EncodableAll(vs + ws) <==> EncodableAll(vs) && EncodableAll(ws)
    ensures EncSizeAll(vs + ws) == EncSizeAll(vs) + EncSizeAll(ws)
  {
    var t := vs + ws;
    if vs == [] {
      assert t == ws;
    } else {
      EncodableAppend(vs[1..], ws);
      assert t[0] == vs[0] && t[1..] == vs[1..] + ws;
    }
  }

  lemma {:induction false} EncodeAllAppend(vs: seq<Item>, ws: seq<Item>)
    requires EncodableAll(vs) && EncodableAll(ws)
    ensures EncodableAll(vs + ws)
    ensures EncodeAll(vs + ws) == EncodeAll(vs) + EncodeAll(ws)
  {
    EncodableAppend(vs, ws);
    var t := vs + ws;
    if vs == [] {
      assert t == ws;
    } else {
      EncodeAllAppend(vs[1..], ws);
      assert t[0] == vs[0] && t[1..] == vs[1..] + ws;
      Assoc(Encode(vs[0]), EncodeAll(vs[1..]), EncodeAll(ws));
    }
  }
}
