/**
  * RLPx framing (p2p/rlpx.go): what one endpoint writes, the other reads, with cipher positions and message
  * authentication states in lockstep. The key stream, block cipher, hash, key agreement and compression are arbitrary
  * functions; of compression the law `Snappy` is used.
  */
module Rlpx {
  import opened Bytes
  import opened ByteXor
  import opened Common
  import RlpStream
  import RlpStreamRuns

  const MAX_UINT24: nat := 0xFF_FFFF
  const TWO32: nat := 0x1_0000_0000

  datatype Error = Short | MessageTooLarge | SizeOverflow | BadHeaderMac | BadFrameMac | BadCode | BadSnappy

  datatype Result<+T> = Ok(value: T) | Err(error: Error)

  datatype Prims = Prims(
    stream: (seq<byte>, nat) -> byte, block: (seq<byte>, seq<byte>) -> seq<byte>, hash: seq<byte> -> seq<byte>,
    compress: seq<byte> -> seq<byte>, decodedLen: seq<byte> -> Option<nat>, decompress: seq<byte> -> Option<seq<byte>>)

  /** Decompression undoes compression, which never makes a message much longer. */
  ghost predicate Snappy(p: Prims) {
    forall x ::
      && p.decodedLen(p.compress(x)) == Some(|x|) && p.decompress(p.compress(x)) == Some(x)
      && |p.compress(x)| <= 32 + |x| + |x| / 6
  }

  // ------------------------------------------------------------------------------ ciphers, hash

  datatype Keys = Keys(aes: seq<byte>, mac: seq<byte>)

  /** One direction of a connection: how much of the key stream is used up, and what the hash has absorbed. */
  datatype Dir = Dir(pos: nat, mac: seq<byte>)

  /** Encrypts and decrypts, from a position of the key stream on. */
  function Xored(p: Prims, k: Keys, pos: nat, data: seq<byte>): (r: seq<byte>)
    ensures |r| == |data|
  {
    seq(|data|, i requires 0 <= i < |data| => Xor(data[i], p.stream(k.aes, pos + i)))
  }

  lemma XoredTwice(p: Prims, k: Keys, pos: nat, data: seq<byte>)
    ensures Xored(p, k, pos, Xored(p, k, pos, data)) == data
  {
    forall i | 0 <= i < |data| ensures Xored(p, k, pos, Xored(p, k, pos, data))[i] == data[i] {
      XorUndo(data[i], p.stream(k.aes, pos + i));
    }
  }

  function Zeros(n: nat): (r: seq<byte>)
    ensures |r| == n
  {
    seq(n, _ => 0)
  }

  /** The first 16 bytes of a hash sum or cipher block. */
  function Take16(x: seq<byte>): (r: seq<byte>)
    ensures |r| == 16
  {
    if |x| >= 16 then x[..16] else Zeros(16)
  }

  function XorSeed(a: seq<byte>, b: seq<byte>): (r: seq<byte>)
    requires |a| == |b| == 16
    ensures |r| == 16
  {
    seq(16, i requires 0 <= i < 16 => Xor(a[i], b[i]))
  }

  /** Reseeds a hash; the tag is the first 16 bytes of its new sum. */
  function UpdateMac(p: Prims, k: Keys, mac: seq<byte>, seed: seq<byte>): seq<byte> {
    mac + XorSeed(Take16(p.block(k.mac, Take16(p.hash(mac)))), Take16(seed))
  }

  function Tag(p: Prims, mac: seq<byte>): (r: seq<byte>)
    ensures |r| == 16
  {
    Take16(p.hash(mac))
  }

  // -------------------------------------------------------------------------------- the header

  function PutInt24(v: nat): (r: seq<byte>)
    requires v <= MAX_UINT24
    ensures |r| == 3
  {
    var high: int, middle: int, low: int := v / 0x1_0000, v / 0x100 % 0x100, v % 0x100;
    [high, middle, low]
  }

  function ReadInt24(b: seq<byte>): (r: nat)
    requires |b| >= 3
    ensures r <= MAX_UINT24
  {
    var high: int, middle: int, low: int := b[0], b[1], b[2];
    low + 0x100 * middle + 0x1_0000 * high
  }

  lemma Int24RoundTrip(v: nat, rest: seq<byte>)
    requires v <= MAX_UINT24
    ensures ReadInt24(PutInt24(v) + rest) == v
  {
    assert v / 0x1_0000 == v / 0x100 / 0x100;
  }

  function Header(fsize: nat): (r: seq<byte>)
    requires fsize <= MAX_UINT24
    ensures |r| == 16
  {
    PutInt24(fsize) + ([0xC2, 0x80, 0x80] + Zeros(10))
  }

  function Padding(fsize: nat): (r: nat)
    ensures (fsize + r) % 16 == 0 && r < 16
  {
    if fsize % 16 > 0 then 16 - fsize % 16 else 0
  }

  // -------------------------------------------------------------------------------- the frame

  /** A frame: encrypted header, its tag, encrypted content, its tag. */
  function Seal(p: Prims, k: Keys, d: Dir, fsize: nat, content: seq<byte>): (Dir, seq<byte>)
    requires fsize <= MAX_UINT24
  {
    var head := Xored(p, k, d.pos, Header(fsize));
    var mac1 := UpdateMac(p, k, d.mac, head);
    var body := Xored(p, k, d.pos + 16, content);
    var mac2 := UpdateMac(p, k, mac1 + body, p.hash(mac1 + body));
    (Dir(d.pos + 16 + |content|, mac2), ((head + Tag(p, mac1)) + body) + Tag(p, mac2))
  }

  /** Reads and checks the header; what follows it in the input is untouched. */
  function OpenHeader(p: Prims, k: Keys, d: Dir, input: seq<byte>): (Dir, seq<byte>, Result<nat>) {
    if |input| < 32 then (d, [], Err(Short))
    else
      var mac := UpdateMac(p, k, d.mac, input[..16]);
      if Tag(p, mac) != input[16..32] then (d.(mac := mac), input[32..], Err(BadHeaderMac))
      else (Dir(d.pos + 16, mac), input[32..], Ok(ReadInt24(Xored(p, k, d.pos, input[..16]))))
  }

  function OpenBody(p: Prims, k: Keys, d: Dir, fsize: nat, input: seq<byte>): (Dir, seq<byte>, Result<seq<byte>>) {
    var rsize := fsize + Padding(fsize);
    if |input| < rsize then (d, [], Err(Short))
    else
      var mac := d.mac + input[..rsize];
      if |input| < rsize + 16 then (d.(mac := mac), [], Err(Short))
      else
        var mac' := UpdateMac(p, k, mac, p.hash(mac));
        if Tag(p, mac') != input[rsize..rsize + 16] then (d.(mac := mac'), input[rsize + 16..], Err(BadFrameMac))
        else (Dir(d.pos + rsize, mac'), input[rsize + 16..], Ok(Xored(p, k, d.pos, input[..rsize])[..fsize]))
  }

  function Open(p: Prims, k: Keys, d: Dir, input: seq<byte>): (Dir, seq<byte>, Result<seq<byte>>) {
    var (d, rest, r) := OpenHeader(p, k, d, input);
    match r
    case Err(e) => (d, rest, Err(e))
    case Ok(fsize) => OpenBody(p, k, d, fsize, rest)
  }

  lemma FirstPart(a: seq<byte>, b: seq<byte>, c: seq<byte>, n: nat, m: nat)
    requires |a| == n && |b| == m
    ensures var s := (a + b) + c; s[..n] == a && s[n..n + m] == b && s[n + m..] == c
  {
  }

  lemma OpenHeaderSealed(p: Prims, k: Keys, d: Dir, fsize: nat, rest: seq<byte>)
    requires fsize <= MAX_UINT24
    ensures var head := Xored(p, k, d.pos, Header(fsize));
            var mac := UpdateMac(p, k, d.mac, head);
            OpenHeader(p, k, d, (head + Tag(p, mac)) + rest) == (Dir(d.pos + 16, mac), rest, Ok(fsize))
  {
    var head := Xored(p, k, d.pos, Header(fsize));
    FirstPart(head, Tag(p, UpdateMac(p, k, d.mac, head)), rest, 16, 16);
    XoredTwice(p, k, d.pos, Header(fsize));
    Int24RoundTrip(fsize, [0xC2, 0x80, 0x80] + Zeros(10));
  }

  lemma OpenBodySealed(p: Prims, k: Keys, d: Dir, fsize: nat, content: seq<byte>, rest: seq<byte>)
    requires |content| == fsize + Padding(fsize)
    ensures var body := Xored(p, k, d.pos, content);
            var mac := UpdateMac(p, k, d.mac + body, p.hash(d.mac + body));
            OpenBody(p, k, d, fsize, (body + Tag(p, mac)) + rest)
            == (Dir(d.pos + |content|, mac), rest, Ok(content[..fsize]))
  {
    var body := Xored(p, k, d.pos, content);
    FirstPart(body, Tag(p, UpdateMac(p, k, d.mac + body, p.hash(d.mac + body))), rest, |content|, 16);
    XoredTwice(p, k, d.pos, content);
  }

  lemma Regroup(a: seq<byte>, b: seq<byte>, c: seq<byte>, d: seq<byte>)
    ensures ((a + b) + c) + d == a + ((b + c) + d)
  {
  }

  lemma BodyFollows(p: Prims, k: Keys, d: Dir, input: seq<byte>, d': Dir, rest: seq<byte>, fsize: nat)
    requires OpenHeader(p, k, d, input) == (d', rest, Ok(fsize))
    ensures Open(p, k, d, input) == OpenBody(p, k, d', fsize, rest)
  {
  }

  /** Opening a sealed frame gives the content, and leaves both ends of the direction in the same state. */
  lemma OpenSealed(p: Prims, k: Keys, d: Dir, fsize: nat, content: seq<byte>, rest: seq<byte>)
    requires fsize <= MAX_UINT24 && |content| == fsize + Padding(fsize)
    ensures var (d', wire) := Seal(p, k, d, fsize, content);
            Open(p, k, d, wire + rest) == (d', rest, Ok(content[..fsize]))
  {
    var head := Xored(p, k, d.pos, Header(fsize));
    var mac1 := UpdateMac(p, k, d.mac, head);
    var body := Xored(p, k, d.pos + 16, content);
    var mac2 := UpdateMac(p, k, mac1 + body, p.hash(mac1 + body));
    var after := (body + Tag(p, mac2)) + rest;
    Regroup(head + Tag(p, mac1), body, Tag(p, mac2), rest);
    OpenHeaderSealed(p, k, d, fsize, after);
    BodyFollows(p, k, d, (head + Tag(p, mac1)) + after, Dir(d.pos + 16, mac1), after, fsize);
    OpenBodySealed(p, k, Dir(d.pos + 16, mac1), fsize, content, rest);
  }

  // ------------------------------------------------------------------------------- the message

  /** `size` is the size the sender announces; it is a 32-bit number. */
  datatype Msg = Msg(code: uint64, size: nat, payload: seq<byte>)

  /** The message as its sender should give it: it announces the payload's size, and the frame size does not wrap. */
  predicate Sound(m: Msg) {
    m.size == |m.payload| && |RlpStreamRuns.EncodeUint(m.code)| + m.size < TWO32
  }

  function Compressed(p: Prims, m: Msg): Msg {
    var payload := p.compress(m.payload);
    m.(payload := payload, size := |payload| % TWO32)
  }

  function FrameSize(m: Msg): nat {
    (|RlpStreamRuns.EncodeUint(m.code)| + m.size) % TWO32
  }

  function Content(m: Msg): seq<byte> {
    (RlpStreamRuns.EncodeUint(m.code) + m.payload) + Zeros(Padding(FrameSize(m)))
  }

  function WriteFrame(p: Prims, k: Keys, d: Dir, m: Msg): (Dir, Result<seq<byte>>) {
    if FrameSize(m) > MAX_UINT24 then (d, Err(SizeOverflow))
    else
      var (d', wire) := Seal(p, k, d, FrameSize(m), Content(m));
      (d', Ok(wire))
  }

  function WriteMsg(p: Prims, k: Keys, snappy: bool, d: Dir, m: Msg): (Dir, Result<seq<byte>>) {
    if !snappy then WriteFrame(p, k, d, m)
    else if m.size > MAX_UINT24 then (d, Err(MessageTooLarge))
    else WriteFrame(p, k, d, Compressed(p, m))
  }

  function DecodeContent(content: seq<byte>): Result<Msg>
    requires |content| <= MAX_UINT24
  {
    var (s, r) := RlpStream.NextUint(RlpStream.NewStream(content), 8);
    match r
    case Err(_) => Err(BadCode)
    case Ok(code) => Ok(Msg(code, |s.input|, s.input))
  }

  function Decompressed(p: Prims, m: Msg): Result<Msg> {
    match p.decodedLen(m.payload)
    case None => Err(BadSnappy)
    case Some(size) =>
      if size > MAX_UINT24 then Err(MessageTooLarge)
      else
        match p.decompress(m.payload)
        case None => Err(BadSnappy)
        case Some(payload) => Ok(Msg(m.code, size, payload))
  }

  function DecodeMsg(p: Prims, snappy: bool, content: seq<byte>): Result<Msg>
    requires |content| <= MAX_UINT24
  {
    match DecodeContent(content)
    case Err(e) => Err(e)
    case Ok(m) => if snappy then Decompressed(p, m) else Ok(m)
  }

  lemma OpenBounds(p: Prims, k: Keys, d: Dir, input: seq<byte>)
    ensures var r := Open(p, k, d, input).2; r.Ok? ==> |r.value| <= MAX_UINT24
  {
  }

  function ReadMsg(p: Prims, k: Keys, snappy: bool, d: Dir, input: seq<byte>): (Dir, seq<byte>, Result<Msg>) {
    OpenBounds(p, k, d, input);
    var (d', rest, r) := Open(p, k, d, input);
    match r
    case Err(e) => (d', rest, Err(e))
    case Ok(content) => (d', rest, DecodeMsg(p, snappy, content))
  }

  // -------------------------------------------------------------------------------- round trip

  lemma DecodeContentExact(code: uint64, payload: seq<byte>)
    requires |RlpStreamRuns.EncodeUint(code)| + |payload| <= MAX_UINT24
    ensures DecodeContent(RlpStreamRuns.EncodeUint(code) + payload) == Ok(Msg(code, |payload|, payload))
  {
    var head := RlpStreamRuns.EncodeUint(code);
    var s := RlpStream.NewStream(head + payload);
    assert (head + payload)[..|head|] == head && (head + payload)[|head|..] == payload;
    Uint64Length(code);
    RlpStreamRuns.UintComplete(s, code, 8);
    RlpStreamRuns.UintSound(s, 8);
  }

  lemma FrameSizeSound(m: Msg)
    requires Sound(m)
    ensures FrameSize(m) == |RlpStreamRuns.EncodeUint(m.code)| + |m.payload|
  {
  }

  lemma ContentFront(m: Msg, plain: seq<byte>, n: nat)
    requires plain == RlpStreamRuns.EncodeUint(m.code) + m.payload && n == FrameSize(m) == |plain|
    ensures |Content(m)| == n + Padding(n) && Content(m)[..n] == plain
  {
  }

  /** A frame that is written is read back, from any input it is followed by. */
  lemma FrameReadBack(p: Prims, k: Keys, d: Dir, m: Msg, rest: seq<byte>)
    requires Sound(m) && WriteFrame(p, k, d, m).1.Ok?
    ensures var (d', r) := WriteFrame(p, k, d, m);
            Open(p, k, d, r.value + rest) == (d', rest, Ok(RlpStreamRuns.EncodeUint(m.code) + m.payload))
  {
    FrameSizeSound(m);
    ContentFront(m, RlpStreamRuns.EncodeUint(m.code) + m.payload, FrameSize(m));
    OpenSealed(p, k, d, FrameSize(m), Content(m), rest);
  }

  lemma DecompressedBack(p: Prims, m: Msg)
    requires Snappy(p) && m.size == |m.payload| <= MAX_UINT24
    ensures Decompressed(p, Msg(m.code, |p.compress(m.payload)|, p.compress(m.payload))) == Ok(m)
  {
  }

  lemma DecodeMsgExact(p: Prims, m: Msg)
    requires Snappy(p) && Sound(m) && m.size <= MAX_UINT24 && FrameSize(Compressed(p, m)) <= MAX_UINT24
    ensures var c := Compressed(p, m);
            && Sound(c) && |RlpStreamRuns.EncodeUint(c.code) + c.payload| <= MAX_UINT24
            && DecodeMsg(p, true, RlpStreamRuns.EncodeUint(c.code) + c.payload) == Ok(m)
  {
    CompressedSound(p, m);
    FrameSizeSound(Compressed(p, m));
    DecodeContentExact(m.code, p.compress(m.payload));
    DecompressedBack(p, m);
  }

  lemma CompressedReadBack(p: Prims, k: Keys, d: Dir, m: Msg, rest: seq<byte>)
    requires Snappy(p) && Sound(m) && WriteMsg(p, k, true, d, m).1.Ok?
    ensures var (d', r) := WriteMsg(p, k, true, d, m); ReadMsg(p, k, true, d, r.value + rest) == (d', rest, Ok(m))
  {
    DecodeMsgExact(p, m);
    FrameReadBack(p, k, d, Compressed(p, m), rest);
  }

  lemma PlainReadBack(p: Prims, k: Keys, d: Dir, m: Msg, rest: seq<byte>)
    requires Sound(m) && WriteMsg(p, k, false, d, m).1.Ok?
    ensures var (d', r) := WriteMsg(p, k, false, d, m); ReadMsg(p, k, false, d, r.value + rest) == (d', rest, Ok(m))
  {
    FrameReadBack(p, k, d, m, rest);
    DecodeContentExact(m.code, m.payload);
  }

  /** Written messages are read back, and both ends of the direction stay in step. */
  lemma MessageReadBack(p: Prims, k: Keys, snappy: bool, d: Dir, m: Msg, rest: seq<byte>)
    requires Snappy(p) && Sound(m) && WriteMsg(p, k, snappy, d, m).1.Ok?
    ensures var (d', r) := WriteMsg(p, k, snappy, d, m);
            ReadMsg(p, k, snappy, d, r.value + rest) == (d', rest, Ok(m))
  {
    if snappy {
      CompressedReadBack(p, k, d, m, rest);
    } else {
      PlainReadBack(p, k, d, m, rest);
    }
  }

  lemma CodeSize(code: uint64)
    ensures |RlpStreamRuns.EncodeUint(code)| <= 9
  {
    Uint64Length(code);
  }

  lemma CompressedSound(p: Prims, m: Msg)
    requires Snappy(p) && Sound(m) && m.size <= MAX_UINT24
    ensures Sound(Compressed(p, m))
  {
    CodeSize(m.code);
    CompressedBound(p, m.payload, m.size);
    WrapsOnce(|p.compress(m.payload)|);
  }

  lemma CompressedBound(p: Prims, x: seq<byte>, n: nat)
    requires Snappy(p) && n == |x| <= MAX_UINT24
    ensures |p.compress(x)| + 9 < TWO32
  {
    assert |p.compress(x)| <= 32 + n + n / 6;
  }

  /** A message is refused, with nothing written and nothing changed, or goes out in one frame. */
  lemma RefusedUnchanged(p: Prims, k: Keys, snappy: bool, d: Dir, m: Msg)
    requires WriteMsg(p, k, snappy, d, m).1.Err?
    ensures WriteMsg(p, k, snappy, d, m).0 == d
  {
  }

  /**
    * For a payload of the announced 32-bit size, written without compression: the header states the frame's true size
    * exactly if code and payload together stay below 4 GiB. From there on the sum wraps around, and the message is
    * accepted with a header that is wrong.
    */
  lemma HeaderSizeExact(p: Prims, k: Keys, d: Dir, m: Msg)
    requires m.size == |m.payload| < TWO32
    ensures FrameSize(m) == |RlpStreamRuns.EncodeUint(m.code)| + |m.payload| <==> Sound(m)
    ensures Sound(m) ==> (WriteMsg(p, k, false, d, m).1.Ok? <==> FrameSize(m) <= MAX_UINT24)
    ensures !Sound(m) ==> WriteMsg(p, k, false, d, m).1.Ok? && FrameSize(m) < 9
  {
    CodeSize(m.code);
    WrapsOnce(|RlpStreamRuns.EncodeUint(m.code)| + m.size);
  }

  lemma WrapsOnce(n: nat)
    requires n < TWO32 + 9
    ensures n % TWO32 == if n < TWO32 then n else n - TWO32
  {
  }

  /** An input on which it is wrong: one byte of code and 2^32 - 1 of payload go out under the frame size zero. */
  lemma HugeMessageWraps(p: Prims, k: Keys, d: Dir)
    ensures var m := Msg(0, 0xFFFF_FFFF, Zeros(0xFFFF_FFFF));
            !Sound(m) && FrameSize(m) == 0 && WriteMsg(p, k, false, d, m).1.Ok?
  {
    var m := Msg(0, 0xFFFF_FFFF, Zeros(0xFFFF_FFFF));
    assert |RlpStreamRuns.EncodeUint(m.code)| == 1;
    HeaderSizeExact(p, k, d, m);
  }
}
