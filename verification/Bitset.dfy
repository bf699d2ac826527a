/**
  * Sparse bitset compression: data is replaced by its non-zero bytes and a bitset that tells where they go, and
  * the bitset is compressed the same way.
  */
module Bitset {

  type Octet = bv8

  datatype Error = MissingData | UnreferencedData | ExceededTarget | ZeroContent

  datatype Result<+T> = Ok(value: T) | Err(error: Error)

  /** `1 << (7 - k)`: bit k of a byte, counted from the most significant. */
  function Mask(k: nat): Octet
    requires k < 8
  {
    if k == 0 then 0x80 else if k == 1 then 0x40 else if k == 2 then 0x20 else if k == 3 then 0x10
    else if k == 4 then 0x08 else if k == 5 then 0x04 else if k == 6 then 0x02 else 0x01
  }

  predicate Bit(b: Octet, k: nat)
    requires k < 8
  {
    b & Mask(k) != 0
  }

  predicate BitAt(bits: seq<Octet>, i: nat)
    requires i < 8 * |bits|
  {
    Bit(bits[i / 8], i % 8)
  }

  lemma BitOfOr(b: Octet, j: nat, k: nat)
    requires j < 8 && k < 8
    ensures Bit(b | Mask(j), k) <==> j == k || Bit(b, k)
  {
  }

  lemma SameBits(a: Octet, b: Octet)
    requires forall k: nat :: k < 8 ==> (Bit(a, k) <==> Bit(b, k))
    ensures a == b
  {
    assert forall k: nat | k < 8 :: Bit(a, k) <==> Bit(b, k);
    assert Bit(a, 0) <==> Bit(b, 0);
    assert Bit(a, 1) <==> Bit(b, 1);
    assert Bit(a, 2) <==> Bit(b, 2);
    assert Bit(a, 3) <==> Bit(b, 3);
    assert Bit(a, 4) <==> Bit(b, 4);
    assert Bit(a, 5) <==> Bit(b, 5);
    assert Bit(a, 6) <==> Bit(b, 6);
    assert Bit(a, 7) <==> Bit(b, 7);
  }

  function Zeros(n: nat): (r: seq<Octet>)
    ensures |r| == n && forall i :: 0 <= i < n ==> r[i] == 0
  {
    seq(n, _ => 0)
  }

  predicate AllZero(d: seq<Octet>) {
    forall i :: 0 <= i < |d| ==> d[i] == 0
  }

  /** The bytes of `d` that are not zero, in order. */
  function NonZero(d: seq<Octet>): seq<Octet> {
    if d == [] then [] else (if d[0] != 0 then [d[0]] else []) + NonZero(d[1..])
  }

  /** The bitset of the non-zero bytes among the first `i`. */
  function Marks(d: seq<Octet>, i: nat): (r: seq<Octet>)
    requires i <= |d|
    ensures |r| == (|d| + 7) / 8
  {
    if i == 0 then Zeros((|d| + 7) / 8)
    else if d[i - 1] != 0 then WithBit(Marks(d, i - 1), i - 1)
    else Marks(d, i - 1)
  }

  function WithBit(bits: seq<Octet>, i: nat): (r: seq<Octet>)
    requires i < 8 * |bits|
    ensures |r| == |bits|
  {
    bits[i / 8 := bits[i / 8] | Mask(i % 8)]
  }

  /** `bits` has one bit for each byte of `d`, set where the byte is not zero, and padding clear. */
  predicate IsBitset(bits: seq<Octet>, d: seq<Octet>, upto: nat) {
    && |bits| == (|d| + 7) / 8
    && forall i :: 0 <= i < 8 * |bits| ==> (BitAt(bits, i) <==> i < |d| && i < upto && d[i] != 0)
  }

  lemma SetBitAt(bits: seq<Octet>, at: nat, k: nat)
    requires at < 8 * |bits| && k < 8 * |bits|
    ensures BitAt(bits[at / 8 := bits[at / 8] | Mask(at % 8)], k) <==> k == at || BitAt(bits, k)
  {
    BitOfOr(bits[at / 8], at % 8, k % 8);
    assert k == at <==> k / 8 == at / 8 && k % 8 == at % 8;
  }

  lemma {:induction false} MarksAre(d: seq<Octet>, i: nat)
    requires i <= |d|
    ensures IsBitset(Marks(d, i), d, i)
  {
    if i > 0 {
      MarksAre(d, i - 1);
      var r := Marks(d, i - 1);
      var at := i - 1;
      if d[at] != 0 {
        forall k | 0 <= k < 8 * |r| ensures BitAt(Marks(d, i), k) <==> k == at || BitAt(r, k) {
          SetBitAt(r, at, k);
        }
      }
    }
  }

  /** A bitset is determined by its bits. */
  lemma BitsetUnique(a: seq<Octet>, b: seq<Octet>)
    requires |a| == |b| && forall i :: 0 <= i < 8 * |a| ==> (BitAt(a, i) <==> BitAt(b, i))
    ensures a == b
  {
    forall j | 0 <= j < |a| ensures a[j] == b[j] {
      forall k: nat | k < 8 ensures Bit(a[j], k) <==> Bit(b[j], k) {
        assert BitAt(a, 8 * j + k) <==> BitAt(b, 8 * j + k);
      }
      SameBits(a[j], b[j]);
    }
  }

  function Encode(d: seq<Octet>): seq<Octet>
    decreases |d|
  {
    if |d| == 0 then []
    else if |d| == 1 then if d[0] == 0 then [] else d
    else if NonZero(d) == [] then []
    else Encode(Marks(d, |d|)) + NonZero(d)
  }

  /** The bits of a bitset, one after the other. */
  function Bits(bits: seq<Octet>): (r: seq<bool>)
    ensures |r| == 8 * |bits| && forall i :: 0 <= i < |r| ==> (r[i] <==> BitAt(bits, i))
  {
    seq(8 * |bits|, i requires 0 <= i < 8 * |bits| => BitAt(bits, i))
  }

  /** Distributes data bytes from `ptr` on to the marked places from `i` on. */
  function Spread(data: seq<Octet>, ptr: nat, marks: seq<bool>, i: nat, out: seq<Octet>): Result<(seq<Octet>, nat)>
    requires i <= |marks|
    decreases |marks| - i
  {
    if i == |marks| then Ok((out, ptr))
    else if !marks[i] then Spread(data, ptr, marks, i + 1, out)
    else if ptr >= |data| then Err(MissingData)
    else if i >= |out| then Err(ExceededTarget)
    else if data[ptr] == 0 then Err(ZeroContent)
    else Spread(data, ptr + 1, marks, i + 1, out[i := data[ptr]])
  }

  /** Decodes `target` bytes from the front of `data` and tells how much of it was used. */
  function DecodePartial(data: seq<Octet>, target: nat): Result<(seq<Octet>, nat)>
    decreases target
  {
    if target == 0 then Ok(([], 0))
    else if data == [] then Ok((Zeros(target), 0))
    else if target == 1 then Ok(([data[0]], if data[0] != 0 then 1 else 0))
    else
      var bits := DecodePartial(data, (target + 7) / 8);
      if bits.Err? then bits else Spread(data, bits.value.1, Bits(bits.value.0), 0, Zeros(target))
  }

  function Decode(data: seq<Octet>, target: nat): Result<seq<Octet>> {
    var r := DecodePartial(data, target);
    if r.Err? then Err(r.error)
    else if r.value.1 != |data| then Err(UnreferencedData)
    else Ok(r.value.0)
  }

  function Compress(d: seq<Octet>): seq<Octet> {
    if |Encode(d)| < |d| then Encode(d) else d
  }

  function Decompress(data: seq<Octet>, target: nat): Result<seq<Octet>> {
    if |data| > target then Err(ExceededTarget)
    else if |data| == target then Ok(data)
    else Decode(data, target)
  }

  // ------------------------------------------------------------------------------- soundness

  lemma {:induction false} NonZeroEmpty(d: seq<Octet>)
    ensures NonZero(d) == [] <==> AllZero(d)
  {
    if d != [] {
      NonZeroEmpty(d[1..]);
    }
  }

  /** Only zeros are encoded to nothing. */
  lemma {:induction false} EncodeEmpty(d: seq<Octet>)
    ensures Encode(d) == [] <==> AllZero(d)
  {
    NonZeroEmpty(d);
  }

  /** There is a mark exactly where `d` is not zero. */
  predicate Marked(marks: seq<bool>, d: seq<Octet>, from: nat) {
    forall k :: from <= k < |marks| ==> (marks[k] <==> k < |d| && d[k] != 0)
  }

  /** A successful distribution puts a non-zero byte exactly where a mark is, and uses only places that exist. */
  lemma {:induction false} SpreadSound(data: seq<Octet>, ptr: nat, marks: seq<bool>, i: nat, out: seq<Octet>)
    requires i <= |marks| && ptr <= |data| && (forall k :: i <= k < |out| ==> out[k] == 0)
    requires Spread(data, ptr, marks, i, out).Ok?
    ensures var (o, end) := Spread(data, ptr, marks, i, out).value;
            && |o| == |out| && ptr <= end <= |data|
            && (forall k :: 0 <= k < |o| && k < i ==> o[k] == out[k])
            && Marked(marks, o, i)
    decreases |marks| - i
  {
    if i < |marks| {
      if marks[i] {
        SpreadSound(data, ptr + 1, marks, i + 1, out[i := data[ptr]]);
      } else {
        SpreadSound(data, ptr, marks, i + 1, out);
      }
    }
  }

  function Tail(d: seq<Octet>, i: nat): seq<Octet> {
    if i <= |d| then d[i..] else []
  }

  lemma TailStep(d: seq<Octet>, i: nat)
    ensures NonZero(Tail(d, i)) == (if i < |d| && d[i] != 0 then [d[i]] else []) + NonZero(Tail(d, i + 1))
  {
    if i < |d| {
      assert d[i..][1..] == d[i + 1..];
    }
  }

  lemma SliceUncons(data: seq<Octet>, ptr: nat, end: nat)
    requires ptr < end <= |data|
    ensures data[ptr..end] == [data[ptr]] + data[ptr + 1..end]
  {
  }

  /** The bytes used are the non-zero bytes of the result. */
  lemma {:induction false} SpreadBytes(data: seq<Octet>, ptr: nat, marks: seq<bool>, i: nat, out: seq<Octet>,
                                       o: seq<Octet>, end: nat)
    requires i <= |marks| && ptr <= |data| && |out| <= |marks| && (forall k :: i <= k < |out| ==> out[k] == 0)
    requires Spread(data, ptr, marks, i, out) == Ok((o, end))
    ensures ptr <= end <= |data| && NonZero(Tail(o, i)) == data[ptr..end]
    decreases |marks| - i
  {
    SpreadSound(data, ptr, marks, i, out);
    if i == |marks| {
      assert Tail(o, i) == [];
    } else {
      TailStep(o, i);
      if marks[i] {
        var out' := out[i := data[ptr]];
        SpreadBytes(data, ptr + 1, marks, i + 1, out', o, end);
        SpreadSound(data, ptr + 1, marks, i + 1, out');
        SliceUncons(data, ptr, end);
      } else {
        SpreadBytes(data, ptr, marks, i + 1, out, o, end);
      }
    }
  }

  /** Whatever is decoded encodes to exactly the bytes that were used, for every target size. */
  lemma {:induction false} DecodePartialSound(data: seq<Octet>, target: nat)
    requires DecodePartial(data, target).Ok?
    ensures var (o, n) := DecodePartial(data, target).value;
            |o| == target && n <= |data| && Encode(o) == data[..n]
    decreases target
  {
    var (o, n) := DecodePartial(data, target).value;
    if target == 0 {
    } else if data == [] {
      EncodeEmpty(o);
    } else if target == 1 {
      assert data[0] != 0 ==> data[..1] == [data[0]];
    } else {
      var m := (target + 7) / 8;
      DecodePartialSound(data, m);
      var (bits, p) := DecodePartial(data, m).value;
      SpreadEncodes(data, p, bits, target, o, n);
    }
  }

  lemma MarksBack(o: seq<Octet>, bits: seq<Octet>)
    requires |bits| == (|o| + 7) / 8 && Marked(Bits(bits), o, 0)
    ensures Marks(o, |o|) == bits
  {
    MarksAre(o, |o|);
    BitsetUnique(Marks(o, |o|), bits);
  }

  /** Marks and bytes that are distributed successfully encode the result. */
  lemma {:induction false} SpreadEncodes(data: seq<Octet>, p: nat, bits: seq<Octet>, target: nat, o: seq<Octet>, n: nat)
    requires target > 1 && |bits| == (target + 7) / 8 && p <= |data| && Encode(bits) == data[..p]
    requires Spread(data, p, Bits(bits), 0, Zeros(target)) == Ok((o, n))
    ensures |o| == target && n <= |data| && Encode(o) == data[..n]
  {
    SpreadSound(data, p, Bits(bits), 0, Zeros(target));
    SpreadBytes(data, p, Bits(bits), 0, Zeros(target), o, n);
    assert Tail(o, 0) == o;
    MarksBack(o, bits);
    if NonZero(o) == [] {
      NonZeroEmpty(o);
      EncodeEmpty(bits);
      ClearBits(bits);
    } else {
      assert data[..n] == data[..p] + data[p..n];
    }
  }

  /** Bytes without a set bit are zero. */
  lemma ClearBits(bits: seq<Octet>)
    requires forall i :: 0 <= i < 8 * |bits| ==> !BitAt(bits, i)
    ensures AllZero(bits)
  {
    var z := Zeros(|bits|);
    assert forall i :: 0 <= i < 8 * |z| ==> !BitAt(z, i);
    BitsetUnique(bits, z);
  }

  // ---------------------------------------------------------------------------- completeness

  lemma SliceCons(data: seq<Octet>, ptr: nat, end: nat, x: Octet, rest: seq<Octet>)
    requires ptr <= end <= |data| && data[ptr..end] == [x] + rest
    ensures ptr < end && data[ptr] == x && data[ptr + 1..end] == rest
  {
    var w := data[ptr..end];
    assert w[0] == x && w[1..] == rest;
    assert data[ptr + 1..end] == w[1..];
  }

  /** `out` is `d` up to position `i` and zero from there on. */
  predicate Filled(out: seq<Octet>, d: seq<Octet>, i: nat) {
    |out| == |d| && forall k :: 0 <= k < |d| ==> out[k] == if k < i then d[k] else 0
  }

  lemma FilledStep(out: seq<Octet>, d: seq<Octet>, i: nat)
    requires Filled(out, d, i)
    ensures i >= |d| ==> out == d && Filled(out, d, i + 1)
    ensures i < |d| ==> Filled(out[i := d[i]], d, i + 1) && (d[i] == 0 ==> Filled(out, d, i + 1))
  {
  }

  /** With the marks and the non-zero bytes of `d`, the distribution rebuilds `d`. */
  lemma {:induction false} SpreadComplete(data: seq<Octet>, ptr: nat, end: nat, marks: seq<bool>, i: nat,
                                          out: seq<Octet>, d: seq<Octet>)
    requires i <= |marks| && |d| <= |marks| && Marked(marks, d, 0) && Filled(out, d, i)
    requires ptr <= end <= |data| && data[ptr..end] == NonZero(Tail(d, i))
    ensures Spread(data, ptr, marks, i, out) == Ok((d, end))
    decreases |marks| - i
  {
    FilledStep(out, d, i);
    if i == |marks| {
      assert Tail(d, i) == [];
    } else {
      TailStep(d, i);
      if marks[i] {
        SliceCons(data, ptr, end, d[i], NonZero(Tail(d, i + 1)));
        SpreadComplete(data, ptr + 1, end, marks, i + 1, out[i := d[i]], d);
      } else {
        SpreadComplete(data, ptr, end, marks, i + 1, out, d);
      }
    }
  }

  /** An encoding that is not empty is decoded from the front of any input. */
  lemma {:induction false} DecodePartialComplete(d: seq<Octet>, rest: seq<Octet>)
    requires Encode(d) != []
    ensures DecodePartial(Encode(d) + rest, |d|) == Ok((d, |Encode(d)|))
    decreases |d|
  {
    var data := Encode(d) + rest;
    if |d| == 1 {
      assert data[0] == d[0] && [data[0]] == d;
    } else {
      var bits, nz := Marks(d, |d|), NonZero(d);
      MarksAre(d, |d|);
      MarksNonZero(d);
      EncodeEmpty(bits);
      DecodePartialComplete(bits, nz + rest);
      Concat3(Encode(bits), nz, rest);
      assert Tail(d, 0) == d;
      SpreadComplete(data, |Encode(bits)|, |Encode(d)|, Bits(bits), 0, Zeros(|d|), d);
    }
  }

  lemma Concat3(a: seq<Octet>, b: seq<Octet>, c: seq<Octet>)
    ensures (a + b) + c == a + (b + c) && ((a + b) + c)[|a|..|a| + |b|] == b
  {
  }

  lemma MarksNonZero(d: seq<Octet>)
    requires NonZero(d) != []
    ensures !AllZero(Marks(d, |d|))
  {
    NonZeroEmpty(d);
    MarksAre(d, |d|);
    var i :| 0 <= i < |d| && d[i] != 0;
    assert BitAt(Marks(d, |d|), i);
  }

  /** Without a mark nothing is used and nothing is put anywhere. */
  lemma {:induction false} SpreadNothing(data: seq<Octet>, ptr: nat, marks: seq<bool>, i: nat, out: seq<Octet>)
    requires i <= |marks| && forall k | 0 <= k < |marks| :: !marks[k]
    ensures Spread(data, ptr, marks, i, out) == Ok((out, ptr))
    decreases |marks| - i
  {
    if i < |marks| {
      SpreadNothing(data, ptr, marks, i + 1, out);
    }
  }

  lemma {:induction false} ZeroFront(data: seq<Octet>, target: nat)
    requires data == [] || data[0] == 0
    ensures DecodePartial(data, target) == Ok((Zeros(target), 0))
    decreases target
  {
    if target == 0 {
      assert Zeros(0) == [];
    } else if data != [] && target == 1 {
      assert [data[0]] == Zeros(1);
    } else if data != [] {
      var m := (target + 7) / 8;
      ZeroFront(data, m);
      assert forall k | 0 <= k < 8 * m :: !BitAt(Zeros(m), k);
      SpreadNothing(data, 0, Bits(Zeros(m)), 0, Zeros(target));
    }
  }

  /** What begins with a non-zero byte is not taken for nothing. */
  lemma {:induction false} NonZeroFront(data: seq<Octet>, target: nat)
    requires target > 0 && data != [] && data[0] != 0 && DecodePartial(data, target).Ok?
    ensures DecodePartial(data, target).value.1 > 0
    decreases target
  {
    if target > 1 {
      var m := (target + 7) / 8;
      NonZeroFront(data, m);
      DecodePartialSound(data, m);
      var (bits, p) := DecodePartial(data, m).value;
      SpreadSound(data, p, Bits(bits), 0, Zeros(target));
    }
  }

  /**
    * An encoding is decoded, and used up exactly, from the front of an input, except if it is empty, because the data
    * are zeros, and a non-zero byte follows.
    */
  lemma DecodePartialExact(d: seq<Octet>, rest: seq<Octet>)
    ensures DecodePartial(Encode(d) + rest, |d|) == Ok((d, |Encode(d)|))
       <==> !AllZero(d) || d == [] || rest == [] || rest[0] == 0
  {
    EncodeEmpty(d);
    if !AllZero(d) {
      DecodePartialComplete(d, rest);
    } else {
      assert Encode(d) + rest == rest && d == Zeros(|d|);
      if d == [] || rest == [] || rest[0] == 0 {
        EmptyOrZeroFront(rest, |d|);
      } else if DecodePartial(rest, |d|).Ok? {
        NonZeroFront(rest, |d|);
      }
    }
  }

  lemma EmptyOrZeroFront(rest: seq<Octet>, n: nat)
    requires n == 0 || rest == [] || rest[0] == 0
    ensures DecodePartial(rest, n) == Ok((Zeros(n), 0))
  {
    if n > 0 {
      ZeroFront(rest, n);
    } else {
      assert Zeros(0) == [];
    }
  }

  // ------------------------------------------------------------------------------- theorems

  /** The code is a bijection: decoding succeeds with `o` exactly on the encoding of `o`, and at its length. */
  lemma DecodeExact(data: seq<Octet>, target: nat, o: seq<Octet>)
    ensures Decode(data, target) == Ok(o) <==> |o| == target && Encode(o) == data
  {
    if Decode(data, target) == Ok(o) {
      DecodePartialSound(data, target);
      assert data[..|data|] == data;
    }
    if |o| == target && Encode(o) == data {
      EncodeEmpty(o);
      if data == [] {
        assert o == Zeros(target);
      } else {
        DecodePartialComplete(o, []);
        assert data + [] == data;
      }
    }
  }

  /** What was compressed is decompressed. */
  lemma CompressRoundTrip(d: seq<Octet>)
    ensures Decompress(Compress(d), |d|) == Ok(d)
  {
    DecodeExact(Encode(d), |d|, d);
  }

  /** Input of the target's own length is taken as uncompressed, whether or not it could have been compressed. */
  lemma UncompressedNotCanonical()
    ensures Decompress([0, 0], 2) == Ok([0, 0]) && Compress([0, 0]) != [0, 0]
  {
    EncodeEmpty([0, 0]);
  }

  /**
    * Decompression is canonical exactly up to that case: an accepted input is the compression of its output if
    * and only if it is shorter than the output or would not have been shortened.
    */
  lemma DecompressCanonical(data: seq<Octet>, target: nat)
    requires Decompress(data, target).Ok?
    ensures |Decompress(data, target).value| == target
    ensures Compress(Decompress(data, target).value) == data <==> |data| < target || |Encode(data)| >= |data|
  {
    if |data| < target {
      DecodeExact(data, target, Decompress(data, target).value);
    }
  }

  // -------------------------------------------------------------------------- the byte loops

  lemma {:induction false} NonZeroAppend(a: seq<Octet>, x: Octet)
    ensures NonZero(a + [x]) == NonZero(a) + if x != 0 then [x] else []
  {
    var t := a + [x];
    var last := if x != 0 then [x] else [];
    if a == [] {
      assert t == [x] && [x][1..] == [];
    } else {
      NonZeroAppend(a[1..], x);
      assert t[0] == a[0] && t[1..] == a[1..] + [x];
      Concat3(if a[0] != 0 then [a[0]] else [], NonZero(a[1..]), last);
    }
  }

  method SetBit(bits: array<Octet>, i: nat)
    requires i < 8 * bits.Length
    modifies bits
    ensures bits[..] == WithBit(old(bits[..]), i)
  {
    bits[i / 8] := bits[i / 8] | Mask(i % 8);
  }

  method MarkByte(bits: array<Octet>, data: seq<Octet>, i: nat)
    requires i < |data| && bits[..] == Marks(data, i)
    modifies bits
    ensures bits[..] == Marks(data, i + 1)
  {
    if data[i] != 0 {
      SetBit(bits, i);
    }
  }

  method ClearBitset(n: nat) returns (bits: array<Octet>)
    ensures fresh(bits) && bits[..] == Zeros(n)
  {
    bits := new Octet[n](_ => 0);
  }

  lemma NonZeroNext(data: seq<Octet>, i: nat)
    requires i < |data|
    ensures NonZero(data[..i + 1]) == if data[i] != 0 then NonZero(data[..i]) + [data[i]] else NonZero(data[..i])
  {
    NonZeroAppend(data[..i], data[i]);
    assert data[..i + 1] == data[..i] + [data[i]];
  }

  /** Collects the non-zero bytes and marks their places. */
  method Collect(data: seq<Octet>) returns (nonZeroBitset: seq<Octet>, nonZeroBytes: seq<Octet>)
    ensures nonZeroBitset == Marks(data, |data|) && nonZeroBytes == NonZero(data)
  {
    var bits := ClearBitset((|data| + 7) / 8);
    nonZeroBytes := [];
    for i := 0 to |data|
      invariant bits[..] == Marks(data, i)
      invariant nonZeroBytes == NonZero(data[..i])
    {
      NonZeroNext(data, i);
      if data[i] != 0 {
        nonZeroBytes := nonZeroBytes + [data[i]];
      }
      MarkByte(bits, data, i);
    }
    assert data[..|data|] == data;
    nonZeroBitset := bits[..];
  }

  /** Short data is kept or dropped; other data is its non-zero bytes behind the encoded marks. */
  method BitsetEncodeBytes(data: seq<Octet>) returns (out: seq<Octet>)
    ensures out == Encode(data)
    decreases |data|
  {
    if |data| == 0 {
      return [];
    }
    if |data| == 1 {
      return if data[0] == 0 then [] else data;
    }
    var nonZeroBitset, nonZeroBytes := Collect(data);
    if |nonZeroBytes| == 0 {
      return [];
    }
    var front := BitsetEncodeBytes(nonZeroBitset);
    out := front + nonZeroBytes;
  }

  method IsSet(bitset: seq<Octet>, i: nat) returns (r: bool)
    requires i < 8 * |bitset|
    ensures r == Bits(bitset)[i]
  {
    r := bitset[i / 8] & Mask(i % 8) != 0;
  }

  method SetOctet(a: array<Octet>, i: nat, x: Octet)
    requires i < a.Length
    modifies a
    ensures a[..] == old(a[..])[i := x]
  {
    a[i] := x;
  }

  /** Puts the data bytes from `start` on where the bitset says, and tells where the unused data begins. */
  method Distribute(data: seq<Octet>, start: nat, bitset: seq<Octet>, decomp: array<Octet>) returns (r: Result<nat>)
    modifies decomp
    ensures Spread(data, start, Bits(bitset), 0, old(decomp[..]))
         == if r.Ok? then Ok((decomp[..], r.value)) else Err(r.error)
  {
    var ptr: nat := start;
    ghost var marks := Bits(bitset);
    for i := 0 to 8 * |bitset|
      invariant Spread(data, start, marks, 0, old(decomp[..])) == Spread(data, ptr, marks, i, decomp[..])
    {
      var marked := IsSet(bitset, i);
      if marked {
        if ptr >= |data| {
          return Err(MissingData);
        }
        if i >= decomp.Length {
          return Err(ExceededTarget);
        }
        if data[ptr] == 0 {
          return Err(ZeroContent);
        }
        SetOctet(decomp, i, data[ptr]);
        ptr := ptr + 1;
      }
    }
    r := Ok(ptr);
  }

  /** Decodes the bitset first and then distributes the data bytes behind it. */
  method BitsetDecodePartialBytes(data: seq<Octet>, target: nat) returns (r: Result<(seq<Octet>, nat)>)
    ensures r == DecodePartial(data, target)
    decreases target
  {
    if target == 0 {
      return Ok(([], 0));
    }
    var decomp := new Octet[target](_ => 0);
    assert decomp[..] == Zeros(target);
    if |data| == 0 {
      return Ok((decomp[..], 0));
    }
    if target == 1 {
      decomp[0] := data[0];
      assert decomp[..] == [data[0]];
      return Ok((decomp[..], if data[0] != 0 then 1 else 0));
    }
    var bits := BitsetDecodePartialBytes(data, (target + 7) / 8);
    if bits.Err? {
      return bits;
    }
    var end := Distribute(data, bits.value.1, bits.value.0, decomp);
    r := if end.Ok? then Ok((decomp[..], end.value)) else Err(end.error);
  }

  /** The shorter of the bitset code and the data itself; either way it decompresses to the data. */
  method CompressBytes(data: seq<Octet>) returns (out: seq<Octet>)
    ensures out == Compress(data) && |out| <= |data|
    ensures Decompress(out, |data|) == Ok(data)
  {
    CompressRoundTrip(data);
    out := BitsetEncodeBytes(data);
    if |out| >= |data| {
      out := data;
    }
  }

  method DecompressBytes(data: seq<Octet>, target: nat) returns (r: Result<seq<Octet>>)
    ensures r == Decompress(data, target)
    ensures r.Ok? && |data| < target ==> |r.value| == target && Compress(r.value) == data
  {
    if |data| > target {
      return Err(ExceededTarget);
    }
    if |data| == target {
      return Ok(data);
    }
    var partial := BitsetDecodePartialBytes(data, target);
    if partial.Err? {
      return Err(partial.error);
    }
    if partial.value.1 != |data| {
      return Err(UnreferencedData);
    }
    DecompressCanonical(data, target);
    r := Ok(partial.value.0);
  }
}
