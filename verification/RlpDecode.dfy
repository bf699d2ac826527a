/** Decoding undoes encoding, and accepts nothing else. */
module RlpDecode {
  import opened Bytes
  import opened Common
  import opened RlpSpec
  import opened RlpStream

  /** The header bytes of a value of a given kind and size; a single byte is its own header. */
  function Header(kind: Kind, size: uint64, byteval: byte): seq<byte> {
    match kind
    case Unknown => []
    case Byte => [byteval]
    case String => Head(STRING_SMALL, STRING_LARGE, size)
    case ListOf => Head(LIST_SMALL, LIST_LARGE, size)
  }

  /** Reading an n-byte number succeeds exactly on n available bytes without a leading zero. */
  lemma ReadUintExact(s: Stream, n: nat)
    requires Valid(s) && 1 <= n <= 8
    ensures ReadUint(s, n).1.Ok? <==> CanRead(s, n) && (n == 1 || s.input[0] != 0)
    ensures ReadUint(s, n).1.Ok? ==>
              && Value(s.input[..n]) < TWO64
              && ReadUint(s, n) == (Advance(s, n), Ok(Value(s.input[..n])))
              && BigEndian(Value(s.input[..n])) == s.input[..n]
  {
    ReadFullOk(s, n);
    if CanRead(s, n) {
      var b := s.input[..n];
      ValueFits(b);
      if n == 1 {
        assert b[..0] == [];
      }
      if n == 1 || b[0] != 0 {
        BigEndianOfValue(b);
      }
    }
  }

  /** Header fields as they are cached once the header of the value ahead has been read. */
  function Cached(s: Stream, kind: Kind, size: uint64, byteval: byte): Stream {
    s.(kind := kind, size := size, byteval := byteval, kinderr := None)
  }

  /** The value announced by a header fits the innermost list, or the limit outside of lists. */
  predicate Fits(s: Stream, head: nat, size: uint64) {
    && (s.stack != [] ==> Top(s).pos + head + size <= Top(s).size)
    && (s.stack == [] && s.limited ==> head + size <= s.remaining)
  }

  /** A long header: tag byte, then the size in as many bytes as the tag says. */
  lemma ReadSizeExact(s: Stream, kind: Kind, n: nat)
    requires Valid(s) && 1 <= n <= 8
    ensures var r := ReadSize(s, kind, n);
            r.3 == None <==> CanRead(s, n) && (n == 1 || s.input[0] != 0) && Value(s.input[..n]) >= 56
    ensures var r := ReadSize(s, kind, n);
            r.3 == None ==>
              && 56 <= Value(s.input[..n]) < TWO64
              && r == (Advance(s, n), kind, Value(s.input[..n]), None)
              && BigEndian(Value(s.input[..n])) == s.input[..n]
  {
    ReadUintExact(s, n);
  }

  lemma TagAndSize(input: seq<byte>, n: nat, v: uint64)
    requires 1 <= n && 1 + n <= |input| && BigEndian(v) == input[1..][..n]
    ensures [input[0]] + BigEndian(v) == input[..1 + n]
  {
  }

  /** The size after a tag byte, read from the stream before the tag. */
  lemma SizeAfterTag(s: Stream, kind: Kind, n: nat)
    requires Valid(s) && CanRead(s, 1) && 1 <= n <= 8
    ensures var (s', k, v, err) := ReadSize(Advance(s, 1).(byteval := 0), kind, n);
            err == None ==>
              && k == kind && v >= 56 && CanRead(s, 1 + n) && s' == Advance(s, 1 + n).(byteval := 0)
              && BigEndian(v) == s.input[1..][..n]
  {
    AdvanceTwice(s, 1, n);
    ReadSizeExact(Advance(s, 1).(byteval := 0), kind, n);
  }

  lemma LongHead(small: byte, large: byte, v: uint64, n: nat)
    requires v >= 56 && n == |BigEndian(v)| <= 8 && small <= 0xC0 && large <= 0xF7
    ensures Head(small, large, v) == [large + n] + BigEndian(v)
  {
  }

  /** A long header that is accepted is the header the encoder writes for the size it announces. */
  lemma LongHeader(s: Stream, kind: Kind, small: byte, large: byte, n: nat)
    requires Valid(s) && CanRead(s, 1) && 1 <= n <= 8
    requires small <= 0xC0 && large <= 0xF7 && s.input[0] == large + n
    ensures var (s', k, v, err) := ReadSize(Advance(s, 1).(byteval := 0), kind, n);
            err == None ==>
              && k == kind && v >= 56 && |Head(small, large, v)| == 1 + n
              && CanRead(s, 1 + n) && s' == Advance(s, 1 + n).(byteval := 0)
              && s.input[..1 + n] == Head(small, large, v)
  {
    SizeAfterTag(s, kind, n);
    var (s', k, v, err) := ReadSize(Advance(s, 1).(byteval := 0), kind, n);
    if err == None {
      TagAndSize(s.input, n, v);
      LongHead(small, large, v, n);
    }
  }

  /** The step from `s` to `t` read exactly the header the encoder writes for this kind and size. */
  predicate HeaderRead(s: Stream, t: Stream, k: Kind, size: uint64) {
    var n := |Header(k, size, t.byteval)|;
    && k != Unknown && n >= 1
    && (if k == Byte then t.byteval < 0x80 && size == 0 else t.byteval == 0)
    && CanRead(s, n) && s.input[..n] == Header(k, size, t.byteval)
    && t == Advance(s, n).(byteval := t.byteval)
  }

  lemma ReadKindShort(s: Stream)
    requires Valid(s) && CanRead(s, 1) && (s.input[0] < 0xB8 || 0xC0 <= s.input[0] < 0xF8)
    ensures var (t, k, size, err) := ReadKind(s); err == None && HeaderRead(s, t, k, size)
  {
    ReadFullOk(s, 1);
    assert s.input[..1] == [s.input[0]];
  }

  lemma ReadKindTag(s: Stream, kind: Kind, n: nat)
    requires Valid(s) && CanRead(s, 1) && 1 <= n <= 8
    requires (kind == String && s.input[0] == 0xB7 + n) || (kind == ListOf && s.input[0] == 0xF7 + n)
    ensures ReadKind(s) == ReadSize(Advance(s, 1).(byteval := 0), kind, n)
  {
    ReadFullOk(s, 1);
    assert s.input[..1] == [s.input[0]];
  }

  lemma ReadKindLong(s: Stream, kind: Kind, n: nat)
    requires Valid(s) && CanRead(s, 1) && 1 <= n <= 8
    requires (kind == String && s.input[0] == 0xB7 + n) || (kind == ListOf && s.input[0] == 0xF7 + n)
    ensures var (t, k, size, err) := ReadSize(Advance(s, 1).(byteval := 0), kind, n);
            err == None ==> HeaderRead(s, t, k, size)
  {
    if kind == String {
      LongHeader(s, String, STRING_SMALL, STRING_LARGE, n);
    } else {
      LongHeader(s, ListOf, LIST_SMALL, LIST_LARGE, n);
    }
  }

  /** Every accepted header is canonical: reading it consumes exactly the bytes the encoder would have written. */
  lemma ReadKindSound(s: Stream)
    requires Valid(s)
    ensures var (t, k, size, err) := ReadKind(s); err == None ==> HeaderRead(s, t, k, size)
  {
    ReadFullOk(s, 1);
    if CanRead(s, 1) {
      var b := s.input[0];
      if 0xB8 <= b < 0xC0 {
        ReadKindTag(s, String, b - 0xB7);
        ReadKindLong(s, String, b - 0xB7);
      } else if 0xF8 <= b {
        ReadKindTag(s, ListOf, b - 0xF7);
        ReadKindLong(s, ListOf, b - 0xF7);
      } else {
        ReadKindShort(s);
      }
    }
  }

  lemma NextKindSound(s: Stream)
    requires Valid(s) && s.kind == Unknown && s.kinderr == None
    ensures NextKind(s).1.Ok? ==>
              var (t, r) := NextKind(s);
              var (k, size) := r.value;
              var n := |Header(k, size, t.byteval)|;
              && k != Unknown && n >= 1 && (if k == Byte then t.byteval < 0x80 && size == 0 else t.byteval == 0)
              && CanRead(s, n) && s.input[..n] == Header(k, size, t.byteval)
              && t == Cached(Advance(s, n), k, size, t.byteval)
              && Fits(s, n, size) && Valid(t)
  {
    assert s.(kinderr := None) == s;
    ReadKindSound(s);
    var (t, k, size, err) := ReadKind(s);
    if NextKind(s).1.Ok? {
      AdvanceTwice(s, |Header(k, size, t.byteval)|, 0);
    }
  }

  lemma LongHeaderBytes(input: seq<byte>, small: byte, large: byte, size: uint64, m: nat)
    requires size >= 56 && small <= 0xC0 && large <= 0xF7 && m == |BigEndian(size)|
    requires 1 + m <= |input| && input[..1 + m] == Head(small, large, size)
    ensures 1 <= m <= 8 && input[0] == large + m && input[1..][..m] == BigEndian(size)
  {
    Uint64Length(size);
    var head := input[..1 + m];
    assert head[0] == input[0] && head[1..] == BigEndian(size);
    assert input[1..][..m] == head[1..];
  }

  lemma ReadSizeComplete(s: Stream, kind: Kind, size: uint64, m: nat)
    requires Valid(s) && size >= 56 && m == |BigEndian(size)| && 1 <= m <= 8
    requires CanRead(s, m) && s.input[..m] == BigEndian(size)
    ensures ReadSize(s, kind, m) == (Advance(s, m), kind, size, None)
  {
    ValueOfBigEndian(size);
    assert s.input[..m][0] == s.input[0];
    ReadSizeExact(s, kind, m);
  }

  /** The first byte of a long header tells kind and length of the header, and the rest its size. */
  lemma LongHeaderComplete(s: Stream, kind: Kind, small: byte, large: byte, size: uint64, m: nat)
    requires Valid(s) && size >= 56 && small <= 0xC0 && large <= 0xF7 && m == |BigEndian(size)|
    requires CanRead(s, 1 + m) && s.input[..1 + m] == Head(small, large, size)
    ensures 1 <= m <= 8 && CanRead(s, 1) && s.input[0] == large + m
    ensures ReadSize(Advance(s, 1).(byteval := 0), kind, m) == (Advance(s, 1 + m).(byteval := 0), kind, size, None)
  {
    LongHeaderBytes(s.input, small, large, size, m);
    AdvanceTwice(s, 1, m);
    ReadSizeComplete(Advance(s, 1).(byteval := 0), kind, size, m);
  }

  lemma ShortKindComplete(s: Stream, k: Kind, size: uint64, byteval: byte)
    requires Valid(s) && k != Unknown && size < 56
    requires if k == Byte then byteval < 0x80 && size == 0 else byteval == 0
    requires |Header(k, size, byteval)| == 1 && CanRead(s, 1) && s.input[0] == Header(k, size, byteval)[0]
    ensures ReadKind(s) == (Advance(s, 1).(byteval := byteval), k, size, None)
  {
    ReadFullOk(s, 1);
    assert s.input[..1] == [s.input[0]];
  }

  lemma LongKindComplete(s: Stream, k: Kind, size: uint64, m: nat)
    requires Valid(s) && (k == String || k == ListOf) && size >= 56 && m == |BigEndian(size)|
    requires CanRead(s, 1 + m) && s.input[..1 + m] == Header(k, size, 0)
    ensures ReadKind(s) == (Advance(s, 1 + m).(byteval := 0), k, size, None)
  {
    if k == String {
      LongHeaderComplete(s, String, STRING_SMALL, STRING_LARGE, size, m);
    } else {
      LongHeaderComplete(s, ListOf, LIST_SMALL, LIST_LARGE, size, m);
    }
    ReadKindTag(s, k, m);
  }

  lemma ReadKindComplete(s: Stream, k: Kind, size: uint64, byteval: byte)
    requires Valid(s) && k != Unknown && (if k == Byte then byteval < 0x80 && size == 0 else byteval == 0)
    requires CanRead(s, |Header(k, size, byteval)|) && s.input[..|Header(k, size, byteval)|] == Header(k, size, byteval)
    ensures ReadKind(s) == (Advance(s, |Header(k, size, byteval)|).(byteval := byteval), k, size, None)
  {
    if size >= 56 {
      Uint64Length(size);
      LongKindComplete(s, k, size, |BigEndian(size)|);
    } else {
      var n := |Header(k, size, byteval)|;
      assert s.input[..n][0] == s.input[0];
      ShortKindComplete(s, k, size, byteval);
    }
  }

  /** What was read of the header is cached if the value fits. */
  lemma FetchComplete(s: Stream, n: nat, k: Kind, size: uint64, byteval: byte)
    requires Valid(s) && s.kind == Unknown && s.kinderr == None && k != Unknown && n >= 1 && CanRead(s, n)
    requires ReadKind(s) == (Advance(s, n).(byteval := byteval), k, size, None) && Fits(s, n, size)
    ensures NextKind(s) == (Cached(Advance(s, n), k, size, byteval), Ok((k, size))) && Valid(NextKind(s).0)
  {
    assert s.(kinderr := None) == s;
    AdvanceTwice(s, n, 0);
  }

  /** Every header the encoder writes is accepted where its value fits. */
  lemma NextKindComplete(s: Stream, k: Kind, size: uint64, byteval: byte)
    requires Valid(s) && s.kind == Unknown && s.kinderr == None
    requires k != Unknown && (if k == Byte then byteval < 0x80 && size == 0 else byteval == 0)
    requires CanRead(s, |Header(k, size, byteval)|) && s.input[..|Header(k, size, byteval)|] == Header(k, size, byteval)
    requires Fits(s, |Header(k, size, byteval)|, size)
    ensures var n := |Header(k, size, byteval)|;
            NextKind(s) == (Cached(Advance(s, n), k, size, byteval), Ok((k, size)))
    ensures Valid(NextKind(s).0)
  {
    ReadKindComplete(s, k, size, byteval);
    FetchComplete(s, |Header(k, size, byteval)|, k, size, byteval);
  }
}
