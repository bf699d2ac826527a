/** What every sequence of `Stream` calls keeps, whatever the input and whatever fails on the way. */
module RlpStreamRuns {
  import opened Bytes
  import opened Common
  import opened RlpSpec
  import opened RlpStream
  import opened RlpDecode
  import opened RlpRoundTrip

  datatype Call = CallKind | CallList | CallListEnd | CallBytes | CallRaw | CallUint(bytes: nat)

  /** The state after a call; the result of the call, error or not, does not matter here. */
  function Do(s: Stream, c: Call): Stream {
    match c
    case CallKind => NextKind(s).0
    case CallList => OpenList(s).0
    case CallListEnd => CloseList(s).0
    case CallBytes => NextBytes(s).0
    case CallRaw => NextRaw(s).0
    case CallUint(n) => if n <= 8 then NextUint(s, n).0 else s
  }

  function Run(s: Stream, calls: seq<Call>): Stream
    decreases |calls|
  {
    if calls == [] then s else Run(Do(s, calls[0]), calls[1..])
  }

  /** Bytes that may still be read before the outermost list of `stack` ends. */
  function Room(stack: seq<Frame>): int
    requires stack != []
  {
    if |stack| == 1 then stack[0].size - stack[0].pos
    else stack[0].size - stack[0].pos - stack[1].size + Room(stack[1..])
  }

  /**
    * A step that keeps the list at depth `d` open takes from its room at least what it takes from the input.
    */
  predicate Within(s: Stream, d: nat, t: Stream) {
    && |t.input| <= |s.input|
    && (d < |s.stack| && d < |t.stack| ==> |s.input| - |t.input| <= Room(s.stack[d..]) - Room(t.stack[d..]))
  }

  /** Reading moves the innermost list only, and takes the bytes from every list around it. */
  lemma {:induction false} BumpRoom(stack: seq<Frame>, d: nat, n: nat)
    requires d < |stack| && stack[|stack| - 1].pos + n <= stack[|stack| - 1].size
    ensures Room(Bump(stack, n)[d..]) == Room(stack[d..]) - n
    decreases |stack| - d
  {
    var b := Bump(stack, n);
    if d < |stack| - 1 {
      BumpRoom(stack, d + 1, n);
      assert stack[d..][1..] == stack[d + 1..] && b[d..][1..] == b[d + 1..];
    }
  }

  lemma {:induction false} PushRoom(stack: seq<Frame>, d: nat, f: Frame)
    requires d < |stack| && f.pos == 0
    ensures Room((stack + [f])[d..]) == Room(stack[d..])
    decreases |stack| - d
  {
    var b := stack + [f];
    assert b[d..][1..] == b[d + 1..];
    if d < |stack| - 1 {
      PushRoom(stack, d + 1, f);
      assert stack[d..][1..] == stack[d + 1..];
    }
  }

  lemma {:induction false} NestedRoom(stack: seq<Frame>, d: nat)
    requires Nested(stack) && d < |stack|
    ensures 0 <= Room(stack[d..]) <= stack[d].size - stack[d].pos
    decreases |stack| - d
  {
    if d < |stack| - 1 {
      NestedRoom(stack, d + 1);
      assert stack[d..][1..] == stack[d + 1..];
    }
  }

  /** A read keeps the invariant and stays inside every open list, whether it succeeds or not. */
  lemma ReadFullStep(s: Stream, n: nat, d: nat)
    requires Valid(s)
    ensures var t := ReadFull(s, n).0; Valid(t) && Within(s, d, t) && |t.stack| == |s.stack| && t.kind == Unknown
  {
    ReadFullOk(s, n);
    var t := ReadFull(s, n).0;
    if s.stack != [] && Top(s).pos + n > Top(s).size {
      assert t == s.(kind := Unknown);
    } else {
      assert t.stack == Bump(s.stack, n) && |t.input| <= |s.input| <= |t.input| + n;
      if d < |s.stack| {
        BumpRoom(s.stack, d, n);
      }
    }
  }

  /** The invariant, and a step inside the open lists that opens or closes none. */
  predicate Kept(s: Stream, d: nat, t: Stream) {
    Valid(t) && Within(s, d, t) && |t.stack| == |s.stack|
  }

  lemma KeptTrans(s: Stream, d: nat, t: Stream, t': Stream, u: Stream)
    requires Kept(s, d, t) && t'.input == t.input && t'.stack == t.stack && Kept(t', d, u)
    ensures Kept(s, d, u)
  {
    assert |u.stack| == |s.stack|;
  }

  lemma ReadSizeStep(s: Stream, kind: Kind, n: nat, d: nat)
    requires Valid(s) && n <= 8
    ensures Kept(s, d, ReadSize(s, kind, n).0)
  {
    ReadUintStep(s, n, d);
  }

  lemma ReadUintStep(s: Stream, n: nat, d: nat)
    requires Valid(s) && n <= 8
    ensures Kept(s, d, ReadUint(s, n).0)
  {
    ReadFullStep(s, 1, d);
    ReadFullStep(s, n, d);
  }

  lemma ReadKindStep(s: Stream, d: nat)
    requires Valid(s)
    ensures Kept(s, d, ReadKind(s).0)
  {
    ReadFullStep(s, 1, d);
    var (s1, r) := ReadByte(s);
    var t := ReadKind(s).0;
    if r.Ok? && (0xB8 <= r.value < 0xC0 || 0xF8 <= r.value) {
      var (kind, n) := if r.value < 0xC0 then (String, r.value - 0xB7) else (ListOf, r.value - 0xF7);
      var s2 := s1.(byteval := 0);
      assert t == ReadSize(s2, kind, n).0;
      ReadSizeStep(s2, kind, n, d);
      KeptTrans(s, d, s1, s2, t);
    } else {
      assert t.input == s1.input && t.stack == s1.stack && t.kind == s1.kind == Unknown;
      KeptTrans(s, d, s1, t, t);
    }
  }

  /** A step that reads nothing. */
  lemma SameKept(s: Stream, d: nat, t: Stream)
    requires Valid(t) && t.input == s.input && t.stack == s.stack
    ensures Kept(s, d, t)
  {
  }

  lemma FetchKindStep(s: Stream, d: nat)
    requires Valid(s) && s.kind == Unknown
    ensures Kept(s, d, FetchKind(s))
  {
    var s0, f := s.(kinderr := None), FetchKind(s);
    ReadKindStep(s0, d);
    SameKept(s, d, s0);
    SameKept(ReadKind(s0).0, d, f);
    KeptTrans(s, d, s0, s0, ReadKind(s0).0);
    KeptTrans(s, d, ReadKind(s0).0, ReadKind(s0).0, f);
  }

  lemma NextKindStep(s: Stream, d: nat)
    requires Valid(s)
    ensures Kept(s, d, NextKind(s).0)
  {
    if s.kind == Unknown {
      FetchKindStep(s, d);
      SameKept(s, d, s.(kinderr := None));
    } else {
      SameKept(s, d, s);
    }
  }

  lemma NextRawStep(s: Stream, d: nat)
    requires Valid(s)
    ensures Kept(s, d, NextRaw(s).0)
  {
    NextKindStep(s, d);
    var (s1, r) := NextKind(s);
    if r.Ok? {
      ReadFullStep(s1, r.value.1, d);
      KeptTrans(s, d, s1, s1, ReadFull(s1, r.value.1).0);
    }
  }

  lemma NextBytesStep(s: Stream, d: nat)
    requires Valid(s)
    ensures Kept(s, d, NextBytes(s).0)
  {
    NextKindStep(s, d);
    var (s1, r) := NextKind(s);
    if r.Ok? {
      ReadFullStep(s1, r.value.1, d);
      KeptTrans(s, d, s1, s1, ReadFull(s1, r.value.1).0);
    }
  }

  lemma {:induction false} NextUintStep(s: Stream, n: nat, d: nat)
    requires Valid(s) && n <= 8
    ensures Kept(s, d, NextUint(s, n).0)
  {
    NextKindStep(s, d);
    var (s1, r) := NextKind(s);
    if r.Ok? && r.value.1 <= n {
      ReadUintStep(s1, r.value.1, d);
      KeptTrans(s, d, s1, s1, ReadUint(s1, r.value.1).0);
    }
  }

  lemma PushNested(stack: seq<Frame>, f: Frame)
    requires Nested(stack) && f.pos == 0
    requires stack != [] ==> stack[|stack| - 1].pos + f.size <= stack[|stack| - 1].size
    ensures Nested(stack + [f])
  {
  }

  /** Opening a list gives its bytes to the new list: the room of the lists around it stays. */
  lemma {:induction false} OpenListStep(s: Stream, d: nat)
    requires Valid(s)
    ensures Valid(OpenList(s).0) && Within(s, d, OpenList(s).0)
  {
    NextKindStep(s, d);
    NextKindShrinks(s);
    var (s1, r) := NextKind(s);
    if r.Ok? && r.value.0 == ListOf {
      var f := Frame(0, r.value.1);
      PushNested(s1.stack, f);
      if d < |s1.stack| {
        PushRoom(s1.stack, d, f);
      }
    }
  }

  lemma {:induction false} PopRoom(stack: seq<Frame>, n: nat, d: nat)
    requires d < n == |stack| - 1 && Nested(stack) && stack[n].pos == stack[n].size
    ensures Room(Bump(stack[..n], stack[n].size)[d..]) == Room(stack[d..])
    decreases n - d
  {
    var b := Bump(stack[..n], stack[n].size);
    assert stack[d..][1..] == stack[d + 1..] && b[d..][1..] == b[d + 1..];
    if d < n - 1 {
      PopRoom(stack, n, d + 1);
    } else {
      assert Room(stack[n..]) == 0;
    }
  }

  /** Closing a list advances the list around it by the closed list's size. */
  lemma CloseListStep(s: Stream, d: nat)
    requires Valid(s)
    ensures Valid(CloseList(s).0) && Within(s, d, CloseList(s).0)
  {
    if s.stack != [] && Top(s).pos == Top(s).size {
      PopStep(s, CloseList(s).0, |s.stack| - 1, d);
    }
  }

  lemma PopStep(s: Stream, t: Stream, n: nat, d: nat)
    requires Nested(s.stack) && n == |s.stack| - 1 && s.stack[n].pos == s.stack[n].size
    requires t.kind == Unknown && t.input == s.input && t.stack == Bump(s.stack[..n], s.stack[n].size)
    ensures Valid(t) && Within(s, d, t)
  {
    if n >= 1 {
      BumpNested(s.stack[..n], s.stack[n].size);
      if d < n {
        PopRoom(s.stack, n, d);
      }
    }
  }

  lemma DoStep(s: Stream, c: Call, d: nat)
    requires Valid(s)
    ensures Valid(Do(s, c)) && Within(s, d, Do(s, c))
  {
    match c
    case CallKind => NextKindStep(s, d);
    case CallList => OpenListStep(s, d);
    case CallListEnd => CloseListStep(s, d);
    case CallBytes => NextBytesStep(s, d);
    case CallRaw => NextRawStep(s, d);
    case CallUint(n) => if n <= 8 { NextUintStep(s, n, d); }
  }

  /** For every input and every sequence of calls, each open list stays within its bounds and its own list's. */
  lemma {:induction false} RunKeepsValid(s: Stream, calls: seq<Call>)
    requires Valid(s)
    ensures Valid(Run(s, calls))
    decreases |calls|
  {
    if calls != [] {
      DoStep(s, calls[0], 0);
      RunKeepsValid(Do(s, calls[0]), calls[1..]);
    }
  }

  /** The list at depth `d` is still open after every call. */
  predicate StaysOpen(s: Stream, calls: seq<Call>, d: nat)
    decreases |calls|
  {
    d < |s.stack| && (calls != [] ==> StaysOpen(Do(s, calls[0]), calls[1..], d))
  }

  /**
    * No read crosses the end of an enclosing list: over any sequence of calls during which a list stays open,
    * the bytes taken from the input are at most those the list had left.
    */
  lemma {:induction false} ReadsStayInside(s: Stream, calls: seq<Call>, d: nat)
    requires Valid(s) && StaysOpen(s, calls, d)
    ensures |s.input| - |Run(s, calls).input| <= s.stack[d].size - s.stack[d].pos
  {
    RunRoom(s, calls, d);
    RunKeepsValid(s, calls);
    NestedRoom(s.stack, d);
    NestedRoom(Run(s, calls).stack, d);
  }

  lemma {:induction false} RunRoom(s: Stream, calls: seq<Call>, d: nat)
    requires Valid(s) && StaysOpen(s, calls, d)
    ensures d < |Run(s, calls).stack|
    ensures |s.input| - |Run(s, calls).input| <= Room(s.stack[d..]) - Room(Run(s, calls).stack[d..])
    decreases |calls|
  {
    if calls != [] {
      DoStep(s, calls[0], d);
      RunRoom(Do(s, calls[0]), calls[1..], d);
    }
  }

  // ---------------------------------------------------------------------- raw values and integers

  lemma RawContent(s: Stream, n: nat, k: Kind, size: uint64, total: nat)
    requires Ready(s) && CanRead(s, n) && Fits(s, n, size) && (k == String || k == ListOf)
    requires n == |Header(k, size, 0)| && total == n + size && s.input[..n] == Header(k, size, 0)
    ensures var (t, r) := NextRaw(Cached(Advance(s, n), k, size, 0));
            r.Ok? ==> total <= |s.input| && s.input[..total] == r.value && t.input == s.input[total..]
  {
    var s1 := Cached(Advance(s, n), k, size, 0);
    assert NextKind(s1) == (s1, Ok((k, size)));
    AdvanceTwice(s, n, size);
    ReadFullOk(s1, size);
    if CanRead(s1, size) {
      var content := s1.input[..size];
      assert NextRaw(s1) == (Advance(s1, size), Ok(Header(k, size, 0) + content));
      HeadAndContent(s.input, n, size, Header(k, size, 0), content);
    }
  }

  lemma NextRawCached(s: Stream)
    requires NextKind(s).1.Ok?
    ensures NextRaw(NextKind(s).0) == NextRaw(s)
  {
    NextKindShrinks(s);
  }

  lemma RawReady(s: Stream)
    requires Ready(s)
    ensures var (t, r) := NextRaw(s);
            r.Ok? ==> r.value <= s.input && t.input == s.input[|r.value|..]
  {
    NextKindSound(s);
    var (s1, r1) := NextKind(s);
    if r1.Ok? {
      var (k, size) := r1.value;
      var n := |Header(k, size, s1.byteval)|;
      if k != Byte {
        NextRawCached(s);
        RawContent(s, n, k, size, n + size);
      }
    }
  }

  /** A raw value is byte for byte what was consumed, although its header is written anew. */
  lemma RawIsWhatWasRead(s: Stream)
    requires Valid(s) && s.kind == Unknown
    ensures var (t, r) := NextRaw(s);
            r.Ok? ==> r.value <= s.input && t.input == s.input[|r.value|..]
  {
    assert NextKind(s) == NextKind(s.(kinderr := None));
    RawReady(s.(kinderr := None));
  }

  /** The encoding of an unsigned integer. */
  function EncodeUint(v: uint64): (r: seq<byte>)
    ensures |r| >= 1
  {
    Uint64Length(v);
    EncodeStr(UintBytes(v))
  }

  /** An integer of known size is read like its digits, but not if it would have fitted the header byte. */
  lemma NextUintDigits(s: Stream, size: uint64, bytes: nat)
    requires NextKind(s) == (s, Ok((String, size))) && 1 <= size <= bytes <= 8
    ensures var (u, v) := ReadUint(s, size); var (t, r) := NextUint(s, bytes);
            && (r.Ok? <==> v.Ok? && v.value >= 128)
            && (r.Ok? ==> t == u && r == v)
  {
  }

  /** The digits of an integer ahead, once the header of their string has been read. */
  lemma {:induction false} UintContent(s: Stream, n: nat, size: uint64, bytes: nat, digits: seq<byte>)
    requires Ready(s) && CanRead(s, n) && Fits(s, n, size) && 1 <= size <= bytes <= 8
    requires CanRead(s, n + size) ==> digits == s.input[n..][..size]
    ensures var (t, r) := NextUint(Cached(Advance(s, n), String, size, 0), bytes);
            && (r.Ok? <==> CanRead(s, n + size) && (size == 1 || digits[0] != 0) && Value(digits) >= 128)
            && (r.Ok? ==> && t == Advance(s, n + size).(size := size, byteval := 0)
                          && r.value == Value(digits) && BigEndian(r.value) == digits)
  {
    var s1 := Cached(Advance(s, n), String, size, 0);
    assert NextKind(s1) == (s1, Ok((String, size)));
    NextUintDigits(s1, size, bytes);
    AdvanceTwice(s, n, size);
    CachedDigits(s, n, size, s1, digits);
  }

  lemma CachedDigits(s: Stream, n: nat, size: uint64, s1: Stream, digits: seq<byte>)
    requires Ready(s) && CanRead(s, n) && Valid(s1) && s1 == Cached(Advance(s, n), String, size, 0) && 1 <= size <= 8
    requires CanRead(s1, size) ==> digits == s.input[n..][..size]
    ensures ReadUint(s1, size).1.Ok? <==> CanRead(s1, size) && (size == 1 || digits[0] != 0)
    ensures ReadUint(s1, size).1.Ok? ==>
              && Value(digits) < TWO64 && BigEndian(Value(digits)) == digits
              && ReadUint(s1, size) == (Advance(s1, size), Ok(Value(digits)))
  {
    ReadUintExact(s1, size);
  }

  /** Every integer that is accepted was written the way the encoder writes it, in at most the wanted width. */
  lemma {:induction false} UintSound(s: Stream, bytes: nat)
    requires Ready(s) && 1 <= bytes <= 8
    ensures var (t, r) := NextUint(s, bytes);
            r.Ok? ==>
              && |UintBytes(r.value)| <= bytes && After(s, |EncodeUint(r.value)|, t)
              && s.input[..|EncodeUint(r.value)|] == EncodeUint(r.value)
  {
    NextKindSound(s);
    var r1 := NextKind(s).1;
    if NextUint(s, bytes).1.Ok? {
      if r1.value.0 == Byte || r1.value.1 == 0 {
        AdvanceTwice(s, 1, 0);
      } else {
        UintStringSound(s, HeadSize(r1.value.1), r1.value.1, bytes);
        NextUintCached(s, bytes);
      }
    }
  }

  /** Above 127 an integer is a string of its digits behind a one-byte header. */
  lemma UintEncoding(v: uint64, size: nat, total: nat)
    requires v >= 128 && size == |BigEndian(v)| && total == HeadSize(size) + size
    ensures size <= 8 && UintBytes(v) == BigEndian(v) && |EncodeUint(v)| == total
    ensures EncodeUint(v) == Head(STRING_SMALL, STRING_LARGE, size) + BigEndian(v)
  {
    Uint64Length(v);
  }

  lemma UintStringSound(s: Stream, n: nat, size: uint64, bytes: nat)
    requires Ready(s) && CanRead(s, n) && Fits(s, n, size) && n == HeadSize(size) && 1 <= size && 1 <= bytes <= 8
    requires s.input[..n] == Head(STRING_SMALL, STRING_LARGE, size)
    ensures var (t, r) := NextUint(Cached(Advance(s, n), String, size, 0), bytes);
            r.Ok? ==>
              && |UintBytes(r.value)| <= bytes && After(s, |EncodeUint(r.value)|, t)
              && s.input[..|EncodeUint(r.value)|] == EncodeUint(r.value)
  {
    var (t, r) := NextUint(Cached(Advance(s, n), String, size, 0), bytes);
    if r.Ok? {
      var total := n + size;
      UintContent(s, n, size, bytes, if CanRead(s, total) then s.input[n..][..size] else []);
      UintEncoding(r.value, size, total);
      AdvanceTwice(s, total, 0);
      HeadAndContent(s.input, n, size, Head(STRING_SMALL, STRING_LARGE, size), BigEndian(r.value));
    }
  }

  lemma UintStringComplete(s: Stream, v: uint64, bytes: nat, b: seq<byte>, n: nat)
    requires Ready(s) && v >= 128 && b == BigEndian(v) && |b| <= bytes <= 8 && n == HeadSize(|b|)
    requires CanRead(s, n + |b|) && s.input[..n] == Head(STRING_SMALL, STRING_LARGE, |b|) && s.input[n..][..|b|] == b
    ensures NextUint(s, bytes).1 == Ok(v)
  {
    ValueOfBigEndian(v);
    NextKindComplete(s, String, |b|, 0);
    UintContent(s, n, |b|, bytes, b);
    NextUintCached(s, bytes);
  }

  lemma NextUintCached(s: Stream, bytes: nat)
    requires bytes <= 8 && NextKind(s).1.Ok?
    ensures NextUint(NextKind(s).0, bytes) == NextUint(s, bytes)
  {
    NextKindShrinks(s);
  }

  /** Every encoded integer that fits the wanted width is read back. */
  lemma UintComplete(s: Stream, v: uint64, bytes: nat)
    requires Ready(s) && 1 <= bytes <= 8 && |UintBytes(v)| <= bytes
    requires CanRead(s, |EncodeUint(v)|) && s.input[..|EncodeUint(v)|] == EncodeUint(v)
    ensures NextUint(s, bytes).1 == Ok(v)
  {
    if v == 0 {
      NextKindComplete(s, String, 0, 0);
    } else if v < 128 {
      NextKindComplete(s, Byte, 0, v);
    } else {
      var b := BigEndian(v);
      UintEncoding(v, |b|, HeadSize(|b|) + |b|);
      SplitAhead(s.input, Head(STRING_SMALL, STRING_LARGE, |b|), b);
      UintStringComplete(s, v, bytes, b, HeadSize(|b|));
    }
  }
}
