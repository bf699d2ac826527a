/** The decoding stream as the object it is: every method moves the fields exactly as the state machine says. */
module RlpReader {
  import opened Bytes
  import opened Common
  import opened RlpSpec
  import opened Words
  import M = RlpStream
  import RlpRoundTrip
  import E = RlpEncode

  type Error = M.Error
  type Kind = M.Kind

  class Stream {
    var input: seq<byte>
    var limited: bool
    var remaining: uint64
    const uintbuf: array<byte>
    var kind: Kind
    var size: uint64
    var byteval: byte
    var kinderr: Option<Error>
    var stack: seq<M.Frame>

    ghost function State(): M.Stream
      reads this
    {
      M.Stream(input, limited, remaining, kind, size, byteval, kinderr, stack)
    }

    constructor (b: seq<byte>)
      requires |b| < TWO64
      ensures State() == M.NewStream(b) && fresh(uintbuf) && uintbuf.Length == 8
    {
      input, limited, remaining := b, true, |b|;
      kind, size, byteval, kinderr, stack := M.Unknown, 0, 0, None, [];
      uintbuf := new byte[8];
    }

    method WillRead(n: nat) returns (err: Option<Error>)
      modifies this
      ensures (State(), err) == M.WillRead(old(State()), n)
    {
      kind := M.Unknown;
      if |stack| > 0 {
        var tos := stack[|stack| - 1];
        if n > Sub64(tos.size, tos.pos) {
          return Some(M.ElemTooLarge);
        }
        stack := stack[|stack| - 1 := tos.(pos := Add64(tos.pos, n))];
      }
      if limited {
        if n > remaining {
          return Some(M.ValueTooLarge);
        }
        remaining := remaining - n;
      }
      return None;
    }

    /** The underlying reader hands out its data in pieces of its own choosing; only an empty one means the end. */
    method Pull(n: nat) returns (buf: seq<byte>, eof: bool)
      modifies this`input
      ensures eof <==> n > |old(input)|
      ensures if eof then input == [] else buf == old(input)[..n] && input == old(input)[n..]
    {
      ghost var before := input;
      buf, eof := [], false;
      while |buf| < n && !eof
        invariant before == buf + input && |buf| <= n
        invariant eof ==> input == [] && |buf| < n
        decreases n - |buf|, !eof
      {
        if input == [] {
          eof := true;
        } else {
          var k :| 1 <= k <= n - |buf| && k <= |input|;
          assert before == (buf + input[..k]) + input[k..];
          buf := buf + input[..k];
          input := input[k..];
        }
      }
    }

    method ReadFull(n: nat) returns (r: M.Result<seq<byte>>)
      modifies this
      ensures (State(), r) == M.ReadFull(old(State()), n)
    {
      var err := WillRead(n);
      if err.Some? {
        return M.Err(err.value);
      }
      var buf, eof := Pull(n);
      r := if eof then M.Err(M.UnexpectedEnd) else M.Ok(buf);
    }

    method ReadByte() returns (r: M.Result<byte>)
      modifies this
      ensures (State(), r) == M.ReadByte(old(State()))
    {
      var b := ReadFull(1);
      r := if b.Ok? then M.Ok(b.value[0]) else M.Err(b.error);
    }

    /** A number of up to eight bytes is read to the end of a zeroed eight-byte buffer. */
    method ReadUint(n: nat) returns (r: M.Result<uint64>)
      requires n <= 8 && uintbuf.Length == 8
      modifies this, uintbuf
      ensures (State(), r) == M.ReadUint(old(State()), n)
    {
      if n == 0 {
        kind := M.Unknown;
        return M.Ok(0);
      } else if n == 1 {
        r := ReadByte();
        return;
      }
      var start := 8 - n;
      for i := 0 to start
        invariant forall j :: 0 <= j < i ==> uintbuf[j] == 0
        invariant State() == old(State())
      {
        uintbuf[i] := 0;
      }
      ghost var zeros := uintbuf[..start];
      var b := ReadFull(n);
      if b.Err? {
        return M.Err(b.error);
      }
      E.CopyInto(uintbuf, start, b.value);
      var all := uintbuf[..];
      assert all == zeros + b.value;
      LeadingZeros(zeros, b.value);
      if all[start] == 0 {
        return M.Err(M.CanonSize);
      }
      ValueFits(all);
      return M.Ok(Value(all));
    }

    method ReadSize(k: Kind, n: nat) returns (kind': Kind, size': uint64, err: Option<Error>)
      requires n <= 8 && uintbuf.Length == 8
      modifies this, uintbuf
      ensures (State(), kind', size', err) == M.ReadSize(old(State()), k, n)
    {
      var r := ReadUint(n);
      kind' := k;
      if r.Err? {
        size', err := 0, Some(r.error);
      } else {
        size', err := r.value, if r.value < 56 then Some(M.CanonSize) else None;
      }
    }

    method ReadKind() returns (kind': Kind, size': uint64, err: Option<Error>)
      requires uintbuf.Length == 8
      modifies this, uintbuf
      ensures (State(), kind', size', err) == M.ReadKind(old(State()))
    {
      var r := ReadByte();
      if r.Err? {
        var e := r.error;
        if |stack| == 0 && (e == M.UnexpectedEnd || e == M.ValueTooLarge) {
          e := M.EndOfInput;
        }
        return M.Byte, 0, Some(e);
      }
      var b := r.value;
      byteval := 0;
      if b < 0x80 {
        byteval := b;
        return M.Byte, 0, None;
      } else if b < 0xB8 {
        return M.String, b - 0x80, None;
      } else if b < 0xC0 {
        kind', size', err := ReadSize(M.String, b - 0xB7);
      } else if b < 0xF8 {
        return M.ListOf, b - 0xC0, None;
      } else {
        kind', size', err := ReadSize(M.ListOf, b - 0xF7);
      }
    }

    /** Outside of lists the size is held against the input limit, inside against the innermost list. */
    method CheckSize() returns (err: Option<Error>)
      ensures err == M.SizeError(State(), size)
    {
      err := None;
      if |stack| == 0 {
        if limited && size > remaining {
          err := Some(M.ValueTooLarge);
        }
      } else if size > Sub64(stack[|stack| - 1].size, stack[|stack| - 1].pos) {
        err := Some(M.ElemTooLarge);
      }
    }

    method CacheKind(k: Kind, n: uint64, err: Option<Error>)
      modifies this`kind, this`size, this`kinderr
      ensures var error := if err.Some? then err else M.SizeError(old(State()), n);
              State() == old(State()).(kind := k, size := n, kinderr := error)
    {
      kind, size, kinderr := k, n, err;
      if kinderr == None {
        kinderr := CheckSize();
      }
    }

    method FetchKind()
      requires uintbuf.Length == 8
      modifies this, uintbuf
      ensures State() == M.FetchKind(old(State()))
    {
      kinderr := None;
      var k, n, err := ReadKind();
      CacheKind(k, n, err);
    }

    /** Reads the header of the value ahead unless that has been done already. */
    method NextKind() returns (r: M.Result<(Kind, uint64)>)
      requires uintbuf.Length == 8
      modifies this, uintbuf
      ensures (State(), r) == M.NextKind(old(State()))
    {
      if kind == M.Unknown {
        if |stack| > 0 && stack[|stack| - 1].pos == stack[|stack| - 1].size {
          kinderr := None;
          return M.Err(M.EndOfList);
        }
        FetchKind();
      }
      r := if kinderr.Some? then M.Err(kinderr.value) else M.Ok((kind, size));
    }

    method OpenList() returns (r: M.Result<uint64>)
      requires uintbuf.Length == 8
      modifies this, uintbuf
      ensures (State(), r) == M.OpenList(old(State()))
    {
      var k := NextKind();
      if k.Err? {
        return M.Err(k.error);
      }
      if k.value.0 != M.ListOf {
        return M.Err(M.ExpectedList);
      }
      stack := stack + [M.Frame(0, k.value.1)];
      kind, size := M.Unknown, 0;
      return M.Ok(k.value.1);
    }

    method CloseList() returns (err: Option<Error>)
      modifies this
      ensures (State(), err) == M.CloseList(old(State()))
    {
      if |stack| == 0 {
        return Some(M.NotInList);
      }
      var tos := stack[|stack| - 1];
      if tos.pos != tos.size {
        return Some(M.NotAtEnd);
      }
      stack := stack[..|stack| - 1];
      if |stack| > 0 {
        var outer := stack[|stack| - 1];
        stack := stack[|stack| - 1 := outer.(pos := Add64(outer.pos, tos.size))];
      }
      kind, size := M.Unknown, 0;
      return None;
    }

    method NextBytes() returns (r: M.Result<seq<byte>>)
      requires uintbuf.Length == 8
      modifies this, uintbuf
      ensures (State(), r) == M.NextBytes(old(State()))
    {
      var k := NextKind();
      if k.Err? {
        return M.Err(k.error);
      }
      match k.value.0 {
        case Byte =>
          kind := M.Unknown;
          r := M.Ok([byteval]);
        case String =>
          r := ReadFull(k.value.1);
          if r.Ok? && k.value.1 == 1 && r.value[0] < 128 {
            r := M.Err(M.CanonSize);
          }
        case _ =>
          r := M.Err(M.ExpectedString);
      }
    }

    /** Reads the content behind a place left free for the header, then writes the header there. */
    method NextRaw() returns (r: M.Result<seq<byte>>)
      requires uintbuf.Length == 8
      modifies this, uintbuf
      ensures (State(), r) == M.NextRaw(old(State()))
    {
      var k := NextKind();
      if k.Err? {
        return M.Err(k.error);
      }
      if k.value.0 == M.Byte {
        kind := M.Unknown;
        return M.Ok([byteval]);
      }
      var content := ReadFull(k.value.1);
      if content.Err? {
        return M.Err(content.error);
      }
      var start := HeadSize(k.value.1);
      var buf := new byte[start + k.value.1];
      E.CopyInto(buf, start, content.value);
      ghost var was := buf[..];
      var (small, large) := if k.value.0 == M.String then (STRING_SMALL, STRING_LARGE) else (LIST_SMALL, LIST_LARGE);
      var n := E.PutHead(buf, 0, small, large, k.value.1);
      HeaderInFront(was, start, Head(small, large, k.value.1), content.value);
      r := M.Ok(buf[..]);
    }

    method NextUint(bytes: nat) returns (r: M.Result<uint64>)
      requires bytes <= 8 && uintbuf.Length == 8
      modifies this, uintbuf
      ensures (State(), r) == M.NextUint(old(State()), bytes)
    {
      var k := NextKind();
      if k.Err? {
        return M.Err(k.error);
      }
      match k.value.0 {
        case Byte =>
          if byteval == 0 {
            return M.Err(M.CanonInt);
          }
          kind := M.Unknown;
          r := M.Ok(byteval);
        case String =>
          if k.value.1 > bytes {
            return M.Err(M.UintOverflow);
          }
          r := ReadUint(k.value.1);
          if r.Err? {
            r := M.Err(if r.error == M.CanonSize then M.CanonInt else r.error);
          } else if k.value.1 > 0 && r.value < 128 {
            r := M.Err(M.CanonSize);
          }
        case _ =>
          r := M.Err(M.ExpectedString);
      }
    }

    /** Decodes the next value into an item tree. */
    method DecodeItem() returns (r: M.Result<Item>)
      requires uintbuf.Length == 8
      modifies this, uintbuf
      ensures (State(), r) == M.DecodeItem(old(State()))
      decreases |input|, if kind == M.Unknown then 0 else 3
    {
      M.NextKindShrinks(State());
      var k := NextKind();
      if k.Err? {
        return M.Err(k.error);
      }
      if k.value.0 == M.ListOf {
        r := DecodeList();
      } else {
        var b := NextBytes();
        r := if b.Ok? then M.Ok(Str(b.value)) else M.Err(b.error);
      }
    }

    method DecodeList() returns (r: M.Result<Item>)
      requires uintbuf.Length == 8
      modifies this, uintbuf
      ensures (State(), r) == M.DecodeList(old(State()))
      decreases |input|, 2
    {
      M.NextKindShrinks(State());
      var size := OpenList();
      if size.Err? {
        return M.Err(size.error);
      }
      var elems: M.Result<seq<Item>> := M.Ok([]);
      if size.value != 0 {
        elems := DecodeElems();
        if elems.Err? {
          return M.Err(elems.error);
        }
      }
      var err := CloseList();
      r := if err.Some? then M.Err(err.value) else M.Ok(List(elems.value));
    }

    /** Decodes elements until the stream reports the end of the list. */
    method DecodeElems() returns (r: M.Result<seq<Item>>)
      requires uintbuf.Length == 8 && kind == M.Unknown
      modifies this, uintbuf
      ensures (State(), r) == M.DecodeElems(old(State()))
      decreases |input|, 1
    {
      var vs: seq<Item> := [];
      ghost var start := State();
      Neutral(if M.DecodeElems(start).1.Ok? then M.DecodeElems(start).1.value else []);
      while true
        invariant kind == M.Unknown && |input| <= |start.input|
        invariant M.DecodeElems(start) == Prepend(vs, M.DecodeElems(State()))
        decreases |input|
      {
        ghost var here := State();
        var v := DecodeItem();
        PrependStep(vs, here);
        if v.Err? {
          if v.error == M.EndOfList {
            assert vs + [] == vs;
            return M.Ok(vs);
          }
          return M.Err(v.error);
        }
        vs := vs + [v.value];
      }
    }
  }

  /** The result of decoding the rest of a list whose first elements are `vs`. */
  function Prepend(vs: seq<Item>, r: (M.Stream, M.Result<seq<Item>>)): (M.Stream, M.Result<seq<Item>>) {
    if r.1.Ok? then (r.0, M.Ok(vs + r.1.value)) else r
  }

  lemma PrependStep(vs: seq<Item>, s: M.Stream)
    requires s.kind == M.Unknown
    ensures var (t, v) := M.DecodeItem(s);
            v.Ok? ==> Prepend(vs, M.DecodeElems(s)) == Prepend(vs + [v.value], M.DecodeElems(t))
  {
    var (t, v) := M.DecodeItem(s);
    if v.Ok? && M.DecodeElems(t).1.Ok? {
      Assoc(vs, [v.value], M.DecodeElems(t).1.value);
    }
  }

  lemma HeaderInFront(was: seq<byte>, start: nat, head: seq<byte>, content: seq<byte>)
    requires |head| == start && start + |content| == |was| && was[start..] == content
    ensures E.Overwrite(was, 0, head) == head + content
  {
  }

  /** A byte string that holds exactly one value. */
  method DecodeBytes(b: seq<byte>) returns (r: M.Result<Item>)
    requires |b| < TWO64
    ensures r == M.DecodeBytes(b)
    ensures forall v :: r == M.Ok(v) <==> Encodable(v) && Encode(v) == b
  {
    var s := new Stream(b);
    r := s.DecodeItem();
    if r.Ok? && |s.input| > 0 {
      r := M.Err(M.MoreThanOneValue);
    }
    forall v ensures M.DecodeBytes(b) == M.Ok(v) <==> Encodable(v) && Encode(v) == b {
      RlpRoundTrip.DecodeBytesExact(b, v);
    }
  }

  lemma {:induction false} LeadingZeros(zeros: seq<byte>, b: seq<byte>)
    requires forall i :: 0 <= i < |zeros| ==> zeros[i] == 0
    ensures Value(zeros + b) == Value(b)
    decreases |zeros| + |b|
  {
    var all := zeros + b;
    if b != [] {
      LeadingZeros(zeros, b[..|b| - 1]);
      assert all[..|all| - 1] == zeros + b[..|b| - 1];
    } else if zeros != [] {
      LeadingZeros(zeros[..|zeros| - 1], []);
      assert all[..|all| - 1] == zeros[..|zeros| - 1] + [];
    }
  }
}
