/**
  * The decoding stream as a state machine: an input, an optional input limit, a stack of the lists being read
  * and the cached header of the value ahead. Each function is one `Stream` call and returns the state after it.
  */
module RlpStream {
  import opened Bytes
  import opened Common
  import opened RlpSpec
  import opened Words

  datatype Error =
    | EndOfList | EndOfInput | UnexpectedEnd
    | ExpectedString | ExpectedList
    | CanonInt | CanonSize | ElemTooLarge | ValueTooLarge | MoreThanOneValue
    | NotInList | NotAtEnd | UintOverflow

  datatype Result<+T> = Ok(value: T) | Err(error: Error)

  /** Kind of the value ahead; `Unknown` when no header has been read for it yet. */
  datatype Kind = Unknown | Byte | String | ListOf

  /** A list being read: bytes consumed of it, and its size. */
  datatype Frame = Frame(pos: uint64, size: uint64)

  datatype Stream = Stream(
    input: seq<byte>,
    limited: bool,
    remaining: uint64,
    kind: Kind,
    size: uint64,
    byteval: byte,
    kinderr: Option<Error>,
    stack: seq<Frame>)

  function Top(s: Stream): Frame
    requires s.stack != []
  {
    s.stack[|s.stack| - 1]
  }

  function Bump(stack: seq<Frame>, n: nat): (r: seq<Frame>)
    ensures |r| == |stack|
  {
    if stack == [] then []
    else
      var top := stack[|stack| - 1];
      stack[|stack| - 1 := top.(pos := Add64(top.pos, n))]
  }

  function WillRead(s: Stream, n: nat): (Stream, Option<Error>) {
    var s := s.(kind := Unknown);
    if s.stack != [] && n > Sub64(Top(s).size, Top(s).pos) then (s, Some(ElemTooLarge))
    else
      var s := s.(stack := Bump(s.stack, n));
      if !s.limited then (s, None)
      else if n > s.remaining then (s, Some(ValueTooLarge))
      else (s.(remaining := s.remaining - n), None)
  }

  function ReadFull(s: Stream, n: nat): (r: (Stream, Result<seq<byte>>))
    ensures r.1.Ok? ==> |r.1.value| == n
  {
    var (s, err) := WillRead(s, n);
    if err.Some? then (s, Err(err.value))
    else if n <= |s.input| then (s.(input := s.input[n..]), Ok(s.input[..n]))
    else (s.(input := []), Err(UnexpectedEnd))
  }

  function ReadByte(s: Stream): (Stream, Result<byte>) {
    var (s, r) := ReadFull(s, 1);
    match r
    case Err(e) => (s, Err(e))
    case Ok(b) => (s, Ok(b[0]))
  }

  function ReadUint(s: Stream, size: nat): (Stream, Result<uint64>)
    requires size <= 8
  {
    if size == 0 then (s.(kind := Unknown), Ok(0))
    else if size == 1 then ReadByte(s)
    else
      var (s, r) := ReadFull(s, size);
      match r
      case Err(e) => (s, Err(e))
      case Ok(b) =>
        ValueFits(b);
        if b[0] == 0 then (s, Err(CanonSize)) else (s, Ok(Value(b)))
  }

  /** The size of a long string or list follows its tag; sizes below 56 must not be written this way. */
  function ReadSize(s: Stream, kind: Kind, n: nat): (Stream, Kind, uint64, Option<Error>)
    requires n <= 8
  {
    var (s, r) := ReadUint(s, n);
    match r
    case Err(e) => (s, kind, 0, Some(e))
    case Ok(size) => (s, kind, size, if size < 56 then Some(CanonSize) else None)
  }

  function ReadKind(s: Stream): (Stream, Kind, uint64, Option<Error>) {
    var (s, r) := ReadByte(s);
    match r
    case Err(e) =>
      var e := if s.stack == [] && (e == UnexpectedEnd || e == ValueTooLarge) then EndOfInput else e;
      (s, Byte, 0, Some(e))
    case Ok(b) =>
      var s := s.(byteval := 0);
      if b < 0x80 then (s.(byteval := b), Byte, 0, None)
      else if b < 0xB8 then (s, String, b - 0x80, None)
      else if b < 0xC0 then ReadSize(s, String, b - 0xB7)
      else if b < 0xF8 then (s, ListOf, b - 0xC0, None)
      else ReadSize(s, ListOf, b - 0xF7)
  }

  /** A value must fit the list it is in, or the remaining input when it is not in a list. */
  function SizeError(s: Stream, size: uint64): Option<Error> {
    if s.stack == [] then if s.limited && size > s.remaining then Some(ValueTooLarge) else None
    else if size > Sub64(Top(s).size, Top(s).pos) then Some(ElemTooLarge)
    else None
  }

  /** Reads the header of the value ahead and caches what it says, or the error in it. */
  function FetchKind(s: Stream): Stream {
    var (t, kind, size, err) := ReadKind(s.(kinderr := None));
    t.(kind := kind, size := size, kinderr := if err.Some? then err else SizeError(t, size))
  }

  /** Kind and size of the next value. The header is read once and cached, and so is an error in it. */
  function NextKind(s: Stream): (Stream, Result<(Kind, uint64)>) {
    if s.kind == Unknown && s.stack != [] && Top(s).pos == Top(s).size then
      (s.(kinderr := None), Err(EndOfList))
    else
      var t := if s.kind == Unknown then FetchKind(s) else s;
      if t.kinderr.Some? then (t, Err(t.kinderr.value)) else (t, Ok((t.kind, t.size)))
  }

  function OpenList(s: Stream): (Stream, Result<uint64>) {
    var (s, r) := NextKind(s);
    match r
    case Err(e) => (s, Err(e))
    case Ok((kind, size)) =>
      if kind != ListOf then (s, Err(ExpectedList))
      else (s.(stack := s.stack + [Frame(0, size)], kind := Unknown, size := 0), Ok(size))
  }

  function CloseList(s: Stream): (Stream, Option<Error>) {
    if s.stack == [] then (s, Some(NotInList))
    else
      var tos := Top(s);
      if tos.pos != tos.size then (s, Some(NotAtEnd))
      else (s.(stack := Bump(s.stack[..|s.stack| - 1], tos.size), kind := Unknown, size := 0), None)
  }

  function NextBytes(s: Stream): (Stream, Result<seq<byte>>) {
    var (s, r) := NextKind(s);
    match r
    case Err(e) => (s, Err(e))
    case Ok((Byte, _)) => (s.(kind := Unknown), Ok([s.byteval]))
    case Ok((String, size)) =>
      var (s, r) := ReadFull(s, size);
      if r.Ok? && SingleByte(r.value) then (s, Err(CanonSize)) else (s, r)
    case Ok(_) => (s, Err(ExpectedString))
  }

  /** The next value with its header, which is written anew because the original has been consumed. */
  function NextRaw(s: Stream): (Stream, Result<seq<byte>>) {
    var (s, r) := NextKind(s);
    match r
    case Err(e) => (s, Err(e))
    case Ok((kind, size)) =>
      if kind == Byte then (s.(kind := Unknown), Ok([s.byteval]))
      else
        var (s, r) := ReadFull(s, size);
        match r
        case Err(e) => (s, Err(e))
        case Ok(b) =>
          var head :=
            if kind == String then Head(STRING_SMALL, STRING_LARGE, size) else Head(LIST_SMALL, LIST_LARGE, size);
          (s, Ok(head + b))
  }

  /** The next value as an unsigned integer of at most `bytes` bytes. */
  function NextUint(s: Stream, bytes: nat): (Stream, Result<uint64>)
    requires bytes <= 8
  {
    var (s, r) := NextKind(s);
    match r
    case Err(e) => (s, Err(e))
    case Ok((Byte, _)) => if s.byteval == 0 then (s, Err(CanonInt)) else (s.(kind := Unknown), Ok(s.byteval))
    case Ok((String, size)) =>
      if size > bytes then (s, Err(UintOverflow))
      else
        var (s, r) := ReadUint(s, size);
        (match r
         case Err(e) => (s, Err(if e == CanonSize then CanonInt else e))
         case Ok(v) => if size > 0 && v < 128 then (s, Err(CanonSize)) else (s, Ok(v)))
    case Ok(_) => (s, Err(ExpectedString))
  }

  lemma ReadUintShrinks(s: Stream, n: nat)
    requires n <= 8
    ensures |ReadUint(s, n).0.input| <= |s.input|
  {
  }

  lemma ReadKindShrinks(s: Stream)
    ensures var (t, k, _, err) := ReadKind(s);
            k != Unknown && |t.input| <= |s.input| && (err == None ==> |t.input| < |s.input|)
  {
    var (s1, r) := ReadByte(s);
    if r.Ok? && 0xB8 <= r.value < 0xC0 {
      ReadUintShrinks(s1.(byteval := 0), r.value - 0xB7);
    } else if r.Ok? && 0xF8 <= r.value {
      ReadUintShrinks(s1.(byteval := 0), r.value - 0xF7);
    }
  }

  /** Reading a header consumes at least a byte; a cached one is left alone. */
  lemma NextKindShrinks(s: Stream)
    ensures var (t, r) := NextKind(s);
            && |t.input| <= |s.input|
            && (s.kind == Unknown && r.Ok? ==> |t.input| < |s.input|)
            && (s.kind != Unknown ==> t == s)
            && (r.Ok? ==> r.value.0 != Unknown && t.kind == r.value.0 && t.size == r.value.1 && t.kinderr == None)
  {
    ReadKindShrinks(s.(kinderr := None));
  }

  lemma NextBytesShrinks(s: Stream)
    requires s.kind != Unknown
    ensures |NextBytes(s).0.input| <= |s.input|
    ensures NextBytes(s).1.Ok? ==> NextBytes(s).0.kind == Unknown
  {
  }

  /** Decodes the next value into an item tree: a list into its elements, anything else into its bytes. */
  function DecodeItem(s: Stream): (r: (Stream, Result<Item>))
    ensures |r.0.input| <= |s.input|
    ensures r.1.Ok? ==> r.0.kind == Unknown && (s.kind == Unknown ==> |r.0.input| < |s.input|)
    decreases |s.input|, if s.kind == Unknown then 0 else 3
  {
    NextKindShrinks(s);
    var (s1, r1) := NextKind(s);
    if r1.Err? then (s1, Err(r1.error))
    else if r1.value.0 == ListOf then DecodeList(s1)
    else
      NextBytesShrinks(s1);
      var (s2, r2) := NextBytes(s1);
      if r2.Err? then (s2, Err(r2.error)) else (s2, Ok(Str(r2.value)))
  }

  /** Opens a list, decodes its elements unless it is empty, and closes it. */
  function DecodeList(s: Stream): (r: (Stream, Result<Item>))
    ensures |r.0.input| <= |s.input|
    ensures r.1.Ok? ==> r.0.kind == Unknown
    decreases |s.input|, 2
  {
    NextKindShrinks(s);
    var (s2, r2) := OpenList(s);
    if r2.Err? then (s2, Err(r2.error))
    else
      var (s3, r3) := if r2.value == 0 then (s2, Ok([])) else DecodeElems(s2);
      if r3.Err? then (s3, Err(r3.error))
      else
        var (s4, e) := CloseList(s3);
        if e.Some? then (s4, Err(e.value)) else (s4, Ok(List(r3.value)))
  }

  /** Decodes elements until the end of the innermost list. */
  function DecodeElems(s: Stream): (r: (Stream, Result<seq<Item>>))
    requires s.kind == Unknown
    ensures |r.0.input| <= |s.input|
    decreases |s.input|, 1
  {
    var (s1, r1) := DecodeItem(s);
    match r1
    case Err(e) => if e == EndOfList then (s1, Ok([])) else (s1, Err(e))
    case Ok(v) =>
      var (s2, r2) := DecodeElems(s1);
      if r2.Err? then (s2, r2) else (s2, Ok([v] + r2.value))
  }

  /** Decodes a byte string that holds exactly one value. */
  function DecodeBytes(b: seq<byte>): Result<Item>
    requires |b| < TWO64
  {
    var (s, r) := DecodeItem(NewStream(b));
    if r.Ok? && |s.input| > 0 then Err(MoreThanOneValue) else r
  }

  /** A stream over a byte string, limited to its length. */
  function NewStream(b: seq<byte>): Stream
    requires |b| < TWO64
  {
    Stream(b, true, |b|, Unknown, 0, 0, None, [])
  }

  // ---------------------------------------------------------------- what a successful read does

  /** `n` more bytes may be read: they are there, and neither the innermost list nor the limit ends before. */
  predicate CanRead(s: Stream, n: nat) {
    && n <= |s.input|
    && (s.limited ==> n <= s.remaining)
    && (s.stack != [] ==> Top(s).pos + n <= Top(s).size)
  }

  /** The state after reading `n` bytes. */
  function Advance(s: Stream, n: nat): Stream
    requires CanRead(s, n)
  {
    s.(input := s.input[n..], stack := Bump(s.stack, n), kind := Unknown,
       remaining := if s.limited then s.remaining - n else s.remaining)
  }

  /** Every list being read is within its bounds, together with the list nested in it. */
  predicate Nested(stack: seq<Frame>) {
    && (forall i :: 0 <= i < |stack| ==> stack[i].pos <= stack[i].size)
    && (forall i :: 0 <= i < |stack| - 1 ==> stack[i].pos + stack[i + 1].size <= stack[i].size)
  }

  /** The stream's invariant: nesting, and a cached header never announces more than its list holds. */
  predicate Valid(s: Stream) {
    && Nested(s.stack)
    && (s.kind != Unknown && s.kinderr == None && s.stack != [] ==> Top(s).pos + s.size <= Top(s).size)
  }

  lemma BumpNested(stack: seq<Frame>, n: nat)
    requires Nested(stack) && (stack != [] ==> stack[|stack| - 1].pos + n <= stack[|stack| - 1].size)
    ensures Nested(Bump(stack, n))
  {
  }

  /** A read succeeds exactly when the bytes are available within all bounds. */
  lemma ReadFullOk(s: Stream, n: nat)
    requires Valid(s)
    ensures ReadFull(s, n).1.Ok? <==> CanRead(s, n)
    ensures CanRead(s, n) ==> ReadFull(s, n) == (Advance(s, n), Ok(s.input[..n]))
    ensures Valid(ReadFull(s, n).0)
  {
    if s.stack == [] || Top(s).pos + n <= Top(s).size {
      BumpNested(s.stack, n);
    }
  }

  lemma AdvanceTwice(s: Stream, m: nat, n: nat)
    requires Valid(s) && CanRead(s, m)
    ensures CanRead(Advance(s, m), n) <==> CanRead(s, m + n)
    ensures CanRead(s, m + n) ==> Advance(Advance(s, m), n) == Advance(s, m + n)
    ensures Valid(Advance(s, m))
  {
    BumpNested(s.stack, m);
    assert m + n <= |s.input| ==> s.input[m..][n..] == s.input[m + n..];
  }
}
