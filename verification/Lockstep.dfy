/**
  * Two endpoints joined by two byte streams, each with a writer and a reader whose states must move in step. The
  * argument only needs that one message written is read back from the same state (`Law`).
  */
module Lockstep {
  import opened Bytes
  import opened Common

  datatype Codec<!D, !M> = Codec(
    write: (D, M) -> (D, Option<seq<byte>>), read: (D, seq<byte>) -> (D, seq<byte>, Option<M>))

  ghost predicate ReadsBack<D(!new), M(!new)>(c: Codec<D, M>, d: D, m: M, rest: seq<byte>) {
    var (d', w) := c.write(d, m);
    w.Some? ==> c.read(d, w.value + rest) == (d', rest, Some(m))
  }

  ghost predicate Law<D(!new), M(!new)>(c: Codec<D, M>) {
    forall d, m, rest :: ReadsBack(c, d, m, rest)
  }

  /**
    * One direction. `wire` holds the bytes on the way; `marks[j]` is the writer's state after its j-th message;
    * `failed` is set by a read that reports an error.
    */
  datatype Channel<D, M> = Channel(
    writer: D, reader: D, wire: seq<byte>, marks: seq<D>, written: seq<M>, read: seq<M>, failed: bool)

  function Empty<D, M>(d: D): Channel<D, M> {
    Channel(d, d, [], [d], [], [], false)
  }

  /** A refused message is not written, and leaves the writer as it was. */
  function Write<D, M>(c: Codec<D, M>, ch: Channel<D, M>, m: M): Channel<D, M> {
    var (d, w) := c.write(ch.writer, m);
    if w.None? then ch
    else ch.(writer := d, wire := ch.wire + w.value, marks := ch.marks + [d], written := ch.written + [m])
  }

  function Read<D, M>(c: Codec<D, M>, ch: Channel<D, M>): Channel<D, M> {
    var (d, rest, m) := c.read(ch.reader, ch.wire);
    if m.None? then ch.(failed := true) else ch.(reader := d, wire := rest, read := ch.read + [m.value])
  }

  /** The bytes are the frames of `ms`, written from the reader's state and ending in the writer's. */
  ghost predicate Carries<D(!new), M(!new)>(c: Codec<D, M>, reader: D, ms: seq<M>, wire: seq<byte>, writer: D)
    decreases |ms|
  {
    if |ms| == 0 then wire == [] && writer == reader
    else
      var (d, w) := c.write(reader, ms[0]);
      w.Some? && w.value <= wire && Carries(c, d, ms[1..], wire[|w.value|..], writer)
  }

  lemma CarriesFirst<D(!new), M(!new)>(c: Codec<D, M>, reader: D, m: M, ms: seq<M>, wire: seq<byte>, writer: D)
    requires c.write(reader, m).1.Some? && Carries(c, c.write(reader, m).0, ms, wire, writer)
    ensures Carries(c, reader, [m] + ms, c.write(reader, m).1.value + wire, writer)
  {
    var w := c.write(reader, m).1.value;
    assert ([m] + ms)[1..] == ms && (w + wire)[|w|..] == wire;
  }

  lemma {:induction false} CarriesOneMore<D(!new), M(!new)>(c: Codec<D, M>, reader: D, ms: seq<M>, wire: seq<byte>,
                                                            writer: D, m: M)
    requires Carries(c, reader, ms, wire, writer) && c.write(writer, m).1.Some?
    ensures Carries(c, reader, ms + [m], wire + c.write(writer, m).1.value, c.write(writer, m).0)
    decreases |ms|
  {
    var (d', w) := c.write(writer, m);
    if |ms| == 0 {
      CarriesFirst(c, reader, m, [], [], d');
      assert ms + [m] == [m] + [] && wire + w.value == w.value + [];
    } else {
      var (d, f) := c.write(reader, ms[0]);
      var rest := wire[|f.value|..];
      CarriesOneMore(c, d, ms[1..], rest, writer, m);
      assert ms + [m] == [ms[0]] + (ms[1..] + [m]);
      assert wire + w.value == f.value + (rest + w.value);
      CarriesFirst(c, reader, ms[0], ms[1..] + [m], rest + w.value, d');
    }
  }

  // ------------------------------------------------------------------------------------ one way

  /** Each mark is where writing one more message leads from the mark before. */
  ghost predicate Chain<D(!new), M(!new)>(c: Codec<D, M>, marks: seq<D>, ms: seq<M>) {
    |marks| == |ms| + 1 && forall j | 0 <= j < |ms| :: c.write(marks[j], ms[j]).0 == marks[j + 1]
  }

  lemma ChainOneMore<D(!new), M(!new)>(c: Codec<D, M>, marks: seq<D>, ms: seq<M>, m: M)
    requires Chain(c, marks, ms)
    ensures Chain(c, marks + [c.write(marks[|ms|], m).0], ms + [m])
  {
  }

  /** What was read is a prefix of what was written, nothing failed, and the rest is on the way. */
  ghost predicate InStep<D(!new), M(!new)>(c: Codec<D, M>, ch: Channel<D, M>) {
    && !ch.failed && ch.read <= ch.written
    && Carries(c, ch.reader, ch.written[|ch.read|..], ch.wire, ch.writer)
    && Chain(c, ch.marks, ch.written)
    && ch.reader == ch.marks[|ch.read|] && ch.writer == ch.marks[|ch.written|]
  }

  lemma WriteInStep<D(!new), M(!new)>(c: Codec<D, M>, ch: Channel<D, M>, m: M)
    requires InStep(c, ch)
    ensures InStep(c, Write(c, ch, m))
  {
    var n := |ch.read|;
    if c.write(ch.writer, m).1.Some? {
      CarriesOneMore(c, ch.reader, ch.written[n..], ch.wire, ch.writer, m);
      ChainOneMore(c, ch.marks, ch.written, m);
      assert (ch.written + [m])[n..] == ch.written[n..] + [m];
    }
  }

  lemma ReadInStep<D(!new), M(!new)>(c: Codec<D, M>, ch: Channel<D, M>)
    requires Law(c) && InStep(c, ch) && |ch.read| < |ch.written|
    ensures InStep(c, Read(c, ch)) && |Read(c, ch).read| == |ch.read| + 1
  {
    var n := |ch.read|;
    var m := ch.written[n];
    var (d, w) := c.write(ch.reader, m);
    var rest := ch.wire[|w.value|..];
    assert ch.wire == w.value + rest;
    assert ReadsBack(c, ch.reader, m, rest);
    assert ch.written[n..][1..] == ch.written[n + 1..];
  }

  // ----------------------------------------------------------------------------------- both ways

  datatype Link<D, M> = Link(ab: Channel<D, M>, ba: Channel<D, M>)

  datatype Event<M> = WriteA(m: M) | WriteB(m: M) | ReadA | ReadB

  /** A read waits until a message has been written that was not read yet. */
  predicate Enabled<D, M>(l: Link<D, M>, e: Event<M>) {
    match e
    case ReadA => |l.ba.read| < |l.ba.written|
    case ReadB => |l.ab.read| < |l.ab.written|
    case _ => true
  }

  function Step<D, M>(c: Codec<D, M>, l: Link<D, M>, e: Event<M>): Link<D, M> {
    match e
    case WriteA(m) => l.(ab := Write(c, l.ab, m))
    case WriteB(m) => l.(ba := Write(c, l.ba, m))
    case ReadA => l.(ba := Read(c, l.ba))
    case ReadB => l.(ab := Read(c, l.ab))
  }

  predicate IsRun<D, M>(c: Codec<D, M>, l: Link<D, M>, es: seq<Event<M>>)
    decreases |es|
  {
    |es| > 0 ==> Enabled(l, es[0]) && IsRun(c, Step(c, l, es[0]), es[1..])
  }

  function Run<D, M>(c: Codec<D, M>, l: Link<D, M>, es: seq<Event<M>>): Link<D, M>
    decreases |es|
  {
    if |es| == 0 then l else Run(c, Step(c, l, es[0]), es[1..])
  }

  function Fresh<D, M>(a: D, b: D): Link<D, M> {
    Link(Empty(a), Empty(b))
  }

  lemma {:induction false} RunInStep<D(!new), M(!new)>(c: Codec<D, M>, l: Link<D, M>, es: seq<Event<M>>)
    requires Law(c) && InStep(c, l.ab) && InStep(c, l.ba) && IsRun(c, l, es)
    ensures InStep(c, Run(c, l, es).ab) && InStep(c, Run(c, l, es).ba)
    decreases |es|
  {
    if |es| > 0 {
      match es[0] {
        case WriteA(m) => WriteInStep(c, l.ab, m);
        case WriteB(m) => WriteInStep(c, l.ba, m);
        case ReadA => ReadInStep(c, l.ba);
        case ReadB => ReadInStep(c, l.ab);
      }
      RunInStep(c, Step(c, l, es[0]), es[1..]);
    }
  }

  /**
    * What holds of a channel at any time: messages arrive in order, unharmed; after reading the j-th message the
    * reader is in the state the writer was in after writing it, also with more on the way; and once all are read,
    * nothing is.
    */
  ghost predicate Faithful<D, M>(ch: Channel<D, M>) {
    && !ch.failed && ch.read <= ch.written && |ch.marks| == |ch.written| + 1
    && ch.reader == ch.marks[|ch.read|] && ch.writer == ch.marks[|ch.written|]
    && (ch.read == ch.written ==> ch.wire == [])
  }

  /** Under every interleaving of writes and reads in both directions, both directions stay faithful. */
  lemma LinkIsFaithful<D(!new), M(!new)>(c: Codec<D, M>, a: D, b: D, es: seq<Event<M>>)
    requires Law(c) && IsRun(c, Fresh(a, b), es)
    ensures var l := Run(c, Fresh(a, b), es); Faithful(l.ab) && Faithful(l.ba)
  {
    RunInStep(c, Fresh(a, b), es);
  }
}
