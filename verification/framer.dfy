/** The byte-stream framer shared by `Protocol.add` and `Decoder.addData`:
    an idle framer waits for the start byte, then collects body bytes into a
    64-byte buffer until the end byte arrives while exactly 15 bytes are
    held, and hands the buffer to a frame decoder.  The two JavaScript copies
    differ only in where the start and end bytes come from and in what the
    decoder emits, so both are instances of `Feed` below. */
module Framer {
  import opened Common

  const PacketStart: int := 253
  const PacketEnd: int := 250
  const PacketPing: int := 251

  /** `new Buffer(64)`: the capacity `writeUInt8` may write into. */
  const BufferSize: nat := 64

  /** The only body size at which the end byte completes a frame. */
  const FrameSize: nat := 15

  /** `haveStart` and the bytes pushed so far (`size` is `|body|`). */
  datatype Framer = Framer(haveStart: bool, body: seq<Byte>)

  /** `clear()` is the only way to leave a frame, and it also empties the buffer. */
  predicate Valid(f: Framer) {
    |f.body| <= BufferSize && (!f.haveStart ==> f.body == [])
  }

  /** The state after `clear()`, also the state after construction. */
  function Idle(): (f: Framer)
    ensures Valid(f) && !f.haveStart
  {
    Framer(false, [])
  }

  /** The whole buffer, as the frame decoder reads it. */
  type Frame = b: seq<Byte> | |b| == BufferSize witness seq(BufferSize, _ => 0 as bv8)

  /** The zero-filled 64-byte buffer after `body` has been pushed into it. */
  function Buffer(body: seq<Byte>): (r: Frame)
    requires |body| <= BufferSize
    ensures r[..|body|] == body
    ensures forall i :: |body| <= i < BufferSize ==> r[i] == 0
  {
    body + seq(BufferSize - |body|, _ => 0 as bv8)
  }

  /** What one call of `add`/`addData` produces: the framer afterwards, the
      events emitted in order, and the exception that ended the call, if any. */
  datatype Outcome<E> = Outcome(framer: Framer, events: seq<E>, error: Option<Error>)

  /** One byte of the loop (the body of `for (const byte of data.values())`). */
  function Step<E>(f: Framer, x: Byte, start: int, end: int, decode: Frame -> Result<seq<E>>): (o: Outcome<E>)
    requires Valid(f)
    ensures Valid(o.framer)
  {
    if f.haveStart then
      if x as int == end && |f.body| == FrameSize then
        match decode(Buffer(f.body))
        case Ok(evs) => Outcome(Idle(), evs, None)
        case Err(e) => Outcome(f, [], Some(e))
      else if |f.body| < BufferSize then Outcome(Framer(true, f.body + [x]), [], None)
      else Outcome(f, [], Some(RangeError))
    else if x as int == start then Outcome(Framer(true, []), [], None)
    else Outcome(f, [], None)
  }

  /** The transitions of one byte.  Idle, only the start byte matters; in a
      frame, the end byte decodes at exactly 15 bytes and every other byte is
      pushed; a decoder failure leaves the framer as it was when the decoder
      was called, and a push past the 64th byte is a RangeError. */
  lemma StepCases<E>(f: Framer, x: Byte, start: int, end: int, decode: Frame -> Result<seq<E>>)
    requires Valid(f)
    ensures var o := Step(f, x, start, end, decode);
            && (o.error.Some? ==> o.framer == f && o.events == [])
            && (!f.haveStart ==>
                  o.events == [] && o.error.None? && o.framer == (if x as int == start then Framer(true, []) else f))
            && (f.haveStart && !(x as int == end && |f.body| == FrameSize) ==>
                  o.events == [] && o.framer.haveStart
                  && (|f.body| < BufferSize ==> o.error.None? && o.framer.body == f.body + [x])
                  && (|f.body| == BufferSize ==> o.error == Some(RangeError)))
            && (f.haveStart && x as int == end && |f.body| == FrameSize ==>
                  match decode(Buffer(f.body))
                  case Ok(evs) => o == Outcome(Idle(), evs, None)
                  case Err(e) => o == Outcome(f, [], Some(e)))
  {
  }

  /** `for (const byte of data.values())`: the bytes in order until one step throws. */
  function Feed<E>(f: Framer, data: seq<Byte>, start: int, end: int, decode: Frame -> Result<seq<E>>): (o: Outcome<E>)
    requires Valid(f)
    ensures Valid(o.framer)
    decreases |data|
  {
    if |data| == 0 then Outcome(f, [], None)
    else
      var s := Step(f, data[0], start, end, decode);
      if s.error.Some? then s
      else
        var rest := Feed(s.framer, data[1..], start, end, decode);
        Outcome(rest.framer, s.events + rest.events, rest.error)
  }

  /** Feeding two chunks one after the other is feeding their concatenation,
      except that nothing of the second chunk is processed after a throw. */
  lemma {:induction false} FeedConcat<E>(f: Framer, a: seq<Byte>, b: seq<Byte>, start: int, end: int,
                                         decode: Frame -> Result<seq<E>>)
    requires Valid(f)
    ensures var oa := Feed(f, a, start, end, decode);
            Feed(f, a + b, start, end, decode) ==
              if oa.error.Some? then oa
              else
                var ob := Feed(oa.framer, b, start, end, decode);
                Outcome(ob.framer, oa.events + ob.events, ob.error)
    decreases |a|
  {
    if |a| == 0 {
      assert a + b == b;
      var ob := Feed(f, b, start, end, decode);
      assert [] + ob.events == ob.events;
    } else {
      assert (a + b)[0] == a[0];
      assert (a + b)[1..] == a[1..] + b;
      var s := Step(f, a[0], start, end, decode);
      if s.error.None? {
        FeedConcat(s.framer, a[1..], b, start, end, decode);
        var oa' := Feed(s.framer, a[1..], start, end, decode);
        if oa'.error.None? {
          var ob := Feed(oa'.framer, b, start, end, decode);
          assert s.events + (oa'.events + ob.events) == (s.events + oa'.events) + ob.events;
        }
      }
    }
  }

  /** Framing depends on the decoder only through whether it throws and
      with what: two decoders that throw alike leave the same framer and the
      same error behind, whatever they emit. */
  lemma {:induction false} FeedSameFraming<E, F>(f: Framer, data: seq<Byte>, start: int, end: int,
                                                 decode: Frame -> Result<seq<E>>, other: Frame -> Result<seq<F>>)
    requires Valid(f)
    requires forall buf: Frame :: decode(buf).Err? <==> other(buf).Err?
    requires forall buf: Frame :: decode(buf).Err? ==> decode(buf).error == other(buf).error
    ensures Feed(f, data, start, end, decode).framer == Feed(f, data, start, end, other).framer
    ensures Feed(f, data, start, end, decode).error == Feed(f, data, start, end, other).error
    decreases |data|
  {
    if |data| > 0 {
      var s := Step(f, data[0], start, end, decode);
      assert s.framer == Step(f, data[0], start, end, other).framer;
      assert s.error == Step(f, data[0], start, end, other).error;
      if s.error.None? {
        FeedSameFraming(s.framer, data[1..], start, end, decode, other);
      }
    }
  }

  /** An idle framer ignores every byte other than the start byte. */
  lemma {:induction false} IdleDiscards<E>(f: Framer, data: seq<Byte>, start: int, end: int,
                                          decode: Frame -> Result<seq<E>>)
    requires Valid(f) && !f.haveStart
    requires forall i :: 0 <= i < |data| ==> data[i] as int != start
    ensures Feed(f, data, start, end, decode) == Outcome(f, [], None)
    decreases |data|
  {
    if |data| > 0 {
      IdleDiscards(f, data[1..], start, end, decode);
    }
  }

  /** A start byte that no byte can equal (`undefined`, say) keeps the framer
      idle forever: nothing is ever decoded. */
  lemma NeverStarts<E>(data: seq<Byte>, start: int, end: int, decode: Frame -> Result<seq<E>>)
    requires !(0 <= start < 256)
    ensures Feed(Idle(), data, start, end, decode) == Outcome(Idle(), [], None)
  {
    IdleDiscards(Idle(), data, start, end, decode);
  }

  /** Below 15 bytes every byte is pushed, start and end bytes included. */
  lemma {:induction false} FillBody<E>(f: Framer, data: seq<Byte>, start: int, end: int,
                                      decode: Frame -> Result<seq<E>>)
    requires Valid(f) && f.haveStart && |f.body| + |data| <= FrameSize
    ensures Feed(f, data, start, end, decode) == Outcome(Framer(true, f.body + data), [], None)
    decreases |data|
  {
    if |data| == 0 {
      assert f.body + data == f.body;
      assert Framer(true, f.body + data) == f;
    } else {
      FillBody(Framer(true, f.body + [data[0]]), data[1..], start, end, decode);
      PushThenRest(f, data, start, end, decode);
    }
  }

  /** One push followed by the rest of the chunk is the whole chunk pushed. */
  lemma PushThenRest<E>(f: Framer, data: seq<Byte>, start: int, end: int, decode: Frame -> Result<seq<E>>)
    requires Valid(f) && f.haveStart && |f.body| < BufferSize && |data| > 0
    requires !(data[0] as int == end && |f.body| == FrameSize)
    requires Feed(Framer(true, f.body + [data[0]]), data[1..], start, end, decode)
             == Outcome(Framer(true, f.body + [data[0]] + data[1..]), [], None)
    ensures Feed(f, data, start, end, decode) == Outcome(Framer(true, f.body + data), [], None)
  {
    PushFirst(f, data, start, end, decode);
    AppendHead(f.body, data);
  }

  lemma AppendHead(a: seq<Byte>, d: seq<Byte>)
    requires |d| > 0
    ensures a + [d[0]] + d[1..] == a + d
  {
    assert [d[0]] + d[1..] == d;
  }

  /** Unless it completes a frame, the first byte of a chunk is pushed and the rest follows. */
  lemma PushFirst<E>(f: Framer, data: seq<Byte>, start: int, end: int, decode: Frame -> Result<seq<E>>)
    requires Valid(f) && f.haveStart && |f.body| < BufferSize && |data| > 0
    requires !(data[0] as int == end && |f.body| == FrameSize)
    ensures Feed(f, data, start, end, decode) == Feed(Framer(true, f.body + [data[0]]), data[1..], start, end, decode)
  {
    var o := Feed(Framer(true, f.body + [data[0]]), data[1..], start, end, decode);
    assert [] + o.events == o.events;
  }

  /** From idle, a start byte, any 15 body bytes (whatever their values) and
      the end byte hand exactly those 15 bytes, zero-padded to 64, to the
      decoder; on success the framer is idle again. */
  lemma FrameDecodes<E>(f: Framer, body: seq<Byte>, sb: Byte, eb: Byte, decode: Frame -> Result<seq<E>>)
    requires Valid(f) && !f.haveStart && |body| == FrameSize
    ensures var o := Feed(f, [sb] + body + [eb], sb as int, eb as int, decode);
            match decode(Buffer(body))
            case Ok(evs) => o == Outcome(Idle(), evs, None)
            case Err(e) => o == Outcome(Framer(true, body), [], Some(e))
  {
    assert [sb] + body + [eb] == [sb] + (body + [eb]);
    OpenFrame(f, sb, body + [eb], eb as int, decode);
    CloseFrame(body, eb, sb as int, decode);
    StepCases(Framer(true, body), eb, sb as int, eb as int, decode);
  }

  /** From idle, the start byte opens an empty frame and the rest is fed to it. */
  lemma OpenFrame<E>(f: Framer, sb: Byte, rest: seq<Byte>, end: int, decode: Frame -> Result<seq<E>>)
    requires Valid(f) && !f.haveStart
    ensures Feed(f, [sb] + rest, sb as int, end, decode) == Feed(Framer(true, []), rest, sb as int, end, decode)
  {
    var data := [sb] + rest;
    assert data[0] == sb && data[1..] == rest;
    var o := Feed(Framer(true, []), rest, sb as int, end, decode);
    assert [] + o.events == o.events;
  }

  /** Fifteen bytes into an empty frame, then the end byte: one decoding step on those fifteen. */
  lemma CloseFrame<E>(body: seq<Byte>, eb: Byte, start: int, decode: Frame -> Result<seq<E>>)
    requires |body| == FrameSize
    ensures Feed(Framer(true, []), body + [eb], start, eb as int, decode) == Step(Framer(true, body), eb, start, eb as int, decode)
  {
    var end := eb as int;
    var collecting, full := Framer(true, []), Framer(true, body);
    FillBody(collecting, body, start, end, decode);
    assert collecting.body + body == body;
    FeedConcat(collecting, body, [eb], start, end, decode);
    FeedOne(full, eb, start, end, decode);
    var o := Step(full, eb, start, end, decode);
    assert [] + o.events == o.events;
  }

  /** A one-byte chunk is one step. */
  lemma FeedOne<E>(f: Framer, x: Byte, start: int, end: int, decode: Frame -> Result<seq<E>>)
    requires Valid(f)
    ensures Feed(f, [x], start, end, decode) == Step(f, x, start, end, decode)
  {
    var s := Step(f, x, start, end, decode);
    assert [x][1..] == [];
    assert s.events + [] == s.events;
  }

  /** What feeding `data` to a frame already holding `body` must give when no
      frame can complete: no events, still collecting, all of `data` pushed
      while it fits, and a RangeError at the 65th byte. */
  predicate Accumulates<E>(body: seq<Byte>, data: seq<Byte>, o: Outcome<E>) {
    && o.events == []
    && o.framer.haveStart
    && (|body| + |data| <= BufferSize ==> o == Outcome(Framer(true, body + data), [], None))
    && (|body| + |data| > BufferSize ==> o.error == Some(RangeError) && o.framer.body == (body + data)[..BufferSize])
  }

  /** Past 15 bytes the end byte is just data: no frame completes until an
      outside `clear()`, the body grows, and the 65th byte throws. */
  lemma {:induction false} StuckAfterOverrun<E>(f: Framer, data: seq<Byte>, start: int, end: int,
                                               decode: Frame -> Result<seq<E>>)
    requires Valid(f) && f.haveStart && |f.body| > FrameSize
    ensures Accumulates(f.body, data, Feed(f, data, start, end, decode))
    decreases |data|
  {
    if |data| == 0 {
      assert f.body + data == f.body;
      assert Framer(true, f.body + data) == f;
    } else if |f.body| < BufferSize {
      StuckAfterOverrun(Framer(true, f.body + [data[0]]), data[1..], start, end, decode);
      StuckStep(f, data, start, end, decode);
    } else {
      Overflow(f, data, start, end, decode);
    }
  }

  lemma StuckStep<E>(f: Framer, data: seq<Byte>, start: int, end: int, decode: Frame -> Result<seq<E>>)
    requires Valid(f) && f.haveStart && FrameSize < |f.body| < BufferSize && |data| > 0
    requires Accumulates(f.body + [data[0]], data[1..],
                         Feed(Framer(true, f.body + [data[0]]), data[1..], start, end, decode))
    ensures Accumulates(f.body, data, Feed(f, data, start, end, decode))
  {
    PushFirst(f, data, start, end, decode);
    AppendHead(f.body, data);
  }

  /** A full buffer refuses the next byte. */
  lemma Overflow<E>(f: Framer, data: seq<Byte>, start: int, end: int, decode: Frame -> Result<seq<E>>)
    requires Valid(f) && f.haveStart && |f.body| == BufferSize && |data| > 0
    ensures Accumulates(f.body, data, Feed(f, data, start, end, decode))
  {
    StepCases(f, data[0], start, end, decode);
    assert (f.body + data)[..BufferSize] == f.body;
  }

  /** While a frame is open a second start byte is pushed as data, it does not restart the frame. */
  lemma StartInsideFrame<E>(f: Framer, sb: Byte, end: int, decode: Frame -> Result<seq<E>>)
    requires Valid(f) && f.haveStart && |f.body| < FrameSize
    ensures Feed(f, [sb], sb as int, end, decode) == Outcome(Framer(true, f.body + [sb]), [], None)
  {
    FeedOne(f, sb, sb as int, end, decode);
  }
}
