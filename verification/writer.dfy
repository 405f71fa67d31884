/**
 `IconvWriter`: a writer that converts bytes on their way to an inner writer.
 Converted bytes wait in an output staging buffer until the inner writer
 accepts them. Input bytes the converter could not finish (an incomplete
 multi-byte sequence) either go back to the caller as a short write, or wait
 in an input staging buffer to be completed by the next write.
 */
module Writer {
  import opened Base
  import opened Errors
  import opened Io
  import opened VecBufs
  import opened Engine
  import opened Streams

  /** The converting writer: handle, inner writer, input and output staging. */
  datatype IconvWriter<!S, !W> = IconvWriter(conv: Iconv<S>, sink: Sink<W>, input: VecBuf, output: VecBuf)

  /** `IconvWriter::new`: open the converter, with `MinWrite` bytes of room in
      both staging buffers; an open failure is returned as is. */
  function New<S, W>(call: IconvFn<S>, open: OpenOutcome<S>, sink: Sink<W>): (r: Result<IconvWriter<S, W>, IconvError>)
    ensures r.Ok? <==> open.Opened?
    ensures r.Ok? ==> r.value.conv == Engine.Iconv(call, open.initial) && r.value.sink == sink
    ensures r.Ok? ==> r.value.input == VecBufs.New(MinWrite) && r.value.output == VecBufs.New(MinWrite)
    ensures r.Err? ==> r.error == OpenError(open.errno)
  {
    match Engine.New(call, open)
    case Ok(c) => Ok(IconvWriter(c, sink, VecBufs.New(MinWrite), VecBufs.New(MinWrite)))
    case Err(e) => Err(e)
  }

  /** A call status after which `write` hands the converted bytes on: success,
      or an incomplete sequence at the end of the input. */
  predicate Passes(st: Status)
  {
    st.Done? || st == Failed(IncompleteInput)
  }

  /** What the status of an honest converter's call means for `write`. A
      success that passes on consumed all of its input. Every status that does
      not pass is a failure `write` returns: neither an incomplete sequence
      nor an open error, so an invalid sequence, an OS error or a full output
      region, for `write` never grows the output staging. */
  lemma Passing<S>(f: IconvFn<S>, k: Call<S>)
    requires Made(f, k)
    ensures Passes(k.result.status) && k.result.status.Done? ==> Unread(k) == []
    ensures !Passes(k.result.status) ==>
              k.result.status.Failed? && k.result.status.err != IncompleteInput && k.result.status.err != ConversionNotSupport
  {
  }

  /** What one `write` of `buf` on `wr` did, given the conversion call `k` it
      made and its calls `pushes` on the inner writer:
      - the call converted the staged input followed by `buf`, into the
        output staging's spare room;
      - after a hard conversion error nothing reaches the inner writer, the
        output staging is unchanged, and `buf` is staged if input was already
        staged;
      - otherwise the output staging, with the new bytes committed, is offered
        to the inner writer once, and what it accepts leaves the staging; the
        unconverted rest of the input stays staged only if input was already
        staged, and the result counts the bytes of `buf` consumed (without
        staging) or all of `buf` (with staging);
      - an inner writer's error is returned as is. */
  ghost predicate Wrote<S, W>(wr: IconvWriter<S, W>, buf: seq<byte>, res: Result<nat, IoError>, wr': IconvWriter<S, W>,
                              k: Call<S>, pushes: seq<Push<W>>)
  {
    && k.before == wr.conv.state && k.input == wr.input.data + buf && k.cap == wr.output.spare
    && Made(wr.conv.call, k)
    && wr'.conv == Engine.Iconv(wr.conv.call, k.after)
    && wr'.sink.push == wr.sink.push
    && Chained(wr.sink.push, wr.sink.state, pushes) && wr'.sink.state == After(wr.sink.state, pushes)
    && wr'.output.Capacity() == wr.output.Capacity()
    && (!Passes(k.result.status) ==>
          && res == Err(IntoIoError(k.result.status.err))
          && pushes == []
          && wr'.output == wr.output
          && wr'.input.data == (if wr.input.IsEmpty() then [] else wr.input.data + buf))
    && (Passes(k.result.status) ==>
          && |pushes| == 1
          && pushes[0].arg == SinkOp.Write(wr.output.data + k.result.output)
          && wr.output.data + k.result.output == Pushed(pushes) + wr'.output.data
          && wr'.input.data == (if wr.input.IsEmpty() then [] else Unread(k))
          && (pushes[0].reply.Err? ==> res == Err(pushes[0].reply.error))
          && (pushes[0].reply.Ok? ==> res == Ok(if wr.input.IsEmpty() then |Taken(k)| else |buf|)))
  }

  /** What a `write` leaves, seen from outside: a success counts no more
      than `buf` (all of it when input was staged); with nothing staged,
      nothing is staged afterwards; what is staged is a suffix of the staged
      input followed by `buf`; the buffers keep their capacity. */
  lemma WroteShape<S, W>(wr: IconvWriter<S, W>, buf: seq<byte>, res: Result<nat, IoError>, wr': IconvWriter<S, W>,
                         k: Call<S>, pushes: seq<Push<W>>)
    requires Wrote(wr, buf, res, wr', k, pushes)
    ensures res.Ok? ==> res.value <= |buf|
    ensures res.Ok? && !wr.input.IsEmpty() ==> res.value == |buf|
    ensures wr.input.IsEmpty() ==> wr'.input.IsEmpty()
    ensures IsSuffix(wr'.input.data, wr.input.data + buf)
    ensures wr'.output.Capacity() == wr.output.Capacity()
    ensures wr'.conv.call == wr.conv.call && wr'.sink.push == wr.sink.push
  {
    if !wr.input.IsEmpty() && Passes(k.result.status) {
      SuffixOfSplit(k.input, Taken(k), Unread(k));
    }
  }

  /** The input staging `write` uses: `buf` appended, unless nothing was staged. */
  function Staging(input: VecBuf, buf: seq<byte>): (b: VecBuf)
    ensures b.data == if input.IsEmpty() then [] else input.data + buf
  {
    if input.IsEmpty() then input else VecBufs.WriteAll(input, buf)
  }

  /** Hand the output staging on, with the `converted` bytes committed to
      it, in one `write` call of the inner writer, and drop from the staging
      what that call accepted. */
  method Deliver<W(!new)>(sink: Sink<W>, output: VecBuf, converted: seq<byte>)
    returns (r: Result<(), IoError>, sink': Sink<W>, output': VecBuf, ghost e: Push<W>)
    requires HonestWrite(sink.push) && |converted| <= output.spare
    ensures e.before == sink.state && e.arg == SinkOp.Write(output.data + converted)
    ensures sink.push(e.before, e.arg) == (e.after, e.reply)
    ensures sink' == sink.(state := e.after)
    ensures output.data + converted == Delivered(e) + output'.data
    ensures output'.Capacity() == output.Capacity()
    ensures r.Ok? <==> e.reply.Ok?
    ensures r.Err? ==> r.error == e.reply.error
  {
    var committed := Commit(output, converted);
    var event := Occur(sink.push, sink.state, SinkOp.Write(committed.data));
    e := event;
    sink' := sink.(state := event.after);
    if event.reply.Err? {
      return Err(event.reply.error), sink', committed, e;
    }
    assert Accepts(event.arg, event.reply);
    output' := VecBufs.Consume(committed, event.reply.value);
    r := Ok(());
  }

  /** `IconvWriter::write`. */
  method Write<S(!new), W(!new)>(wr: IconvWriter<S, W>, buf: seq<byte>)
    returns (res: Result<nat, IoError>, wr': IconvWriter<S, W>, ghost k: Call<S>, ghost pushes: seq<Push<W>>)
    requires Honest(wr.conv.call) && HonestWrite(wr.sink.push)
    ensures res.Ok? ==> res.value <= |buf|
    ensures res.Ok? && !wr.input.IsEmpty() ==> res.value == |buf|
    ensures wr.input.IsEmpty() ==> wr'.input.IsEmpty()
    ensures IsSuffix(wr'.input.data, wr.input.data + buf)
    ensures wr'.output.Capacity() == wr.output.Capacity()
    ensures wr'.conv.call == wr.conv.call && wr'.sink.push == wr.sink.push
    ensures Wrote(wr, buf, res, wr', k, pushes)
    ensures res.Ok? ==> res.value <= |buf| && wr.input.data + buf[..res.value] == Taken(k) + wr'.input.data
  {
    var direct := wr.input.IsEmpty();
    var staged := Staging(wr.input, buf);
    var data := if direct then buf else staged.data;
    assert data == wr.input.data + buf;
    var room := PrepareAtLeast(wr.output, 0);
    assert room == wr.output;
    var step := Step(wr.conv, data, room.spare);
    var cv := step.1;
    k := Record(wr.conv, data, room.spare);
    RecordMade(wr.conv, data, room.spare);
    if !Passes(cv.status) {
      res, wr', pushes := Err(IntoIoError(cv.status.err)), wr.(conv := step.0, input := staged), [];
      WroteShape(wr, buf, res, wr', k, pushes);
      return;
    }
    var input := if direct then staged else VecBufs.Consume(staged, cv.read);
    var r, sink, output;
    ghost var e;
    r, sink, output, e := Deliver(wr.sink, room, cv.output);
    pushes := [e];
    wr' := IconvWriter(step.0, sink, input, output);
    res := if r.Err? then Err(r.error) else Ok(if direct then cv.read else |buf|);
    assert k.result == cv && k.after == step.0.state;
    assert direct ==> cv.read == |Taken(k)|;
    Handed(wr, buf, res, wr', k, e);
    WroteShape(wr, buf, res, wr', k, pushes);
  }

  /** A `write` whose call passes hands the output staging, with the new bytes
      committed, to the inner writer in one `write` call `e`, and so does what
      `Wrote` says. */
  lemma Handed<S, W>(wr: IconvWriter<S, W>, buf: seq<byte>, res: Result<nat, IoError>, wr': IconvWriter<S, W>,
                     k: Call<S>, e: Push<W>)
    requires k.before == wr.conv.state && k.input == wr.input.data + buf && k.cap == wr.output.spare
    requires Made(wr.conv.call, k) && Passes(k.result.status)
    requires e.before == wr.sink.state && e.arg == SinkOp.Write(wr.output.data + k.result.output)
    requires wr.sink.push(e.before, e.arg) == (e.after, e.reply)
    requires wr'.conv == Engine.Iconv(wr.conv.call, k.after) && wr'.sink == wr.sink.(state := e.after)
    requires wr.output.data + k.result.output == Delivered(e) + wr'.output.data
    requires wr'.output.Capacity() == wr.output.Capacity()
    requires wr'.input.data == if wr.input.IsEmpty() then [] else Unread(k)
    requires res == if e.reply.Err? then Err(e.reply.error) else Ok(if wr.input.IsEmpty() then |Taken(k)| else |buf|)
    ensures Wrote(wr, buf, res, wr', k, [e])
  {
    PushSnoc(wr.sink.push, wr.sink.state, [], e);
    assert [] + [e] == [e];
  }

  /** The conversion call `k` was made on `wr`'s handle, and `wr'` holds the
      handle in the state it left and the inner writer in the state the calls
      `pushes` left. */
  ghost predicate Moved<S, W>(wr: IconvWriter<S, W>, wr': IconvWriter<S, W>, k: Call<S>, pushes: seq<Push<W>>)
  {
    && k.before == wr.conv.state
    && Made(wr.conv.call, k)
    && wr'.conv == Engine.Iconv(wr.conv.call, k.after)
    && wr'.sink.push == wr.sink.push
    && Chained(wr.sink.push, wr.sink.state, pushes)
    && wr'.sink.state == After(wr.sink.state, pushes)
  }

  /** `write_all` on the converting writer: one `write`, then whatever of
      `buf` it did not consume is staged. On success nothing of `buf` is
      dropped: the staged input and `buf` are what the call consumed followed
      by what is staged now; and every converted byte was either handed to
      the inner writer or is staged. Errors of `write` are returned as is,
      with the writer left as that `write` left it. */
  method WriteAll<S(!new), W(!new)>(wr: IconvWriter<S, W>, buf: seq<byte>)
    returns (res: Result<(), IoError>, wr': IconvWriter<S, W>, ghost k: Call<S>, ghost pushes: seq<Push<W>>)
    requires Honest(wr.conv.call) && HonestWrite(wr.sink.push)
    ensures IsSuffix(wr'.input.data, wr.input.data + buf)
    ensures wr'.output.Capacity() == wr.output.Capacity()
    ensures wr'.conv.call == wr.conv.call && wr'.sink.push == wr.sink.push
    ensures Moved(wr, wr', k, pushes)
    ensures res.Err? ==> Wrote(wr, buf, Err(res.error), wr', k, pushes)
    ensures k.input == wr.input.data + buf && k.cap == wr.output.spare
    ensures res.Ok? <==> Passes(k.result.status) && |pushes| == 1 && pushes[0].reply.Ok?
    ensures res.Ok? ==> wr.input.data + buf == Taken(k) + wr'.input.data
    ensures res.Ok? ==> wr.output.data + k.result.output == Pushed(pushes) + wr'.output.data
    ensures res.Err? && !Passes(k.result.status) ==> res.error == IntoIoError(k.result.status.err)
    ensures res.Err? && Passes(k.result.status) ==> |pushes| == 1 && pushes[0].reply == Err(res.error)
  {
    var r;
    r, wr', k, pushes := Write(wr, buf);
    if r.Err? {
      return Err(r.error), wr', k, pushes;
    }
    var w := r.value;
    if w < |buf| {
      var rest := buf[w..];
      assert wr.input.data + buf == (wr.input.data + buf[..w]) + rest;
      wr' := wr'.(input := VecBufs.WriteAll(wr'.input, rest));
    } else {
      assert buf[..w] == buf;
    }
    res := Ok(());
  }

  /** What one `flush` of `wr` did, given its conversion call `k` and its
      calls `pushes` on the inner writer, leaving `wr'`: first an empty
      `write`, whose errors end the flush with the writer as that `write`
      left it; then, if input is still staged, the incomplete-input error,
      with the unconverted input and the unsent output still staged;
      otherwise everything left in the output staging goes to the inner
      writer with `write_all`, whose error ends the flush with that output
      still staged; and last the inner writer's `flush`, whose reply is the
      result, with nothing staged any more. */
  ghost predicate Flushed<S, W>(wr: IconvWriter<S, W>, res: Result<(), IoError>, wr': IconvWriter<S, W>,
                                k: Call<S>, pushes: seq<Push<W>>)
  {
    && (!Passes(k.result.status) ==>
          && res == Err(IntoIoError(k.result.status.err)) && pushes == []
          && wr'.input.data == wr.input.data && wr'.output == wr.output)
    && (Passes(k.result.status) ==>
          && 1 <= |pushes| <= 3
          && pushes[0].arg == SinkOp.Write(wr.output.data + k.result.output)
          && (pushes[0].reply.Err? ==>
                && res == Err(pushes[0].reply.error) && |pushes| == 1
                && wr'.input.data == (if wr.input.IsEmpty() then [] else Unread(k))
                && wr'.output.data == wr.output.data + k.result.output)
          && (pushes[0].reply.Ok? && !wr.input.IsEmpty() && Unread(k) != [] ==>
                && res == Err(IntoIoError(IncompleteInput)) && |pushes| == 1
                && wr'.input.data == Unread(k)
                && wr.output.data + k.result.output == Delivered(pushes[0]) + wr'.output.data)
          && (pushes[0].reply.Ok? && (wr.input.IsEmpty() || Unread(k) == []) ==>
                && |pushes| >= 2
                && pushes[1].arg.WriteAll?
                && wr.output.data + k.result.output == Delivered(pushes[0]) + pushes[1].arg.bytes
                && (pushes[1].reply.Err? ==>
                      && res == Err(pushes[1].reply.error) && |pushes| == 2
                      && wr'.input.data == [] && wr'.output.data == pushes[1].arg.bytes)
                && (pushes[1].reply.Ok? ==>
                      && |pushes| == 3
                      && pushes[2].arg == SinkOp.Flush
                      && wr'.input.data == [] && wr'.output.data == []
                      && (pushes[2].reply.Ok? ==> res == Ok(()))
                      && (pushes[2].reply.Err? ==> res == Err(pushes[2].reply.error)))))
  }

  /** `flush` on the converting writer, as `Flushed` says. On success nothing
      is staged any more, the call consumed all staged input, and every byte
      of output staging and of the call reached the inner writer. */
  method Flush<S(!new), W(!new)>(wr: IconvWriter<S, W>)
    returns (res: Result<(), IoError>, wr': IconvWriter<S, W>, ghost k: Call<S>, ghost pushes: seq<Push<W>>)
    requires Honest(wr.conv.call) && HonestWrite(wr.sink.push)
    ensures res.Ok? ==> wr'.input.data == [] && wr'.output.data == []
    ensures wr'.conv.call == wr.conv.call && wr'.sink.push == wr.sink.push
    ensures Moved(wr, wr', k, pushes)
    ensures k.input == wr.input.data && k.cap == wr.output.spare
    ensures Flushed(wr, res, wr', k, pushes)
    ensures res.Ok? ==>
              && Passes(k.result.status)
              && Taken(k) == wr.input.data && wr'.input.data == []
              && wr.output.data + k.result.output == Pushed(pushes) && wr'.output.data == []
              && |pushes| == 3
              && pushes[1].arg.WriteAll? && pushes[1].reply.Ok?
              && pushes[2].arg == SinkOp.Flush && pushes[2].reply.Ok?
  {
    var r, wr1;
    ghost var ps;
    r, wr1, k, ps := Write(wr, []);
    assert wr.input.data + [] == wr.input.data;
    pushes := ps;
    if Passes(k.result.status) {
      assert ps[1..] == [];
      assert Pushed(ps) == Delivered(ps[0]);
    }
    if r.Err? {
      return Err(r.error), wr1, k, pushes;
    }
    if !wr1.input.IsEmpty() {
      return Err(IntoIoError(IncompleteInput)), wr1, k, pushes;
    }
    var b := wr1.output.data;
    var e1 := Occur(wr1.sink.push, wr1.sink.state, SinkOp.WriteAll(b));
    PushSnoc(wr.sink.push, wr.sink.state, pushes, e1);
    pushes := pushes + [e1];
    if e1.reply.Err? {
      return Err(e1.reply.error), wr1.(sink := wr1.sink.(state := e1.after)), k, pushes;
    }
    var e2 := Occur(wr1.sink.push, e1.after, SinkOp.Flush);
    PushSnoc(wr.sink.push, wr.sink.state, pushes, e2);
    pushes := pushes + [e2];
    wr' := IconvWriter(wr1.conv, wr1.sink.(state := e2.after), wr1.input, VecBufs.Consume(wr1.output, |b|));
    res := if e2.reply.Ok? then Ok(()) else Err(e2.reply.error);
  }

  /** The books of a writer `wr` that started as `wr0`, after the caller
      handed it `given` bytes: the recorded conversion calls and inner-writer
      calls are chained; the input staged at the start and `given` are what
      the calls consumed followed by what is staged now; and the output staged
      at the start and everything converted are what the inner writer
      received followed by what is staged now. */
  ghost predicate Balanced<S, W>(wr0: IconvWriter<S, W>, wr: IconvWriter<S, W>, given: seq<byte>,
                                 calls: seq<Call<S>>, pushes: seq<Push<W>>)
  {
    && wr.conv.call == wr0.conv.call
    && Linked(wr0.conv.call, wr0.conv.state, calls)
    && wr.conv.state == Final(wr0.conv.state, calls)
    && wr.sink.push == wr0.sink.push
    && Chained(wr0.sink.push, wr0.sink.state, pushes)
    && wr.sink.state == After(wr0.sink.state, pushes)
    && wr0.input.data + given == Consumed(calls) + wr.input.data
    && wr0.output.data + Outputs(calls) == Pushed(pushes) + wr.output.data
  }

  /** An operation that keeps the books of one call keeps the books of the
      whole history. */
  lemma Rebalanced<S, W>(wr0: IconvWriter<S, W>, wr: IconvWriter<S, W>, given: seq<byte>,
                         calls: seq<Call<S>>, pushes: seq<Push<W>>,
                         buf: seq<byte>, wr': IconvWriter<S, W>, k: Call<S>, ps: seq<Push<W>>)
    requires Balanced(wr0, wr, given, calls, pushes)
    requires Moved(wr, wr', k, ps)
    requires wr.input.data + buf == Taken(k) + wr'.input.data
    requires wr.output.data + k.result.output == Pushed(ps) + wr'.output.data
    ensures Balanced(wr0, wr', given + buf, calls + [k], pushes + ps)
  {
    LinkedSnoc(wr0.conv.call, wr0.conv.state, calls, k);
    ConsumedSnoc(calls, k);
    ChainedAppend(wr0.sink.push, wr0.sink.state, pushes, ps);
    PushedAppend(pushes, ps);
    Chain(wr0.input.data, given, Consumed(calls), wr.input.data, buf, Taken(k), wr'.input.data);
    Chain(wr0.output.data, Outputs(calls), Pushed(pushes), wr.output.data, k.result.output, Pushed(ps), wr'.output.data);
  }

  /** Any operation extends the chained history, whatever its outcome. */
  lemma Extended<S, W>(wr0: IconvWriter<S, W>, wr: IconvWriter<S, W>, given: seq<byte>,
                       calls: seq<Call<S>>, pushes: seq<Push<W>>, wr': IconvWriter<S, W>, k: Call<S>, ps: seq<Push<W>>)
    requires Balanced(wr0, wr, given, calls, pushes)
    requires Moved(wr, wr', k, ps)
    ensures Linked(wr0.conv.call, wr0.conv.state, calls + [k])
    ensures Chained(wr0.sink.push, wr0.sink.state, pushes + ps)
  {
    LinkedSnoc(wr0.conv.call, wr0.conv.state, calls, k);
    ChainedAppend(wr0.sink.push, wr0.sink.state, pushes, ps);
  }

  /** A successful `flush` closes the books of a writer that started with
      nothing staged: everything given was consumed, and everything converted
      reached the inner writer. */
  lemma Closed<S, W>(wr0: IconvWriter<S, W>, wr: IconvWriter<S, W>, given: seq<byte>,
                     calls: seq<Call<S>>, pushes: seq<Push<W>>, wr': IconvWriter<S, W>, k: Call<S>, ps: seq<Push<W>>)
    requires Balanced(wr0, wr, given, calls, pushes)
    requires wr0.input.data == [] && wr0.output.data == []
    requires Moved(wr, wr', k, ps)
    requires Taken(k) == wr.input.data && wr'.input.data == []
    requires wr.output.data + k.result.output == Pushed(ps) && wr'.output.data == []
    ensures Linked(wr0.conv.call, wr0.conv.state, calls + [k])
    ensures Chained(wr0.sink.push, wr0.sink.state, pushes + ps)
    ensures Consumed(calls + [k]) == given && Pushed(pushes + ps) == Outputs(calls + [k])
  {
    assert wr.input.data + [] == Taken(k) + wr'.input.data;
    assert wr.output.data + k.result.output == Pushed(ps) + wr'.output.data;
    Rebalanced(wr0, wr, given, calls, pushes, [], wr', k, ps);
    assert [] + (given + []) == given;
    assert [] + Outputs(calls + [k]) == Outputs(calls + [k]);
  }

  /** `write_all` of one more buffer in a session: the history stays
      chained, and on success the books stay balanced with `buf` given. */
  method Feed<S(!new), W(!new)>(ghost wr0: IconvWriter<S, W>, wr: IconvWriter<S, W>, ghost given: seq<byte>, buf: seq<byte>,
                                ghost calls: seq<Call<S>>, ghost pushes: seq<Push<W>>)
    returns (r: Result<(), IoError>, wr': IconvWriter<S, W>, ghost calls': seq<Call<S>>, ghost pushes': seq<Push<W>>)
    requires Honest(wr0.conv.call) && HonestWrite(wr0.sink.push)
    requires Balanced(wr0, wr, given, calls, pushes)
    ensures r.Ok? ==> IsSuffix(wr'.input.data, wr.input.data + buf)
    ensures Linked(wr0.conv.call, wr0.conv.state, calls') && Chained(wr0.sink.push, wr0.sink.state, pushes')
    ensures r.Ok? ==> Balanced(wr0, wr', given + buf, calls', pushes')
  {
    ghost var k, ps;
    r, wr', k, ps := WriteAll(wr, buf);
    if r.Ok? {
      Rebalanced(wr0, wr, given, calls, pushes, buf, wr', k, ps);
    } else {
      Extended(wr0, wr, given, calls, pushes, wr', k, ps);
    }
    calls', pushes' := calls + [k], pushes + ps;
  }

  /** `flush` at the end of a session on a writer that started with nothing
      staged: the history stays chained, and on success everything given was
      consumed and everything converted reached the inner writer. */
  method Close<S(!new), W(!new)>(ghost wr0: IconvWriter<S, W>, wr: IconvWriter<S, W>, ghost given: seq<byte>,
                                 ghost calls: seq<Call<S>>, ghost pushes: seq<Push<W>>)
    returns (res: Result<(), IoError>, ghost calls': seq<Call<S>>, ghost pushes': seq<Push<W>>)
    requires Honest(wr0.conv.call) && HonestWrite(wr0.sink.push)
    requires Balanced(wr0, wr, given, calls, pushes)
    requires wr0.input.data == [] && wr0.output.data == []
    ensures Linked(wr0.conv.call, wr0.conv.state, calls') && Chained(wr0.sink.push, wr0.sink.state, pushes')
    ensures res.Ok? ==> Consumed(calls') == given && Pushed(pushes') == Outputs(calls')
  {
    var wr';
    ghost var k, ps;
    res, wr', k, ps := Flush(wr);
    if res.Ok? {
      Closed(wr0, wr, given, calls, pushes, wr', k, ps);
    } else {
      Extended(wr0, wr, given, calls, pushes, wr', k, ps);
    }
    calls', pushes' := calls + [k], pushes + ps;
  }

  /** A session on a new converting writer: `write_all` of each of `bufs` in
      turn, stopping at the first error, then `flush`. When it succeeds,
      nothing was lost or duplicated on either side: the conversion calls
      consumed exactly the bytes of `bufs`, in order, and the inner writer
      received exactly the bytes they wrote, in order. */
  method Session<S(!new), W(!new)>(call: IconvFn<S>, open: OpenOutcome<S>, sink: Sink<W>, bufs: seq<seq<byte>>)
    returns (res: Result<(), IoError>, ghost calls: seq<Call<S>>, ghost pushes: seq<Push<W>>)
    requires Honest(call) && HonestWrite(sink.push)
    ensures open.OpenFailed? ==> res == Err(IntoIoError(OpenError(open.errno)))
    ensures open.OpenFailed? ==> calls == [] && pushes == []
    ensures open.Opened? ==> Linked(call, open.initial, calls) && Chained(sink.push, sink.state, pushes)
    ensures res.Ok? ==> open.Opened? && Consumed(calls) == Flatten(bufs) && Pushed(pushes) == Outputs(calls)
  {
    calls, pushes := [], [];
    var made := New(call, open, sink);
    if made.Err? {
      return Err(IntoIoError(made.error)), calls, pushes;
    }
    var wr0 := made.value;
    var wr := wr0;
    var i := 0;
    while i < |bufs|
      invariant i <= |bufs|
      invariant Balanced(wr0, wr, Flatten(bufs[..i]), calls, pushes)
    {
      var r;
      r, wr, calls, pushes := Feed(wr0, wr, Flatten(bufs[..i]), bufs[i], calls, pushes);
      if r.Err? {
        return Err(r.error), calls, pushes;
      }
      assert bufs[..i + 1] == bufs[..i] + [bufs[i]];
      FlattenSnoc(bufs[..i], bufs[i]);
      i := i + 1;
    }
    assert bufs[..i] == bufs;
    res, calls, pushes := Close(wr0, wr, Flatten(bufs), calls, pushes);
  }
}
