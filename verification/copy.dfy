/**
 `copy(input, output, from, to)`: open a converting reader on `input`, then
 repeatedly fill its output staging, hand everything staged to the writer
 `output` with `write_all`, and consume it, until a fill comes back empty.
 The result is the number of bytes handed over.

 Each fill runs one `read` of the converting reader; both that and the copy
 loop itself run on the same `fuel` bound.
 */
module Copy {
  import opened Base
  import opened Errors
  import opened Io
  import opened VecBufs
  import opened Engine
  import opened Streams
  import opened Reader

  /** Every call on the writer so far handed over a non-empty batch of bytes
      with `write_all`, successfully. */
  ghost predicate Sends<W>(pushes: seq<Push<W>>)
    decreases |pushes|
  {
    || |pushes| == 0
    || (&& pushes[0].arg.WriteAll?
        && |pushes[0].arg.bytes| > 0
        && pushes[0].reply.Ok?
        && Sends(pushes[1..]))
  }

  /** One more successful `write_all` of a non-empty batch keeps `Sends`. */
  lemma {:induction false} SendsSnoc<W>(pushes: seq<Push<W>>, e: Push<W>)
    requires Sends(pushes)
    requires e.arg.WriteAll? && |e.arg.bytes| > 0 && e.reply.Ok?
    ensures Sends(pushes + [e])
    decreases |pushes|
  {
    if |pushes| == 0 {
      assert pushes + [e] == [e];
      assert [e][1..] == [];
    } else {
      assert (pushes + [e])[1..] == pushes[1..] + [e];
      SendsSnoc(pushes[1..], e);
    }
  }

  /** A batch sequence that `Sends` is a successful `write_all` after batches
      that `Sends`. */
  lemma {:induction false} SendsFront<W>(pushes: seq<Push<W>>)
    requires Sends(pushes) && |pushes| > 0
    ensures Sends(pushes[..|pushes| - 1]) && Last(pushes).reply.Ok?
    decreases |pushes|
  {
    var front := pushes[..|pushes| - 1];
    if |pushes| == 1 {
      assert front == [];
    } else {
      SendsFront(pushes[1..]);
      LastTail(pushes);
      assert front[0] == pushes[0];
      assert front[1..] == pushes[1..][..|pushes| - 2];
    }
  }

  /** Between two rounds of the copy loop, started with the reader `c0` and the
      writer `sink0`: the reader has made the recorded reads and conversion
      calls, its output staging is empty again, every byte pulled is converted
      or still staged, and the writer received, in order and with nothing
      lost, every byte converted, `w` bytes in all. */
  ghost predicate Pumping<S, R, W>(c0: IconvReader<S, R>, sink0: Sink<W>, cr: IconvReader<S, R>, ws: W, w: nat,
                                   pulls: seq<Pull<R>>, calls: seq<Call<S>>, pushes: seq<Push<W>>)
  {
    && Traced(c0, cr, pulls, calls)
    && cr.output == c0.output
    && cr.output.IsEmpty()
    && cr.input.Capacity() == c0.input.Capacity()
    && c0.input.data + Pulled(pulls) == Consumed(calls) + cr.input.data
    && Chained(sink0.push, sink0.state, pushes)
    && ws == After(sink0.state, pushes)
    && Sends(pushes)
    && Pushed(pushes) == Outputs(calls)
    && w == |Pushed(pushes)|
  }

  /** An error `e` that `copy` returned is the error of the call that ended
      it: the writer's, if the last `write_all` failed; otherwise the inner
      reader's, if the last read failed; otherwise the last conversion
      call's, as an I/O error. */
  ghost predicate Propagated<S, R, W>(e: IoError, pulls: seq<Pull<R>>, calls: seq<Call<S>>, pushes: seq<Push<W>>)
  {
    if |pushes| > 0 && Last(pushes).reply.Err? then e == Last(pushes).reply.error
    else if |pulls| > 0 && Last(pulls).reply.Err? then e == Last(pulls).reply.error
    else |calls| > 0 && Last(calls).result.status.Failed? && e == IntoIoError(Last(calls).result.status.err)
  }

  /** The calls on the converter, the inner reader and the writer are chained
      from their starting states, and the writer received a prefix of the
      converted bytes. */
  ghost predicate Logged<S, R, W>(c0: IconvReader<S, R>, sink0: Sink<W>,
                                  pulls: seq<Pull<R>>, calls: seq<Call<S>>, pushes: seq<Push<W>>)
  {
    && Linked(c0.conv.call, c0.conv.state, calls)
    && Chained(c0.source.read, c0.source.state, pulls)
    && Chained(sink0.push, sink0.state, pushes)
    && Pushed(pushes) <= Outputs(calls)
  }

  /** How `copy`, started with the reader `c0` and the writer `sink0`, ended:
      the calls on the converter, the inner reader and the writer are chained,
      and the writer received a prefix of the converted bytes. On success it
      received all of them, in batches of `write_all` that ended with the one
      empty batch, the result counts them, and every byte the inner reader
      delivered was converted. An error is propagated from the call that
      raised it, after batches that were all handed over. */
  ghost predicate Copied<S, R, W>(c0: IconvReader<S, R>, sink0: Sink<W>, res: Fueled<Result<nat, IoError>>,
                                  pulls: seq<Pull<R>>, calls: seq<Call<S>>, pushes: seq<Push<W>>)
  {
    && Logged(c0, sink0, pulls, calls, pushes)
    && (res.Finished? && res.result.Ok? ==>
          && |pushes| > 0
          && Last(pushes).arg == WriteAll([])
          && Last(pushes).reply.Ok?
          && Sends(pushes[..|pushes| - 1])
          && Pushed(pushes) == Outputs(calls)
          && res.result.value == |Pushed(pushes)|
          && c0.input.data + Pulled(pulls) == Consumed(calls))
    && (res.Finished? && res.result.Err? ==>
          && (|pushes| > 0 ==> Sends(pushes[..|pushes| - 1]))
          && Propagated(res.result.error, pulls, calls, pushes))
  }

  /** The reads and calls of one fill, made by a reader that continues from
      the recorded ones, extend the record. */
  lemma TracedAppend<S, R>(c0: IconvReader<S, R>, cr: IconvReader<S, R>, pulls: seq<Pull<R>>, calls: seq<Call<S>>,
                           mid: IconvReader<S, R>, rd: IconvReader<S, R>, ps: seq<Pull<R>>, ks: seq<Call<S>>)
    requires Traced(c0, cr, pulls, calls)
    requires mid.conv == cr.conv && mid.source == cr.source
    requires Traced(mid, rd, ps, ks)
    ensures Traced(c0, rd, pulls + ps, calls + ks)
  {
    LinkedAppend(c0.conv.call, c0.conv.state, calls, ks);
    ChainedAppend(c0.source.read, c0.source.state, pulls, ps);
  }

  /** A fill that stopped the copy loop leaves the record chained, the writer
      having received a prefix of the converted bytes. */
  lemma Stopped<S, R, W>(c0: IconvReader<S, R>, sink0: Sink<W>, cr: IconvReader<S, R>, ws: W, w: nat,
                         pulls: seq<Pull<R>>, calls: seq<Call<S>>, pushes: seq<Push<W>>,
                         rd: IconvReader<S, R>, ps: seq<Pull<R>>, ks: seq<Call<S>>)
    requires Pumping(c0, sink0, cr, ws, w, pulls, calls, pushes)
    requires Traced(cr.(output := Default()), rd, ps, ks)
    ensures Traced(c0, rd, pulls + ps, calls + ks)
    ensures Logged(c0, sink0, pulls + ps, calls + ks, pushes)
    ensures Consumed(calls + ks) == Consumed(calls) + Consumed(ks)
    ensures Outputs(calls + ks) == Outputs(calls) + Outputs(ks)
  {
    TracedAppend(c0, cr, pulls, calls, cr.(output := Default()), rd, ps, ks);
    TraceAppend(calls, ks);
  }

  /** A fill that failed ends `copy` with its error. */
  lemma FillFailed<S, R, W>(c0: IconvReader<S, R>, sink0: Sink<W>, cr: IconvReader<S, R>, ws: W, w: nat,
                            pulls: seq<Pull<R>>, calls: seq<Call<S>>, pushes: seq<Push<W>>,
                            rd: IconvReader<S, R>, out: seq<byte>, ps: seq<Pull<R>>, ks: seq<Call<S>>, e: IoError)
    requires Pumping(c0, sink0, cr, ws, w, pulls, calls, pushes)
    requires Answered(cr.(output := Default()), cr.output.spare, rd, out, ps, ks, Err(e))
    ensures Copied(c0, sink0, Finished(Err(e)), pulls + ps, calls + ks, pushes)
  {
    Stopped(c0, sink0, cr, ws, w, pulls, calls, pushes, rd, ps, ks);
    if |pushes| > 0 {
      SendsFront(pushes);
    }
    assert |ps| > 0 && Last(pulls + ps) == Last(ps) by {
      LastAppend(pulls, ps);
    }
    if Last(ps).reply.Ok? {
      LastAppend(calls, ks);
    }
  }

  /** A fill that ran out of fuel ends `copy` out of fuel. */
  lemma FillExhausted<S, R, W>(c0: IconvReader<S, R>, sink0: Sink<W>, cr: IconvReader<S, R>, ws: W, w: nat,
                               pulls: seq<Pull<R>>, calls: seq<Call<S>>, pushes: seq<Push<W>>,
                               rd: IconvReader<S, R>, out: seq<byte>, ps: seq<Pull<R>>, ks: seq<Call<S>>)
    requires Pumping(c0, sink0, cr, ws, w, pulls, calls, pushes)
    requires Inside(cr.(output := Default()), cr.output.spare, rd, out, ps, ks)
    ensures Copied(c0, sink0, OutOfFuel, pulls + ps, calls + ks, pushes)
  {
    Stopped(c0, sink0, cr, ws, w, pulls, calls, pushes, rd, ps, ks);
  }

  /** A `write_all` that failed ends `copy` with the writer's error; the batch
      it was given is not counted as handed over. */
  lemma SinkFailed<S, R, W>(c0: IconvReader<S, R>, sink0: Sink<W>, cr: IconvReader<S, R>, ws: W, w: nat,
                            pulls: seq<Pull<R>>, calls: seq<Call<S>>, pushes: seq<Push<W>>,
                            rd: IconvReader<S, R>, out: seq<byte>, ps: seq<Pull<R>>, ks: seq<Call<S>>, e: Push<W>)
    requires Pumping(c0, sink0, cr, ws, w, pulls, calls, pushes)
    requires Answered(cr.(output := Default()), cr.output.spare, rd, out, ps, ks, Ok(|out|))
    requires e.before == ws && e.arg == WriteAll(out) && sink0.push(e.before, e.arg) == (e.after, e.reply)
    requires e.reply.Err?
    ensures Copied(c0, sink0, Finished(Err(e.reply.error)), pulls + ps, calls + ks, pushes + [e])
  {
    Stopped(c0, sink0, cr, ws, w, pulls, calls, pushes, rd, ps, ks);
    PushSnoc(sink0.push, sink0.state, pushes, e);
    assert Pushed(pushes + [e]) == Pushed(pushes);
    assert Last(pushes + [e]) == e;
    assert (pushes + [e])[..|pushes|] == pushes;
  }

  /** The conversion calls of a fill that read some bytes consumed everything
      pulled, up to what stays staged, and wrote what the fill returned. */
  lemma FillBalance<S, R>(cr: IconvReader<S, R>, rd: IconvReader<S, R>, out: seq<byte>,
                          ps: seq<Pull<R>>, ks: seq<Call<S>>)
    requires Answered(cr.(output := Default()), cr.output.spare, rd, out, ps, ks, Ok(|out|))
    ensures |ks| > 0 && Last(ps).reply.Ok?
    ensures Classified(Last(ks).result.status, |out|, Ok(|out|))
    ensures cr.input.data + Pulled(ps) == Consumed(ks) + rd.input.data
    ensures rd.input.data == Unread(Last(ks))
    ensures out == Outputs(ks)
  {
  }

  /** A successful `write_all` of a non-empty batch lets the copy loop go on. */
  lemma Advanced<S, R, W>(c0: IconvReader<S, R>, sink0: Sink<W>, cr: IconvReader<S, R>, ws: W, w: nat,
                          pulls: seq<Pull<R>>, calls: seq<Call<S>>, pushes: seq<Push<W>>,
                          cr1: IconvReader<S, R>, out: seq<byte>, ps: seq<Pull<R>>, ks: seq<Call<S>>, e: Push<W>,
                          cr2: IconvReader<S, R>)
    requires Pumping(c0, sink0, cr, ws, w, pulls, calls, pushes)
    requires Answered(cr.(output := Default()), cr.output.spare, cr1.(output := Default()), out, ps, ks, Ok(|out|))
    requires cr1.output == Commit(cr.output, out)
    requires e.before == ws && e.arg == WriteAll(out) && sink0.push(e.before, e.arg) == (e.after, e.reply)
    requires e.reply.Ok? && |out| > 0
    requires cr2 == Reader.Consume(cr1, |out|)
    ensures Pumping(c0, sink0, cr2, e.after, w + |out|, pulls + ps, calls + ks, pushes + [e])
  {
    var rd := cr1.(output := Default());
    Stopped(c0, sink0, cr, ws, w, pulls, calls, pushes, rd, ps, ks);
    FillBalance(cr, rd, out, ps, ks);
    PulledAppend(pulls, ps);
    Chain(c0.input.data, Pulled(pulls), Consumed(calls), cr.input.data, Pulled(ps), Consumed(ks), rd.input.data);
    assert (cr.output.data + out)[|out|..] == [];
    PushSnoc(sink0.push, sink0.state, pushes, e);
    assert Delivered(e) == out;
    SendsSnoc(pushes, e);
  }

  /** An empty fill, handed over successfully, ends `copy` with the count of
      bytes handed over: the last conversion call succeeded, so nothing stays
      staged and every byte pulled was converted. */
  lemma Drained<S, R, W>(c0: IconvReader<S, R>, sink0: Sink<W>, cr: IconvReader<S, R>, ws: W, w: nat,
                         pulls: seq<Pull<R>>, calls: seq<Call<S>>, pushes: seq<Push<W>>,
                         rd: IconvReader<S, R>, ps: seq<Pull<R>>, ks: seq<Call<S>>, e: Push<W>)
    requires Pumping(c0, sink0, cr, ws, w, pulls, calls, pushes)
    requires Answered(cr.(output := Default()), cr.output.spare, rd, [], ps, ks, Ok(0))
    requires e.before == ws && e.arg == WriteAll([]) && sink0.push(e.before, e.arg) == (e.after, e.reply)
    requires e.reply.Ok?
    ensures Copied(c0, sink0, Finished(Ok(w)), pulls + ps, calls + ks, pushes + [e])
  {
    Stopped(c0, sink0, cr, ws, w, pulls, calls, pushes, rd, ps, ks);
    FillBalance(cr, rd, [], ps, ks);
    DoneUsesAll(cr.conv.call, cr.conv.state, ks);
    PulledAppend(pulls, ps);
    Chain(c0.input.data, Pulled(pulls), Consumed(calls), cr.input.data, Pulled(ps), Consumed(ks), []);
    assert Consumed(calls + ks) + [] == Consumed(calls + ks);
    PushSnoc(sink0.push, sink0.state, pushes, e);
    assert (pushes + [e])[..|pushes|] == pushes;
    assert Last(pushes + [e]) == e;
  }

  /** One round of the copy loop: fill, hand the filled bytes to the writer
      with `write_all`, consume them, and go on unless the fill was empty. */
  method Pump<S(!new), R(!new), W>(ghost c0: IconvReader<S, R>, sink0: Sink<W>, cr: IconvReader<S, R>, ws: W, w: nat,
                                   fuel: nat, ghost pulls: seq<Pull<R>>, ghost calls: seq<Call<S>>, ghost pushes: seq<Push<W>>)
    returns (goesOn: bool, res: Fueled<Result<nat, IoError>>, cr': IconvReader<S, R>, ws': W, w': nat,
             ghost pulls': seq<Pull<R>>, ghost calls': seq<Call<S>>, ghost pushes': seq<Push<W>>)
    requires Honest(c0.conv.call) && HonestRead(c0.source.read)
    requires Pumping(c0, sink0, cr, ws, w, pulls, calls, pushes)
    ensures goesOn ==> w < w' && cr'.output.IsEmpty()
    ensures !goesOn && res.Finished? && res.result.Ok? ==> res.result.value == w
    ensures goesOn ==> Pumping(c0, sink0, cr', ws', w', pulls', calls', pushes')
    ensures goesOn ==> |pushes'| == |pushes| + 1
    ensures !goesOn ==> Copied(c0, sink0, res, pulls', calls', pushes')
    ensures !goesOn && res.OutOfFuel? ==> pushes' == pushes && |pulls'| == |pulls| + fuel && Busy(pulls', fuel)
  {
    var filled, cr1;
    ghost var ps, ks;
    filled, cr1, ps, ks := FillBuf(cr, fuel);
    pulls', calls', pushes' := pulls + ps, calls + ks, pushes;
    cr', ws', w', res := cr1, ws, w, OutOfFuel;
    if filled.OutOfFuel? {
      FillExhausted(c0, sink0, cr, ws, w, pulls, calls, pushes, cr1, Outputs(ks), ps, ks);
      BusyAppend(pulls, ps);
      return false, res, cr', ws', w', pulls', calls', pushes';
    }
    if filled.result.Err? {
      FillFailed(c0, sink0, cr, ws, w, pulls, calls, pushes, cr1, Outputs(ks), ps, ks, filled.result.error);
      return false, Finished(Err(filled.result.error)), cr', ws', w', pulls', calls', pushes';
    }
    var v := filled.result.value;
    var e := Occur(sink0.push, ws, WriteAll(v));
    pushes' := pushes + [e];
    if e.reply.Err? {
      SinkFailed(c0, sink0, cr, ws, w, pulls, calls, pushes, cr1.(output := Default()), v, ps, ks, e);
      return false, Finished(Err(e.reply.error)), cr', ws', w', pulls', calls', pushes';
    }
    var n := |v|;
    cr', ws', w' := Reader.Consume(cr1, n), e.after, w + n;
    if n == 0 {
      Drained(c0, sink0, cr, ws, w, pulls, calls, pushes, cr1.(output := Default()), ps, ks, e);
      return false, Finished(Ok(w')), cr', ws', w', pulls', calls', pushes';
    }
    Advanced(c0, sink0, cr, ws, w, pulls, calls, pushes, cr1, v, ps, ks, e, cr');
    goesOn := true;
  }

  /** `copy`: convert everything `source` delivers and hand it to `sink`, for
      at most `fuel` fills of at most `fuel` reads each. An open failure is
      returned as an I/O error before anything is read. The fuel runs out
      only after `fuel` rounds that each handed a non-empty batch to the
      writer, or in a fill whose last `fuel` reads all delivered bytes. */
  method Copy<S(!new), R(!new), W>(call: IconvFn<S>, open: OpenOutcome<S>, source: Source<R>, sink: Sink<W>, fuel: nat)
    returns (res: Fueled<Result<nat, IoError>>, ghost pulls: seq<Pull<R>>, ghost calls: seq<Call<S>>, ghost pushes: seq<Push<W>>)
    requires Honest(call) && HonestRead(source.read)
    ensures open.OpenFailed? ==> res == Finished(Err(IntoIoError(OpenError(open.errno))))
    ensures open.OpenFailed? ==> pulls == [] && calls == [] && pushes == []
    ensures open.Opened? ==>
              Copied(IconvReader(Engine.Iconv(call, open.initial), source, VecBufs.New(MinWrite), VecBufs.New(MinWrite)),
                     sink, res, pulls, calls, pushes)
    ensures res.OutOfFuel? ==> (Sends(pushes) && |pushes| == fuel) || Busy(pulls, fuel)
  {
    pulls, calls, pushes := [], [], [];
    var made := Reader.New(call, open, source);
    if made.Err? {
      return Finished(Err(IntoIoError(made.error))), pulls, calls, pushes;
    }
    var c0 := made.value;
    var cr, ws, w := c0, sink.state, 0;
    var i: nat := 0;
    while i < fuel
      invariant i == |pushes| <= fuel
      invariant Pumping(c0, sink, cr, ws, w, pulls, calls, pushes)
      decreases fuel - i
    {
      var goesOn;
      goesOn, res, cr, ws, w, pulls, calls, pushes := Pump(c0, sink, cr, ws, w, fuel, pulls, calls, pushes);
      if !goesOn {
        return;
      }
      i := i + 1;
    }
    res := OutOfFuel;
    assert Pushed(pushes) <= Outputs(calls);
  }
}
