/**
 The one-shot conversion `iconv(input, from, to)`: open a converter, then call
 it over and over on the unread suffix of the input, appending what each call
 wrote to a growable output buffer and growing the buffer whenever the
 converter reports that it is full, until a successful call is made with the
 input already used up (that last call is the flush call, on empty input).

 The real loop runs until the converter stops it; here it runs for at most
 `fuel` converter calls, since a black-box converter need not make progress.
 */
module OneShot {
  import opened Base
  import opened Errors
  import opened VecBufs
  import opened Engine

  /** Result of the loop: what `iconv` returned, or the fuel ran out first. */
  type Run = Fueled<Result<seq<byte>, IconvError>>

  /** A call after which the loop makes another one: success while input was
      still unread, or a full output region. */
  predicate Continues<S>(k: Call<S>)
  {
    || (k.result.status.Done? && |k.input| > 0)
    || k.result.status == Failed(NotSufficientOutput)
  }

  /** What a call decides for the loop. A success ends it only on empty
      input, the flush call; a success on unread input leaves nothing unread,
      so the next call is the flush call. A full output region lets it go on,
      and every other failure ends it. */
  lemma Settles<S>(f: IconvFn<S>, k: Call<S>)
    requires Made(f, k)
    ensures k.result.status.Done? ==> Unread(k) == [] && (Continues(k) <==> |Taken(k)| > 0)
    ensures k.result.status.Failed? ==> (Continues(k) <==> k.result.status.err == NotSufficientOutput)
  {
  }

  /** The output room offered after call `k`: what `k` left after a success,
      and a grown buffer after a full output region. */
  predicate RoomAfter<S>(k: Call<S>, room: nat)
  {
    && (k.result.status.Done? ==> room + k.result.written == k.cap)
    && (k.result.status == Failed(NotSufficientOutput) ==> room + k.result.written >= k.cap + MinWrite)
  }

  /** The calls form a run of the growth loop on `input`, the first with room
      `cap`: each call sees exactly the input its predecessors left unread,
      every call but the last lets the loop go on, and the room of each next
      call follows `RoomAfter`. */
  ghost predicate RunOn<S>(input: seq<byte>, calls: seq<Call<S>>, cap: nat)
    decreases |calls|
  {
    || |calls| == 0
    || (&& calls[0].input == input
        && calls[0].cap == cap
        && (|calls| > 1 ==>
              && Continues(calls[0])
              && RoomAfter(calls[0], calls[1].cap)
              && RunOn(input[|Taken(calls[0])|..], calls[1..], calls[1].cap)))
  }

  /** The calls `iconv` makes on `input`, starting with `MinWrite` bytes of room. */
  ghost predicate GrowthRun<S>(input: seq<byte>, calls: seq<Call<S>>)
  {
    RunOn(input, calls, MinWrite)
  }

  /** One more call on the input a run left unread, with the room its last call
      left, extends the run. */
  lemma {:induction false} RunSnoc<S>(input: seq<byte>, calls: seq<Call<S>>, cap: nat, k: Call<S>)
    requires RunOn(input, calls, cap)
    requires |Consumed(calls)| <= |input| && k.input == input[|Consumed(calls)|..]
    requires |calls| == 0 ==> k.cap == cap
    requires |calls| > 0 ==> Continues(Last(calls)) && RoomAfter(Last(calls), k.cap)
    ensures RunOn(input, calls + [k], cap)
    decreases |calls|
  {
    var calls' := calls + [k];
    if |calls| == 0 {
      assert calls' == [k];
    } else {
      assert calls'[1..] == calls[1..] + [k];
      var rest := input[|Taken(calls[0])|..];
      if |calls| > 1 {
        assert Last(calls[1..]) == Last(calls);
        assert input[|Consumed(calls)|..] == rest[|Consumed(calls[1..])|..];
        RunSnoc(rest, calls[1..], calls[1].cap, k);
      } else {
        assert calls[1..] == [];
        assert calls'[1..] == [k];
      }
    }
  }

  /** In a run, the last call sees exactly what the calls before it left of
      the input. */
  lemma {:induction false} RunInput<S>(input: seq<byte>, calls: seq<Call<S>>, cap: nat)
    requires RunOn(input, calls, cap) && |calls| > 0
    ensures Consumed(calls[..|calls| - 1]) + Last(calls).input == input
    decreases |calls|
  {
    if |calls| > 1 {
      var t := Taken(calls[0]);
      var rest := input[|t|..];
      RunInput(rest, calls[1..], calls[1].cap);
      var front := calls[..|calls| - 1];
      assert front[1..] == calls[1..][..|calls| - 2];
      assert Consumed(front) == t + Consumed(front[1..]);
      assert Last(calls[1..]) == Last(calls);
      Regroup(t, Consumed(front[1..]), Last(calls).input, rest);
      assert input == t + rest;
    }
  }

  /** The output buffer after a call that lets the loop go on: what the call
      wrote is committed, and after a full output region the buffer grows. */
  function Refill(output: VecBuf, cv: Converted): (b: VecBuf)
    requires |cv.output| <= output.spare
    ensures b.data == output.data + cv.output
    ensures cv.status.Done? ==> b.spare + |cv.output| == output.spare
    ensures !cv.status.Done? ==> b.spare + |cv.output| >= output.spare + MinWrite
    ensures !cv.status.Done? ==> b.Capacity() >= 2 * output.Capacity()
  {
    var committed := Commit(output, cv.output);
    if cv.status.Done? then committed else Grow(committed)
  }

  /** What holds between two iterations of the loop: the handle continues from
      the recorded calls, `read` bytes of input are consumed, the output buffer
      holds everything written so far, and the calls form a growth run whose
      last call lets the loop go on, with the room it left. */
  ghost predicate Between<S>(call: IconvFn<S>, s0: S, input: seq<byte>, c: Iconv<S>, read: nat, output: VecBuf, calls: seq<Call<S>>)
  {
    && c.call == call
    && Linked(call, s0, calls)
    && c.state == Final(s0, calls)
    && read <= |input|
    && Consumed(calls) == input[..read]
    && output.data == Outputs(calls)
    && GrowthRun(input, calls)
    && (|calls| == 0 ==> output.spare == MinWrite)
    && (|calls| > 0 ==> Continues(Last(calls)) && RoomAfter(Last(calls), output.spare))
  }

  /** How a run of the loop ended, given its calls: out of fuel with a last call
      that lets the loop go on, or with a last call that stops it, whose status
      decides the result; a success has then consumed the whole input, on a
      last call with nothing left to convert. */
  ghost predicate Ended<S>(f: IconvFn<S>, s0: S, input: seq<byte>, calls: seq<Call<S>>, res: Run)
  {
    && Linked(f, s0, calls)
    && GrowthRun(input, calls)
    && (res.OutOfFuel? ==> |calls| == 0 || Continues(Last(calls)))
    && (res.Finished? ==>
          && |calls| > 0
          && !Continues(Last(calls))
          && (res.result.Ok? ==>
                && Last(calls).result.status.Done?
                && Last(calls).input == []
                && Consumed(calls) == input
                && res.result.value == Outputs(calls))
          && (res.result.Err? ==> Last(calls).result.status == Failed(res.result.error)))
  }

  /** The result the loop returns after a call `cv` that stops it: on
      success everything written so far followed by the call's output,
      otherwise the call's error. */
  function Stop(output: VecBuf, cv: Converted): (r: Run)
    ensures r.Finished?
    ensures r.result.Ok? <==> cv.status.Done?
    ensures r.result.Ok? ==> r.result.value == output.data + cv.output
    ensures r.result.Err? ==> r.result.error == cv.status.err
  {
    if cv.status.Done? then Finished(Ok(output.data + cv.output)) else Finished(Err(cv.status.err))
  }

  /** The record of one more call on the unread suffix, with the room the
      output buffer offers, extends the trace of a loop in the `Between` state:
      the longer trace is linked and a growth run, consumes a longer prefix of
      the input, and has the call's output at the end. */
  lemma Extend<S(!new)>(call: IconvFn<S>, s0: S, input: seq<byte>, c: Iconv<S>, read: nat, output: VecBuf, calls: seq<Call<S>>, k: Call<S>)
    requires Honest(call)
    requires Between(call, s0, input, c, read, output, calls)
    requires k == Record(c, input[read..], output.spare)
    ensures Linked(call, s0, calls + [k])
    ensures Final(s0, calls + [k]) == k.after
    ensures GrowthRun(input, calls + [k])
    ensures read + k.result.read <= |input|
    ensures Consumed(calls + [k]) == input[..read + k.result.read]
    ensures Outputs(calls + [k]) == output.data + k.result.output
  {
    RecordMade(c, input[read..], output.spare);
    LinkedSnoc(call, s0, calls, k);
    RunSnoc(input, calls, MinWrite, k);
    ConsumedSnoc(calls, k);
    PrefixSplit(input, read, read + k.result.read);
  }

  /** One turn of the loop of `iconv`: convert the unread suffix into the
      output buffer's spare room, then either go on with the advanced cursor
      and refilled buffer, or stop with the loop's result. */
  method Turn<S(!new)>(ghost c0: Iconv<S>, input: seq<byte>, h: Iconv<S>, read: nat, output: VecBuf, ghost calls: seq<Call<S>>)
    returns (goesOn: bool, res: Run, h': Iconv<S>, read': nat, output': VecBuf, ghost calls': seq<Call<S>>)
    requires Honest(c0.call)
    requires Between(c0.call, c0.state, input, h, read, output, calls)
    ensures goesOn ==> read <= read' <= |input| && output.data <= output'.data
    ensures !goesOn ==> res.Finished?
    ensures !goesOn && res.result.Ok? ==> output.data <= res.result.value
    ensures !goesOn && res.result.Err? ==> IsConvertError(res.result.error) && res.result.error != NotSufficientOutput
    ensures |calls'| == |calls| + 1
    ensures goesOn ==> Between(c0.call, c0.state, input, h', read', output', calls')
    ensures !goesOn ==> res.Finished? && Ended(c0.call, c0.state, input, calls', res)
  {
    var room := PrepareAtLeast(output, 0);
    assert room == output;
    var rest := input[read..];
    var step := Step(h, rest, room.spare);
    var cv := step.1;
    ghost var k := Record(h, rest, room.spare);
    Extend(c0.call, c0.state, input, h, read, room, calls, k);
    calls' := calls + [k];
    assert Last(calls') == k;
    // Success on used-up input, or an error other than a full output region,
    // ends the loop.
    goesOn := (cv.status.Done? && read < |input|) || cv.status == Failed(NotSufficientOutput);
    if goesOn {
      res, h', read', output' := OutOfFuel, step.0, read + cv.read, Refill(room, cv);
    } else {
      res, h', read', output' := Stop(room, cv), h, read, room;
      ConsumedSnoc(calls, k);
    }
  }

  /** The loop of `iconv` from an open handle `c`, for at most `fuel` calls. */
  method Drive<S(!new)>(c: Iconv<S>, input: seq<byte>, fuel: nat)
    returns (res: Run, ghost calls: seq<Call<S>>)
    requires Honest(c.call)
    ensures res.Finished? && res.result.Err? ==> IsConvertError(res.result.error) && res.result.error != NotSufficientOutput
    ensures Ended(c.call, c.state, input, calls, res)
    ensures |calls| <= fuel
    ensures res.OutOfFuel? ==> |calls| == fuel
  {
    calls := [];
    var h := c;
    var read: nat := 0;
    var output := VecBufs.New(MinWrite);
    var n: nat := 0;
    while n < fuel
      invariant n == |calls| <= fuel
      invariant Between(c.call, c.state, input, h, read, output, calls)
      decreases fuel - n
    {
      var goesOn;
      goesOn, res, h, read, output, calls := Turn(c, input, h, read, output, calls);
      n := n + 1;
      if !goesOn {
        return;
      }
    }
    res := OutOfFuel;
  }

  /** `iconv`: convert the whole of `input` with the converter `iconv_open`
      yields. On success the result is every byte the converter wrote, in
      order, and the run ended with a successful call on the used-up input;
      on failure it is the first error other than a full output region, and no
      output is returned. */
  method Iconv<S(!new)>(call: IconvFn<S>, open: OpenOutcome<S>, input: seq<byte>, fuel: nat)
    returns (res: Run, ghost calls: seq<Call<S>>)
    requires Honest(call)
    ensures open.OpenFailed? ==> res == Finished(Err(OpenError(open.errno)))
    ensures open.Opened? && res.Finished? && res.result.Err? ==>
              IsConvertError(res.result.error) && res.result.error != NotSufficientOutput
    ensures open.OpenFailed? ==> calls == []
    ensures open.Opened? ==> Linked(call, open.initial, calls)
    ensures GrowthRun(input, calls)
    ensures |calls| <= fuel
    ensures res.OutOfFuel? ==> |calls| == fuel && (fuel == 0 || Continues(Last(calls)))
    ensures res.Finished? && open.Opened? ==> |calls| > 0 && !Continues(Last(calls))
    ensures res.Finished? && res.result.Ok? ==>
              && open.Opened?
              && Last(calls).input == []
              && Last(calls).result.status.Done?
              && Consumed(calls) == input
              && res.result.value == Outputs(calls)
    ensures res.Finished? && res.result.Err? && open.Opened? ==>
              && Last(calls).result.status == Failed(res.result.error)
              && res.result.error != NotSufficientOutput
  {
    var handle := Engine.New(call, open);
    if handle.Err? {
      return Finished(Err(handle.error)), [];
    }
    res, calls := Drive(handle.value, input, fuel);
  }
}
