/**
 `IconvReader`: a reader that converts the bytes of an inner reader on the
 fly. Bytes pulled from the inner reader wait in an input staging buffer
 until the converter has consumed them; converted bytes go straight into the
 caller's buffer (`read`), or into an output staging buffer from which the
 caller borrows them (`fill_buf` / `consume`). `copy` pumps a reader dry into
 a writer.

 `read` loops while the converter reports an incomplete sequence and the
 inner reader still delivers bytes; for a black-box reader this need not
 end, so the loop runs for at most `fuel` rounds.
 */
module Reader {
  import opened Base
  import opened Errors
  import opened Io
  import opened VecBufs
  import opened Engine
  import opened Streams

  /** The converting reader: handle, inner reader, input and output staging. */
  datatype IconvReader<!S, !R> = IconvReader(conv: Iconv<S>, source: Source<R>, input: VecBuf, output: VecBuf)

  /** `IconvReader::new`: open the converter, with `MinWrite` bytes of room in
      both staging buffers; an open failure is returned as is. */
  function New<S, R>(call: IconvFn<S>, open: OpenOutcome<S>, source: Source<R>): (r: Result<IconvReader<S, R>, IconvError>)
    ensures r.Ok? <==> open.Opened?
    ensures r.Ok? ==> r.value.conv == Engine.Iconv(call, open.initial) && r.value.source == source
    ensures r.Ok? ==> r.value.input == VecBufs.New(MinWrite) && r.value.output == VecBufs.New(MinWrite)
    ensures r.Err? ==> r.error == OpenError(open.errno)
  {
    match Engine.New(call, open)
    case Ok(c) => Ok(IconvReader(c, source, VecBufs.New(MinWrite), VecBufs.New(MinWrite)))
    case Err(e) => Err(e)
  }

  /** The input staging after the calls of one `read` so far. */
  function Staged<S>(staging: seq<byte>, calls: seq<Call<S>>): (s: seq<byte>)
  {
    if |calls| == 0 then staging else Unread(Last(calls))
  }

  /** A round after which `read` goes on: the call stopped at an incomplete
      sequence, and the pull before it delivered bytes (was not at the end). */
  predicate Retries<S, R>(p: Pull<R>, k: Call<S>)
  {
    k.result.status == Failed(IncompleteInput) && |Got(p.reply)| > 0
  }

  /** The rounds of one `read`, starting from input staging `staging` in a
      buffer of `capacity` bytes, into a caller's buffer of `room` bytes. Each
      round pulls into the free room of the staging buffer; a failed pull ends
      the read, and otherwise the converter sees all staged bytes and the part
      of the caller's buffer not yet written. Every round but the last
      `Retries`, and leaves staged what its call did not consume. */
  ghost predicate Rounds<S, R>(staging: seq<byte>, capacity: nat, room: nat, pulls: seq<Pull<R>>, calls: seq<Call<S>>)
    decreases |pulls|
  {
    if |pulls| == 0 then |calls| == 0
    else
      && pulls[0].arg + |staging| == capacity
      && (pulls[0].reply.Err? ==> |pulls| == 1 && |calls| == 0)
      && (pulls[0].reply.Ok? ==>
            && |calls| > 0
            && calls[0].input == staging + pulls[0].reply.value
            && calls[0].cap == room
            && (|pulls| == 1 ==> |calls| == 1)
            && (|pulls| > 1 ==>
                  && Retries(pulls[0], calls[0])
                  && |calls[0].result.output| <= room
                  && Rounds(Unread(calls[0]), capacity, room - |calls[0].result.output|, pulls[1..], calls[1..])))
  }

  /** The rounds of a `read` that ends after one pull. */
  lemma RoundsOne<S, R>(staging: seq<byte>, capacity: nat, room: nat, p: Pull<R>, ks: seq<Call<S>>)
    requires p.arg + |staging| == capacity
    requires p.reply.Err? ==> ks == []
    requires p.reply.Ok? ==> |ks| == 1 && ks[0].input == staging + p.reply.value && ks[0].cap == room
    ensures Rounds(staging, capacity, room, [p], ks)
  {
    assert [p][1..] == [];
  }

  /** A round that retries, in front of the rounds that follow it. */
  lemma RoundsCons<S, R>(staging: seq<byte>, capacity: nat, room: nat, p: Pull<R>, k: Call<S>, pulls: seq<Pull<R>>, calls: seq<Call<S>>)
    requires p.arg + |staging| == capacity && p.reply.Ok?
    requires k.input == staging + p.reply.value && k.cap == room
    requires Retries(p, k) && |k.result.output| <= room
    requires |pulls| > 0 && Rounds(Unread(k), capacity, room - |k.result.output|, pulls, calls)
    ensures Rounds(staging, capacity, room, [p] + pulls, [k] + calls)
  {
    assert ([p] + pulls)[1..] == pulls;
    assert ([k] + calls)[1..] == calls;
  }

  /** The first round of several retried, and the others follow it. */
  lemma RoundsUncons<S, R>(staging: seq<byte>, capacity: nat, room: nat, pulls: seq<Pull<R>>, calls: seq<Call<S>>)
    requires Rounds(staging, capacity, room, pulls, calls) && |pulls| > 1
    ensures pulls[0].arg + |staging| == capacity && pulls[0].reply.Ok? && |calls| > 0
    ensures calls[0].input == staging + pulls[0].reply.value && calls[0].cap == room
    ensures Retries(pulls[0], calls[0]) && |calls[0].result.output| <= room
    ensures Rounds(Unread(calls[0]), capacity, room - |calls[0].result.output|, pulls[1..], calls[1..])
  {
  }

  /** One more round after rounds that all retried extends them. */
  lemma {:induction false} RoundsSnoc<S, R>(staging: seq<byte>, capacity: nat, room: nat, pulls: seq<Pull<R>>, calls: seq<Call<S>>,
                                            p: Pull<R>, ks: seq<Call<S>>)
    requires Rounds(staging, capacity, room, pulls, calls) && |pulls| == |calls|
    requires |calls| > 0 ==> Retries(Last(pulls), Last(calls))
    requires |Outputs(calls)| <= room
    requires p.arg + |Staged(staging, calls)| == capacity
    requires p.reply.Err? ==> ks == []
    requires p.reply.Ok? ==> |ks| == 1 && ks[0].input == Staged(staging, calls) + p.reply.value
                             && ks[0].cap == room - |Outputs(calls)|
    ensures Rounds(staging, capacity, room, pulls + [p], calls + ks)
    decreases |pulls|
  {
    if |pulls| == 0 {
      assert pulls + [p] == [p];
      assert calls + ks == ks;
      RoundsOne(staging, capacity, room, p, ks);
    } else {
      var p0, k0 := pulls[0], calls[0];
      var room' := room - |k0.result.output|;
      ConsAppend(pulls, [p]);
      ConsAppend(calls, ks);
      if |pulls| == 1 {
        assert calls == [k0] && pulls == [p0];
        assert calls[1..] == [] && pulls[1..] == [];
        RoundsOne(Unread(k0), capacity, room', p, ks);
      } else {
        RoundsUncons(staging, capacity, room, pulls, calls);
        LastTail(pulls);
        LastTail(calls);
        RoundsSnoc(Unread(k0), capacity, room', pulls[1..], calls[1..], p, ks);
      }
      RoundsCons(staging, capacity, room, p0, k0, pulls[1..] + [p], calls[1..] + ks);
    }
  }

  /** The last `n` reads each delivered some bytes: none of them failed or
      signalled the end of the stream. */
  ghost predicate Busy<R>(pulls: seq<Pull<R>>, n: nat)
  {
    && n <= |pulls|
    && forall j | |pulls| - n <= j < |pulls| :: |Got(pulls[j].reply)| > 0
  }

  /** Rounds that all retried made reads that all delivered bytes. */
  lemma {:induction false} RoundsBusy<S, R>(staging: seq<byte>, capacity: nat, room: nat, pulls: seq<Pull<R>>, calls: seq<Call<S>>)
    requires Rounds(staging, capacity, room, pulls, calls) && |pulls| == |calls|
    requires |calls| > 0 ==> Retries(Last(pulls), Last(calls))
    ensures Busy(pulls, |pulls|)
    decreases |pulls|
  {
    if |pulls| > 1 {
      RoundsUncons(staging, capacity, room, pulls, calls);
      LastTail(pulls);
      LastTail(calls);
      RoundsBusy(Unread(calls[0]), capacity, room - |calls[0].result.output|, pulls[1..], calls[1..]);
      forall j | 0 <= j < |pulls|
        ensures |Got(pulls[j].reply)| > 0
      {
        if j > 0 {
          assert pulls[j] == pulls[1..][j - 1];
        }
      }
    }
  }

  /** Reads that all delivered bytes, after any others, are still the last ones. */
  lemma BusyAppend<R>(pulls: seq<Pull<R>>, ps: seq<Pull<R>>)
    requires Busy(ps, |ps|)
    ensures Busy(pulls + ps, |ps|)
  {
    forall j | |pulls| <= j < |pulls| + |ps|
      ensures |Got((pulls + ps)[j].reply)| > 0
    {
      assert (pulls + ps)[j] == ps[j - |pulls|];
    }
  }

  /** The reader and the calls it made agree: the handle and the inner reader
      are in the states the recorded calls left them in. */
  ghost predicate Traced<S, R>(rd0: IconvReader<S, R>, rd: IconvReader<S, R>, pulls: seq<Pull<R>>, calls: seq<Call<S>>)
  {
    && rd.conv.call == rd0.conv.call
    && rd.source.read == rd0.source.read
    && Linked(rd0.conv.call, rd0.conv.state, calls)
    && rd.conv.state == Final(rd0.conv.state, calls)
    && Chained(rd0.source.read, rd0.source.state, pulls)
    && rd.source.state == After(rd0.source.state, pulls)
  }

  /** Between two rounds of `read`, started in `rd0` with a caller's buffer of
      `cap` bytes: the rounds so far all retried, `out` holds what the
      converter wrote into the caller's buffer, and every byte pulled is either
      consumed by the converter or still staged, in order. */
  ghost predicate Inside<S, R>(rd0: IconvReader<S, R>, cap: nat, rd: IconvReader<S, R>, out: seq<byte>,
                               pulls: seq<Pull<R>>, calls: seq<Call<S>>)
  {
    && Traced(rd0, rd, pulls, calls)
    && rd.output == rd0.output
    && Rounds(rd0.input.data, rd0.input.Capacity(), cap, pulls, calls)
    && |pulls| == |calls|
    && (|calls| > 0 ==> Retries(Last(pulls), Last(calls)))
    && rd.input.data == Staged(rd0.input.data, calls)
    && rd.input.Capacity() == rd0.input.Capacity()
    && out == Outputs(calls) && |out| <= cap
    && rd0.input.data + Pulled(pulls) == Consumed(calls) + rd.input.data
  }

  /** A call after which the consumed bytes leave the input staging: success,
      a full output region, or an incomplete sequence. */
  predicate Drops(st: Status)
  {
    || st.Done?
    || st == Failed(NotSufficientOutput)
    || st == Failed(IncompleteInput)
  }

  /** The result of `read` after a call with status `st` that ended it,
      having written `wrote` bytes in all: success and the byte count after a
      success, or after a full output region or incomplete input that still
      wrote something; otherwise the call's error as an I/O error. */
  predicate Classified(st: Status, wrote: nat, res: Result<nat, IoError>)
  {
    && (res.Ok? <==> st.Done? || ((st == Failed(NotSufficientOutput) || st == Failed(IncompleteInput)) && wrote > 0))
    && (res.Ok? ==> res.value == wrote)
    && (res.Err? ==> st.Failed? && res.error == IntoIoError(st.err))
  }

  /** What `read` does after a call with status `st`, when the pull before it
      delivered `pulled` bytes and `wrote` bytes are written in all: go on
      (`None`), or return a result. */
  function Verdict(st: Status, pulled: nat, wrote: nat): (v: Option<Result<nat, IoError>>)
    ensures v.None? <==> st == Failed(IncompleteInput) && pulled > 0
    ensures v.Some? ==> Classified(st, wrote, v.value)
  {
    match st
    case Done(_) => Some(Ok(wrote))
    case Failed(e) =>
      if e == NotSufficientOutput || e == IncompleteInput then
        if e == IncompleteInput && pulled > 0 then None
        else if wrote > 0 then Some(Ok(wrote))
        else Some(Err(IntoIoError(e)))
      else Some(Err(IntoIoError(e)))
  }

  /** The input staging after a call that returned `cv`: the consumed bytes
      leave it, except after a hard conversion error. */
  function Kept(input: VecBuf, cv: Converted): (b: VecBuf)
    requires cv.read <= |input.data|
    ensures b.Capacity() == input.Capacity()
    ensures Drops(cv.status) ==> b.data == input.data[cv.read..]
    ensures !Drops(cv.status) ==> b == input
  {
    if Drops(cv.status) then VecBufs.Consume(input, cv.read) else input
  }

  /** How `read`, started in `rd0` with a caller's buffer of `cap` bytes, ended
      in `rd` with result `res`: either the inner reader failed, and its error
      is returned with nothing else changed, or the last round did not retry,
      and its call decides the result. The caller's buffer holds `out`, every
      byte the converter wrote, and input bytes are neither lost nor repeated:
      all pulled bytes are consumed or still staged, except that after a hard
      conversion error the last call's input stays staged as a whole. */
  ghost predicate Answered<S, R>(rd0: IconvReader<S, R>, cap: nat, rd: IconvReader<S, R>, out: seq<byte>,
                                 pulls: seq<Pull<R>>, calls: seq<Call<S>>, res: Result<nat, IoError>)
  {
    && Traced(rd0, rd, pulls, calls)
    && rd.output == rd0.output
    && rd.input.Capacity() == rd0.input.Capacity()
    && Rounds(rd0.input.data, rd0.input.Capacity(), cap, pulls, calls)
    && out == Outputs(calls) && |out| <= cap
    && |pulls| > 0
    && match Last(pulls).reply
       case Err(e) =>
         && |calls| + 1 == |pulls|
         && res == Err(e)
         && rd.input.data == Staged(rd0.input.data, calls)
         && rd0.input.data + Pulled(pulls) == Consumed(calls) + rd.input.data
       case Ok(_) =>
         && |calls| == |pulls|
         && !Retries(Last(pulls), Last(calls))
         && Classified(Last(calls).result.status, |out|, res)
         && (Drops(Last(calls).result.status) ==>
               && rd.input.data == Unread(Last(calls))
               && rd0.input.data + Pulled(pulls) == Consumed(calls) + rd.input.data)
         && (!Drops(Last(calls).result.status) ==> rd.input.data == Last(calls).input)
  }

  /** A round whose pull failed ends `read` with the inner reader's error;
      only the inner reader's state changes. */
  lemma PullFails<S, R>(rd0: IconvReader<S, R>, cap: nat, rd: IconvReader<S, R>, out: seq<byte>,
                        pulls: seq<Pull<R>>, calls: seq<Call<S>>, p: Pull<R>, rd': IconvReader<S, R>)
    requires Inside(rd0, cap, rd, out, pulls, calls)
    requires p.before == rd.source.state && p.arg == rd.input.spare
    requires rd.source.read(p.before, p.arg) == (p.after, p.reply)
    requires p.reply.Err?
    requires rd' == rd.(source := Source(rd.source.read, p.after))
    ensures Answered(rd0, cap, rd', out, pulls + [p], calls, Err(p.reply.error))
  {
    PullSnoc(rd0.source.read, rd0.source.state, pulls, p);
    RoundsSnoc(rd0.input.data, rd0.input.Capacity(), cap, pulls, calls, p, []);
    assert calls + [] == calls;
    AppendBoth(rd0.input.data, Pulled(pulls), Consumed(calls), rd.input.data, []);
    assert Last(pulls + [p]) == p;
  }

  /** After a round whose pull delivered bytes and whose call `k` ended it as
      `Verdict` says, `read` either goes on or has answered. */
  lemma Decided<S, R>(rd0: IconvReader<S, R>, cap: nat, rd: IconvReader<S, R>, out: seq<byte>,
                      pulls: seq<Pull<R>>, calls: seq<Call<S>>, p: Pull<R>, k: Call<S>)
    requires Traced(rd0, rd, pulls + [p], calls + [k])
    requires Rounds(rd0.input.data, rd0.input.Capacity(), cap, pulls + [p], calls + [k])
    requires |pulls| == |calls| && p.reply.Ok?
    requires rd.output == rd0.output && rd.input.Capacity() == rd0.input.Capacity()
    requires out == Outputs(calls + [k]) && |out| <= cap
    requires rd0.input.data + Pulled(pulls + [p]) == Consumed(calls + [k]) + Unread(k)
    requires Drops(k.result.status) ==> rd.input.data == Unread(k)
    requires !Drops(k.result.status) ==> rd.input.data == k.input
    ensures Verdict(k.result.status, |p.reply.value|, |out|).None? ==> Inside(rd0, cap, rd, out, pulls + [p], calls + [k])
    ensures Verdict(k.result.status, |p.reply.value|, |out|).Some? ==>
              Answered(rd0, cap, rd, out, pulls + [p], calls + [k], Verdict(k.result.status, |p.reply.value|, |out|).value)
  {
    assert Last(pulls + [p]) == p && Last(calls + [k]) == k;
  }

  /** A round whose pull delivered bytes: the staged bytes and the new ones go
      to the converter, with the rest of the caller's buffer as room, and the
      reader moves on to the states the pull and the call left. */
  lemma Converts<S(!new), R(!new)>(rd0: IconvReader<S, R>, cap: nat, rd: IconvReader<S, R>, out: seq<byte>,
                                   pulls: seq<Pull<R>>, calls: seq<Call<S>>, p: Pull<R>, k: Call<S>,
                                   rd': IconvReader<S, R>, out': seq<byte>)
    requires Honest(rd0.conv.call)
    requires Inside(rd0, cap, rd, out, pulls, calls)
    requires p.before == rd.source.state && p.arg == rd.input.spare
    requires rd.source.read(p.before, p.arg) == (p.after, p.reply)
    requires p.reply.Ok? && |p.reply.value| <= rd.input.spare
    requires k == Record(rd.conv, rd.input.data + p.reply.value, cap - |out|)
    requires rd' == IconvReader(Step(rd.conv, k.input, k.cap).0, Source(rd.source.read, p.after),
                                Kept(Commit(rd.input, p.reply.value), k.result), rd.output)
    requires out' == out + k.result.output
    ensures var v := Verdict(k.result.status, |p.reply.value|, |out'|);
            && (v.None? ==> Inside(rd0, cap, rd', out', pulls + [p], calls + [k]))
            && (v.Some? ==> Answered(rd0, cap, rd', out', pulls + [p], calls + [k], v.value))
  {
    var bytes := p.reply.value;
    var input := rd.input.data + bytes;
    PullSnoc(rd0.source.read, rd0.source.state, pulls, p);
    StepSnoc(rd0.conv.call, rd0.conv.state, calls, rd.conv, input, cap - |out|, k);
    RoundsSnoc(rd0.input.data, rd0.input.Capacity(), cap, pulls, calls, p, [k]);
    Carry(rd0.input.data, Pulled(pulls), Consumed(calls), rd.input.data, bytes,
          Pulled(pulls + [p]), input, Consumed(calls + [k]), Unread(k));
    Decided(rd0, cap, rd', out', pulls, calls, p, k);
  }

  /** The second half of a round whose pull `p` delivered bytes: commit them
      to the input staging, convert everything staged into the rest of the
      caller's buffer, and decide whether `read` goes on. */
  method Resume<S(!new), R(!new)>(ghost rd0: IconvReader<S, R>, cap: nat, rd: IconvReader<S, R>, out: seq<byte>,
                                  ghost pulls: seq<Pull<R>>, ghost calls: seq<Call<S>>, p: Pull<R>)
    returns (goesOn: bool, res: Result<nat, IoError>, rd': IconvReader<S, R>, out': seq<byte>, ghost calls': seq<Call<S>>)
    requires Honest(rd0.conv.call)
    requires Inside(rd0, cap, rd, out, pulls, calls)
    requires p.before == rd.source.state && p.arg == rd.input.spare
    requires rd.source.read(p.before, p.arg) == (p.after, p.reply)
    requires p.reply.Ok? && |p.reply.value| <= rd.input.spare
    ensures out <= out' && |out'| <= cap
    ensures !goesOn && res.Ok? ==> res.value == |out'|
    ensures rd'.output == rd.output && rd'.input.Capacity() == rd.input.Capacity()
    ensures rd'.conv.call == rd.conv.call && rd'.source.read == rd.source.read
    ensures goesOn ==> Inside(rd0, cap, rd', out', pulls + [p], calls')
    ensures !goesOn ==> Answered(rd0, cap, rd', out', pulls + [p], calls', res)
  {
    var wrote := |out|;
    var bytes := p.reply.value;
    var input := Commit(rd.input, bytes);
    var step := Step(rd.conv, input.data, cap - wrote);
    var cv := step.1;
    ghost var k := Record(rd.conv, input.data, cap - wrote);
    calls' := calls + [k];
    out' := out + cv.output;
    rd' := IconvReader(step.0, Source(rd.source.read, p.after), Kept(input, cv), rd.output);
    assert k.input == input.data && k.cap == cap - wrote && k.result == cv;
    Converts(rd0, cap, rd, out, pulls, calls, p, k, rd', out');
    var v := Verdict(cv.status, |bytes|, |out'|);
    goesOn := v.None?;
    res := if v.Some? then v.value else Ok(|out'|);
  }

  /** One round of `read`: pull into the free room of the input staging, then,
      unless the pull failed, convert everything staged into the rest of the
      caller's buffer and decide whether to go on. */
  method Round<S(!new), R(!new)>(ghost rd0: IconvReader<S, R>, cap: nat, rd: IconvReader<S, R>, out: seq<byte>,
                                 ghost pulls: seq<Pull<R>>, ghost calls: seq<Call<S>>)
    returns (goesOn: bool, res: Result<nat, IoError>, rd': IconvReader<S, R>, out': seq<byte>,
             ghost pulls': seq<Pull<R>>, ghost calls': seq<Call<S>>)
    requires Honest(rd0.conv.call) && HonestRead(rd0.source.read)
    requires Inside(rd0, cap, rd, out, pulls, calls)
    ensures out <= out' && |out'| <= cap
    ensures !goesOn && res.Ok? ==> res.value == |out'|
    ensures rd'.output == rd.output && rd'.input.Capacity() == rd.input.Capacity()
    ensures rd'.conv.call == rd.conv.call && rd'.source.read == rd.source.read
    ensures |pulls'| == |pulls| + 1
    ensures goesOn ==> Inside(rd0, cap, rd', out', pulls', calls')
    ensures !goesOn ==> Answered(rd0, cap, rd', out', pulls', calls', res)
  {
    var staging := PrepareAtLeast(rd.input, 0);
    assert staging == rd.input;
    var p := Occur(rd.source.read, rd.source.state, staging.spare);
    pulls' := pulls + [p];
    if p.reply.Err? {
      rd' := rd.(source := Source(rd.source.read, p.after));
      PullFails(rd0, cap, rd, out, pulls, calls, p, rd');
      return false, Err(p.reply.error), rd', out, pulls', calls;
    }
    assert Fills(p.reply, staging.spare);
    goesOn, res, rd', out', calls' := Resume(rd0, cap, rd, out, pulls, calls, p);
  }

  /** `IconvReader::read` into a buffer of `cap` bytes, for at most `fuel`
      rounds. */
  method Read<S(!new), R(!new)>(rd: IconvReader<S, R>, cap: nat, fuel: nat)
    returns (res: Fueled<Result<nat, IoError>>, rd': IconvReader<S, R>, out: seq<byte>,
             ghost pulls: seq<Pull<R>>, ghost calls: seq<Call<S>>)
    requires Honest(rd.conv.call) && HonestRead(rd.source.read)
    ensures |out| <= cap
    ensures res.Finished? && res.result.Ok? ==> res.result.value == |out|
    ensures rd'.output == rd.output && rd'.input.Capacity() == rd.input.Capacity()
    ensures rd'.conv.call == rd.conv.call && rd'.source.read == rd.source.read
    ensures res.Finished? ==> Answered(rd, cap, rd', out, pulls, calls, res.result)
    ensures res.OutOfFuel? ==> Inside(rd, cap, rd', out, pulls, calls) && |pulls| == fuel
    ensures res.OutOfFuel? ==> Busy(pulls, fuel)
  {
    rd', out, pulls, calls := rd, [], [], [];
    var i: nat := 0;
    while i < fuel
      invariant i == |pulls| <= fuel
      invariant Inside(rd, cap, rd', out, pulls, calls)
    {
      var goesOn, r;
      goesOn, r, rd', out, pulls, calls := Round(rd, cap, rd', out, pulls, calls);
      i := i + 1;
      if !goesOn {
        return Finished(r), rd', out, pulls, calls;
      }
    }
    res := OutOfFuel;
    RoundsBusy(rd.input.data, rd.input.Capacity(), cap, pulls, calls);
  }

  /** How `fill_buf` on a reader `rd` with empty output staging ended: it ran
      `read` on the reader with its output staging taken out (left without
      room), with the staging's spare room as the caller's buffer. After a
      successful read the bytes read are committed to the staging and
      returned; otherwise the staging stays the roomless one `read` saw. The
      read runs out of fuel only after `fuel` rounds, each of whose reads
      delivered bytes. */
  ghost predicate Filled<S, R>(rd: IconvReader<S, R>, fuel: nat, res: Fueled<Result<seq<byte>, IoError>>, rd': IconvReader<S, R>,
                               pulls: seq<Pull<R>>, calls: seq<Call<S>>)
  {
    var rd0 := rd.(output := Default());
    var out := Outputs(calls);
    && (res.OutOfFuel? ==>
          && rd'.output == Default()
          && Inside(rd0, rd.output.spare, rd', out, pulls, calls)
          && |pulls| == fuel && Busy(pulls, fuel))
    && (res.Finished? && res.result.Err? ==>
          && rd'.output == Default()
          && Answered(rd0, rd.output.spare, rd', out, pulls, calls, Err(res.result.error)))
    && (res.Finished? && res.result.Ok? ==>
          && Answered(rd0, rd.output.spare, rd'.(output := Default()), out, pulls, calls, Ok(|out|))
          && res.result.value == out
          && rd'.output == Commit(rd.output, out))
  }

  /** `IconvReader::fill_buf`: the staged output if there is any, without
      touching the inner reader; otherwise one `read` into the staging's room,
      for at most `fuel` rounds. */
  method FillBuf<S(!new), R(!new)>(rd: IconvReader<S, R>, fuel: nat)
    returns (res: Fueled<Result<seq<byte>, IoError>>, rd': IconvReader<S, R>,
             ghost pulls: seq<Pull<R>>, ghost calls: seq<Call<S>>)
    requires Honest(rd.conv.call) && HonestRead(rd.source.read)
    ensures !rd.output.IsEmpty() ==> res == Finished(Ok(rd.output.data)) && rd' == rd
    ensures rd.output.IsEmpty() && res.Finished? && res.result.Ok? ==>
              rd'.output.data == res.result.value && |res.result.value| <= rd.output.spare
    ensures rd.output.IsEmpty() && !(res.Finished? && res.result.Ok?) ==> rd'.output == Default()
    ensures rd'.conv.call == rd.conv.call && rd'.source.read == rd.source.read
    ensures !rd.output.IsEmpty() ==> pulls == [] && calls == []
    ensures rd.output.IsEmpty() ==> Filled(rd, fuel, res, rd', pulls, calls)
  {
    if !rd.output.IsEmpty() {
      return Finished(Ok(rd.output.data)), rd, [], [];
    }
    var o := PrepareAtLeast(rd.output, 0);
    assert o == rd.output;
    var r, rd1, out;
    r, rd1, out, pulls, calls := Read(rd.(output := Default()), o.spare, fuel);
    if r.OutOfFuel? {
      return OutOfFuel, rd1, pulls, calls;
    }
    if r.result.Err? {
      return Finished(Err(r.result.error)), rd1, pulls, calls;
    }
    rd' := rd1.(output := Commit(o, out));
    assert rd'.(output := Default()) == rd1;
    res := Finished(Ok(rd'.output.data));
  }

  /** `IconvReader::consume`: drop the first `amt` staged output bytes. */
  function Consume<S, R>(rd: IconvReader<S, R>, amt: nat): (rd': IconvReader<S, R>)
    requires amt <= |rd.output.data|
    ensures rd.output.data == rd.output.data[..amt] + rd'.output.data
    ensures rd'.output.Capacity() == rd.output.Capacity()
    ensures rd' == rd.(output := rd'.output)
  {
    rd.(output := VecBufs.Consume(rd.output, amt))
  }

  /** Consuming in two steps is consuming the sum at once. */
  lemma ConsumeTwice<S, R>(rd: IconvReader<S, R>, a: nat, b: nat)
    requires a + b <= |rd.output.data|
    ensures Consume(Consume(rd, a), b) == Consume(rd, a + b)
  {
    var d := rd.output.data;
    assert d[a..][b..] == d[a + b..];
  }
}
