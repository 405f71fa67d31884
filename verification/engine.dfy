/**
 The conversion engine (`Iconv`): an opaque, stateful handle around the
 platform's `iconv` function. The platform call is a black box given as a
 function value; this module models what the library does around it —
 classifying `iconv_open` failures, turning the left-over counts of one call
 into byte counts, and turning errno into `IconvError`.
 */
module Engine {
  import opened Base
  import opened Errors

  /** `(size_t)-1`, the value `iconv` returns when it stops with an error. */
  const SizeMax: nat := 0xFFFF_FFFF_FFFF_FFFF

  /** What one call of the platform's `iconv` reports: how many input bytes and
      how much output room are left, the bytes it wrote to the front of the
      output region, its return value and the errno it set. */
  datatype RawCall = RawCall(inputLeft: nat, outputLeft: nat, written: seq<byte>, ret: nat, errno: int)

  /** What POSIX promises of an `iconv` call on `inLen` input bytes and `cap`
      bytes of output room: the left-over counts never exceed what was given,
      the bytes written fill exactly the used room, and a non-error return means
      that the whole input was converted. */
  predicate WellFormed(raw: RawCall, inLen: nat, cap: nat)
  {
    && raw.inputLeft <= inLen
    && raw.outputLeft <= cap
    && |raw.written| == cap - raw.outputLeft
    && raw.ret <= SizeMax
    && (raw.ret != SizeMax ==> raw.inputLeft == 0)
  }

  /** The platform function, as a state transformer: given the shift state, the
      input (empty stands for a null `inbuf` argument, i.e. the flush call) and
      the output room, it yields the new state and the raw report. */
  type IconvFn<!S> = (S, seq<byte>, nat) -> (S, RawCall)

  /** The platform function keeps the POSIX promises on every call. */
  ghost predicate Honest<S(!new)>(f: IconvFn<S>)
  {
    forall s, input, cap :: WellFormed(f(s, input, cap).1, |input|, cap)
  }

  /** How a conversion call ended: `Ok(chars)` or `Err(error)`. */
  datatype Status = Done(chars: nat) | Failed(err: IconvError)

  /** The result of `Iconv::convert`: bytes read, bytes written (and which
      bytes), and the status. Both counts are reported on failure too. */
  datatype Converted = Converted(read: nat, written: nat, output: seq<byte>, status: Status)

  /** The guarantees a caller of `Iconv::convert` relies on. */
  predicate Fits(cv: Converted, inLen: nat, cap: nat)
  {
    && cv.read <= inLen
    && cv.written <= cap
    && |cv.output| == cv.written
    && (cv.status.Done? ==> cv.read == inLen)
    && (cv.status.Failed? ==> IsConvertError(cv.status.err))
  }

  /** The count and errno logic of `Iconv::convert` after the platform call. */
  function Convert(input: seq<byte>, cap: nat, raw: RawCall): (cv: Converted)
    requires WellFormed(raw, |input|, cap)
    ensures Fits(cv, |input|, cap)
    ensures cv.read + raw.inputLeft == |input|
    ensures cv.written + raw.outputLeft == cap
    ensures cv.output == raw.written
    ensures cv.status.Done? <==> raw.ret != SizeMax
    ensures cv.status.Done? ==> cv.status.chars == raw.ret
    ensures cv.status.Failed? ==> cv.status.err == ConvertError(raw.errno)
  {
    var r := |input| - raw.inputLeft;
    var w := cap - raw.outputLeft;
    if raw.ret != SizeMax then Converted(r, w, raw.written, Done(raw.ret))
    else Converted(r, w, raw.written, Failed(ConvertError(raw.errno)))
  }

  /** An open conversion handle: the platform function and its current state. */
  datatype Iconv<!S> = Iconv(call: IconvFn<S>, state: S)

  /** What `iconv_open` did: a handle in its initial state, or failure with errno. */
  datatype OpenOutcome<S> = Opened(initial: S) | OpenFailed(errno: int)

  /** `Iconv::new`. */
  function New<S>(call: IconvFn<S>, open: OpenOutcome<S>): (r: Result<Iconv<S>, IconvError>)
    ensures r.Ok? <==> open.Opened?
    ensures r.Ok? ==> r.value.call == call && r.value.state == open.initial
    ensures r.Err? ==> r.error == OpenError(open.errno)
    ensures r.Err? ==> (r.error == ConversionNotSupport <==> open.errno == EINVAL)
  {
    match open
    case Opened(s) => Ok(Iconv(call, s))
    case OpenFailed(errno) => Err(OpenError(errno))
  }

  /** `Iconv::convert`: one platform call on `input` with `cap` bytes of room. */
  function Step<S(!new)>(c: Iconv<S>, input: seq<byte>, cap: nat): (res: (Iconv<S>, Converted))
    requires Honest(c.call)
    ensures res.0.call == c.call
    ensures Fits(res.1, |input|, cap)
  {
    var (s', raw) := c.call(c.state, input, cap);
    (Iconv(c.call, s'), Convert(input, cap, raw))
  }

  // ---------------------------------------------------------------------
  // Traces: the record of the conversion calls a driver made.
  // ---------------------------------------------------------------------

  /** One conversion call: state before, input, room, state after, result. */
  datatype Call<S> = Call(before: S, input: seq<byte>, cap: nat, after: S, result: Converted)

  /** The call record of one `Step`. */
  ghost function Record<S(!new)>(c: Iconv<S>, input: seq<byte>, cap: nat): (k: Call<S>)
    requires Honest(c.call)
    ensures k.before == c.state && k.input == input && k.cap == cap
    ensures k.after == Step(c, input, cap).0.state && k.result == Step(c, input, cap).1
  {
    var (c', cv) := Step(c, input, cap);
    Call(c.state, input, cap, c'.state, cv)
  }

  /** `k` is what the platform function `f` does on the call's arguments. */
  ghost predicate Made<S>(f: IconvFn<S>, k: Call<S>)
  {
    var (s', raw) := f(k.before, k.input, k.cap);
    && k.after == s'
    && WellFormed(raw, |k.input|, k.cap)
    && k.result == Convert(k.input, k.cap, raw)
  }

  /** The record of a step of an honest converter is what the converter made. */
  lemma RecordMade<S(!new)>(c: Iconv<S>, input: seq<byte>, cap: nat)
    requires Honest(c.call)
    ensures Made(c.call, Record(c, input, cap))
  {
    var (s', raw) := c.call(c.state, input, cap);
    assert WellFormed(raw, |input|, cap);
  }

  /** `calls` were made one after the other by `f`, starting in state `s0`,
      each one continuing from the state the previous one left. */
  ghost predicate Linked<S>(f: IconvFn<S>, s0: S, calls: seq<Call<S>>)
    decreases |calls|
  {
    |calls| == 0 || (calls[0].before == s0 && Made(f, calls[0]) && Linked(f, calls[0].after, calls[1..]))
  }

  /** Every prefix of a linked trace is linked, and its calls were made by `f`. */
  lemma {:induction false} LinkedPrefix<S>(f: IconvFn<S>, s0: S, calls: seq<Call<S>>, n: nat)
    requires Linked(f, s0, calls) && n <= |calls|
    ensures Linked(f, s0, calls[..n])
    ensures n > 0 ==> Made(f, calls[n - 1])
    decreases n
  {
    if n > 0 {
      assert calls[..n][1..] == calls[1..][..n - 1];
      LinkedPrefix(f, calls[0].after, calls[1..], n - 1);
    }
  }

  /** The state after a linked sequence of calls. */
  ghost function Final<S>(s0: S, calls: seq<Call<S>>): (s: S)
    decreases |calls|
  {
    if |calls| == 0 then s0 else Final(calls[0].after, calls[1..])
  }

  /** The input bytes one call consumed: a prefix of its input. */
  function Taken<S>(k: Call<S>): (t: seq<byte>)
    ensures |t| <= |k.input| && t == k.input[..|t|]
  {
    if k.result.read <= |k.input| then k.input[..k.result.read] else k.input
  }

  /** What a call left of its input. */
  function Unread<S>(k: Call<S>): (u: seq<byte>)
    ensures Taken(k) + u == k.input
  {
    k.input[|Taken(k)|..]
  }

  /** All input bytes a sequence of calls consumed, in order. */
  function Consumed<S>(calls: seq<Call<S>>): (c: seq<byte>)
  {
    if |calls| == 0 then [] else Taken(calls[0]) + Consumed(calls[1..])
  }

  /** All output bytes a sequence of calls wrote, in order. */
  function Outputs<S>(calls: seq<Call<S>>): (o: seq<byte>)
  {
    if |calls| == 0 then [] else calls[0].result.output + Outputs(calls[1..])
  }

  /** Appending a call appends what it consumed and what it wrote. */
  lemma {:induction false} ConsumedSnoc<S>(calls: seq<Call<S>>, k: Call<S>)
    ensures Consumed(calls + [k]) == Consumed(calls) + Taken(k)
    ensures Outputs(calls + [k]) == Outputs(calls) + k.result.output
  {
    if |calls| == 0 {
      assert calls + [k] == [k];
      assert [k][1..] == [];
    } else {
      assert (calls + [k])[1..] == calls[1..] + [k];
      ConsumedSnoc(calls[1..], k);
    }
  }

  /** A call the converter made from the state a linked trace left extends the
      trace, and the converter is then in the state the call left. */
  lemma {:induction false} LinkedSnoc<S>(f: IconvFn<S>, s0: S, calls: seq<Call<S>>, k: Call<S>)
    requires Linked(f, s0, calls) && k.before == Final(s0, calls) && Made(f, k)
    ensures Linked(f, s0, calls + [k])
    ensures Final(s0, calls + [k]) == k.after
    decreases |calls|
  {
    if |calls| == 0 {
      assert calls + [k] == [k];
      assert [k][1..] == [];
    } else {
      assert (calls + [k])[1..] == calls[1..] + [k];
      LinkedSnoc(f, calls[0].after, calls[1..], k);
    }
  }

  /** Appending a call to a trace: what the trace consumed, followed by what
      the call left, is what the trace consumed before it, followed by the
      call's input. */
  lemma ConsumedUnread<S>(calls: seq<Call<S>>, k: Call<S>)
    ensures Consumed(calls + [k]) + Unread(k) == Consumed(calls) + k.input
  {
    ConsumedSnoc(calls, k);
    var a, t, u := Consumed(calls), Taken(k), Unread(k);
    assert (a + t) + u == a + (t + u);
  }

  /** A successful call of an honest converter leaves none of its input
      unread; in particular the last call of a trace that ended in success. */
  lemma DoneUsesAll<S>(f: IconvFn<S>, s0: S, calls: seq<Call<S>>)
    requires Linked(f, s0, calls) && |calls| > 0
    requires Last(calls).result.status.Done?
    ensures Unread(Last(calls)) == []
  {
    LinkedPrefix(f, s0, calls, |calls|);
    var k := Last(calls);
    assert Made(f, k);
    assert k.result.read == |k.input|;
  }

  /** The record `k` of one more step from the state a linked trace left
      extends the trace, and appends the step's output. */
  lemma StepSnoc<S(!new)>(f: IconvFn<S>, s0: S, calls: seq<Call<S>>, c: Iconv<S>, input: seq<byte>, cap: nat, k: Call<S>)
    requires Honest(f) && c.call == f
    requires Linked(f, s0, calls) && c.state == Final(s0, calls)
    requires k == Record(c, input, cap)
    ensures Linked(f, s0, calls + [k])
    ensures Final(s0, calls + [k]) == k.after
    ensures Outputs(calls + [k]) == Outputs(calls) + k.result.output
    ensures Consumed(calls + [k]) + Unread(k) == Consumed(calls) + input
  {
    RecordMade(c, input, cap);
    LinkedSnoc(f, s0, calls, k);
    ConsumedSnoc(calls, k);
    ConsumedUnread(calls, k);
  }

  /** Two linked traces, the second starting in the state the first left,
      form one linked trace. */
  lemma {:induction false} LinkedAppend<S>(f: IconvFn<S>, s0: S, a: seq<Call<S>>, b: seq<Call<S>>)
    requires Linked(f, s0, a) && Linked(f, Final(s0, a), b)
    ensures Linked(f, s0, a + b) && Final(s0, a + b) == Final(Final(s0, a), b)
    decreases |a|
  {
    if |a| == 0 {
      assert a + b == b;
    } else {
      assert (a + b)[1..] == a[1..] + b;
      LinkedAppend(f, a[0].after, a[1..], b);
    }
  }

  /** Two stretches of calls consume and write what each stretch does, in order. */
  lemma {:induction false} TraceAppend<S>(a: seq<Call<S>>, b: seq<Call<S>>)
    ensures Consumed(a + b) == Consumed(a) + Consumed(b)
    ensures Outputs(a + b) == Outputs(a) + Outputs(b)
    decreases |a|
  {
    if |a| == 0 {
      assert a + b == b;
    } else {
      assert (a + b)[1..] == a[1..] + b;
      TraceAppend(a[1..], b);
    }
  }
}
