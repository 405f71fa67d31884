/**
 A concrete converter to run the one-shot conversion against: UCS-2 in little
 endian to UCS-2 in big endian, which swaps the two bytes of every code unit.
 A unit whose high byte is a surrogate (0xD8 to 0xDF) is an illegal sequence,
 and a lone trailing byte is an incomplete one; the converter has no shift
 state. It behaves as the platform's `iconv` does: it converts whole units
 from the front while they are legal and fit, then reports why it stopped.
 */
module Toy {
  import opened Base
  import opened Errors
  import opened VecBufs
  import opened Engine
  import opened OneShot

  /** A high byte that starts a surrogate, which UCS-2 does not allow. */
  predicate Illegal(hi: byte)
  {
    0xD8 <= hi <= 0xDF
  }

  /** The byte swap of a sequence of whole units. */
  function Swap(s: seq<byte>): (r: seq<byte>)
    ensures |r| == |s| - |s| % 2
  {
    if |s| < 2 then [] else [s[1], s[0]] + Swap(s[2..])
  }

  /** Swapping distributes over concatenation at a unit boundary. */
  lemma {:induction false} SwapAppend(p: seq<byte>, q: seq<byte>)
    requires |p| % 2 == 0
    ensures Swap(p + q) == Swap(p) + Swap(q)
    decreases |p|
  {
    if |p| == 0 {
      assert p + q == q;
    } else {
      assert (p + q)[2..] == p[2..] + q;
      SwapAppend(p[2..], q);
    }
  }

  /** The first fault of a little-endian UCS-2 byte sequence, scanning whole
      units from the front: `None` if every unit is legal and none is cut off. */
  function Fault(s: seq<byte>): (f: Option<IconvError>)
    ensures f.Some? ==> f.value == IncompleteInput || f.value == InvalidInput
  {
    if |s| == 0 then None
    else if |s| == 1 then Some(IncompleteInput)
    else if Illegal(s[1]) then Some(InvalidInput)
    else Fault(s[2..])
  }

  /** A faultless sequence is whole units. */
  lemma {:induction false} FaultlessEven(s: seq<byte>)
    requires Fault(s) == None
    ensures |s| % 2 == 0
    decreases |s|
  {
    if |s| >= 2 {
      FaultlessEven(s[2..]);
    }
  }

  /** Scanning past a faultless prefix: the fault of the whole is the fault of
      the rest. */
  lemma {:induction false} FaultAppend(p: seq<byte>, q: seq<byte>)
    requires Fault(p) == None
    ensures Fault(p + q) == Fault(q)
    decreases |p|
  {
    FaultlessEven(p);
    if |p| == 0 {
      assert p + q == q;
    } else {
      assert (p + q)[2..] == p[2..] + q;
      FaultAppend(p[2..], q);
    }
  }

  /** The reference meaning of converting `input` as a whole: its byte swap if
      it has no fault, and otherwise the error of its first fault. */
  function Reference(input: seq<byte>): (r: Result<seq<byte>, IconvError>)
  {
    match Fault(input)
    case None => Ok(Swap(input))
    case Some(e) => Err(e)
  }

  /** How many whole legal units from the front fit into `cap` bytes of room. */
  function Units(input: seq<byte>, cap: nat): (m: nat)
    ensures 2 * m <= |input| && 2 * m <= cap
    ensures Fault(input[..2 * m]) == None
    ensures 2 * m + 2 <= |input| && !Illegal(input[2 * m + 1]) ==> cap < 2 * m + 2
  {
    if |input| < 2 || cap < 2 || Illegal(input[1]) then 0
    else
      var m := 1 + Units(input[2..], cap - 2);
      assert input[..2 * m][2..] == input[2..][..2 * m - 2];
      m
  }

  /** One call of the converter: convert the leading units that are legal and
      fit, then stop successfully at the end of the input, or with EINVAL on a
      lone trailing byte, EILSEQ on an illegal unit, E2BIG when out of room. */
  function Call(s: (), input: seq<byte>, cap: nat): ((), RawCall)
  {
    var m := Units(input, cap);
    var out := Swap(input[..2 * m]);
    var left := |input| - 2 * m;
    var room := cap - 2 * m;
    if left == 0 then ((), RawCall(0, room, out, 0, 0))
    else if left == 1 then ((), RawCall(left, room, out, SizeMax, EINVAL))
    else if Illegal(input[2 * m + 1]) then ((), RawCall(left, room, out, SizeMax, EILSEQ))
    else ((), RawCall(left, room, out, SizeMax, E2BIG))
  }

  /** The converter keeps the POSIX promises. */
  lemma CallHonest()
    ensures Honest(Call)
  {
    forall s: (), input: seq<byte>, cap: nat
      ensures WellFormed(Call(s, input, cap).1, |input|, cap)
    {
      var m := Units(input, cap);
      FaultlessEven(input[..2 * m]);
    }
  }

  /** What a call of this converter did, in terms of the bytes it consumed:
      a faultless run of whole units whose swap is its output, and a status
      that is the fault of its input (success when there is none), or a full
      output region when the next unit is legal but did not fit. */
  lemma CallShape(k: Engine.Call<()>)
    requires Made(Call, k)
    ensures Fault(Taken(k)) == None && k.result.output == Swap(Taken(k))
    ensures k.result.status.Done? ==> Fault(k.input) == None
    ensures k.result.status.Failed? && k.result.status.err != NotSufficientOutput ==>
              Fault(k.input) == Some(k.result.status.err)
    ensures k.result.status == Failed(NotSufficientOutput) ==>
              |Taken(k)| + 2 <= |k.input| && k.cap < |Taken(k)| + 2
    ensures k.result.status.Done? ==> Taken(k) == k.input
  {
    var m := Units(k.input, k.cap);
    var t := k.input[..2 * m];
    var rest := k.input[2 * m..];
    var raw := Call(k.before, k.input, k.cap).1;
    assert k.result == Convert(k.input, k.cap, raw);
    assert k.result.read == 2 * m || (rest == [] && k.result.read == |k.input|);
    assert Taken(k) == t;
    FaultlessEven(t);
    assert k.input == t + rest;
    FaultAppend(t, rest);
    if |rest| >= 2 {
      assert rest[1] == k.input[2 * m + 1];
    }
  }


  /** Every call of this converter converts a faultless run of whole units
      into its swap, so a trace of them does too. */
  lemma {:induction false} TraceSwaps(calls: seq<Engine.Call<()>>)
    requires Linked(Call, (), calls)
    ensures Fault(Consumed(calls)) == None
    ensures Outputs(calls) == Swap(Consumed(calls))
    decreases |calls|
  {
    if |calls| > 0 {
      CallShape(calls[0]);
      TraceSwaps(calls[1..]);
      var t := Taken(calls[0]);
      FaultAppend(t, Consumed(calls[1..]));
      FaultlessEven(t);
      SwapAppend(t, Consumed(calls[1..]));
    }
  }

  /** The growth loop makes at most one call per unit of input plus two: every
      call that fills the output region still converts a unit, since the room
      is never below a unit, and a success on non-empty input is followed only
      by the final call on empty input. */
  lemma {:induction false} RunBound(input: seq<byte>, calls: seq<Engine.Call<()>>, cap: nat)
    requires RunOn(input, calls, cap) && Linked(Call, (), calls) && cap >= 2
    ensures |calls| <= |input| / 2 + 2
    decreases |calls|
  {
    if |calls| > 1 {
      var k := calls[0];
      CallShape(k);
      var rest := input[|Taken(k)|..];
      if k.result.status.Done? {
        assert rest == [];
        if |calls| > 2 {
          CallShape(calls[1]);
          assert false;
        }
      } else {
        assert k.result.written <= k.cap;
        RunBound(rest, calls[1..], calls[1].cap);
      }
    }
  }

  /** A run that stops with an error other than a full output region stops
      at the first fault of its input. */
  lemma StopsAtFault(input: seq<byte>, calls: seq<Engine.Call<()>>, e: IconvError)
    requires RunOn(input, calls, MinWrite) && Linked(Call, (), calls) && |calls| > 0
    requires Last(calls).result.status == Failed(e) && e != NotSufficientOutput
    ensures Fault(input) == Some(e)
  {
    var n := |calls| - 1;
    RunInput(input, calls, MinWrite);
    LinkedPrefix(Call, (), calls, n);
    TraceSwaps(calls[..n]);
    LinkedPrefix(Call, (), calls, |calls|);
    CallShape(Last(calls));
    FaultAppend(Consumed(calls[..n]), Last(calls).input);
  }

  /** A run that consumed the whole input produced its swap, and the input has
      no fault. */
  lemma SucceedsWithSwap(input: seq<byte>, calls: seq<Engine.Call<()>>)
    requires Linked(Call, (), calls) && Consumed(calls) == input
    ensures Reference(input) == Ok(Outputs(calls))
  {
    TraceSwaps(calls);
  }

  /** `iconv` with this converter computes the reference conversion: the swap
      of a faultless input, and otherwise the error of its first fault. Enough
      fuel for the bound of `RunBound` is given, so the loop always finishes. */
  method OneShotSwap(input: seq<byte>) returns (r: Result<seq<byte>, IconvError>)
    ensures r == Reference(input)
  {
    CallHonest();
    var res, calls := OneShot.Iconv(Call, Opened(()), input, |input| / 2 + 3);
    RunBound(input, calls, MinWrite);
    r := res.result;
    if r.Ok? {
      SucceedsWithSwap(input, calls);
    } else {
      StopsAtFault(input, calls, r.error);
    }
  }
}
