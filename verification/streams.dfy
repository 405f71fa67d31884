/**
 The byte endpoints the streaming adapters wrap: an inner reader (`R: Read`)
 and an inner writer (`W: Write`). Both are black boxes, given as state
 transformers; what `std::io` promises of them is stated as a predicate.
 */
module Streams {
  import opened Base
  import opened Io

  /** One call of a black box `f` on argument `arg`: the state before and after,
      and the reply. */
  datatype Event<S, A, B> = Event(before: S, arg: A, after: S, reply: B)

  /** The event of calling `f` in state `s` on `arg`. */
  function Occur<S, A, B>(f: (S, A) -> (S, B), s: S, arg: A): (e: Event<S, A, B>)
    ensures e.before == s && e.arg == arg
    ensures f(s, arg) == (e.after, e.reply)
  {
    var (s', reply) := f(s, arg);
    Event(s, arg, s', reply)
  }

  /** `events` are calls of `f`, one after the other, starting in state `s0`. */
  ghost predicate Chained<S, A, B>(f: (S, A) -> (S, B), s0: S, events: seq<Event<S, A, B>>)
    decreases |events|
  {
    || |events| == 0
    || (&& events[0].before == s0
        && f(s0, events[0].arg) == (events[0].after, events[0].reply)
        && Chained(f, events[0].after, events[1..]))
  }

  /** The state after a chain of events. */
  ghost function After<S, A, B>(s0: S, events: seq<Event<S, A, B>>): (s: S)
    decreases |events|
  {
    if |events| == 0 then s0 else After(events[0].after, events[1..])
  }

  /** A call made in the state a chain left extends the chain. */
  lemma {:induction false} ChainedSnoc<S, A, B>(f: (S, A) -> (S, B), s0: S, events: seq<Event<S, A, B>>, e: Event<S, A, B>)
    requires Chained(f, s0, events) && e.before == After(s0, events)
    requires f(e.before, e.arg) == (e.after, e.reply)
    ensures Chained(f, s0, events + [e]) && After(s0, events + [e]) == e.after
    decreases |events|
  {
    if |events| == 0 {
      assert events + [e] == [e];
      assert [e][1..] == [];
    } else {
      assert (events + [e])[1..] == events[1..] + [e];
      ChainedSnoc(f, events[0].after, events[1..], e);
    }
  }

  /** Two chains, the second starting where the first ended, form one chain. */
  lemma {:induction false} ChainedAppend<S, A, B>(f: (S, A) -> (S, B), s0: S, a: seq<Event<S, A, B>>, b: seq<Event<S, A, B>>)
    requires Chained(f, s0, a) && Chained(f, After(s0, a), b)
    ensures Chained(f, s0, a + b) && After(s0, a + b) == After(After(s0, a), b)
    decreases |a|
  {
    if |a| == 0 {
      assert a + b == b;
    } else {
      assert (a + b)[1..] == a[1..] + b;
      ChainedAppend(f, a[0].after, a[1..], b);
    }
  }

  // ---------------------------------------------------------------------
  // The inner reader.
  // ---------------------------------------------------------------------

  /** `Read::read` on a buffer of `room` bytes: the bytes read, or an error.
      Zero bytes signal the end of the stream. */
  type ReadFn<!R> = (R, nat) -> (R, Result<seq<byte>, IoError>)

  /** A read reply fits the buffer it was given. */
  predicate Fills(reply: Result<seq<byte>, IoError>, room: nat)
  {
    reply.Ok? ==> |reply.value| <= room
  }

  /** The inner reader never returns more bytes than the buffer holds. */
  ghost predicate HonestRead<R(!new)>(f: ReadFn<R>)
  {
    forall r, room :: Fills(f(r, room).1, room)
  }

  /** An inner reader: its `read` and its current state. */
  datatype Source<!R> = Source(read: ReadFn<R>, state: R)

  /** One call of the inner reader. */
  type Pull<R> = Event<R, nat, Result<seq<byte>, IoError>>

  /** The bytes a read reply delivered: none on an error. */
  function Got(reply: Result<seq<byte>, IoError>): (bytes: seq<byte>)
  {
    if reply.Ok? then reply.value else []
  }

  /** All bytes a sequence of reads delivered, in order. */
  function Pulled<R>(pulls: seq<Pull<R>>): (b: seq<byte>)
  {
    if |pulls| == 0 then [] else Got(pulls[0].reply) + Pulled(pulls[1..])
  }

  /** A read made in the state a chain of reads left extends the chain, and
      appends what it delivered. */
  lemma PullSnoc<R>(f: ReadFn<R>, r0: R, pulls: seq<Pull<R>>, p: Pull<R>)
    requires Chained(f, r0, pulls) && p.before == After(r0, pulls)
    requires f(p.before, p.arg) == (p.after, p.reply)
    ensures Chained(f, r0, pulls + [p]) && After(r0, pulls + [p]) == p.after
    ensures Pulled(pulls + [p]) == Pulled(pulls) + Got(p.reply)
  {
    ChainedSnoc(f, r0, pulls, p);
    PulledAppend(pulls, [p]);
    assert [p][1..] == [];
  }

  /** Reads delivered in two stretches deliver the bytes of both, in order. */
  lemma {:induction false} PulledAppend<R>(a: seq<Pull<R>>, b: seq<Pull<R>>)
    ensures Pulled(a + b) == Pulled(a) + Pulled(b)
    decreases |a|
  {
    if |a| == 0 {
      assert a + b == b;
    } else {
      assert (a + b)[1..] == a[1..] + b;
      PulledAppend(a[1..], b);
    }
  }

  // ---------------------------------------------------------------------
  // The inner writer.
  // ---------------------------------------------------------------------

  /** What the library asks of an inner writer: `write`, `write_all` or `flush`. */
  datatype SinkOp = Write(bytes: seq<byte>) | WriteAll(bytes: seq<byte>) | Flush

  /** The inner writer's three operations as one state transformer. A `write`
      answers how many leading bytes it accepted; `write_all` and `flush`
      answer `Ok` with no meaningful count. */
  type SinkFn<!W> = (W, SinkOp) -> (W, Result<nat, IoError>)

  /** A `write` accepts no more than the bytes offered. */
  predicate Accepts(op: SinkOp, reply: Result<nat, IoError>)
  {
    op.Write? && reply.Ok? ==> reply.value <= |op.bytes|
  }

  /** The inner writer never claims to have written more than it was given. */
  ghost predicate HonestWrite<W(!new)>(f: SinkFn<W>)
  {
    forall w, op :: Accepts(op, f(w, op).1)
  }

  /** An inner writer: its operations and its current state. */
  datatype Sink<!W> = Sink(push: SinkFn<W>, state: W)

  /** One call of the inner writer. */
  type Push<W> = Event<W, SinkOp, Result<nat, IoError>>

  /** The bytes one call handed over for good: the accepted prefix of a
      `write`, everything after a successful `write_all`, nothing otherwise. */
  function Delivered<W>(e: Push<W>): (b: seq<byte>)
    ensures e.reply.Err? || e.arg.Flush? ==> b == []
    ensures !e.arg.Flush? ==> b <= e.arg.bytes
  {
    match e.arg
    case Write(bytes) => if e.reply.Ok? && e.reply.value <= |bytes| then bytes[..e.reply.value] else []
    case WriteAll(bytes) => if e.reply.Ok? then bytes else []
    case Flush => []
  }

  /** All bytes a sequence of calls handed to the inner writer, in order. */
  function Pushed<W>(pushes: seq<Push<W>>): (b: seq<byte>)
  {
    if |pushes| == 0 then [] else Delivered(pushes[0]) + Pushed(pushes[1..])
  }

  /** A call made in the state a chain of calls left extends the chain, and
      appends what it handed over. */
  lemma PushSnoc<W>(f: SinkFn<W>, w0: W, pushes: seq<Push<W>>, e: Push<W>)
    requires Chained(f, w0, pushes) && e.before == After(w0, pushes)
    requires f(e.before, e.arg) == (e.after, e.reply)
    ensures Chained(f, w0, pushes + [e]) && After(w0, pushes + [e]) == e.after
    ensures Pushed(pushes + [e]) == Pushed(pushes) + Delivered(e)
  {
    ChainedSnoc(f, w0, pushes, e);
    PushedAppend(pushes, [e]);
    assert [e][1..] == [];
  }

  /** Calls made in two stretches hand over the bytes of both, in order. */
  lemma {:induction false} PushedAppend<W>(a: seq<Push<W>>, b: seq<Push<W>>)
    ensures Pushed(a + b) == Pushed(a) + Pushed(b)
    decreases |a|
  {
    if |a| == 0 {
      assert a + b == b;
    } else {
      assert (a + b)[1..] == a[1..] + b;
      PushedAppend(a[1..], b);
    }
  }
}
