# rust-iconv in Dafny

A model of the Rust crate `iconv`. The crate drives the platform's `iconv`
character-set converter. The model covers four parts of it:

- **Error classification.** `Iconv::new` classifies the errno of a failed
  `iconv_open`. `Iconv::convert` turns the left-over counts and errno of one
  `iconv` call into byte counts and an `IconvError`.
  `IconvError::into_io_error` maps each error to a `std::io::Error`.
- **One-shot conversion.** `iconv(input, from, to)` calls the converter
  again and again on the unread suffix of the input. It grows the output
  buffer whenever the converter reports a full output region. It stops
  after a successful call on used-up input, which is the flush call.
- **Converting reader.** `IconvReader` provides `read`, `fill_buf` and
  `consume`, plus `copy`, which pumps such a reader into a writer.
- **Converting writer.** `IconvWriter` provides `write` with its direct and
  staged paths, `write_all` and `flush`.

The platform converter is a black box: a state transformer `IconvFn`. It
takes the shift state, the input and the output room. It returns the new
state and what `iconv` reported: the input and output left over, the bytes
written, the return value and errno. `Engine.Honest` states what POSIX
promises of such a call:

- the left-over counts never exceed what was given;
- the bytes written fill exactly the used room;
- a non-error return means the whole input was converted.

Empty input stands for a null `inbuf` argument, which is the flush call. The
inner reader and inner writer are black boxes in the same way (module
`Streams`). `HonestRead` says a read returns no more bytes than the buffer
holds. `HonestWrite` says a `write` accepts no more bytes than it was
offered.

Every operation records the calls it made on the black boxes as a ghost
trace. The contracts relate the traces to the results:

- the traces are chained from the starting states;
- on success, input bytes are neither lost nor repeated: every byte pulled
  or given is either consumed by a conversion call, in order, or still
  staged (when `write` fails with nothing staged, the part of `buf` the
  call did not consume is neither, as in the library; the caller still
  holds it);
- on success, output bytes are neither lost nor repeated: every byte
  converted is either handed on, in order, or still staged (after a hard
  conversion error, `write` drops what the failing call wrote, as the
  library does);
- every error `read`, `fill_buf`, `copy`, `write`, `write_all` and `flush`
  return comes from the call that raised it.

To state the one-shot loop's correctness end to end, module `Toy` defines a
concrete converter: UCS-2 little endian to UCS-2 big endian. `iconv` with
that converter computes exactly the reference conversion of the whole
input.

The `dyn_buf` crate's `VecBuf` is modelled by its sequence semantics only
(module `VecBufs`): readable data followed by spare room.

Some behaviour is modelled as the code does it, not as one might expect:

- `fill_buf` takes the output staging out with `mem::take` before it reads.
  When the read fails, the staging is not put back, and it stays without
  room (`Reader.Filled`).
- In the staged path, `write` appends `buf` to the staging before the
  conversion. On a hard conversion error it returns the error with `buf`
  still staged (`Writer.Wrote`).

Module layout:

- `base.dfy`: shared types and sequence lemmas.
- `errors.dfy`: `Errors` and `Io`.
- `vecbuf.dfy`: `VecBufs`.
- `engine.dfy`: `Engine`, the handle, `convert` and call traces.
- `oneshot.dfy`: `OneShot`, the growth loop.
- `toy.dfy`: `Toy`, the concrete converter.
- `streams.dfy`: `Streams`, the inner reader and writer.
- `reader.dfy`: `Reader`.
- `copy.dfy`: `Copy`.
- `writer.dfy`: `Writer`.

## Model

| member | source | states |
|---|---|---|
| Errors.OpenError | src/lib.rs:154-160 | A failed open is `ConversionNotSupport` exactly when errno is EINVAL; any other errno is kept verbatim as `OsError`. |
| Errors.OpenErrorRoundTrip | src/lib.rs:154-160 | The open classification loses nothing: the errno is recovered from the error, and each possible open error is the classification of its own errno. |
| Errors.ConvertError | src/lib.rs:212-217 | E2BIG, EINVAL and EILSEQ each map to exactly one variant (`NotSufficientOutput`, `IncompleteInput`, `InvalidInput`), and no other errno maps there. Every other errno becomes `OsError` with that errno. A conversion call never yields `ConversionNotSupport`. |
| Errors.ConvertErrorRoundTrip | src/lib.rs:212-217 | The conversion classification is a bijection between errno values and conversion errors: the errno is recovered from the error, and every conversion error is the classification of its errno. |
| Io.IntoIoError | src/lib.rs:50-64 | `OsError(e)` becomes the raw OS error `e`. Every other variant becomes a custom error that carries it. The kinds are: Unsupported for `ConversionNotSupport`; InvalidInput for `NotSufficientOutput` and `IncompleteInput`; InvalidData for `InvalidInput`. |
| Io.IntoIoErrorInjective | src/lib.rs:50-64 | No two conversion errors become the same I/O error, and the conversion error can be read back from the I/O error. |
| Engine.New | src/lib.rs:148-163 | Opening yields a handle in the converter's initial state exactly when `iconv_open` succeeded. Otherwise it yields the open classification of errno, and that is `ConversionNotSupport` exactly for EINVAL. |
| Engine.Convert | src/lib.rs:202-219 | Bytes read plus input left is the input length, and bytes written plus output left is the room. The written bytes are those the call produced. Success holds exactly when the return value is not `(size_t)-1`, and then the whole input was read. A failure carries the conversion classification of errno. |
| Engine.Step | src/lib.rs:174-220 | One `convert` of an honest converter never reads more than the input or writes more than the room. A success consumed all input, and a failure is a conversion error. |
| Engine.DoneUsesAll | src/lib.rs:205-206 | The last call of a trace, if it succeeded, left none of its input unread. |
| OneShot.RunInput | src/lib.rs:97-107 | In a run of the growth loop, the last call sees exactly the input the earlier calls left unread. |
| OneShot.Turn | src/lib.rs:96-111 | One turn keeps the loop invariant: the cursor stays within the input and the consumed bytes are the input up to it. The output buffer holds every chunk written, in order. After a full output region the room grew by at least `MIN_WRITE`. Otherwise the turn ends the loop with the result its last call decides. |
| OneShot.Drive | src/lib.rs:94-112 | The loop from an open handle ends either out of fuel, on a call that lets it go on, or on a call that stops it. A success is a successful call on used-up input after the whole input was consumed, and its result is everything written. A failure carries the last call's error. |
| OneShot.Iconv | src/lib.rs:92-113 | An open failure is returned as such, with no calls. On `Ok` the output is the in-order concatenation of every chunk the converter wrote, the whole input was consumed, and the last call was a success on empty input. On `Err` the error is the last call's and is never `NotSufficientOutput`. |
| OneShot.Settles | src/lib.rs:97-111 | A success ends the loop only when it was made on empty input, the flush call; a success on unread input leaves nothing unread, so the next call is the flush call. A full output region lets the loop go on, and every other failure ends it. |
| OneShot.Refill | src/lib.rs:99-108 | After a call that lets the loop go on, its output is committed after everything written so far. After a success the room shrinks by exactly that output; after a full output region the buffer grows by at least `MIN_WRITE` bytes of room and at least doubles its capacity. |
| OneShot.Stop | src/lib.rs:100-110 | After a call that stops the loop, the result is `Ok` exactly when the call succeeded, and then it is everything written so far followed by the call's output; otherwise it is the call's error. |
| Toy.RunBound | src/lib.rs:96-112 | With the UCS-2 swap converter, the growth loop makes at most one call per code unit plus two, so it always terminates. |
| Toy.StopsAtFault | src/lib.rs:110 | With the UCS-2 swap converter, the loop fails exactly with the error of the first fault of the input. |
| Toy.OneShotSwap | src/lib.rs:92-113 | With the UCS-2 swap converter, `iconv` returns the reference conversion of the whole input: its byte swap if it has no fault, otherwise the error of its first fault. In particular, empty input gives empty output. |
| Reader.New | src/lib.rs:237-245 | A reader is made exactly when the open succeeds; it has the fresh handle, the given inner reader, and `MIN_WRITE` bytes of room in both staging buffers. |
| Reader.Verdict | src/lib.rs:283-309 | `read` goes on exactly after an incomplete sequence when the pull delivered bytes. Otherwise its result is: the byte count after a success; the byte count after a full region or incomplete input that still wrote something; the I/O form of the call's error otherwise. |
| Reader.Kept | src/lib.rs:284-308 | After a success, a full region or an incomplete sequence, the consumed bytes leave the input staging; after a hard error the staging is unchanged. |
| Reader.PullFails | src/lib.rs:279 | A failed pull ends `read` with the inner reader's error, and nothing else changes. |
| Reader.Converts | src/lib.rs:279-307 | After a pull that delivered bytes, the converter sees the staged bytes followed by the new ones, with the unwritten rest of the caller's buffer as room. Afterwards `read` either still satisfies its loop invariant or has answered with `Verdict`'s result. |
| Reader.Resume | src/lib.rs:280-307 | After a pull that delivered bytes, the bytes written only grow, stay within the caller's buffer, and a success counts them all. The loop invariant is kept, or the read has answered. |
| Reader.Round | src/lib.rs:279-309 | One round only appends to what the caller's buffer holds and stays within it. It keeps the invariant of the read loop, or ends the read with a result that matches the last pull or call. |
| Reader.Read | src/lib.rs:276-311 | `read` into a buffer of `cap` bytes writes at most `cap` bytes: all the converter wrote, in order. A success returns their count, and the output staging, the input staging's capacity and both black boxes are unchanged. Every byte pulled is either consumed, in order, or still staged; after a hard error the last call's input stays staged as a whole. Every round but the last was an incomplete sequence on a non-empty pull. The result is the inner reader's error or is classified from the last call. It runs out of fuel only after `fuel` such rounds. |
| Reader.FillBuf | src/lib.rs:315-323 | With output staged, `fill_buf` returns it unchanged and touches nothing. Otherwise it runs one `read` into the staging's room and, on success, returns and commits exactly what that read wrote. On failure the staging is left without room. It runs out of fuel only after `fuel` rounds of that read, each of whose pulls delivered bytes. |
| Reader.Consume | src/lib.rs:325-327 | `consume(amt)` removes exactly the first `amt` staged output bytes, keeps the capacity, and changes nothing else. |
| Reader.ConsumeTwice | src/lib.rs:325-327 | Consuming `a` then `b` bytes is consuming `a + b` bytes at once. |
| Copy.FillFailed | src/lib.rs:135 | A failing fill ends `copy` with that fill's error, from its last pull or its last conversion call. |
| Copy.SinkFailed | src/lib.rs:136 | A failing `write_all` on the writer ends `copy` with the writer's error. |
| Copy.Advanced | src/lib.rs:135-139 | A successful `write_all` of a non-empty fill keeps the copy invariant. The writer has received, in order, exactly everything converted so far, and the count is its length. |
| Copy.Drained | src/lib.rs:140-142 | An empty fill, handed over successfully, ends `copy` with the count of bytes handed over. Every byte the inner reader delivered was converted, since the last call succeeded. |
| Copy.Pump | src/lib.rs:134-143 | A round that goes on has handed over at least one more byte in one more `write_all`, with the output staging empty again. A round that ends with success returns the running count. A round runs out of fuel only in a fill that made `fuel` reads, all of which delivered bytes, and then nothing was written. It keeps the copy invariant or ends `copy` as `Copied` describes, with an error taken from the call that raised it: the failing `write_all`, else the failing read, else the failing conversion call. |
| Copy.Copy | src/lib.rs:125-144 | An open failure is returned as an I/O error before any read, conversion call or write. On success, the writer received every converted byte, in order, in non-empty `write_all` batches followed by one empty batch. The result is their count, and every byte the inner reader delivered was converted. An error is the writer's if the last `write_all` failed, otherwise the inner reader's if the last read failed, otherwise the last conversion call's, and every batch before the last was handed over whole. The fuel runs out only after `fuel` rounds that each handed over a non-empty batch, or in a fill whose last `fuel` reads all delivered bytes. |
| Writer.New | src/lib.rs:260-268 | A writer is made exactly when the open succeeds; it has the fresh handle, the given inner writer, and `MIN_WRITE` bytes of room in both staging buffers. |
| Writer.Passing | src/lib.rs:333-360 | `write` hands output on after a success, which consumed all of its input, or after an incomplete sequence. Any other status is a failure it returns: an invalid sequence, an OS error or a full output region, since `write` never grows its output staging. |
| Writer.Staging | src/lib.rs:332-345 | The input the staged path converts is the staged input followed by `buf`; with nothing staged, the staging stays empty. |
| Writer.WroteShape | src/lib.rs:331-363 | Seen from outside, a `write` counts no more than `buf`, and all of it when input was staged. With nothing staged before, nothing is staged after. What is staged is a suffix of the staged input followed by `buf`, and the output staging keeps its capacity. |
| Writer.Handed | src/lib.rs:333-358 | When the call succeeds or stops at an incomplete sequence, the new bytes reach the inner writer's `write` after the old staged output. The result is that writer's error, or the byte count of the path taken. |
| Writer.Deliver | src/lib.rs:335-338 | The output staging with the new bytes is offered to the inner writer in one `write`. The accepted prefix leaves the staging and the rest stays, in order. An error of the inner writer is returned. |
| Writer.Write | src/lib.rs:331-363 | The call converts the staged input followed by `buf`. What stays staged is always a suffix of that input. Direct path: the result counts the bytes of `buf` consumed, and the unconsumed tail is not staged. Staged path: the result is `|buf|`, and the unconsumed rest stays staged. Either way, converted output is handed on or stays staged. A hard conversion error hands nothing on. |
| Writer.WriteAll | src/lib.rs:378-384 | On success what stays staged is a suffix of the staged input followed by `buf`, and no byte of `buf` is dropped: the staged input and `buf` equal the bytes the call consumed followed by what is staged now. Every converted byte reached the inner writer or is staged. Whatever the outcome, what stays staged is a suffix of the staged input followed by `buf`. Errors of `write` are returned unchanged, with the writer exactly as that `write` left it (`Writer.Wrote`). |
| Writer.Flush | src/lib.rs:365-376 | `flush` makes the empty write (the converter's flush call); its conversion error or the inner writer's `write` error is returned as is. It then fails with `IncompleteInput` if input is still staged. Otherwise it hands all output still staged on with one `write_all`, whose error is returned, and then calls the inner writer's `flush`, whose reply is the result. Every error exit keeps the data staged: after a failed `write` as that `write` left it, after `IncompleteInput` the unconverted input and the unsent output, after a failed `write_all` exactly the output it was given. On success nothing is staged, and every staged and converted byte reached the inner writer. |
| Writer.Rebalanced | src/lib.rs:378-384 | A `write_all` that keeps the books of one call keeps the books of the whole history, both the input conservation and the output conservation. |
| Writer.Closed | src/lib.rs:365-376 | A successful `flush` on a writer that started with nothing staged: everything given was consumed, and everything converted reached the inner writer. |
| Writer.Feed | src/lib.rs:378-384 | One more `write_all` in a sequence of them keeps the books balanced with its buffer given. |
| Writer.Close | src/lib.rs:365-376 | The final `flush` of a session keeps the call history chained; when it succeeds on a writer that started with nothing staged, the calls consumed exactly the bytes given and the inner writer received exactly the bytes converted. |
| Writer.Session | src/lib.rs:365-384 | A sequence of `write_all` calls on a new writer, as in the writer test at src/lib.rs:496-510, followed by a `flush` that the test leaves out. An open failure is returned as an I/O error. The session succeeds only if the conversion calls consumed exactly the buffers' bytes in order. The inner writer then received exactly the converted bytes, in order. |
| VecBufs.New | src/lib.rs:95 | A new buffer holds no data and offers exactly the requested room (`MIN_WRITE` everywhere in the library). |
| VecBufs.Default | src/lib.rs:317 | The buffer `std::mem::take` leaves behind holds no data and has no capacity. |
| VecBufs.PrepareAtLeast | src/lib.rs:97 | The readable data is unchanged and at least `n` bytes of room are offered. A buffer that already has `n` bytes of room is left as it is, so `prepare_at_least(0)`, the only form the library uses, offers exactly the spare room. |
| VecBufs.Commit | src/lib.rs:99 | Bytes written into the spare room become readable data at the end, and the capacity is unchanged. |
| VecBufs.Consume | src/lib.rs:284 | The first `n` readable bytes are dropped and the rest stays, in order, with the capacity unchanged. |
| VecBufs.WriteAll | src/lib.rs:345 | The bytes are appended to the readable data, and the capacity never shrinks. |
| VecBufs.Grow | src/lib.rs:108 | The readable data is unchanged, the room grows by at least `MIN_WRITE` bytes, and the capacity at least doubles. |

## Left out

- The FFI declarations and the choice of library to link (src/lib.rs:1-26) are foreign code. The platform `iconv` is the black-box parameter `IconvFn`, with the POSIX promises stated as `Engine.Honest`.
- The real encoding tables and shift-state semantics belong to the platform library. The only concrete converter is the UCS-2 byte swap in `Toy`, so the GBK and other byte vectors of the tests are not reproduced.
- `Drop`/`iconv_close`, `Iconv::reset`, the `CString` construction of the encoding names and passing a null `inbuf` are resource handling and unsafe plumbing. The encoding names do not appear: the outcome of `iconv_open` is a parameter (`OpenOutcome`).
- `encode` and `decode` only call `iconv` with "UTF-8" on one side; `decode` also calls `from_utf8_unchecked`. They are covered by `OneShot.Iconv` and are not separate members.
- `into_inner` only returns the inner reader or writer.
- The `Display` strings of `IconvError` and the internals of `std::io::Error` are formatting. `ErrorKind` is a plain enumeration of the three kinds the library produces.
- The `dyn_buf` crate is not part of this model. `VecBuf` is data plus spare room. Consumed room becomes spare again, which assumes compaction. `grow` is assumed to add exactly `max(capacity, MIN_WRITE)` bytes of room. `prepare_at_least(n)` is assumed to leave a buffer with at least `n` bytes of room as it is, and otherwise to offer exactly `n` bytes; the library only calls `prepare_at_least(0)`, which then offers the spare room itself. The contracts rely on this: the room a call is offered is the buffer's spare room.
- OneShot.Iconv: the growth loop runs for at most `fuel` converter calls, since a black-box converter need not make progress; `Toy.RunBound` gives enough fuel for the concrete converter.
- Reader.Read: the loop runs for at most `fuel` rounds, since a black-box inner reader may deliver bytes forever.
- Copy.Copy: the copy loop and each of its fills run for at most `fuel` rounds, for the same reason. Running out of fuel is allowed only after `fuel` successful rounds, or in a fill whose last `fuel` reads all delivered bytes.
- Reader.FillBuf: its `read` runs for at most `fuel` rounds, as in `Reader.Read`.
- Writer.Session: only a successful session is characterised; which call an error came from is stated by `Writer.WriteAll` and `Writer.Flush`, not by the session.
- Reader.Consume: `consume` with more bytes than are staged panics in `VecBuf`; the model requires `amt` to be within the staged bytes.
- The inner reader and writer are black boxes with honesty predicates. Their own buffering and partial-write policies are not modelled.
- Platform integer widths are not modelled: counts are unbounded naturals, with `(size_t)-1` as the constant `Engine.SizeMax`.
