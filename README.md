# Guest-side marshalling of the AssemblyScript SDK, in Dafny

The SDK's guest module exchanges byte payloads with its host through shared
linear memory. The host writes a request into guest memory and calls an
exported adapter with `(ptr, size)`. The adapter goes through four steps:

- it decodes the request into a `Uint8Array` or a `string`;
- it calls the injected handler once;
- it encodes the handler's result as a frame (a 4-byte little-endian
  length, then the payload) in a fresh allocation;
- it frees the request memory and returns the frame's address.

The SDK also has a logger that sends a string to the host one byte at a
time and then flushes.

The project has three modules:

- `Wire` (`wire.dfy`) holds the pure byte-level parts:
  - the AssemblyScript `u8` and the UTF-16 code unit `u16`;
  - `x >> k` and `as u8`;
  - the length prefix and the frame;
  - the host's reading of a frame (`ParseFrame`);
  - the narrowing of code units to bytes (`Narrow`) and its inverse on
    bytes (`Widen`).
- `Marshal` (`marshal.dfy`) holds the class `Runtime`. Its state is:
  - linear memory, as a `seq<u8>` the allocator may grow;
  - the allocator's live regions (base address to size);
  - the trace of every address passed to `memory.free`;
  - a ghost trace of handler invocations.

  Its methods are `memory.allocate` and `memory.free`, the two decoders,
  the two encoders and the two adapters. Loops become `for` loops with
  invariants. Each `Runtime` method's contract states the new memory, the
  new live map and the new free trace. The module-level methods that call
  an adapter each state part of what the call leaves:
  - `EchoBytes`, `EchoString` and `EchoThreeBytes` state memory (the
    response frame), the free trace (the request object or string freed
    twice) and the live map (the response is live);
  - `EchoBytes` and `EchoString` also state that the request object or
    string is no longer live, and that every region live before the call
    other than `ptr` is still live with the same size;
  - `BytesCallKeepsRequestBuffer` and `StringCallKeepsScratch` state only
    the live map and the free trace;
  - `ResponseReadsBack` states only the decoded array.

  A `Uint8Array` is a value `Bytes(obj,
  buffer, data)` that carries the addresses of its object and of its
  backing `ArrayBuffer`. A `string` is a value `Str(obj, units)`.
- `Logger` (`logger.dfy`) holds the class `Sink`, whose state is the trace
  of `write(b)` and `flush()` calls the host receives. `log` is a method
  that appends to that trace. It is specified by the function `LogTrace`,
  and its properties are lemmas about that function.

The model follows the code where the protocol's intended design differs
from it:

- `readRequestBytes` does not free the request region. The adapters free
  `ptr` only after encoding (`assembly/index.ts:65`, `:78`).
- `readRequestString` never frees its intermediate `Uint8Array`, neither
  the array object nor its buffer (`assembly/index.ts:17-18`).
  `StringCallKeepsScratch` states that `stringHandler` frees neither
  address and leaves both allocated, unless the handler's result has that
  address.
- `writeResponseBytes` frees its argument's buffer and object. With a
  handler that returns its argument, `bytesHandler` then frees the request
  object a second time (`assembly/index.ts:36`, `:79`). The same holds for
  the request string in `stringHandler` through `assembly/index.ts:54`,
  `:66`. `EchoBytes` and `EchoString` state it for every request, and
  `EchoThreeBytes` for a concrete call.
- `bytesHandler` frees the request's `ArrayBuffer` only when the handler
  returns an array with that buffer. Otherwise the buffer is never freed
  and stays allocated (`BytesCallKeepsRequestBuffer`).
- The string response is not UTF-8: each code unit becomes its low byte
  (`assembly/index.ts:50`). So a string round-trips exactly when all its
  code units are below 256 (`Wire.NarrowRoundTrip`).

## Model

| member | source | states |
|---|---|---|
| Wire.PrefixDigits | assembly/index.ts:24-27 | prefix byte `i`, computed as `(len >> i*8) as u8 & 0xFF`, is digit `i` of `len` in base 256 |
| Wire.PrefixRoundTrip | assembly/index.ts:22-27 | the four prefix bytes read back as a little-endian u32 give `len mod 2^32`, so they give `len` for every `usize` |
| Wire.FrameRoundTrip | assembly/index.ts:21-37 | a frame is `len + 4` bytes, the prefix then the payload; the host's reading of it, whatever memory follows, is exactly the payload |
| Wire.EmptyFrame | assembly/index.ts:21-37 | the frame of an empty payload is exactly `[0, 0, 0, 0]` |
| Wire.ThreeByteFrame | assembly/index.ts:21-37 | the frame of `[1, 2, 3]` is `[3, 0, 0, 0, 1, 2, 3]` |
| Wire.Narrow | assembly/index.ts:49-52 | one byte per code unit; byte `i` is `charCodeAt(i) mod 256` |
| Wire.NarrowRoundTrip | assembly/index.ts:48-52 | widening the narrowed bytes gives back the string if and only if every code unit is below 256 |
| Wire.EuroSignIsNarrowed | assembly/index.ts:50 | U+20AC is sent as the byte 0xAC and does not round-trip |
| Marshal.Runtime.Allocate | assembly/index.ts:23 | `memory.allocate(n)` returns a region of `n` bytes, inside memory, that overlaps no live region; no existing byte changes |
| Marshal.Runtime.Free | assembly/index.ts:35-36 | `memory.free(a)` appends `a` to the free trace and retires the region |
| Marshal.Runtime.ReadRequestBytes | assembly/index.ts:6-14 | an array of exactly `size` bytes whose element `i` is the byte at `ptr + i`; its buffer and object are fresh; no byte of memory changes and nothing is freed |
| Marshal.Runtime.ReadRequestString | assembly/index.ts:16-19 | the string the UTF-8 decoder gives for the bytes at `[ptr, ptr + size)`; the intermediate array and the string are fresh and stay allocated; nothing is freed |
| Marshal.Runtime.StorePrefix | assembly/index.ts:24-27 | the prefix loop stores exactly the four prefix bytes at `addr` and changes nothing else |
| Marshal.Runtime.StorePayload | assembly/index.ts:29-33 | the payload loop stores exactly the array's bytes from `addr + 4` on and changes nothing else |
| Marshal.Runtime.StoreNarrowed | assembly/index.ts:48-52 | the payload loop stores exactly the narrowed code units from `addr + 4` on and changes nothing else |
| Marshal.Runtime.WriteResponseBytes | assembly/index.ts:21-38 | returns the base of a fresh `len + 4`-byte allocation holding the frame of the array's contents, which the host reads back; only the frame's bytes change; the free trace grows by exactly the buffer and then the array object |
| Marshal.Runtime.WriteResponseString | assembly/index.ts:40-56 | as for bytes, with length the number of code units and payload the narrowed code units; the free trace grows by exactly the string |
| Marshal.HostReadsFrame | assembly/index.ts:21-37 | a frame in memory at `addr` reads back, from `addr` on, as its length and its payload |
| Marshal.EncodedResponse | assembly/index.ts:21-37 | storing a frame into memory that has only grown leaves a response the host reads back, with every byte outside the frame unchanged |
| Marshal.Runtime.FreePair | assembly/index.ts:35-36 | two frees in a row append both addresses to the free trace, in call order |
| Marshal.Runtime.BytesHandler | assembly/index.ts:71-82 | the request holds the bytes at `ptr`; the handler is called exactly once, on it; the returned address holds the frame of the handler's result, and only its bytes change; the response is a fresh `len + 4`-byte allocation apart from every region live before the call and from the request's buffer and object; the free trace grows by the result's buffer and object, then `ptr`, then the request object; the live map gains the request's buffer and object and the response, and loses the result's buffer and object, `ptr` and the request object; `ptr`, the request's buffer and its object are three different addresses, and the buffer and object are new allocations that overlap no region live before the call |
| Marshal.Runtime.StringHandler | assembly/index.ts:58-69 | the request is the decoded string; the handler is called exactly once, on it; the returned address holds the narrowed frame of its result, and only its bytes change; the response is a fresh allocation apart from every region live before the call, from the intermediate array and from the request string; the free trace grows by the result, `ptr`, then the request string; the live map gains the intermediate array's buffer and object, the request string and the response, and loses the result, `ptr` and the request string; `ptr`, the request string and the intermediate array are at different addresses; the intermediate array's buffer and object and the request string are new allocations that overlap no region live before the call |
| Marshal.BytesIdentityFreesTwice | assembly/index.ts:77-79 | on the free trace that `bytesHandler`'s contract gives for a handler that returns its argument, the request object occurs two more times than before |
| Marshal.BytesRequestBufferLeaks | assembly/index.ts:73-79 | on the free trace and live map that `bytesHandler`'s contract gives, a request buffer the result does not have is not freed and stays live |
| Marshal.StringIdentityFreesTwice | assembly/index.ts:64-66 | on the free trace that `stringHandler`'s contract gives for a handler that returns its argument, the request string occurs two more times than before |
| Marshal.StringScratchLeaks | assembly/index.ts:16-19 | on the free trace and live map that `stringHandler`'s contract gives, an address of the intermediate array that the result does not have is not freed and stays live |
| Marshal.EchoBytes | assembly/index.ts:71-82 | `bytesHandler` with a handler that returns its argument answers with the frame of the request's bytes, frees the request object two more times than before and leaves it not live; the response stays live; every region live before the call other than `ptr` stays live with its size |
| Marshal.BytesCallKeepsRequestBuffer | assembly/index.ts:71-82 | after `bytesHandler` with a handler whose result has other addresses than the request's buffer, that buffer is still live and was not freed |
| Marshal.EchoString | assembly/index.ts:58-69 | `stringHandler` with a handler that returns its argument answers with the narrowed frame of the decoded request, frees the request string two more times than before and leaves it not live; the response stays live; every region live before the call other than `ptr` stays live with its size |
| Marshal.StringCallKeepsScratch | assembly/index.ts:58-69 | after `stringHandler`, each address of the decoder's intermediate array that the handler's result does not have is still live and was not freed |
| Marshal.ResponseReadsBack | assembly/index.ts:6-14 | decoding the bytes after a response frame's prefix, for the length the prefix gives, yields the encoded array's contents |
| Marshal.EchoThreeBytes | assembly/index.ts:71-82 | `bytesHandler` with the identity handler on `[1, 2, 3]` returns the frame `[3, 0, 0, 0, 1, 2, 3]`; the third free is `ptr`; the request object is freed second and fourth, two more times than before; the response stays live |
| Logger.WriteAllShape | assembly/logger.ts:8-11 | the loop's writes are one per code unit, each carrying its low byte, with no flush among them |
| Logger.LogTraceShape | assembly/logger.ts:4-13 | `log(m)` sends `|m| + 1` writes, then exactly one flush; write `i` carries code unit `i` of `m + "\n"` modulo 256; the last write carries 10; the bytes written are the narrowed `m + "\n"` |
| Logger.Sink.Log | assembly/logger.ts:4-13 | `log(m)` appends exactly `LogTrace(m)` to the host's event trace |

## Left out

- `String.fromUTF8` (`assembly/index.ts:18`) is a runtime-library decoder. It is the parameter `fromUtf8` of `ReadRequestString` and `StringHandler`, an arbitrary total function from bytes to code units, so malformed UTF-8 is whatever that function returns.
- The allocator's algorithm is not modelled. `Allocate` states only the contract that the marshalling code relies on: a fresh region disjoint from the live ones, inside memory. Its body is a bump allocator that stands for any allocator with that contract. The model does not enforce the 4 GiB cap on memory growth.
- Managed objects are not laid out in linear memory. This covers a `Uint8Array` and its `ArrayBuffer`, a `string`, and their headers and zero-filled contents. Their addresses are allocated, but their contents are kept as values. So the model does not capture aliasing between an object's bytes and raw `load`/`store` accesses. The string object's allocation size (two bytes per code unit) stands in for the runtime's layout.
- Marshal.Runtime.WriteResponseBytes: requires `len + 4 < 2^32`. It does not model the `usize` wrap-around of `len + 4` in the allocation size for lengths of 2^32 − 4 or more. The same applies to `WriteResponseString`, `BytesHandler` and `StringHandler`.
- Marshal.Runtime.ReadRequestBytes: requires `ptr + size` to lie within memory. An out-of-bounds `load` traps, and a trap is not modelled. The adapters require in the same way that `ptr` is a live region of at least `size` bytes, which is how the host's calling convention places the request.
- The handler is a total function parameter. Its own allocations and frees, and a handler that traps or never returns, are not modelled. That the handler is called exactly once is recorded in the ghost `calls` trace.
- `Free` records every address, including addresses that are not live. A double free is undefined behaviour of the allocator, and the model only records it. The host's freeing of the response frame lies outside the guest and is not modelled.
- The `messageStr` string that `log` builds is neither allocated nor freed in the model. `write` and `flush` are host imports (`assembly/logger.ts:1-2`), modelled as the events they record.
- No logged string adapter appears in `assembly/index.ts` or `assembly/logger.ts`, so the model has none.
- Concurrency is not modelled: the guest is single-threaded and runs one call at a time.
