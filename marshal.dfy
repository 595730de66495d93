/** The guest side of the calling convention (assembly/index.ts): decoding a
    request that the host placed in linear memory, encoding a response frame
    into a fresh allocation, and the two adapters that run an injected
    handler between the two. Linear memory, the allocator and the sequence
    of `memory.free` calls are the state of one `Runtime` object. */
module Marshal {
  import opened Wire

  /** A `Uint8Array`: the address of the array object, the address of its
      backing `ArrayBuffer`, and its contents. */
  datatype Bytes = Bytes(obj: nat, buffer: nat, data: seq<u8>)

  /** An AssemblyScript `string`: its address and its UTF-16 code units. */
  datatype Str = Str(obj: nat, units: seq<u16>)

  /** One invocation of an injected handler, with its argument and result. */
  datatype Call = BytesCall(request: Bytes, response: Bytes) | StringCall(sRequest: Str, sResponse: Str)

  /** Every allocation occupies at least one byte, so that two live
      allocations never share an address. */
  function Extent(n: nat): nat
  {
    if n == 0 then 1 else n
  }

  /** The regions `[a, a + n)` and `[b, b + m)` do not overlap. */
  predicate Apart(a: nat, n: nat, b: nat, m: nat)
  {
    a + Extent(n) <= b || b + Extent(m) <= a
  }

  /** The allocator may hand out `[a, a + n)` while `live` is allocated: the
      address is not in use and the region overlaps no live one. */
  predicate Unclaimed(live: map<nat, nat>, a: nat, n: nat)
  {
    a !in live && forall b :: b in live ==> Apart(a, n, b, live[b])
  }

  function Zeros(k: nat): (z: seq<u8>)
    ensures |z| == k && forall i :: 0 <= i < k ==> z[i] == 0
  {
    seq(k, _ => 0)
  }

  /** Memory `m` after storing `bytes` from address `a` on. */
  function Overwrite(m: seq<u8>, a: nat, bytes: seq<u8>): (r: seq<u8>)
    requires a + |bytes| <= |m|
    ensures |r| == |m| && r[a..a + |bytes|] == bytes
    ensures forall j :: 0 <= j < |m| && !(a <= j < a + |bytes|) ==> r[j] == m[j]
  {
    m[..a] + bytes + m[a + |bytes|..]
  }

  /** Storing one more byte after those already stored. */
  lemma OverwriteStep(m: seq<u8>, a: nat, bytes: seq<u8>, b: u8)
    requires a + |bytes| < |m|
    ensures Overwrite(m, a, bytes)[a + |bytes| := b] == Overwrite(m, a, bytes + [b])
  {
    var r := Overwrite(m, a, bytes)[a + |bytes| := b];
    var r' := Overwrite(m, a, bytes + [b]);
    assert |r| == |r'|;
    forall j | 0 <= j < |r| ensures r[j] == r'[j] {
      if a <= j < a + |bytes| {
        assert r[j] == Overwrite(m, a, bytes)[a..a + |bytes|][j - a];
        assert r'[j] == r'[a..a + |bytes| + 1][j - a];
      } else if j == a + |bytes| {
        assert r'[j] == r'[a..a + |bytes| + 1][j - a];
      }
    }
  }

  /** Storing `p` at `a` and then `q` right after it stores `p + q`. */
  lemma OverwriteThen(m: seq<u8>, a: nat, p: seq<u8>, q: seq<u8>)
    requires a + |p| + |q| <= |m|
    ensures Overwrite(Overwrite(m, a, p), a + |p|, q) == Overwrite(m, a, p + q)
  {
    var r := Overwrite(Overwrite(m, a, p), a + |p|, q);
    var r' := Overwrite(m, a, p + q);
    forall j | 0 <= j < |m| ensures r[j] == r'[j] {
      if a <= j < a + |p| {
        assert r[j] == Overwrite(m, a, p)[a..a + |p|][j - a];
        assert r'[j] == r'[a..a + |p| + |q|][j - a];
      } else if a + |p| <= j < a + |p| + |q| {
        assert r[j] == r[a + |p|..a + |p| + |q|][j - a - |p|];
        assert r'[j] == r'[a..a + |p| + |q|][j - a];
      }
    }
  }

  /** `m1` holds every byte of `m0` except those in `[a, a + n)`, and may be longer. */
  ghost predicate SameOutside(m0: seq<u8>, m1: seq<u8>, a: nat, n: nat)
  {
    |m0| <= |m1| && forall j :: 0 <= j < |m0| && !(a <= j < a + n) ==> m1[j] == m0[j]
  }

  lemma GrowThenStore(m0: seq<u8>, m1: seq<u8>, m2: seq<u8>, a: nat, n: nat)
    requires m0 <= m1 && SameOutside(m1, m2, a, n)
    ensures SameOutside(m0, m2, a, n)
  {
    forall j | 0 <= j < |m0| && !(a <= j < a + n) ensures m2[j] == m0[j] {
      assert m1[j] == m0[j];
    }
  }

  /** After an encoder ran on memory `m0`, memory `m` holds the frame of
      `payload` at `addr`, the host reads back its length and exactly
      `payload` from there, and no byte outside the frame differs from `m0`. */
  ghost predicate Responded(m0: seq<u8>, m: seq<u8>, addr: nat, payload: seq<u8>)
  {
    && addr + |payload| + 4 <= |m| && m[addr..addr + |payload| + 4] == Frame(payload)
    && ReadU32LE(m[addr..]) == |payload|
    && ParseFrame(m[addr..]) == Some(payload)
    && SameOutside(m0, m, addr, |payload| + 4)
  }

  /** A frame written into memory that had only grown since `m0` leaves
      every byte of `m0` outside the frame as it was. */
  lemma RespondedAfterGrowth(m0: seq<u8>, m1: seq<u8>, m: seq<u8>, addr: nat, payload: seq<u8>)
    requires m0 <= m1 && Responded(m1, m, addr, payload)
    ensures Responded(m0, m, addr, payload)
  {
    GrowThenStore(m0, m1, m, addr, |payload| + 4);
  }

  /** A frame of `payload` at `addr` in memory `m` reads back, from `addr`
      on, as its length and then `payload`. */
  lemma HostReadsFrame(m: seq<u8>, addr: nat, payload: seq<u8>)
    requires |payload| < USIZE_LIMIT
    requires addr + |payload| + 4 <= |m| && m[addr..addr + |payload| + 4] == Frame(payload)
    ensures ReadU32LE(m[addr..]) == |payload|
    ensures ParseFrame(m[addr..]) == Some(payload)
  {
    var rest := m[addr + |payload| + 4..];
    assert m[addr..] == Frame(payload) + rest;
    FrameRoundTrip(payload, rest);
    assert m[addr..][..4] == Frame(payload)[..4];
  }

  /** Storing the frame of `payload` at `addr` in memory `m0`, which had
      only grown since `m00`, is a response at `addr`. */
  lemma EncodedResponse(m00: seq<u8>, m0: seq<u8>, addr: nat, payload: seq<u8>)
    requires m00 <= m0 && addr + |payload| + 4 <= |m0| && |payload| < USIZE_LIMIT
    ensures Responded(m00, Overwrite(m0, addr, Frame(payload)), addr, payload)
  {
    var m := Overwrite(m0, addr, Frame(payload));
    HostReadsFrame(m, addr, payload);
    GrowThenStore(m00, m0, m, addr, |payload| + 4);
  }

  /** The free trace `bytesHandler` leaves when its handler returns the
      request itself: `writeResponseBytes` frees the request's buffer and
      object, then the adapter frees `ptr` and the request object again.
      The request object is freed twice. */
  lemma BytesIdentityFreesTwice(f0: seq<nat>, request: Bytes, ptr: nat)
    requires ptr != request.obj && request.buffer != request.obj
    ensures multiset(f0 + [request.buffer, request.obj] + [ptr, request.obj])[request.obj]
              == multiset(f0)[request.obj] + 2
  {
  }

  /** When the handler's result has neither the request's buffer as its
      buffer nor as its object, `bytesHandler` never frees that buffer, which
      stays allocated in the live map the adapter leaves. */
  lemma BytesRequestBufferLeaks(f0: seq<nat>, live0: map<nat, nat>, request: Bytes, size: nat,
                                response: Bytes, addr: nat, ptr: nat)
    requires ptr != request.buffer && request.obj != request.buffer
    requires response.buffer != request.buffer && response.obj != request.buffer
    ensures multiset(f0 + [response.buffer, response.obj] + [ptr, request.obj])[request.buffer]
              == multiset(f0)[request.buffer]
    ensures request.buffer in live0[request.buffer := size][request.obj := 0][addr := |response.data| + 4]
              - {response.buffer} - {response.obj} - {ptr} - {request.obj}
  {
  }

  /** The free trace `stringHandler` leaves when its handler returns the
      request itself: the request string is freed by `writeResponseString`
      and again by the adapter. */
  lemma StringIdentityFreesTwice(f0: seq<nat>, request: Str, ptr: nat)
    requires ptr != request.obj
    ensures multiset(f0 + [request.obj] + [ptr, request.obj])[request.obj] == multiset(f0)[request.obj] + 2
  {
  }

  /** `stringHandler` frees neither the object nor the buffer of the
      decoder's intermediate array, unless the handler's result has that
      address. */
  lemma StringScratchLeaks(f0: seq<nat>, live0: map<nat, nat>, request: Str, response: Str, scratch: Bytes,
                           size: nat, addr: nat, ptr: nat)
    requires ptr != scratch.obj && ptr != scratch.buffer
    requires request.obj != scratch.obj && request.obj != scratch.buffer
    ensures response.obj != scratch.obj ==>
              multiset(f0 + [response.obj] + [ptr, request.obj])[scratch.obj] == multiset(f0)[scratch.obj]
    ensures response.obj != scratch.buffer ==>
              multiset(f0 + [response.obj] + [ptr, request.obj])[scratch.buffer] == multiset(f0)[scratch.buffer]
    ensures response.obj != scratch.obj ==>
              scratch.obj in live0[scratch.buffer := size][scratch.obj := 0][request.obj := 2 * |request.units|]
                [addr := |response.units| + 4] - {response.obj} - {ptr} - {request.obj}
    ensures response.obj != scratch.buffer ==>
              scratch.buffer in live0[scratch.buffer := size][scratch.obj := 0][request.obj := 2 * |request.units|]
                [addr := |response.units| + 4] - {response.obj} - {ptr} - {request.obj}
  {
  }

  /** A region apart from everything live after `k` was allocated is apart
      from everything live before. */
  lemma UnclaimedBefore(live: map<nat, nat>, k: nat, v: nat, a: nat, n: nat)
    requires k !in live && Unclaimed(live[k := v], a, n)
    ensures Unclaimed(live, a, n)
  {
    forall b | b in live ensures Apart(a, n, b, live[b]) {
      assert live[k := v][b] == live[b];
    }
  }

  /** The response the handler gives for a request with contents `data`
      fits the encoder's `len + 4`, a `usize`, whatever addresses the
      request object has. */
  ghost predicate BytesResponseFits(handler: Bytes -> Bytes, data: seq<u8>)
  {
    forall obj: nat, buffer: nat :: |handler(Bytes(obj, buffer, data)).data| + 4 < USIZE_LIMIT
  }

  ghost predicate StringResponseFits(handler: Str -> Str, units: seq<u16>)
  {
    forall obj: nat :: |handler(Str(obj, units)).units| + 4 < USIZE_LIMIT
  }

  class Runtime {
    /** Linear memory, byte by byte. */
    var mem: seq<u8>
    /** The live allocations: base address to requested size. */
    var live: map<nat, nat>
    /** Every address passed to `memory.free`, in call order. */
    var frees: seq<nat>
    /** Every handler invocation, in call order. */
    ghost var calls: seq<Call>
    /** The stand-in allocator's bump pointer: nothing at or above it is
        allocated. */
    var top: nat

    ghost predicate Valid()
      reads this
    {
      top <= |mem| && forall b :: b in live ==> b + Extent(live[b]) <= top
    }

    /** A guest whose memory holds `initial` and who has allocated nothing. */
    constructor (initial: seq<u8>)
      ensures Valid()
      ensures mem == initial && live == map[] && frees == [] && calls == []
    {
      mem := initial;
      live := map[];
      frees := [];
      calls := [];
      top := 0;
    }

    /** `memory.allocate(n)`: a fresh region of `n` bytes, apart from every
        live one, inside memory, which the allocator may grow. The body is
        a bump allocator standing for any allocator with this contract. */
    method Allocate(n: nat) returns (a: nat)
      requires Valid()
      modifies this`mem, this`live, this`top
      ensures Valid()
      ensures Unclaimed(old(live), a, n) && a + n <= |mem|
      ensures live == old(live)[a := n]
      ensures old(mem) <= mem
    {
      a := top;
      if |mem| < top + Extent(n) {
        mem := mem + Zeros(top + Extent(n) - |mem|);
      }
      live := live[a := n];
      top := top + Extent(n);
    }

    /** `memory.free(a)`: the address joins the free trace. Freeing an
        address that is not live, a double free among them, is undefined
        behaviour of the allocator; the model only records it. */
    method Free(a: nat)
      requires Valid()
      modifies this`frees, this`live
      ensures Valid()
      ensures frees == old(frees) + [a] && live == old(live) - {a}
    {
      frees := frees + [a];
      live := live - {a};
    }

    /** Two `memory.free` calls in a row, `a` first: how `writeResponseBytes`
        releases its array and how both adapters release their request. */
    method FreePair(a: nat, b: nat)
      requires Valid()
      modifies this`frees, this`live
      ensures Valid()
      ensures frees == old(frees) + [a, b] && live == old(live) - {a} - {b}
    {
      Free(a);
      Free(b);
    }

    /** `readRequestBytes(ptr, size)`: a new `Uint8Array` whose element `i`
        is the byte at `ptr + i`. It loads only: no byte of memory changes
        and nothing is freed, the source region included. */
    method ReadRequestBytes(ptr: nat, size: nat) returns (bb: Bytes)
      requires Valid()
      requires ptr + size <= |mem|
      modifies this`mem, this`live, this`top
      ensures Valid()
      ensures |bb.data| == size && bb.data == old(mem[ptr..ptr + size])
      ensures Unclaimed(old(live), bb.buffer, size)
      ensures Unclaimed(old(live)[bb.buffer := size], bb.obj, 0)
      ensures live == old(live)[bb.buffer := size][bb.obj := 0]
      ensures old(mem) <= mem
    {
      // new Uint8Array(size): its backing buffer and the array object
      var buffer := Allocate(size);
      var obj := Allocate(0);
      ghost var m0 := mem;
      var data := Zeros(size);
      for i := 0 to size
        invariant |data| == size
        invariant forall j :: 0 <= j < i ==> data[j] == mem[ptr + j]
      {
        data := data[i := mem[ptr + i]];
      }
      assert data == m0[ptr..ptr + size];
      assert m0[ptr..ptr + size] == old(mem)[ptr..ptr + size] by {
        assert old(mem) <= m0;
      }
      bb := Bytes(obj, buffer, data);
    }

    /** `readRequestString(ptr, size)`: the request bytes, decoded by the
        runtime's `String.fromUTF8` (the parameter `fromUtf8`) into a new
        string. Neither the source region nor the intermediate `Uint8Array`
        `bb` is freed: both stay live. */
    method ReadRequestString(ptr: nat, size: nat, fromUtf8: seq<u8> -> seq<u16>)
      returns (s: Str, ghost bb: Bytes)
      requires Valid()
      requires ptr + size <= |mem|
      modifies this`mem, this`live, this`top
      ensures Valid()
      ensures bb.data == old(mem[ptr..ptr + size]) && s.units == fromUtf8(bb.data)
      ensures Unclaimed(old(live), bb.buffer, size)
      ensures Unclaimed(old(live)[bb.buffer := size], bb.obj, 0)
      ensures Unclaimed(old(live)[bb.buffer := size][bb.obj := 0], s.obj, 2 * |s.units|)
      ensures live == old(live)[bb.buffer := size][bb.obj := 0][s.obj := 2 * |s.units|]
      ensures old(mem) <= mem
    {
      var bytes := ReadRequestBytes(ptr, size);
      bb := bytes;
      var units := fromUtf8(bytes.data);
      // the new string holds two bytes per code unit
      var obj := Allocate(2 * |units|);
      s := Str(obj, units);
    }

    /** The prefix loop of both encoders: for `i` in 0..4, store
        `(len >> i * 8) as u8 & 0xFF` at `addr + i`. */
    method StorePrefix(addr: nat, len: nat)
      requires addr + 4 <= |mem|
      modifies this`mem
      ensures mem == Overwrite(old(mem), addr, Prefix(len))
    {
      ghost var prefix := Prefix(len);
      for i := 0 to 4
        invariant mem == Overwrite(old(mem), addr, prefix[..i])
      {
        var b := PrefixByte(len, i);
        assert prefix[..i + 1] == prefix[..i] + [b];
        OverwriteStep(old(mem), addr, prefix[..i], b);
        mem := mem[addr + i := b];
      }
      assert prefix[..4] == prefix;
    }

    /** The payload loop of `writeResponseBytes`: store byte `i` of
        `payload` at `responseAddr + i`. */
    method StorePayload(responseAddr: nat, payload: seq<u8>)
      requires responseAddr + |payload| <= |mem|
      modifies this`mem
      ensures mem == Overwrite(old(mem), responseAddr, payload)
    {
      for i := 0 to |payload|
        invariant mem == Overwrite(old(mem), responseAddr, payload[..i])
      {
        var b := payload[i];
        assert payload[..i + 1] == payload[..i] + [b];
        OverwriteStep(old(mem), responseAddr, payload[..i], b);
        mem := mem[responseAddr + i := b];
      }
      assert payload[..|payload|] == payload;
    }

    /** The payload loop of `writeResponseString`: store
        `charCodeAt(i) as u8` at `strAddr + i`. */
    method StoreNarrowed(strAddr: nat, units: seq<u16>)
      requires strAddr + |units| <= |mem|
      modifies this`mem
      ensures mem == Overwrite(old(mem), strAddr, Narrow(units))
    {
      ghost var payload := Narrow(units);
      for i := 0 to |units|
        invariant mem == Overwrite(old(mem), strAddr, payload[..i])
      {
        var b := AsU8(units[i] as int);
        assert payload[..i + 1] == payload[..i] + [b];
        OverwriteStep(old(mem), strAddr, payload[..i], b);
        mem := mem[strAddr + i := b];
      }
      assert payload[..|units|] == payload;
    }

    /** `writeResponseBytes(bb)`: a fresh allocation of `len + 4` bytes
        holding the frame of `bb`'s contents, from which the host reads
        back exactly those contents. Only the frame's bytes change. The
        array's buffer and then the array object are freed, and the base
        of the allocation is returned. */
    method WriteResponseBytes(bb: Bytes) returns (addr: nat)
      requires Valid()
      requires |bb.data| + 4 < USIZE_LIMIT
      modifies this`mem, this`live, this`top, this`frees
      ensures Valid()
      ensures Unclaimed(old(live), addr, |bb.data| + 4)
      ensures live == old(live)[addr := |bb.data| + 4] - {bb.buffer} - {bb.obj}
      ensures Responded(old(mem), mem, addr, bb.data)
      ensures frees == old(frees) + [bb.buffer, bb.obj]
    {
      var len := |bb.data|;
      addr := Allocate(len + 4);
      ghost var m0 := mem;
      StorePrefix(addr, len);
      var responseAddr := addr + 4;
      StorePayload(responseAddr, bb.data);
      OverwriteThen(m0, addr, Prefix(len), bb.data);
      EncodedResponse(old(mem), m0, addr, bb.data);
      FreePair(bb.buffer, bb.obj);
    }

    /** `writeResponseString(response)`: as for bytes, with the frame's
        length the number of code units and payload byte `i` the low byte of
        code unit `i`. Only the string object is freed. */
    method WriteResponseString(response: Str) returns (addr: nat)
      requires Valid()
      requires |response.units| + 4 < USIZE_LIMIT
      modifies this`mem, this`live, this`top, this`frees
      ensures Valid()
      ensures Unclaimed(old(live), addr, |response.units| + 4)
      ensures live == old(live)[addr := |response.units| + 4] - {response.obj}
      ensures Responded(old(mem), mem, addr, Narrow(response.units))
      ensures frees == old(frees) + [response.obj]
    {
      var strLen := |response.units|;
      addr := Allocate(strLen + 4);
      ghost var m0 := mem;
      StorePrefix(addr, strLen);
      var strAddr := addr + 4;
      StoreNarrowed(strAddr, response.units);
      ghost var payload := Narrow(response.units);
      OverwriteThen(m0, addr, Prefix(strLen), payload);
      EncodedResponse(old(mem), m0, addr, payload);
      Free(response.obj);
    }

    /** `bytesHandler(ptr, size, handler)`: decode the request at `ptr`,
        call the handler once on it, encode its response and return the
        frame's address; then free `ptr` and the request object. The free
        trace grows by the response's buffer and object, `ptr`, and the
        request object, in that order: a handler that returns its argument
        makes the request object freed twice, and a handler that returns a
        new array leaves the request's buffer allocated. */
    method BytesHandler(ptr: nat, size: nat, handler: Bytes -> Bytes)
      returns (responseAddr: nat, ghost request: Bytes)
      requires Valid()
      requires ptr in live && size <= live[ptr]
      requires BytesResponseFits(handler, mem[ptr..ptr + size])
      modifies this
      ensures Valid()
      ensures request.data == old(mem[ptr..ptr + size])
      ensures calls == old(calls) + [BytesCall(request, handler(request))]
      ensures Responded(old(mem), mem, responseAddr, handler(request).data)
      ensures frees == old(frees) + [handler(request).buffer, handler(request).obj] + [ptr, request.obj]
      ensures ptr != request.buffer && ptr != request.obj && request.buffer != request.obj
      ensures Unclaimed(old(live), request.buffer, size)
      ensures Unclaimed(old(live)[request.buffer := size], request.obj, 0)
      ensures Unclaimed(old(live), responseAddr, |handler(request).data| + 4)
      ensures Unclaimed(old(live)[request.buffer := size][request.obj := 0], responseAddr, |handler(request).data| + 4)
      ensures live == old(live)[request.buffer := size][request.obj := 0][responseAddr := |handler(request).data| + 4]
                - {handler(request).buffer} - {handler(request).obj} - {ptr} - {request.obj}
    {
      var bytesRequest := ReadRequestBytes(ptr, size);
      request := bytesRequest;
      ghost var m1 := mem;
      assert ptr != bytesRequest.obj && ptr != bytesRequest.buffer && bytesRequest.obj != bytesRequest.buffer;
      var result := handler(bytesRequest);
      calls := calls + [BytesCall(bytesRequest, result)];
      responseAddr := WriteResponseBytes(result);
      UnclaimedBefore(old(live)[bytesRequest.buffer := size], bytesRequest.obj, 0, responseAddr, |result.data| + 4);
      UnclaimedBefore(old(live), bytesRequest.buffer, size, responseAddr, |result.data| + 4);
      FreePair(ptr, bytesRequest.obj);
      RespondedAfterGrowth(old(mem), m1, mem, responseAddr, result.data);
    }

    /** `stringHandler(ptr, size, handler)`: as `bytesHandler`, decoding the
        request with `fromUtf8` and encoding the response by narrowing each
        code unit to a byte. The free trace grows by the response string,
        `ptr` and the request string; the intermediate array `scratch` of
        the decoder is never freed, and a handler that returns its argument
        makes the request string freed twice. */
    method StringHandler(ptr: nat, size: nat, handler: Str -> Str, fromUtf8: seq<u8> -> seq<u16>)
      returns (responseAddr: nat, ghost request: Str, ghost scratch: Bytes)
      requires Valid()
      requires ptr in live && size <= live[ptr]
      requires StringResponseFits(handler, fromUtf8(mem[ptr..ptr + size]))
      modifies this
      ensures Valid()
      ensures scratch.data == old(mem[ptr..ptr + size]) && request.units == fromUtf8(scratch.data)
      ensures calls == old(calls) + [StringCall(request, handler(request))]
      ensures Responded(old(mem), mem, responseAddr, Narrow(handler(request).units))
      ensures frees == old(frees) + [handler(request).obj] + [ptr, request.obj]
      ensures ptr != request.obj && ptr != scratch.obj && ptr != scratch.buffer
      ensures request.obj != scratch.obj && request.obj != scratch.buffer
      ensures Unclaimed(old(live), scratch.buffer, size)
      ensures Unclaimed(old(live)[scratch.buffer := size], scratch.obj, 0)
      ensures Unclaimed(old(live)[scratch.buffer := size][scratch.obj := 0], request.obj, 2 * |request.units|)
      ensures Unclaimed(old(live), responseAddr, |handler(request).units| + 4)
      ensures Unclaimed(old(live)[scratch.buffer := size][scratch.obj := 0][request.obj := 2 * |request.units|],
                        responseAddr, |handler(request).units| + 4)
      ensures live == old(live)[scratch.buffer := size][scratch.obj := 0][request.obj := 2 * |request.units|]
                [responseAddr := |handler(request).units| + 4] - {handler(request).obj} - {ptr} - {request.obj}
    {
      var strRequest;
      strRequest, scratch := ReadRequestString(ptr, size, fromUtf8);
      request := strRequest;
      ghost var m1 := mem;
      assert ptr != strRequest.obj && ptr != scratch.obj && ptr != scratch.buffer;
      var result := handler(strRequest);
      calls := calls + [StringCall(strRequest, result)];
      responseAddr := WriteResponseString(result);
      ghost var n := |result.units| + 4;
      UnclaimedBefore(old(live)[scratch.buffer := size][scratch.obj := 0], strRequest.obj, 2 * |strRequest.units|, responseAddr, n);
      UnclaimedBefore(old(live)[scratch.buffer := size], scratch.obj, 0, responseAddr, n);
      UnclaimedBefore(old(live), scratch.buffer, size, responseAddr, n);
      FreePair(ptr, strRequest.obj);
      RespondedAfterGrowth(old(mem), m1, mem, responseAddr, Narrow(result.units));
    }
  }

  /** `bytesHandler` with a handler that returns its argument: the frame
      echoes the request, and the request object is freed twice. */
  method EchoBytes(rt: Runtime, ptr: nat, size: nat) returns (responseAddr: nat, ghost request: Bytes)
    requires rt.Valid()
    requires ptr in rt.live && size <= rt.live[ptr] && size + 4 < USIZE_LIMIT
    modifies rt
    ensures rt.Valid()
    ensures request.data == old(rt.mem[ptr..ptr + size])
    ensures Responded(old(rt.mem), rt.mem, responseAddr, request.data)
    ensures multiset(rt.frees)[request.obj] == multiset(old(rt.frees))[request.obj] + 2
    ensures request.obj !in rt.live
    ensures responseAddr in rt.live
    ensures forall q :: q in old(rt.live) && q != ptr ==> q in rt.live && rt.live[q] == old(rt.live)[q]
  {
    responseAddr, request := rt.BytesHandler(ptr, size, b => b);
    BytesIdentityFreesTwice(old(rt.frees), request, ptr);
  }

  /** `bytesHandler` with a handler whose result has other addresses than
      the request's buffer: that buffer is never freed and stays allocated. */
  method BytesCallKeepsRequestBuffer(rt: Runtime, ptr: nat, size: nat, handler: Bytes -> Bytes)
    returns (responseAddr: nat, ghost request: Bytes)
    requires rt.Valid()
    requires ptr in rt.live && size <= rt.live[ptr]
    requires BytesResponseFits(handler, rt.mem[ptr..ptr + size])
    modifies rt
    ensures rt.Valid()
    ensures handler(request).buffer != request.buffer && handler(request).obj != request.buffer ==>
              request.buffer in rt.live && multiset(rt.frees)[request.buffer] == multiset(old(rt.frees))[request.buffer]
  {
    responseAddr, request := rt.BytesHandler(ptr, size, handler);
    if handler(request).buffer != request.buffer && handler(request).obj != request.buffer {
      BytesRequestBufferLeaks(old(rt.frees), old(rt.live), request, size, handler(request), responseAddr, ptr);
    }
  }

  /** `stringHandler` with a handler that returns its argument: the frame
      holds the narrowed request, and the request string is freed twice. */
  method EchoString(rt: Runtime, ptr: nat, size: nat, fromUtf8: seq<u8> -> seq<u16>)
    returns (responseAddr: nat, ghost request: Str)
    requires rt.Valid()
    requires ptr in rt.live && size <= rt.live[ptr] && |fromUtf8(rt.mem[ptr..ptr + size])| + 4 < USIZE_LIMIT
    modifies rt
    ensures rt.Valid()
    ensures request.units == fromUtf8(old(rt.mem[ptr..ptr + size]))
    ensures Responded(old(rt.mem), rt.mem, responseAddr, Narrow(request.units))
    ensures multiset(rt.frees)[request.obj] == multiset(old(rt.frees))[request.obj] + 2
    ensures request.obj !in rt.live
    ensures responseAddr in rt.live
    ensures forall q :: q in old(rt.live) && q != ptr ==> q in rt.live && rt.live[q] == old(rt.live)[q]
  {
    ghost var scratch;
    responseAddr, request, scratch := rt.StringHandler(ptr, size, s => s, fromUtf8);
    StringIdentityFreesTwice(old(rt.frees), request, ptr);
  }

  /** `stringHandler` never frees the decoder's intermediate array, nor its
      buffer, unless the handler's result has that address: both stay
      allocated. */
  method StringCallKeepsScratch(rt: Runtime, ptr: nat, size: nat, handler: Str -> Str, fromUtf8: seq<u8> -> seq<u16>)
    returns (responseAddr: nat, ghost request: Str, ghost scratch: Bytes)
    requires rt.Valid()
    requires ptr in rt.live && size <= rt.live[ptr]
    requires StringResponseFits(handler, fromUtf8(rt.mem[ptr..ptr + size]))
    modifies rt
    ensures rt.Valid()
    ensures handler(request).obj != scratch.obj ==>
              scratch.obj in rt.live && multiset(rt.frees)[scratch.obj] == multiset(old(rt.frees))[scratch.obj]
    ensures handler(request).obj != scratch.buffer ==>
              scratch.buffer in rt.live && multiset(rt.frees)[scratch.buffer] == multiset(old(rt.frees))[scratch.buffer]
  {
    responseAddr, request, scratch := rt.StringHandler(ptr, size, handler, fromUtf8);
    StringScratchLeaks(old(rt.frees), old(rt.live), request, handler(request), scratch, size, responseAddr, ptr);
  }

  /** Decoding a response frame as a request, from just after its prefix and
      for the length the prefix gives, yields the encoded array's contents. */
  method ResponseReadsBack(rt: Runtime, bb: Bytes) returns (back: Bytes)
    requires rt.Valid()
    requires |bb.data| + 4 < USIZE_LIMIT
    modifies rt
    ensures back.data == bb.data
  {
    var addr := rt.WriteResponseBytes(bb);
    ghost var framed := rt.mem;
    var len := ReadU32LE(rt.mem[addr..]);
    assert framed[addr + 4..addr + 4 + len] == Frame(bb.data)[4..] by {
      assert framed[addr + 4..addr + 4 + len] == framed[addr..addr + len + 4][4..];
    }
    back := rt.ReadRequestBytes(addr + 4, len);
  }

  /** The host's view of one echo call: it placed `[1, 2, 3]` at `ptr`, and
      `bytesHandler` with the identity handler returns the frame
      `[3, 0, 0, 0, 1, 2, 3]` and frees the request object twice. */
  method EchoThreeBytes(rt: Runtime, ptr: nat) returns (responseAddr: nat)
    requires rt.Valid()
    requires ptr in rt.live && 3 <= rt.live[ptr] && rt.mem[ptr..ptr + 3] == [1, 2, 3]
    modifies rt
    ensures rt.Valid()
    ensures responseAddr + 7 <= |rt.mem| && rt.mem[responseAddr..responseAddr + 7] == [3, 0, 0, 0, 1, 2, 3]
    ensures |rt.frees| == |old(rt.frees)| + 4 && rt.frees[|old(rt.frees)| + 2] == ptr
    ensures rt.frees[|old(rt.frees)| + 1] == rt.frees[|old(rt.frees)| + 3]
    ensures multiset(rt.frees)[rt.frees[|old(rt.frees)| + 1]] == multiset(old(rt.frees))[rt.frees[|old(rt.frees)| + 1]] + 2
    ensures responseAddr in rt.live
  {
    ghost var request;
    responseAddr, request := rt.BytesHandler(ptr, 3, b => b);
    ThreeByteFrame();
    BytesIdentityFreesTwice(old(rt.frees), request, ptr);
  }
}
