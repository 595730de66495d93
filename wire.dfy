/** Byte-level building blocks of the guest/host calling convention: the
    AssemblyScript integer types the marshalling code uses, the response
    frame (a 4-byte little-endian length followed by the payload), the way
    the host reads such a frame back, and the narrowing of UTF-16 code units
    to single bytes. */
module Wire {

  /** An AssemblyScript `u8`. */
  newtype u8 = x: int | 0 <= x < 0x100

  /** A UTF-16 code unit, what `String.charCodeAt` returns. */
  newtype u16 = x: int | 0 <= x < 0x1_0000

  /** 2^32: a wasm32 `usize` holds exactly the values below it. */
  const USIZE_LIMIT: int := 0x1_0000_0000

  datatype Option<T> = None | Some(value: T)

  function Pow2(k: nat): (r: nat)
    ensures r >= 1
  {
    if k == 0 then 1 else 2 * Pow2(k - 1)
  }

  lemma {:induction false} Pow2Add(a: nat, b: nat)
    ensures Pow2(a + b) == Pow2(a) * Pow2(b)
  {
    if a > 0 {
      Pow2Add(a - 1, b);
    }
  }

  lemma Pow2Bytes()
    ensures Pow2(0) == 1 && Pow2(8) == 0x100 && Pow2(16) == 0x1_0000 && Pow2(24) == 0x100_0000
  {
    assert Pow2(2) == 4;
    Pow2Add(2, 2);
    Pow2Add(4, 4);
    Pow2Add(8, 8);
    Pow2Add(16, 8);
  }

  /** `x >> k` on an unsigned operand. */
  function Shr(x: nat, k: nat): int
  {
    x / Pow2(k)
  }

  /** `x as u8`: keeps the low eight bits. */
  function AsU8(x: int): u8
  {
    (x % 0x100) as u8
  }

  /** Byte `i` of the length prefix exactly as the encoder computes it,
      `(len >> i * 8) as u8 & 0xFF`; the mask is the identity on a `u8`. */
  function PrefixByte(len: nat, i: nat): u8
  {
    AsU8(Shr(len, i * 8))
  }

  /** The four prefix bytes, lowest address first. */
  function Prefix(len: nat): (p: seq<u8>)
    ensures |p| == 4
  {
    [PrefixByte(len, 0), PrefixByte(len, 1), PrefixByte(len, 2), PrefixByte(len, 3)]
  }

  /** The host's reading of the first four bytes as a little-endian u32. */
  function ReadU32LE(b: seq<u8>): nat
    requires |b| >= 4
  {
    (b[0] as nat) + 0x100 * (b[1] as nat) + 0x1_0000 * (b[2] as nat) + 0x100_0000 * (b[3] as nat)
  }

  /** Byte `i` of the prefix is byte `i` of `len` in base 256. */
  lemma PrefixDigits(len: nat)
    ensures Prefix(len)[0] as int == len % 0x100
    ensures Prefix(len)[1] as int == (len / 0x100) % 0x100
    ensures Prefix(len)[2] as int == (len / 0x1_0000) % 0x100
    ensures Prefix(len)[3] as int == (len / 0x100_0000) % 0x100
  {
    Pow2Bytes();
  }

  /** Four base-256 digits put back together give the number modulo 2^32. */
  lemma Base256Digits(x: nat, d0: int, d1: int, d2: int, d3: int)
    requires d0 == x % 0x100 && d1 == (x / 0x100) % 0x100
    requires d2 == (x / 0x1_0000) % 0x100 && d3 == (x / 0x100_0000) % 0x100
    ensures d0 + 0x100 * d1 + 0x1_0000 * d2 + 0x100_0000 * d3 == x % USIZE_LIMIT
  {
    var x1 := x / 0x100;
    var x2 := x1 / 0x100;
    var x3 := x2 / 0x100;
    assert x / 0x1_0000 == x2;
    assert x / 0x100_0000 == x3;
    assert x == 0x100 * x1 + d0;
    assert x1 == 0x100 * x2 + d1;
    assert x2 == 0x100 * x3 + d2;
    assert x3 == 0x100 * (x3 / 0x100) + d3;
    assert x / USIZE_LIMIT == x3 / 0x100;
  }

  /** Read back as a little-endian u32 the prefix gives `len` modulo 2^32,
      hence `len` itself for every `usize`. */
  lemma {:induction false} PrefixRoundTrip(len: nat)
    ensures ReadU32LE(Prefix(len)) == len % USIZE_LIMIT
    ensures len < USIZE_LIMIT ==> ReadU32LE(Prefix(len)) == len
  {
    var p := Prefix(len);
    PrefixDigits(len);
    Base256Digits(len, p[0] as int, p[1] as int, p[2] as int, p[3] as int);
    if len < USIZE_LIMIT {
      SmallMod(len, USIZE_LIMIT);
    }
  }

  lemma SmallMod(x: nat, m: int)
    requires x < m
    ensures x % m == x
  {
  }

  /** The response wire frame carrying `payload`. */
  function Frame(payload: seq<u8>): seq<u8>
  {
    Prefix(|payload|) + payload
  }

  /** How the host reads the frame at the address the guest returns: the
      length from the first four bytes, then that many payload bytes. */
  function ParseFrame(m: seq<u8>): (r: Option<seq<u8>>)
    ensures r.Some? <==> |m| >= 4 && 4 + ReadU32LE(m) <= |m|
    ensures r.Some? ==> |r.value| == ReadU32LE(m) && r.value == m[4..4 + |r.value|]
  {
    if |m| < 4 then None
    else
      var n := ReadU32LE(m);
      if 4 + n <= |m| then Some(m[4..4 + n]) else None
  }

  /** The host recovers exactly the payload from a frame, whatever memory
      follows it. */
  lemma {:induction false} FrameRoundTrip(payload: seq<u8>, rest: seq<u8>)
    requires |payload| < USIZE_LIMIT
    ensures |Frame(payload)| == |payload| + 4
    ensures Frame(payload)[..4] == Prefix(|payload|) && Frame(payload)[4..] == payload
    ensures ReadU32LE(Frame(payload)) == |payload|
    ensures ParseFrame(Frame(payload) + rest) == Some(payload)
  {
    var f := Frame(payload);
    PrefixRoundTrip(|payload|);
    assert ReadU32LE(f) == ReadU32LE(Prefix(|payload|));
    var m := f + rest;
    assert m[..4] == f[..4];
    assert ReadU32LE(m) == ReadU32LE(f);
    assert m[4..4 + |payload|] == payload;
  }

  /** An empty payload gives exactly the four bytes `[0, 0, 0, 0]`. */
  lemma EmptyFrame()
    ensures Frame([]) == [0, 0, 0, 0]
  {
    Pow2Bytes();
  }

  /** The frame of `[1, 2, 3]` is `[3, 0, 0, 0, 1, 2, 3]`. */
  lemma ThreeByteFrame()
    ensures Frame([1, 2, 3]) == [3, 0, 0, 0, 1, 2, 3]
  {
    Pow2Bytes();
  }

  /** `charCodeAt(i) as u8` applied to every code unit: the low byte of each
      unit, one byte per unit. */
  function Narrow(units: seq<u16>): (r: seq<u8>)
    ensures |r| == |units|
    ensures forall i :: 0 <= i < |units| ==> r[i] as int == units[i] as int % 0x100
  {
    if units == [] then [] else [AsU8(units[0] as int)] + Narrow(units[1..])
  }

  /** Reads each byte back as the code unit of the same value. */
  function Widen(bytes: seq<u8>): (r: seq<u16>)
    ensures |r| == |bytes|
    ensures forall i :: 0 <= i < |bytes| ==> r[i] as int == bytes[i] as int
  {
    if bytes == [] then [] else [bytes[0] as int as u16] + Widen(bytes[1..])
  }

  /** Narrowing loses nothing exactly when every code unit is below 256:
      a string round-trips through the narrowed bytes if and only if it has
      no code unit of 256 or more. */
  lemma {:induction false} NarrowRoundTrip(units: seq<u16>)
    ensures Widen(Narrow(units)) == units <==> forall i :: 0 <= i < |units| ==> units[i] < 0x100
  {
    var w := Widen(Narrow(units));
    if forall i :: 0 <= i < |units| ==> units[i] < 0x100 {
      forall i | 0 <= i < |units| ensures w[i] == units[i] {
        assert w[i] as int == units[i] as int % 0x100;
      }
    } else {
      var i :| 0 <= i < |units| && units[i] >= 0x100;
      assert w[i] != units[i];
    }
  }

  /** A code unit above 255 does not survive: U+20AC becomes the byte 0xAC. */
  lemma EuroSignIsNarrowed()
    ensures Narrow([0x20AC]) == [0xAC]
    ensures Widen(Narrow([0x20AC])) != [0x20AC]
  {
    NarrowRoundTrip([0x20AC]);
  }
}
