/** Bytes, fixed-width little-endian integers, and parsers over a byte sequence.
    The profiler writes every scalar with the memory layout of the host; the model
    fixes that layout to little-endian. */
module Bytes {

  type byte = x: int | 0 <= x < 0x100
  type bytes = seq<byte>
  type u32 = x: int | 0 <= x < 0x1_0000_0000
  type u64 = x: int | 0 <= x < 0x1_0000_0000_0000_0000
  type i32 = x: int | -0x8000_0000 <= x < 0x8000_0000

  const TWO_32: int := 0x1_0000_0000
  const TWO_64: int := 0x1_0000_0000_0000_0000

  /** A narrowing conversion to `uint32_t`. */
  function Trunc32(x: nat): u32 {
    x % TWO_32
  }

  /** A narrowing conversion to `uint64_t`. */
  function Trunc64(x: nat): u64 {
    x % TWO_64
  }

  /** The outcome of reading one item: the item and the offset just behind it. */
  datatype Parsed<+T> = NoParse | Parsed(value: T, next: nat) {
    predicate IsFailure() {
      NoParse?
    }

    function PropagateFailure<U>(): Parsed<U>
      requires NoParse?
    {
      NoParse
    }

    function Extract(): (T, nat)
      requires Parsed?
    {
      (value, next)
    }
  }

  /** `x` is stored in `b` at offset `off`. */
  predicate At(b: bytes, off: nat, x: bytes) {
    off + |x| <= |b| && b[off..off + |x|] == x
  }

  lemma AtWithin(b: bytes, off: nat, x: bytes)
    requires At(b, off, x)
    ensures off + |x| <= |b|
  {
  }

  lemma AtConcat(b: bytes, off: nat, x: bytes, y: bytes)
    ensures At(b, off, x + y) <==> At(b, off, x) && At(b, off + |x|, y)
  {
    if At(b, off, x + y) {
      assert b[off..off + |x|] == b[off..off + |x + y|][..|x|] == x;
      assert b[off + |x|..off + |x| + |y|] == b[off..off + |x + y|][|x|..] == y;
    }
    if At(b, off, x) && At(b, off + |x|, y) {
      assert b[off..off + |x + y|] == b[off..off + |x|] + b[off + |x|..off + |x| + |y|];
    }
  }

  /** Bytes are where they were in any sequence that agrees on a stretch around them. */
  lemma AtInside(b: bytes, c: bytes, lo: nat, hi: nat, off: nat, x: bytes)
    requires At(b, off, x)
    requires lo <= off && off + |x| <= hi && hi <= |b| && hi <= |c| && b[lo..hi] == c[lo..hi]
    ensures At(c, off, x)
  {
    forall i | 0 <= i < |x|
      ensures c[off + i] == x[i]
    {
      assert c[off + i] == c[lo..hi][off + i - lo] == b[lo..hi][off + i - lo] == b[off + i];
      assert b[off..off + |x|][i] == x[i];
    }
    assert c[off..off + |x|] == x;
  }

  // --- uint32_t ---------------------------------------------------------------

  function EncU32(v: u32): (e: bytes)
    ensures |e| == 4
  {
    [v % 0x100, (v / 0x100) % 0x100, (v / 0x1_0000) % 0x100, v / 0x100_0000]
  }

  function DecU32(b: bytes, off: nat): (r: Parsed<u32>)
    ensures r.Parsed? ==> r.next == off + 4 <= |b|
  {
    if off + 4 <= |b| then
      var b0: int, b1: int, b2: int, b3: int := b[off], b[off + 1], b[off + 2], b[off + 3];
      Parsed(b0 + 0x100 * b1 + 0x1_0000 * b2 + 0x100_0000 * b3, off + 4)
    else
      NoParse
  }

  lemma U32Digits(v: u32)
    ensures v == v % 0x100 + 0x100 * ((v / 0x100) % 0x100) + 0x1_0000 * ((v / 0x1_0000) % 0x100)
                 + 0x100_0000 * (v / 0x100_0000)
  {
    assert (v / 0x100) / 0x100 == v / 0x1_0000;
    assert (v / 0x1_0000) / 0x100 == v / 0x100_0000;
  }

  lemma U32RoundTrip(b: bytes, off: nat, v: u32)
    requires At(b, off, EncU32(v))
    ensures DecU32(b, off) == Parsed(v, off + 4)
  {
    hide At;
    U32Digits(v);
    ByteAt(b, off, EncU32(v), 0);
    ByteAt(b, off, EncU32(v), 1);
    ByteAt(b, off, EncU32(v), 2);
    ByteAt(b, off, EncU32(v), 3);
  }

  lemma ByteAt(b: bytes, off: nat, x: bytes, i: nat)
    requires At(b, off, x) && i < |x|
    ensures off + |x| <= |b| && b[off + i] == x[i]
  {
  }

  // --- uint64_t, size_t and the bits of a double --------------------------------

  function EncU64(v: u64): (e: bytes)
    ensures |e| == 8
  {
    EncU32(v % TWO_32) + EncU32(v / TWO_32)
  }

  function DecU64(b: bytes, off: nat): (r: Parsed<u64>)
    ensures r.Parsed? ==> r.next == off + 8 <= |b|
  {
    var (low, o) :- DecU32(b, off);
    var (high, o) :- DecU32(b, o);
    Parsed(low + TWO_32 * high, o)
  }

  lemma U64RoundTrip(b: bytes, off: nat, v: u64)
    requires At(b, off, EncU64(v))
    ensures DecU64(b, off) == Parsed(v, off + 8)
  {
    AtConcat(b, off, EncU32(v % TWO_32), EncU32(v / TWO_32));
    U32RoundTrip(b, off, v % TWO_32);
    U32RoundTrip(b, off + 4, v / TWO_32);
  }

  // --- int32_t, in two's complement ----------------------------------------------

  function EncI32(v: i32): (e: bytes)
    ensures |e| == 4
  {
    EncU32(if v < 0 then v + TWO_32 else v)
  }

  function DecI32(b: bytes, off: nat): (r: Parsed<i32>)
    ensures r.Parsed? ==> r.next == off + 4 <= |b|
  {
    var (u, o) :- DecU32(b, off);
    Parsed(if u < 0x8000_0000 then u else u - TWO_32, o)
  }

  lemma I32RoundTrip(b: bytes, off: nat, v: i32)
    requires At(b, off, EncI32(v))
    ensures DecI32(b, off) == Parsed(v, off + 4)
  {
    U32RoundTrip(b, off, if v < 0 then v + TWO_32 else v);
  }

  // --- raw bytes of known length ---------------------------------------------------

  function Take(b: bytes, off: nat, n: nat): (r: Parsed<bytes>)
    ensures r.Parsed? ==> r.next == off + n <= |b|
  {
    if off + n <= |b| then Parsed(b[off..off + n], off + n) else NoParse
  }

  // --- overwriting in place -----------------------------------------------------------

  /** The contents after writing `x` at `pos`; a gap beyond the old end is filled with zeros. */
  function Overwrite(b: bytes, pos: nat, x: bytes): (c: bytes)
    ensures |c| >= |b|
  {
    if x == [] then b
    else if pos > |b| then b + seq(pos - |b|, _ => 0) + x
    else if pos + |x| <= |b| then b[..pos] + x + b[pos + |x|..]
    else b[..pos] + x
  }

  lemma OverwriteEffect(b: bytes, pos: nat, x: bytes)
    requires pos <= |b|
    ensures At(Overwrite(b, pos, x), pos, x)
    ensures |Overwrite(b, pos, x)| == if pos + |x| <= |b| then |b| else pos + |x|
    ensures Overwrite(b, pos, x)[..pos] == b[..pos]
    ensures pos + |x| <= |b| ==> Overwrite(b, pos, x)[pos + |x|..] == b[pos + |x|..]
  {
  }

  /** What a write leaves alone: any extent that ends before it or starts behind it. */
  lemma OverwriteKeeps(b: bytes, pos: nat, x: bytes, off: nat, y: bytes)
    requires pos <= |b|
    requires At(b, off, y)
    requires off + |y| <= pos || pos + |x| <= off
    ensures At(Overwrite(b, pos, x), off, y)
  {
    var c := Overwrite(b, pos, x);
    assert c[off..off + |y|] == b[off..off + |y|];
  }

  /** Two consecutive writes are one. */
  lemma OverwriteTwice(b: bytes, pos: nat, x: bytes, y: bytes)
    ensures Overwrite(Overwrite(b, pos, x), pos + |x|, y) == Overwrite(b, pos, x + y)
  {
    if x == [] {
      assert x + y == y;
    } else if y == [] {
      assert x + y == x;
    } else {
      assert Overwrite(Overwrite(b, pos, x), pos + |x|, y) == Overwrite(b, pos, x + y);
    }
  }
}
