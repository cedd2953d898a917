/** Miniatures of pixel data and the tiling that fills an image from one. */
module PixelMap {
  import opened Bytes

  const SAMPLE_COUNT: nat := 100

  // --- tiling -------------------------------------------------------------------------------

  /** A byte of the endless repetition of `src`. */
  function Nth(src: bytes, i: nat): byte
    requires src != []
  {
    src[i % |src|]
  }

  /** `src` repeated over `n` bytes. */
  function Tiled(src: bytes, n: nat): (r: bytes)
    requires src != []
    ensures |r| == n && forall i :: 0 <= i < n ==> r[i] == Nth(src, i)
  {
    seq(n, i requires 0 <= i < n => Nth(src, i))
  }

  predicate Copyable(src: bytes, n: nat) {
    src != [] && n > 0 && |src| <= n
  }

  /** Moves one stretch into place. */
  method Move(dst: array<byte>, offset: nat, src: bytes, size: nat)
    requires offset + size <= dst.Length && size <= |src|
    modifies dst
    ensures forall i :: 0 <= i < dst.Length ==>
      dst[i] == if offset <= i < offset + size then src[i - offset] else old(dst[i])
  {
    for k := 0 to size
      invariant forall i :: 0 <= i < dst.Length ==>
        dst[i] == if offset <= i < offset + k then src[i - offset] else old(dst[i])
    {
      dst[offset + k] := src[k];
    }
  }

  /** `CopyImageData`: the destination is filled with copies of the source, the last one cut off;
      when it refuses, nothing is written. */
  method CopyImageData(src: bytes, dst: array<byte>) returns (ok: bool)
    modifies dst
    ensures ok <==> Copyable(src, dst.Length)
    ensures ok ==> dst[..] == Tiled(src, dst.Length)
    ensures !ok ==> dst[..] == old(dst[..])
  {
    hide Nth;
    if src == [] || dst.Length == 0 || |src| > dst.Length {
      return false;
    }
    if dst.Length == |src| {
      Move(dst, 0, src, |src|);
      assert dst[..] == src;
      RawCopyRestores(src);
      return true;
    }
    StartOfCopy(src, 0);
    var offset := 0;
    while offset < dst.Length
      invariant offset <= dst.Length
      invariant offset == dst.Length || CopyStarts(src, offset)
      invariant forall i :: 0 <= i < offset ==> dst[i] == Nth(src, i)
    {
      var size := if dst.Length - offset < |src| then dst.Length - offset else |src|;
      Move(dst, offset, src, size);
      forall i | offset <= i < offset + size
        ensures dst[i] == Nth(src, i)
      {
        assert Nth(src, offset + (i - offset)) == src[i - offset];
      }
      NextCopy(src, offset);
      offset := offset + size;
    }
    ok := true;
  }

  /** A copy of `src` starts at `a`. */
  ghost predicate CopyStarts(src: bytes, a: nat)
    requires src != []
  {
    forall j :: 0 <= j < |src| ==> Nth(src, a + j) == src[j]
  }

  lemma StartOfCopy(src: bytes, a: nat)
    requires src != [] && a % |src| == 0
    ensures CopyStarts(src, a)
  {
    forall j | 0 <= j < |src|
      ensures Nth(src, a + j) == src[j]
    {
      Aligned(a, j, |src|);
    }
  }

  lemma NextCopy(src: bytes, a: nat)
    requires src != [] && CopyStarts(src, a)
    ensures CopyStarts(src, a + |src|)
  {
    forall j | 0 <= j < |src|
      ensures Nth(src, a + |src| + j) == src[j]
    {
      assert Nth(src, a + j) == src[j];
      NextAligned(a + j, |src|);
    }
  }

  // --- quotients --------------------------------------------------------------------------------

  lemma {:induction false} Monotone(a: int, b: int, n: nat)
    requires a <= b
    ensures a * n <= b * n
    decreases n
  {
    if n > 0 {
      Monotone(a, b, n - 1);
      assert a * n == a * (n - 1) + a;
      assert b * n == b * (n - 1) + b;
    }
  }

  lemma Multiples(d: int, n: nat)
    ensures d >= 1 ==> d * n >= n
    ensures d <= -1 ==> d * n + n <= 0
  {
    if d >= 1 {
      Monotone(1, d, n);
    } else if d <= -1 {
      Monotone(d, -1, n);
    }
  }

  lemma Quotient(a: nat, n: nat)
    requires n > 0
    ensures a == a / n * n + a % n && (a >= n ==> a / n >= 1)
  {
    Multiples(a / n, n);
  }

  /** Quotient and remainder are unique. */
  lemma UniqueRemainder(a: nat, n: nat, q: nat, r: nat)
    requires n > 0 && a == q * n + r && r < n
    ensures a % n == r
  {
    var d := a / n - q;
    Quotient(a, n);
    assert d * n == a / n * n - q * n;
    Multiples(d, n);
  }

  lemma Aligned(a: nat, j: nat, n: nat)
    requires j < n && a % n == 0
    ensures (a + j) % n == j
  {
    Quotient(a, n);
    UniqueRemainder(a + j, n, a / n, j);
  }

  lemma NextAligned(a: nat, n: nat)
    requires n > 0
    ensures (a + n) % n == a % n
  {
    Quotient(a, n);
    assert (a / n + 1) * n == a / n * n + n;
    UniqueRemainder(a + n, n, a / n + 1, a % n);
  }

  // --- miniatures -------------------------------------------------------------------------------

  /** An invalid pixel size counts as four bytes. */
  function BytesPerPixel(pixelBytes: nat): (n: nat)
    ensures 0 < n < 256
  {
    if 0 < pixelBytes < 256 then pixelBytes else 4
  }

  /** Where a channel of a sample is read. */
  function SampleAt(size: nat, bytesPerPixel: nat, sample: nat, channel: nat): nat
    requires bytesPerPixel > 0
  {
    sample * (size / bytesPerPixel) / SAMPLE_COUNT * bytesPerPixel + channel
  }

  /** The samples are spread evenly: the pixel of each is the last one that does not lie behind its
      share of the image. */
  lemma SamplePlace(pixels: nat, bytesPerPixel: nat, size: nat, sample: nat, channel: nat)
    requires channel < bytesPerPixel && pixels * bytesPerPixel <= size < (pixels + 1) * bytesPerPixel
    ensures var at := SampleAt(size, bytesPerPixel, sample, channel);
      && at % bytesPerPixel == channel
      && SAMPLE_COUNT * (at / bytesPerPixel) <= sample * pixels < SAMPLE_COUNT * (at / bytesPerPixel + 1)
  {
    UniqueQuotient(size, bytesPerPixel, pixels);
    var pixel := sample * pixels / SAMPLE_COUNT;
    assert SAMPLE_COUNT * pixel <= sample * pixels < SAMPLE_COUNT * (pixel + 1);
    UniqueRemainder(pixel * bytesPerPixel + channel, bytesPerPixel, pixel, channel);
    assert (pixel + 1) * bytesPerPixel == pixel * bytesPerPixel + bytesPerPixel;
    UniqueQuotient(pixel * bytesPerPixel + channel, bytesPerPixel, pixel);
  }

  lemma UniqueQuotient(a: nat, n: nat, q: nat)
    requires n > 0 && q * n <= a < (q + 1) * n
    ensures a / n == q
  {
    var d := a / n - q;
    Quotient(a, n);
    assert d * n == a / n * n - q * n && (q + 1) * n == q * n + n;
    Multiples(d, n);
    Multiples(-d, n);
    assert -d * n == -(d * n);
  }

  /** Every sample is inside the data exactly when the data holds a whole pixel. */
  lemma SamplesInsideIff(size: nat, bytesPerPixel: nat)
    requires bytesPerPixel > 0
    ensures (forall sample, channel :: 0 <= sample < SAMPLE_COUNT && 0 <= channel < bytesPerPixel ==>
               SampleAt(size, bytesPerPixel, sample, channel) < size)
            <==> size >= bytesPerPixel
  {
    var pixels := size / bytesPerPixel;
    if size >= bytesPerPixel {
      forall sample, channel | 0 <= sample < SAMPLE_COUNT && 0 <= channel < bytesPerPixel
        ensures SampleAt(size, bytesPerPixel, sample, channel) < size
      {
        SampleInside(size, bytesPerPixel, sample, channel);
      }
    } else {
      assert pixels == 0;
      assert SampleAt(size, bytesPerPixel, 0, bytesPerPixel - 1) == bytesPerPixel - 1;
    }
  }

  lemma SampleInside(size: nat, bytesPerPixel: nat, sample: nat, channel: nat)
    requires 0 < bytesPerPixel <= size && sample < SAMPLE_COUNT && channel < bytesPerPixel
    ensures SampleAt(size, bytesPerPixel, sample, channel) < size
  {
    var pixels := size / bytesPerPixel;
    Quotient(size, bytesPerPixel);
    Monotone(sample, SAMPLE_COUNT - 1, pixels);
    PixelInside(sample * pixels, pixels);
    Monotone(sample * pixels / SAMPLE_COUNT, pixels - 1, bytesPerPixel);
    assert (pixels - 1) * bytesPerPixel == pixels * bytesPerPixel - bytesPerPixel;
  }

  lemma PixelInside(product: nat, pixels: nat)
    requires product <= (SAMPLE_COUNT - 1) * pixels && pixels >= 1
    ensures product / SAMPLE_COUNT <= pixels - 1
  {
  }

  /** `memory` is what can be read from the start of the data on: the data, `size` bytes of it, and
      at least one whole pixel. */
  predicate Readable(memory: bytes, size: nat, bytesPerPixel: nat) {
    0 < bytesPerPixel <= |memory| && size <= |memory|
  }

  lemma SampleReadable(memory: bytes, size: nat, bytesPerPixel: nat, sample: nat, channel: nat)
    requires Readable(memory, size, bytesPerPixel) && sample < SAMPLE_COUNT && channel < bytesPerPixel
    ensures SampleAt(size, bytesPerPixel, sample, channel) < |memory|
    ensures size < bytesPerPixel ==> SampleAt(size, bytesPerPixel, sample, channel) == channel
  {
    if size >= bytesPerPixel {
      SampleInside(size, bytesPerPixel, sample, channel);
    } else {
      assert size / bytesPerPixel == 0;
    }
  }

  /** The sum of the first `count` samples of a channel. */
  function SumOf(memory: bytes, size: nat, bytesPerPixel: nat, channel: nat, count: nat): nat
    requires Readable(memory, size, bytesPerPixel) && channel < bytesPerPixel && count <= SAMPLE_COUNT
  {
    if count == 0 then 0
    else
      SampleReadable(memory, size, bytesPerPixel, count - 1, channel);
      SumOf(memory, size, bytesPerPixel, channel, count - 1) + memory[SampleAt(size, bytesPerPixel, count - 1, channel)]
  }

  lemma {:induction false} SumBounded(memory: bytes, size: nat, bytesPerPixel: nat, channel: nat, count: nat,
                                      low: nat, high: nat)
    requires Readable(memory, size, bytesPerPixel) && channel < bytesPerPixel && count <= SAMPLE_COUNT
    requires SampledBetween(memory, size, bytesPerPixel, channel, low, high)
    ensures low * count <= SumOf(memory, size, bytesPerPixel, channel, count) <= high * count
  {
    hide SampleAt;
    if count > 0 {
      assert low * count == low * (count - 1) + low && high * count == high * (count - 1) + high;
      SumBounded(memory, size, bytesPerPixel, channel, count - 1, low, high);
      SampleReadable(memory, size, bytesPerPixel, count - 1, channel);
      assert low <= memory[SampleAt(size, bytesPerPixel, count - 1, channel)] <= high;
    }
  }

  ghost predicate SampledBetween(memory: bytes, size: nat, bytesPerPixel: nat, channel: nat, low: nat, high: nat)
    requires Readable(memory, size, bytesPerPixel) && channel < bytesPerPixel
  {
    forall sample :: 0 <= sample < SAMPLE_COUNT ==>
      SampleAt(size, bytesPerPixel, sample, channel) < |memory|
      && low <= memory[SampleAt(size, bytesPerPixel, sample, channel)] <= high
  }

  /** A channel of the miniature: the samples' average, rounded down. */
  function Average(memory: bytes, size: nat, bytesPerPixel: nat, channel: nat): nat
    requires Readable(memory, size, bytesPerPixel) && channel < bytesPerPixel
  {
    SumOf(memory, size, bytesPerPixel, channel, SAMPLE_COUNT) / SAMPLE_COUNT
  }

  /** It lies between the least and the greatest sample. */
  lemma AverageBetween(memory: bytes, size: nat, bytesPerPixel: nat, channel: nat, low: nat, high: nat)
    requires Readable(memory, size, bytesPerPixel) && channel < bytesPerPixel
    requires SampledBetween(memory, size, bytesPerPixel, channel, low, high)
    ensures low <= Average(memory, size, bytesPerPixel, channel) <= high
  {
    hide SumOf;
    SumBounded(memory, size, bytesPerPixel, channel, SAMPLE_COUNT, low, high);
  }

  lemma AverageIsByte(memory: bytes, size: nat, bytesPerPixel: nat, channel: nat)
    requires Readable(memory, size, bytesPerPixel) && channel < bytesPerPixel
    ensures Average(memory, size, bytesPerPixel, channel) < 0x100
  {
    forall sample | 0 <= sample < SAMPLE_COUNT
      ensures SampleAt(size, bytesPerPixel, sample, channel) < |memory|
    {
      SampleReadable(memory, size, bytesPerPixel, sample, channel);
    }
    AverageBetween(memory, size, bytesPerPixel, channel, 0, 0xFF);
  }

  /** Data shorter than a pixel: the miniature is what stands at the start of the memory, whether it
      belongs to the data or not. */
  lemma ShortDataTakesMemory(memory: bytes, size: nat, bytesPerPixel: nat, channel: nat)
    requires Readable(memory, size, bytesPerPixel) && channel < bytesPerPixel && size < bytesPerPixel
    ensures Average(memory, size, bytesPerPixel, channel) == memory[channel]
  {
    forall sample | 0 <= sample < SAMPLE_COUNT
      ensures SampleAt(size, bytesPerPixel, sample, channel) == channel
    {
      SampleReadable(memory, size, bytesPerPixel, sample, channel);
    }
    AverageBetween(memory, size, bytesPerPixel, channel, memory[channel], memory[channel]);
  }

  lemma {:induction false} TwoPixelSum(memory: bytes, bytesPerPixel: nat, channel: nat, count: nat)
    requires Readable(memory, 2 * bytesPerPixel, bytesPerPixel) && channel < bytesPerPixel && count <= SAMPLE_COUNT
    requires bytesPerPixel + channel < |memory|
    ensures SumOf(memory, 2 * bytesPerPixel, bytesPerPixel, channel, count)
         == (if count <= 50 then count * memory[channel] else 50 * memory[channel] + (count - 50) * memory[bytesPerPixel + channel])
  {
    if count > 0 {
      TwoPixelSum(memory, bytesPerPixel, channel, count - 1);
      TwoPixelPlace(bytesPerPixel, count - 1, channel);
      SumStep(memory, 2 * bytesPerPixel, bytesPerPixel, channel, count);
      hide SumOf, SampleAt;
      var a: nat, b: nat := memory[channel], memory[bytesPerPixel + channel];
      assert count * a == (count - 1) * a + a;
      assert (count - 50) * b == (count - 1 - 50) * b + b;
    }
  }

  lemma SumStep(memory: bytes, size: nat, bytesPerPixel: nat, channel: nat, count: nat)
    requires Readable(memory, size, bytesPerPixel) && channel < bytesPerPixel && 0 < count <= SAMPLE_COUNT
    ensures SampleAt(size, bytesPerPixel, count - 1, channel) < |memory|
    ensures SumOf(memory, size, bytesPerPixel, channel, count)
         == SumOf(memory, size, bytesPerPixel, channel, count - 1) + memory[SampleAt(size, bytesPerPixel, count - 1, channel)]
  {
    SampleReadable(memory, size, bytesPerPixel, count - 1, channel);
  }

  lemma TwoPixelPlace(bytesPerPixel: nat, sample: nat, channel: nat)
    requires channel < bytesPerPixel && sample < SAMPLE_COUNT
    ensures SampleAt(2 * bytesPerPixel, bytesPerPixel, sample, channel)
         == if sample < 50 then channel else bytesPerPixel + channel
  {
    UniqueQuotient(2 * bytesPerPixel, bytesPerPixel, 2);
  }

  /** Of two pixels the miniature takes the middle, rounded down. */
  lemma TwoPixelAverage(memory: bytes, bytesPerPixel: nat, channel: nat)
    requires Readable(memory, 2 * bytesPerPixel, bytesPerPixel) && channel < bytesPerPixel
    requires bytesPerPixel + channel < |memory|
    ensures var first: nat, second: nat := memory[channel], memory[bytesPerPixel + channel];
      Average(memory, 2 * bytesPerPixel, bytesPerPixel, channel) == (first + second) / 2
  {
    TwoPixelSum(memory, bytesPerPixel, channel, SAMPLE_COUNT);
  }

  /** `GenerateMiniature`: nothing for no data, one pixel otherwise. */
  method GenerateMiniature(memory: bytes, size: nat, pixelBytes: nat) returns (out: array<byte>)
    requires size > 0 ==> Readable(memory, size, BytesPerPixel(pixelBytes))
    ensures fresh(out) && out.Length == (if size == 0 then 0 else if pixelBytes == 0 || pixelBytes > 255 then 4 else pixelBytes)
    ensures size > 0 ==> out.Length == BytesPerPixel(pixelBytes)
    ensures forall c :: 0 <= c < out.Length ==> out[c] == Average(memory, size, BytesPerPixel(pixelBytes), c)
  {
    hide SampleAt;
    if size == 0 {
      return new byte[0];
    }
    var n := BytesPerPixel(pixelBytes);
    var averageValue := new nat[n](_ => 0);
    for sample := 0 to SAMPLE_COUNT
      invariant forall c :: 0 <= c < n ==> averageValue[c] == SumOf(memory, size, n, c, sample)
    {
      for channel := 0 to n
        invariant forall c :: 0 <= c < channel ==> averageValue[c] == SumOf(memory, size, n, c, sample + 1)
        invariant forall c :: channel <= c < n ==> averageValue[c] == SumOf(memory, size, n, c, sample)
      {
        SampleReadable(memory, size, n, sample, channel);
        averageValue[channel] := averageValue[channel] + memory[SampleAt(size, n, sample, channel)];
      }
    }
    out := new byte[n](_ => 0);
    for i := 0 to n
      invariant forall c :: 0 <= c < n ==> averageValue[c] == SumOf(memory, size, n, c, SAMPLE_COUNT)
      invariant forall c :: 0 <= c < i ==> out[c] == Average(memory, size, n, c)
    {
      AverageIsByte(memory, size, n, i);
      assert averageValue[i] / SAMPLE_COUNT == Average(memory, size, n, i);
      out[i] := averageValue[i] / SAMPLE_COUNT;
    }
  }

  // --- one colour ----------------------------------------------------------------------------------

  /** An image of one colour. */
  ghost predicate Uniform(data: bytes, colour: bytes) {
    colour != [] && data == Tiled(colour, |data|)
  }

  lemma SampleOfColour(data: bytes, colour: bytes, sample: nat, channel: nat)
    requires Uniform(data, colour) && |data| >= |colour| && sample < SAMPLE_COUNT && channel < |colour|
    ensures SampleAt(|data|, |colour|, sample, channel) < |data|
    ensures data[SampleAt(|data|, |colour|, sample, channel)] == colour[channel]
  {
    SampleInside(|data|, |colour|, sample, channel);
    var p := sample * (|data| / |colour|) / SAMPLE_COUNT;
    UniqueRemainder(p * |colour| + channel, |colour|, p, channel);
  }

  /** The miniature of a single-colour image is its colour, and tiling that restores the image. */
  lemma MiniatureRestores(data: bytes, colour: bytes, mini: bytes)
    requires Uniform(data, colour) && |data| >= |colour| == |mini|
    requires forall c :: 0 <= c < |mini| ==> mini[c] == Average(data, |data|, |colour|, c)
    ensures mini == colour && Copyable(mini, |data|) && Tiled(mini, |data|) == data
  {
    hide Average, Tiled;
    forall c | 0 <= c < |mini|
      ensures mini[c] == colour[c]
    {
      forall sample | 0 <= sample < SAMPLE_COUNT
        ensures SampleAt(|data|, |colour|, sample, c) < |data|
        ensures data[SampleAt(|data|, |colour|, sample, c)] == colour[c]
      {
        SampleOfColour(data, colour, sample, c);
      }
      AverageBetween(data, |data|, |colour|, c, colour[c], colour[c]);
    }
    assert mini == colour;
  }

  /** A copy that keeps every byte restores any image. */
  lemma RawCopyRestores(data: bytes)
    requires data != []
    ensures Tiled(data, |data|) == data
  {
  }

  /** Tiling restores an image from its first bytes exactly when it repeats them. */
  lemma TilingRestoresIff(data: bytes, n: nat)
    requires 0 < n <= |data|
    ensures Tiled(data[..n], |data|) == data <==> forall i :: n <= i < |data| ==> data[i] == data[i % n]
  {
    var tiled := Tiled(data[..n], |data|);
    if forall i :: n <= i < |data| ==> data[i] == data[i % n] {
      forall i | 0 <= i < |data|
        ensures tiled[i] == data[i]
      {
        if i < n {
          Aligned(0, i, n);
        }
      }
    } else {
      var i :| n <= i < |data| && data[i] != data[i % n];
      assert tiled[i] == data[i % n];
    }
  }

  /** A miniature restores an image exactly when every pixel of it is the first one. */
  lemma MiniatureRestoresIff(data: bytes, mini: bytes)
    requires 0 < |mini| <= |data|
    requires forall c :: 0 <= c < |mini| ==> mini[c] == Average(data, |data|, |mini|, c)
    ensures Tiled(mini, |data|) == data <==> forall i :: |mini| <= i < |data| ==> data[i] == data[i % |mini|]
  {
    hide Average;
    var n := |mini|;
    TilingRestoresIff(data, n);
    if Tiled(mini, |data|) == data {
      TiledStarts(mini, |data|);
    } else if Tiled(data[..n], |data|) == data {
      MiniatureRestores(data, data[..n], mini);
    }
  }

  lemma TiledStarts(src: bytes, n: nat)
    requires 0 < |src| <= n
    ensures Tiled(src, n)[..|src|] == src
  {
    forall i | 0 <= i < |src|
      ensures Tiled(src, n)[i] == src[i]
    {
      Aligned(0, i, |src|);
    }
  }
}
