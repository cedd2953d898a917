/** The encodings the archives compose: length-prefixed strings and counted lists.
    An encoded item can be followed by anything; its decoder stops exactly behind it. */
module Codec {
  import opened Bytes

  /** A string or byte vector whose length fits `size_t`. */
  type blob = s: bytes | |s| < 0x1_0000_0000_0000_0000

  // --- strings and byte vectors: a size_t length, then the bytes -------------------

  function EncBlob(s: blob): (e: bytes)
    ensures |e| == 8 + |s|
  {
    EncU64(|s|) + s
  }

  function DecBlob(b: bytes, off: nat): (r: Parsed<blob>)
    ensures r.Parsed? ==> off + 8 <= r.next <= |b|
  {
    var (n, o) :- DecU64(b, off);
    var (s, o) :- Take(b, o, n);
    Parsed(s, o)
  }

  lemma BlobRoundTrip(b: bytes, off: nat, s: blob)
    requires At(b, off, EncBlob(s))
    ensures DecBlob(b, off) == Parsed(s, off + |EncBlob(s)|)
  {
    AtConcat(b, off, EncU64(|s|), s);
    U64RoundTrip(b, off, |s|);
  }

  // --- the same with a 32-bit length --------------------------------------------------

  function EncBlob32(s: bytes): (e: bytes)
    ensures |e| == 4 + |s|
  {
    EncU32(Trunc32(|s|)) + s
  }

  function DecBlob32(b: bytes, off: nat): (r: Parsed<bytes>)
    ensures r.Parsed? ==> off + 4 <= r.next <= |b|
  {
    var (n, o) :- DecU32(b, off);
    Take(b, o, n)
  }

  lemma Blob32RoundTrip(b: bytes, off: nat, s: bytes)
    requires At(b, off, EncBlob32(s))
    requires |s| < TWO_32
    ensures DecBlob32(b, off) == Parsed(s, off + |EncBlob32(s)|)
  {
    AtConcat(b, off, EncU32(Trunc32(|s|)), s);
    U32RoundTrip(b, off, Trunc32(|s|));
  }

  // --- items one after the other ---------------------------------------------------------

  function EncAll<T>(enc: T -> bytes, xs: seq<T>): bytes {
    if xs == [] then [] else enc(xs[0]) + EncAll(enc, xs[1..])
  }

  function DecAll<T>(dec: (bytes, nat) -> Parsed<T>, b: bytes, off: nat, n: nat): Parsed<seq<T>>
    decreases n
  {
    if n == 0 then Parsed([], off)
    else
      var (x, o) :- dec(b, off);
      var (xs, o) :- DecAll(dec, b, o, n - 1);
      Parsed([x] + xs, o)
  }

  /** `dec` undoes `enc` on every item of `xs`, wherever the item is stored. */
  ghost predicate Undoes<T(!new)>(enc: T -> bytes, dec: (bytes, nat) -> Parsed<T>, xs: seq<T>) {
    forall b: bytes, off: nat, i: nat :: i < |xs| && At(b, off, enc(xs[i])) ==>
      dec(b, off) == Parsed(xs[i], off + |enc(xs[i])|)
  }

  lemma {:induction false} AllRoundTrip<T(!new)>(
    enc: T -> bytes, dec: (bytes, nat) -> Parsed<T>, b: bytes, off: nat, xs: seq<T>)
    requires Undoes(enc, dec, xs)
    requires At(b, off, EncAll(enc, xs))
    ensures DecAll(dec, b, off, |xs|) == Parsed(xs, off + |EncAll(enc, xs)|)
    decreases |xs|
  {
    hide At;
    if xs == [] {
    } else {
      var rest := xs[1..];
      AtConcat(b, off, enc(xs[0]), EncAll(enc, rest));
      assert Undoes(enc, dec, rest) by {
        forall c: bytes, o: nat, i: nat | i < |rest| && At(c, o, enc(rest[i]))
          ensures dec(c, o) == Parsed(rest[i], o + |enc(rest[i])|)
        {
          assert rest[i] == xs[i + 1];
        }
      }
      assert dec(b, off) == Parsed(xs[0], off + |enc(xs[0])|);
      AllRoundTrip(enc, dec, b, off + |enc(xs[0])|, rest);
      assert [xs[0]] + rest == xs;
    }
  }

  lemma {:induction false} EncAllAppend<T>(enc: T -> bytes, xs: seq<T>, x: T)
    ensures EncAll(enc, xs + [x]) == EncAll(enc, xs) + enc(x)
  {
    if xs == [] {
      assert xs + [x] == [x];
      assert [x][1..] == [];
    } else {
      assert (xs + [x])[1..] == xs[1..] + [x];
      EncAllAppend(enc, xs[1..], x);
      assert (enc(xs[0]) + EncAll(enc, xs[1..])) + enc(x) == enc(xs[0]) + (EncAll(enc, xs[1..]) + enc(x));
    }
  }

  lemma {:induction false} EncAllLength<T>(enc: T -> bytes, xs: seq<T>)
    requires forall i :: 0 <= i < |xs| ==> 0 < |enc(xs[i])|
    ensures |xs| <= |EncAll(enc, xs)|
  {
    if xs == [] {
    } else {
      EncAllLength(enc, xs[1..]);
    }
  }

  /** A loop that has read `k` items and reads one more has read `k + 1`. */
  lemma {:induction false} DecAllSnoc<T>(dec: (bytes, nat) -> Parsed<T>, b: bytes, off: nat, k: nat, xs: seq<T>, mid: nat)
    requires DecAll(dec, b, off, k) == Parsed(xs, mid)
    ensures DecAll(dec, b, off, k + 1) == if dec(b, mid).NoParse? then NoParse
                                          else Parsed(xs + [dec(b, mid).value], dec(b, mid).next)
    decreases k
  {
    if k == 0 {
      if dec(b, mid).Parsed? {
        var x := dec(b, mid).value;
        assert DecAll(dec, b, dec(b, mid).next, 0) == Parsed([], dec(b, mid).next);
        assert [x] + [] == [] + [x];
      }
    } else {
      var first := dec(b, off);
      var rest := DecAll(dec, b, first.next, k - 1);
      DecAllSnoc(dec, b, first.next, k - 1, rest.value, mid);
      if dec(b, mid).Parsed? {
        assert [first.value] + (rest.value + [dec(b, mid).value]) == xs + [dec(b, mid).value];
      }
    }
  }

  lemma {:induction false} DecAllLength<T>(dec: (bytes, nat) -> Parsed<T>, b: bytes, off: nat, n: nat)
    requires DecAll(dec, b, off, n).Parsed?
    ensures |DecAll(dec, b, off, n).value| == n
    decreases n
  {
    if n > 0 {
      DecAllLength(dec, b, dec(b, off).next, n - 1);
    }
  }

  /** Items read by a longer run include those read by a shorter one. */
  lemma {:induction false} DecAllPrefix<T>(dec: (bytes, nat) -> Parsed<T>, b: bytes, off: nat, k: nat, n: nat)
    requires k <= n
    requires DecAll(dec, b, off, n).Parsed?
    ensures DecAll(dec, b, off, k).Parsed?
    decreases k
  {
    if k == 0 {
    } else {
      DecAllPrefix(dec, b, dec(b, off).next, k - 1, n - 1);
    }
  }

  /** A decoder that consumes what is there. */
  ghost predicate Forward<T(!new)>(dec: (bytes, nat) -> Parsed<T>) {
    forall b: bytes, off: nat :: dec(b, off).Parsed? ==> off <= dec(b, off).next <= |b|
  }

  lemma {:induction false} DecAllForward<T(!new)>(dec: (bytes, nat) -> Parsed<T>, b: bytes, off: nat, n: nat)
    requires Forward(dec) && off <= |b| && DecAll(dec, b, off, n).Parsed?
    ensures off <= DecAll(dec, b, off, n).next <= |b|
    decreases n
  {
    if n > 0 {
      DecAllForward(dec, b, dec(b, off).next, n - 1);
    }
  }
}
