/** `ImageCache`: images by id, written behind the recording header. */
module ImageCache {
  import opened Bytes
  import opened Codec
  import opened OrderedMap
  import opened Archive

  const MAX_IMAGE_SIZE := 600 * 1024 * 1024

  datatype Image = Image(
    data: blob, parcelSkipBytes: u64, dmaWidth: i32, dmaHeight: i32, dmaStride: i32, dmaFormat: i32,
    dmaUsage: u64, dmaSize: u64)
  {
    predicate IsValid() {
      0 < |data| < MAX_IMAGE_SIZE
    }

    /** The serialisation order is not the declaration order: `dmaSize` precedes the geometry. */
    function Encode(): bytes {
      EncBlob(data) + (EncU64(parcelSkipBytes) + (EncU64(dmaSize) + (EncI32(dmaWidth) + (EncI32(dmaHeight)
      + (EncI32(dmaStride) + (EncI32(dmaFormat) + EncU64(dmaUsage)))))))
    }
  }

  function DecImage(b: bytes, off: nat): Parsed<Image> {
    var (data, o) :- DecBlob(b, off);
    var (skip, o) :- DecU64(b, o);
    var (size, o) :- DecU64(b, o);
    var (width, o) :- DecI32(b, o);
    var (height, o) :- DecI32(b, o);
    var (stride, o) :- DecI32(b, o);
    var (format, o) :- DecI32(b, o);
    var (usage, o) :- DecU64(b, o);
    Parsed(Image(data, skip, width, height, stride, format, usage, size), o)
  }

  type Images = seq<(u64, Image)>

  function EncEntry(e: (u64, Image)): bytes {
    EncU64(e.0) + e.1.Encode()
  }

  function DecEntry(b: bytes, off: nat): Parsed<(u64, Image)> {
    var (id, o) :- DecU64(b, off);
    var (image, o) :- DecImage(b, o);
    Parsed((id, image), o)
  }

  function EncImages(m: Images): bytes {
    EncU32(Trunc32(|m|)) + EncAll(EncEntry, m)
  }

  /** Of two entries with one id the first stays, as with `std::map::insert`. */
  function DecImages(b: bytes, off: nat): Parsed<Images> {
    var (count, o) :- DecU32(b, off);
    var (entries, o) :- DecAll(DecEntry, b, o, count);
    Parsed(PutAll<u64, Image>(IdLess, [], entries, false), o)
  }

  lemma ImageRoundTrip(b: bytes, off: nat, image: Image)
    requires At(b, off, image.Encode())
    ensures DecImage(b, off) == Parsed(image, off + |image.Encode()|)
  {
    hide At, EncU64, DecU64, EncI32, DecI32, EncBlob, DecBlob;
    var usage := EncU64(image.dmaUsage);
    var format := EncI32(image.dmaFormat) + usage;
    var stride := EncI32(image.dmaStride) + format;
    var height := EncI32(image.dmaHeight) + stride;
    var width := EncI32(image.dmaWidth) + height;
    var size := EncU64(image.dmaSize) + width;
    var skip := EncU64(image.parcelSkipBytes) + size;
    var o := off + |EncBlob(image.data)|;
    AtConcat(b, off, EncBlob(image.data), skip);
    AtConcat(b, o, EncU64(image.parcelSkipBytes), size);
    AtConcat(b, o + 8, EncU64(image.dmaSize), width);
    AtConcat(b, o + 16, EncI32(image.dmaWidth), height);
    AtConcat(b, o + 20, EncI32(image.dmaHeight), stride);
    AtConcat(b, o + 24, EncI32(image.dmaStride), format);
    AtConcat(b, o + 28, EncI32(image.dmaFormat), usage);
    BlobRoundTrip(b, off, image.data);
    U64RoundTrip(b, o, image.parcelSkipBytes);
    U64RoundTrip(b, o + 8, image.dmaSize);
    I32RoundTrip(b, o + 16, image.dmaWidth);
    I32RoundTrip(b, o + 20, image.dmaHeight);
    I32RoundTrip(b, o + 24, image.dmaStride);
    I32RoundTrip(b, o + 28, image.dmaFormat);
    U64RoundTrip(b, o + 32, image.dmaUsage);
  }

  lemma EntryRoundTrip(b: bytes, off: nat, e: (u64, Image))
    requires At(b, off, EncEntry(e))
    ensures DecEntry(b, off) == Parsed(e, off + |EncEntry(e)|)
  {
    hide At, EncU64, DecU64, DecImage;
    AtConcat(b, off, EncU64(e.0), e.1.Encode());
    U64RoundTrip(b, off, e.0);
    ImageRoundTrip(b, off + 8, e.1);
  }

  /** A whole cache reads back as itself, whatever follows it. */
  lemma ImagesRoundTrip(b: bytes, off: nat, m: Images)
    requires Sorted<u64, Image>(IdLess, m) && |m| < TWO_32
    requires At(b, off, EncImages(m))
    ensures DecImages(b, off) == Parsed(m, off + |EncImages(m)|)
  {
    hide At, EncU32, DecU32, EncAll, DecAll, EncEntry, DecEntry;
    AtConcat(b, off, EncU32(|m|), EncAll(EncEntry, m));
    U32RoundTrip(b, off, |m|);
    forall a: bytes, o: nat, i: nat | i < |m| && At(a, o, EncEntry(m[i]))
      ensures DecEntry(a, o) == Parsed(m[i], o + |EncEntry(m[i])|)
    {
      EntryRoundTrip(a, o, m[i]);
    }
    AllRoundTrip(EncEntry, DecEntry, b, off + 4, m);
    IdLessIsStrictOrder();
    PutAllSorted<u64, Image>(IdLess, m, false);
  }

  class ImageCache {
    var cache: Images

    ghost predicate Valid()
      reads this
    {
      Sorted<u64, Image>(IdLess, cache)
    }

    constructor ()
      ensures Valid() && cache == []
    {
      cache := [];
    }

    predicate Exists(id: u64)
      reads this
    {
      Lookup(cache, id).Some?
    }

    /** Invalid images and ids already present are refused. */
    method Add(id: u64, image: Image) returns (added: bool)
      requires Valid()
      modifies this
      ensures Valid()
      ensures added == (image.IsValid() && !old(Exists(id)))
      ensures cache == if added then Put<u64, Image>(IdLess, old(cache), id, image, false) else old(cache)
      ensures forall q: u64 :: Lookup(cache, q) == if added && q == id then Some(image) else old(Lookup(cache, q))
    {
      IdLessIsStrictOrder();
      added := false;
      if image.IsValid() && !Exists(id) {
        forall q: u64
          ensures Sorted<u64, Image>(IdLess, Put<u64, Image>(IdLess, cache, id, image, false))
          ensures Lookup(Put<u64, Image>(IdLess, cache, id, image, false), q) ==
                  if q == id then Some(image) else Lookup(cache, q)
        {
          PutCorrect<u64, Image>(IdLess, cache, id, image, false, q);
        }
        assert Sorted<u64, Image>(IdLess, Put<u64, Image>(IdLess, cache, id, image, false)) by {
          PutCorrect<u64, Image>(IdLess, cache, id, image, false, id);
        }
        cache := Put<u64, Image>(IdLess, cache, id, image, false);
        added := true;
      }
    }

    method SerializeEntry(file: ByteFile, e: (u64, Image))
      modifies file
      ensures file.data == Overwrite(old(file.data), old(file.pos), EncEntry(e))
      ensures file.pos == old(file.pos) + |EncEntry(e)|
    {
      hide EncU64, Overwrite;
      OverwriteTwice(file.data, file.pos, EncU64(e.0), e.1.Encode());
      file.Write(EncU64(e.0));
      file.Write(e.1.Encode());
    }

    method Serialize(file: ByteFile)
      modifies file
      ensures file.data == Overwrite(old(file.data), old(file.pos), EncImages(cache))
      ensures file.pos == old(file.pos) + |EncImages(cache)|
    {
      hide EncU32, EncEntry, Overwrite;
      file.Write(EncU32(Trunc32(|cache|)));
      ghost var b, p := old(file.data), old(file.pos);
      ghost var done := EncU32(Trunc32(|cache|));
      assert done + [] == done;
      for i := 0 to |cache|
        invariant done == EncU32(Trunc32(|cache|)) + EncAll(EncEntry, cache[..i])
        invariant file.data == Overwrite(b, p, done)
        invariant file.pos == p + |done|
      {
        OverwriteTwice(b, p, done, EncEntry(cache[i]));
        SerializeEntry(file, cache[i]);
        EncAllAppend(EncEntry, cache[..i], cache[i]);
        assert cache[..i] + [cache[i]] == cache[..i + 1];
        done := done + EncEntry(cache[i]);
      }
      assert cache[..|cache|] == cache;
    }

    method ReadEntry(file: ByteFile) returns (id: u64, image: Image)
      modifies file`pos
      ensures DecEntry(file.data, old(file.pos)).Parsed? ==>
        Parsed((id, image), file.pos) == DecEntry(file.data, old(file.pos))
    {
      id := file.ReadU64();
      var data := file.ReadBlob();
      var skip := file.ReadU64();
      var size := file.ReadU64();
      var width := file.ReadI32();
      var height := file.ReadI32();
      var stride := file.ReadI32();
      var format := file.ReadI32();
      var usage := file.ReadU64();
      image := Image(data, skip, width, height, stride, format, usage, size);
    }

    /** Empties the cache, then fills it from the file. */
    method Deserialize(file: ByteFile)
      modifies this, file`pos
      ensures DecImages(file.data, old(file.pos)).Parsed? ==>
        Parsed(cache, file.pos) == DecImages(file.data, old(file.pos))
      ensures Valid()
    {
      hide DecU32, DecEntry, Put;
      cache := [];
      var count := file.ReadU32();
      ghost var start, b := file.pos, file.data;
      ghost var ok := DecImages(b, old(file.pos)).Parsed?;
      ghost var entries: Images := [];
      IdLessIsStrictOrder();
      for i := 0 to count
        invariant file.data == b
        invariant Valid()
        invariant ok ==> DecAll(DecEntry, b, start, i) == Parsed(entries, file.pos)
        invariant ok ==> cache == PutAll<u64, Image>(IdLess, [], entries, false)
      {
        if ok {
          DecAllPrefix(DecEntry, b, start, i + 1, count);
          DecAllSnoc(DecEntry, b, start, i, entries, file.pos);
        }
        var id, image := ReadEntry(file);
        PutCorrect<u64, Image>(IdLess, cache, id, image, false, id);
        cache := Put<u64, Image>(IdLess, cache, id, image, false);
        ghost var grown := entries + [(id, image)];
        assert grown[..|grown| - 1] == entries;
        entries := grown;
      }
    }
  }
}
