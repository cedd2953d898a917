/** `RSCaptureData`: a time stamp and named string properties, serialised into a vector. */
module CaptureData {
  import opened Bytes
  import opened Codec
  import opened OrderedMap
  import opened Archive

  type Properties = seq<(blob, blob)>

  function EncProperty(p: (blob, blob)): bytes {
    EncBlob(p.0) + EncBlob(p.1)
  }

  function DecProperty(b: bytes, off: nat): Parsed<(blob, blob)> {
    var (name, o) :- DecBlob(b, off);
    var (value, o) :- DecBlob(b, o);
    Parsed((name, value), o)
  }

  /** `time` holds the four bytes of the float. */
  datatype CaptureData = CaptureData(time: u32, properties: Properties) {

    ghost predicate Valid() {
      Sorted<blob, blob>(LexLess, properties)
    }

    function SetProperty(name: blob, value: blob): CaptureData {
      this.(properties := Put<blob, blob>(LexLess, properties, name, value, true))
    }

    /** A missing property reads as "0". */
    function GetProperty(name: blob): blob {
      match Lookup(properties, name)
      case Some(value) => value
      case None => [48]
    }

    function Encode(): bytes {
      EncU32(time) + EncU64(Trunc64(|properties|)) + EncAll(EncProperty, properties)
    }

    /** `Serialize(std::vector<char>&)` into a fresh vector. */
    method Serialize() returns (out: bytes)
      ensures out == Encode()
    {
      hide EncU32, EncU64, EncBlob, Overwrite;
      var archive := new DataArchive([]);
      archive.Write(EncU32(time));
      archive.Write(EncU64(Trunc64(|properties|)));
      for i := 0 to |properties|
        invariant archive.offset == |archive.data|
        invariant archive.data ==
                  EncU32(time) + EncU64(Trunc64(|properties|)) + EncAll(EncProperty, properties[..i])
      {
        archive.Write(EncBlob(properties[i].0));
        archive.Write(EncBlob(properties[i].1));
        EncAllAppend(EncProperty, properties[..i], properties[i]);
        assert properties[..i] + [properties[i]] == properties[..i + 1];
        assert EncProperty(properties[i]) == EncBlob(properties[i].0) + EncBlob(properties[i].1);
      }
      assert properties[..|properties|] == properties;
      out := archive.data;
    }
  }

  const EMPTY := CaptureData(0, [])

  function Decode(b: bytes, off: nat): Parsed<CaptureData> {
    var (time, o) :- DecU32(b, off);
    var (count, o) :- DecU64(b, o);
    var (pairs, o) :- DecAll(DecProperty, b, o, count);
    Parsed(CaptureData(time, PutAll<blob, blob>(LexLess, [], pairs, true)), o)
  }

  lemma PropertyRoundTrip(b: bytes, off: nat, p: (blob, blob))
    requires At(b, off, EncProperty(p))
    ensures DecProperty(b, off) == Parsed(p, off + |EncProperty(p)|)
  {
    hide At, EncBlob, DecBlob;
    AtConcat(b, off, EncBlob(p.0), EncBlob(p.1));
    BlobRoundTrip(b, off, p.0);
    BlobRoundTrip(b, off + |EncBlob(p.0)|, p.1);
  }

  /** Encoded capture data reads back as itself and the reader stops at its end. */
  lemma CaptureRoundTrip(b: bytes, off: nat, c: CaptureData)
    requires c.Valid() && |c.properties| < TWO_64
    requires At(b, off, c.Encode())
    ensures Decode(b, off) == Parsed(c, off + |c.Encode()|)
  {
    hide At, EncU32, EncU64, DecU32, DecU64, EncAll, DecAll;
    var t, n, ps := EncU32(c.time), EncU64(Trunc64(|c.properties|)), EncAll(EncProperty, c.properties);
    AtConcat(b, off, t + n, ps);
    AtConcat(b, off, t, n);
    U32RoundTrip(b, off, c.time);
    U64RoundTrip(b, off + 4, |c.properties|);
    forall a: bytes, o: nat, i: nat | i < |c.properties| && At(a, o, EncProperty(c.properties[i]))
      ensures DecProperty(a, o) == Parsed(c.properties[i], o + |EncProperty(c.properties[i])|)
    {
      PropertyRoundTrip(a, o, c.properties[i]);
    }
    AllRoundTrip(EncProperty, DecProperty, b, off + 12, c.properties);
    LexLessIsStrictOrder();
    PutAllSorted<blob, blob>(LexLess, c.properties, true);
  }

  lemma {:induction false} NotThere(m: seq<(blob, blob)>, name: blob)
    ensures (forall i :: 0 <= i < |m| ==> m[i].0 != name) ==> Lookup(m, name).None?
  {
    if m != [] && forall i :: 0 <= i < |m| ==> m[i].0 != name {
      assert m[0].0 != name && forall i :: 0 <= i < |m[1..]| ==> m[1..][i].0 != name;
      NotThere(m[1..], name);
    }
  }

  /** Setting a property changes what that name reads as, and nothing else. */
  lemma SetGet(c: CaptureData, name: blob, value: blob, other: blob)
    requires c.Valid()
    ensures c.SetProperty(name, value).Valid()
    ensures c.SetProperty(name, value).GetProperty(other) == if other == name then value else c.GetProperty(other)
    ensures (forall i :: 0 <= i < |c.properties| ==> c.properties[i].0 != other) ==> c.GetProperty(other) == ['0' as byte]
  {
    NotThere(c.properties, other);
    LexLessIsStrictOrder();
    PutCorrect<blob, blob>(LexLess, c.properties, name, value, true, other);
  }

  method ReadProperty(archive: DataArchive, first: blob, second: blob) returns (name: blob, value: blob)
    modifies archive`offset
    ensures DecProperty(archive.data, old(archive.offset)).Parsed? ==>
      Parsed((name, value), archive.offset) == DecProperty(archive.data, old(archive.offset))
  {
    name := archive.ReadBlob(first);
    value := archive.ReadBlob(second);
  }

  /** `Deserialize`: resets the object, then reads the archive; later duplicates win. */
  method Deserialize(input: bytes) returns (c: CaptureData)
    ensures Decode(input, 0).Parsed? ==> c == Decode(input, 0).value
  {
    hide DecU32, DecU64, DecBlob, DecProperty, Put;
    c := EMPTY;
    var archive := new DataArchive(input);
    var time := archive.ReadU32(c.time);
    var size := archive.ReadU64(|c.properties|);
    c := CaptureData(time, []);
    var first: blob, second: blob := [], [];
    ghost var start := archive.offset;
    ghost var ok := Decode(input, 0).Parsed?;
    ghost var pairs: Properties := [];
    for i := 0 to size
      invariant archive.data == input
      invariant c.time == time
      invariant ok ==> DecAll(DecProperty, input, start, i) == Parsed(pairs, archive.offset)
      invariant ok ==> c.properties == PutAll<blob, blob>(LexLess, [], pairs, true)
    {
      if ok {
        DecAllPrefix(DecProperty, input, start, i + 1, size);
        DecAllSnoc(DecProperty, input, start, i, pairs, archive.offset);
      }
      first, second := ReadProperty(archive, first, second);
      c := c.SetProperty(first, second);
      ghost var grown := pairs + [(first, second)];
      assert grown[..|grown| - 1] == pairs;
      pairs := grown;
    }
  }
}
