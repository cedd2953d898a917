/** A network packet: a type, a length, and a payload that is written at its end and read from its
    start. */
module Packet {
  import opened Bytes

  const HEADER_SIZE: nat := 5
  const LENGTH_OFFSET: nat := 1
  const UNKNOWN: byte := 3

  // --- values -------------------------------------------------------------------------------

  datatype Buffer = Buffer(data: bytes, read: nat, write: nat)

  function SetLength(data: bytes): bytes {
    Overwrite(data, LENGTH_OFFSET, EncU32(Trunc32(|data|)))
  }

  function Init(packetType: byte): Buffer {
    var blank: bytes := [packetType, 0, 0, 0, 0];
    Buffer(SetLength(blank), HEADER_SIZE, HEADER_SIZE)
  }

  /** Nothing is written, and false returned, for no bytes. */
  function Write(p: Buffer, x: bytes): (Buffer, bool) {
    if x == [] then (p, false)
    else (Buffer(SetLength(Overwrite(p.data, p.write, x)), p.read, p.write + |x|), true)
  }

  /** No bytes when the read fails. */
  function Read(p: Buffer, n: nat): (Buffer, bytes) {
    if n == 0 || p.read + n > |p.data| then (p, [])
    else (p.(read := p.read + n), p.data[p.read..p.read + n])
  }

  function Payload(p: Buffer): bytes {
    if HEADER_SIZE <= |p.data| then p.data[HEADER_SIZE..] else []
  }

  /** The length field holds the size of the buffer, writing goes on at its end, and reading stays
      inside the payload. */
  ghost predicate Sound(p: Buffer) {
    && p.write == |p.data| && HEADER_SIZE <= p.read <= |p.data|
    && DecU32(p.data, LENGTH_OFFSET) == Parsed(Trunc32(|p.data|), LENGTH_OFFSET + 4)
  }

  lemma LengthSet(data: bytes)
    requires |data| >= HEADER_SIZE
    ensures |SetLength(data)| == |data| && SetLength(data)[HEADER_SIZE..] == data[HEADER_SIZE..]
    ensures SetLength(data)[0] == data[0]
    ensures DecU32(SetLength(data), LENGTH_OFFSET) == Parsed(Trunc32(|data|), LENGTH_OFFSET + 4)
  {
    hide EncU32, DecU32, Overwrite;
    OverwriteEffect(data, LENGTH_OFFSET, EncU32(Trunc32(|data|)));
    U32RoundTrip(SetLength(data), LENGTH_OFFSET, Trunc32(|data|));
    assert SetLength(data)[0] == SetLength(data)[..LENGTH_OFFSET][0] == data[..LENGTH_OFFSET][0];
  }

  lemma InitSound(packetType: byte)
    ensures Sound(Init(packetType)) && Payload(Init(packetType)) == [] && Init(packetType).data[0] == packetType
  {
    hide SetLength, DecU32;
    LengthSet([packetType, 0, 0, 0, 0]);
  }

  /** A write appends to the payload and keeps the packet sound; it fails for no bytes alone. */
  lemma WriteAppends(p: Buffer, x: bytes)
    requires Sound(p)
    ensures var (q, ok) := Write(p, x);
      && Sound(q) && Payload(q) == Payload(p) + x && q.read == p.read && (ok <==> x != [])
      && q.data[0] == p.data[0]
  {
    hide SetLength, DecU32;
    if x != [] {
      var grown := Overwrite(p.data, p.write, x);
      assert grown == p.data + x;
      LengthSet(grown);
      assert grown[HEADER_SIZE..] == p.data[HEADER_SIZE..] + x;
    } else {
      assert Payload(p) + x == Payload(p);
    }
  }

  /** A read delivers the next bytes of the payload or, when there are too few or none are asked
      for, nothing, and then the packet is as before. */
  lemma ReadDelivers(p: Buffer, n: nat)
    requires Sound(p)
    ensures var (q, x) := Read(p, n);
      var at := p.read - HEADER_SIZE;
      && Sound(q) && Payload(q) == Payload(p)
      && (0 < n <= |Payload(p)| - at ==> x == Payload(p)[at..at + n] && q.read == p.read + n)
      && (n == 0 || n > |Payload(p)| - at ==> x == [] && q == p)
  {
    hide DecU32;
  }

  // --- runs ---------------------------------------------------------------------------------------

  datatype Op = OpWrite(x: bytes) | OpRead(n: nat)

  /** What a run of calls has written, what it has read, and the packet after it. */
  datatype Trace = Trace(packet: Buffer, written: bytes, delivered: bytes)

  function Step(t: Trace, op: Op): Trace {
    match op
    case OpWrite(x) => t.(packet := Write(t.packet, x).0, written := t.written + x)
    case OpRead(n) => t.(packet := Read(t.packet, n).0, delivered := t.delivered + Read(t.packet, n).1)
  }

  function Run(packetType: byte, ops: seq<Op>): Trace {
    if ops == [] then Trace(Init(packetType), [], [])
    else Step(Run(packetType, ops[..|ops| - 1]), ops[|ops| - 1])
  }

  /** First in, first out: however writes and reads are interleaved, the payload is what was
      written, and what has been read is the part of it up to the read pointer. */
  lemma {:induction false} Fifo(packetType: byte, ops: seq<Op>)
    ensures var t := Run(packetType, ops);
      && Sound(t.packet) && Payload(t.packet) == t.written && t.packet.data[0] == packetType
      && t.delivered == t.written[..t.packet.read - HEADER_SIZE]
  {
    hide Write, Read, Sound, Payload, Init;
    if ops == [] {
      InitSound(packetType);
      InitRead(packetType);
    } else {
      var before := Run(packetType, ops[..|ops| - 1]);
      Fifo(packetType, ops[..|ops| - 1]);
      ReadInside(before.packet);
      match ops[|ops| - 1]
      case OpWrite(x) => WriteAppends(before.packet, x);
      case OpRead(n) =>
        ReadDelivers(before.packet, n);
        ReadKeepsData(before.packet, n);
        ReadInside(Read(before.packet, n).0);
        var at := before.packet.read - HEADER_SIZE;
        if 0 < n <= |before.written| - at {
          assert before.written[..at + n] == before.written[..at] + before.written[at..at + n];
        }
    }
  }

  lemma InitRead(packetType: byte)
    ensures Init(packetType).read == HEADER_SIZE
  {
  }

  lemma ReadInside(p: Buffer)
    requires Sound(p)
    ensures HEADER_SIZE <= p.read <= |p.data| && |Payload(p)| == |p.data| - HEADER_SIZE
  {
  }

  lemma ReadKeepsData(p: Buffer, n: nat)
    ensures Read(p, n).0.data == p.data
  {
  }

  /** Reading the same sizes back. */
  function Writes(chunks: seq<bytes>): seq<Op> {
    if chunks == [] then [] else Writes(chunks[..|chunks| - 1]) + [OpWrite(chunks[|chunks| - 1])]
  }

  function Concat(chunks: seq<bytes>): bytes {
    if chunks == [] then [] else Concat(chunks[..|chunks| - 1]) + chunks[|chunks| - 1]
  }

  function ReadAll(p: Buffer, sizes: seq<nat>): (Buffer, seq<bytes>) {
    if sizes == [] then (p, [])
    else
      var before := ReadAll(p, sizes[..|sizes| - 1]);
      var last := Read(before.0, sizes[|sizes| - 1]);
      (last.0, before.1 + [last.1])
  }

  function Sizes(chunks: seq<bytes>): seq<nat> {
    seq(|chunks|, i requires 0 <= i < |chunks| => |chunks[i]|)
  }

  lemma {:induction false} WritesConcat(packetType: byte, chunks: seq<bytes>)
    ensures Run(packetType, Writes(chunks)).written == Concat(chunks)
    ensures Run(packetType, Writes(chunks)).packet.read == HEADER_SIZE
  {
    hide Overwrite, SetLength;
    if chunks != [] {
      var n := |chunks| - 1;
      WritesConcat(packetType, chunks[..n]);
      var ops := Writes(chunks);
      assert ops[..|ops| - 1] == Writes(chunks[..n]);
    }
  }

  lemma {:induction false} ReadsConcat(p: Buffer, chunks: seq<bytes>, rest: bytes)
    requires Sound(p) && p.read == HEADER_SIZE && Payload(p) == Concat(chunks) + rest
    requires forall i :: 0 <= i < |chunks| ==> chunks[i] != []
    ensures var r := ReadAll(p, Sizes(chunks));
      r.1 == chunks && Sound(r.0) && Payload(r.0) == Payload(p) && r.0.read == HEADER_SIZE + |Concat(chunks)|
    decreases |chunks|
  {
    hide Sound, Payload, Read;
    if chunks != [] {
      var n := |chunks| - 1;
      var last := chunks[n];
      assert Sizes(chunks)[..n] == Sizes(chunks[..n]);
      assert Concat(chunks) + rest == Concat(chunks[..n]) + (last + rest);
      ReadsConcat(p, chunks[..n], last + rest);
      var before := ReadAll(p, Sizes(chunks[..n])).0;
      ReadDelivers(before, |last|);
      var at := |Concat(chunks[..n])|;
      assert Payload(p)[at..at + |last|] == last;
      assert chunks == chunks[..n] + [last];
    }
  }

  /** Non-empty chunks come back in order, one by one, and then nothing more does. */
  lemma ChunksComeBack(packetType: byte, chunks: seq<bytes>, n: nat)
    requires forall i :: 0 <= i < |chunks| ==> chunks[i] != []
    ensures var r := ReadAll(Run(packetType, Writes(chunks)).packet, Sizes(chunks));
      r.1 == chunks && Read(r.0, n) == (r.0, [])
  {
    hide Sound, Payload, Read, Sizes, Run;
    var p := Run(packetType, Writes(chunks)).packet;
    Fifo(packetType, Writes(chunks));
    WritesConcat(packetType, chunks);
    assert Concat(chunks) + [] == Concat(chunks);
    ReadsConcat(p, chunks, []);
    var r := ReadAll(p, Sizes(chunks));
    ReadInside(r.0);
    ReadDelivers(r.0, n);
  }

  // --- the packet in place ---------------------------------------------------------------------------

  class NetworkPacket {
    var data: bytes
    var readPointer: nat
    var writePointer: nat

    function View(): Buffer
      reads this
    {
      Buffer(data, readPointer, writePointer)
    }

    constructor (packetType: byte)
      ensures View() == Init(packetType)
    {
      var blank: bytes := [packetType, 0, 0, 0, 0];
      data, readPointer, writePointer := SetLength(blank), HEADER_SIZE, HEADER_SIZE;
    }

    method Store(x: bytes) returns (ok: bool)
      requires Sound(View())
      modifies this
      ensures (View(), ok) == Write(old(View()), x) && Sound(View())
    {
      hide SetLength, Overwrite;
      WriteAppends(View(), x);
      if x == [] {
        return false;
      }
      data := Overwrite(data, writePointer, x);
      writePointer := writePointer + |x|;
      data := SetLength(data);
      ok := true;
    }

    method Fetch(n: nat) returns (x: bytes)
      requires Sound(View())
      modifies this`readPointer
      ensures (View(), x) == Read(old(View()), n) && Sound(View())
    {
      ReadDelivers(View(), n);
      if n == 0 || readPointer + n > |data| {
        return [];
      }
      x := data[readPointer..readPointer + n];
      readPointer := readPointer + n;
    }

    /** The packet starts anew with an unknown type, its contents are handed over. */
    method Release() returns (res: bytes)
      modifies this
      ensures res == old(data) && View() == Init(UNKNOWN)
    {
      res := data;
      var blank: bytes := [UNKNOWN, 0, 0, 0, 0];
      data, readPointer, writePointer := SetLength(blank), HEADER_SIZE, HEADER_SIZE;
    }
  }
}
