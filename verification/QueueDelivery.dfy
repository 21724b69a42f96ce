/**
 What the users of the flash queue rely on, in their own terms: a bounded FIFO of the samples as
 they were passed in.  Every reader gets a sample's description and words back exactly, and in
 flash they stand in a fixed byte format.  Records, headers and checksums do not occur in the
 reference.
*/
module QueueDelivery {

  import opened Words
  import opened RecordFormat
  import opened QueueLayout
  import opened FlashImage
  import opened CircularQueue
  import opened QueueRuns
  import Crc16

  /** A sample as the writer passes it in. */
  datatype Sample = Sample(slaveAddr: byte, startReg: word, registers: seq<word>, regCount: word, timestamp: dword)

  function SampleAt(q: seq<Sample>, i: nat, room: nat): Reply {
    if i >= |q| then Status(NotFound)
    else if room < |q[i].registers| then Status(InvalidSize)
    else Delivered(SampleMeta(q[i].timestamp, q[i].startReg, q[i].regCount, q[i].slaveAddr), q[i].registers)
  }

  function SampleReply(bound: nat, overwrite: bool, q: seq<Sample>, c: Call): Reply {
    match c
    case Enqueue(_, _, _, _, _) => Status(if |q| < bound || overwrite then Ok else NoMem)
    case Pop(room) => SampleAt(q, 0, room)
    case Peek(room) => SampleAt(q, 0, room)
    case PeekAt(index, room) => SampleAt(q, index, room)
    case Clear => Status(Ok)
  }

  function SampleNext(bound: nat, overwrite: bool, q: seq<Sample>, c: Call): seq<Sample> {
    match c
    case Enqueue(slaveAddr, startReg, registers, regCount, timestamp) =>
      var x := Sample(slaveAddr, startReg, registers, regCount, timestamp);
      if |q| < bound then q + [x] else if overwrite && q != [] then q[1..] + [x] else q
    case Pop(room) => if q != [] && |q[0].registers| <= room then q[1..] else q
    case Clear => []
    case _ => q
  }

  function SampleContents(bound: nat, overwrite: bool, calls: seq<Call>): seq<Sample> {
    if calls == [] then []
    else SampleNext(bound, overwrite, SampleContents(bound, overwrite, calls[..|calls| - 1]), calls[|calls| - 1])
  }

  function SampleReplies(bound: nat, overwrite: bool, calls: seq<Call>): (r: seq<Reply>)
    ensures |r| == |calls|
  {
    if calls == [] then []
    else
      var before := calls[..|calls| - 1];
      SampleReplies(bound, overwrite, before)
      + [SampleReply(bound, overwrite, SampleContents(bound, overwrite, before), calls[|calls| - 1])]
  }

  // ---------------------------------------------------------------- records stand for samples

  ghost predicate Stands(r: Record, x: Sample) {
    && r.timestamp == x.timestamp && r.startReg == x.startReg && r.regCount == x.regCount
    && r.slaveAddr == x.slaveAddr && r.registers == x.registers && |x.registers| == Count(x.regCount) && r.Intact()
  }

  ghost predicate Holds(q: seq<Record>, w: seq<Sample>) {
    |q| == |w| && forall i :: 0 <= i < |q| ==> Stands(q[i], w[i])
  }

  lemma ReadingIsExact(q: seq<Record>, w: seq<Sample>, i: nat, room: nat)
    requires Holds(q, w)
    ensures Reading(q, i, room) == SampleAt(w, i, room)
  {
    hide Record.Intact, Count;
    if i < |q| {
      assert Stands(q[i], w[i]);
    }
  }

  lemma NewRecordStands(slaveAddr: byte, startReg: word, registers: seq<word>, regCount: word, timestamp: dword)
    requires |registers| == Count(regCount)
    ensures Stands(NewRecord(slaveAddr, startReg, registers, regCount, timestamp),
                   Sample(slaveAddr, startReg, registers, regCount, timestamp))
  {
    hide Crc16.Checksum, Count, WordsToBytes;
  }

  lemma CallIsExact(g: Geometry, overwrite: bool, q: seq<Record>, w: seq<Sample>, c: Call)
    requires Holds(q, w) && Uniform(g, c) && 0 < g.Slots()
    ensures FifoReply(g, overwrite, q, c) == SampleReply(g.Slots(), overwrite, w, c)
    ensures Holds(FifoNext(g, overwrite, q, c), SampleNext(g.Slots(), overwrite, w, c))
  {
    hide Geometry.Slots, Reading, SampleAt, Count, NewRecord, Stands;
    match c {
      case Enqueue(slaveAddr, startReg, registers, regCount, timestamp) =>
        NewRecordStands(slaveAddr, startReg, registers, regCount, timestamp);
      case Pop(room) =>
        ReadingIsExact(q, w, 0, room);
        if q != [] {
          StandsInSize(q[0], w[0]);
        }
      case Peek(room) => ReadingIsExact(q, w, 0, room);
      case PeekAt(index, room) => ReadingIsExact(q, w, index, room);
      case Clear =>
    }
  }

  lemma StandsInSize(r: Record, x: Sample)
    requires Stands(r, x)
    ensures Count(r.regCount) == |x.registers|
  {
  }

  lemma {:induction false} RunIsExact(g: Geometry, overwrite: bool, calls: seq<Call>)
    requires 0 < g.Slots() && forall k :: 0 <= k < |calls| ==> Uniform(g, calls[k])
    ensures FifoReplies(g, overwrite, [], calls) == SampleReplies(g.Slots(), overwrite, calls)
    ensures Holds(FifoContents(g, overwrite, [], calls), SampleContents(g.Slots(), overwrite, calls))
  {
    hide Geometry.Slots, FifoReply, FifoNext, SampleReply, SampleNext, Uniform, Stands;
    if calls != [] {
      var n := |calls| - 1;
      RunIsExact(g, overwrite, calls[..n]);
      CallIsExact(g, overwrite, FifoContents(g, overwrite, [], calls[..n]),
                  SampleContents(g.Slots(), overwrite, calls[..n]), calls[n]);
    }
  }

  // ---------------------------------------------------------------- the queue delivers what it was given

  /** What a sample of so many words takes in the file. */
  function SizeOf(words: nat): pos {
    16 + 2 * words
  }

  function HowMany(capacity: nat, size: pos): nat {
    capacity / size
  }

  /** The condition on the file size, in bytes. */
  ghost predicate Workable(g: Geometry) {
    var size := SizeOf(Count(g.regCount));
    && 0 < Count(g.regCount) <= g.maxRegisters && size <= g.capacity && g.size == size
    && (g.capacity % size == 0 || g.capacity % size >= 16)
  }

  /** How many samples of its size the file has room for. */
  function Places(g: Geometry): nat {
    HowMany(g.capacity, SizeOf(Count(g.regCount)))
  }

  lemma WorkableIsSound(g: Geometry)
    requires Workable(g)
    ensures Sound(g) && g.Slots() == Places(g) && 0 < g.Slots()
  {
    hide Count;
    LayoutFacts(g);
  }

  /**
   From a first start, every run of calls on samples of one size is answered as by a FIFO of
   floor(C / (16 + 2 * words)) samples: a pop or peek that has the room gets exactly the arguments of
   the enqueue call whose turn it is, and no record is ever reported as damaged.
  */
  method RunFromFirstStart(g: Geometry, overwrite: bool, calls: seq<Call>) returns (replies: seq<Reply>)
    requires Workable(g) && HEADER_BYTES < g.capacity <= MAX_CAPACITY
    requires forall k :: 0 <= k < |calls| ==> Uniform(g, calls[k])
    ensures replies == SampleReplies(Places(g), overwrite, calls)
  {
    hide Matches, Geometry.Slots, Geometry.Rest, Uniform, FifoReplies, SampleReplies, FifoContents, Count,
      SafeCall, Stuck, History, Marked, Places;
    WorkableIsSound(g);
    var c := FirstStart(g, overwrite);
    ghost var marks;
    replies, marks := Run(c, calls);
    RunIsExact(g, overwrite, calls);
  }

  // ---------------------------------------------------------------- the bytes of a sample

  lemma TailOfRoom(g: Geometry, m: Meta, s: Shape, n: nat)
    requires Counters(g, m, s, n) && n < g.Slots()
    ensures SlotOf(g, EnqueuedShape(g, s, false), n) == if s.t == g.Slots() then 0 else s.t
    ensures m.tail == g.At(s.t)
  {
  }

  lemma RecordIsThere(g: Geometry, d: Disk, s: Shape, q: seq<Record>, i: nat)
    requires Matches(g, d, s, q) && i < |q|
    ensures g.At(SlotOf(g, s, i)) + g.size <= |d.data| && q[i].Valid()
    ensures d.data[g.At(SlotOf(g, s, i))..g.At(SlotOf(g, s, i)) + g.size] == Encode(q[i])
  {
    assert RecordAt(g, d.data, SlotOf(g, s, i), q[i]);
  }

  /**
   What an enqueue with room leaves in the data file: at the old tail, or at the start if the lap had to
   be closed, the sample in the packed little-endian format, with the checksum of its words.
  */
  method EnqueueWritesSample(c: CircularQueue, x: Sample) returns (err: Esp, ghost at: nat)
    requires c.Rep() && !c.Full() && x.regCount == c.geo.regCount && |x.registers| == Count(x.regCount)
    modifies c
    ensures c.Rep() && err == Ok
    ensures at == (if old(c.meta.tail) + 16 + 2 * |x.registers| <= c.capacity then old(c.meta.tail) else 0)
    ensures at + 16 + 2 * |x.registers| <= |c.data|
    ensures SampleBytes(c.data[at..at + 16 + 2 * |x.registers|], x.timestamp, x.startReg, x.regCount, x.slaveAddr,
                        Crc16.Checksum(WordsToBytes(x.registers)), x.registers)
  {
    hide Matches, Geometry.Slots, Geometry.At, SafeSteps, Stuck, Crc16.Checksum, WordsToBytes, EnqueuedShape,
      SampleBytes, Count, History, Safe, Encode, NewRecord;
    ghost var q, s := c.contents, c.shape;
    RepSize(c.geo, Disk(c.data, c.meta), s, q);
    TailFits(c.geo, Disk(c.data, c.meta), s, q);
    err := c.Enqueue(x.slaveAddr, x.startReg, x.registers, x.regCount, x.timestamp);
    RecordIsThere(c.geo, Disk(c.data, c.meta), c.shape, c.contents, |q|);
    NewRecordStands(x.slaveAddr, x.startReg, x.registers, x.regCount, x.timestamp);
    assert c.contents[|q|] == NewRecord(x.slaveAddr, x.startReg, x.registers, x.regCount, x.timestamp);
    RecordIsPacked(c.contents[|q|]);
    at := c.geo.At(SlotOf(c.geo, c.shape, |q|));
  }

  lemma TailFits(g: Geometry, d: Disk, s: Shape, q: seq<Record>)
    requires Matches(g, d, s, q) && |q| < g.Slots()
    ensures d.meta.tail + g.size <= g.capacity <==> s.t < g.Slots()
    ensures g.At(SlotOf(g, EnqueuedShape(g, s, false), |q|))
         == if d.meta.tail + g.size <= g.capacity then d.meta.tail else 0
  {
    hide Geometry.Slots, Geometry.At, Stored, EnqueuedShape;
    FreeBytes(g, d, s, q);
    LayoutFacts(g);
    TailOfRoom(g, d.meta, s, |q|);
  }
}
