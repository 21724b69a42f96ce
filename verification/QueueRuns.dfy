/**
 What the flash queue does over whole runs: every sequence of calls, with any
 single-record-size traffic, answers as a bounded FIFO; interrupted writes lose at
 most the record being moved; damaged payloads are reported; and the one family of
 file sizes for which the queue stops working is worked out exactly.
*/
module QueueRuns {

  import opened Words
  import opened RecordFormat
  import opened QueueLayout
  import opened FlashImage
  import opened CircularQueue
  import BoundedFifo
  import Crc16

  /** The bytes behind the last slot hold a marker, or there are none. */
  predicate Sound(g: Geometry) {
    g.Fits() && (g.Rest() == 0 || HEADER_BYTES <= g.Rest())
  }

  lemma SoundIsNeverBlocked(g: Geometry, d: Disk, s: Shape, q: seq<Record>)
    requires Sound(g) && Matches(g, d, s, q)
    ensures !Stuck(g.capacity, d.meta)
  {
    hide Matches, Geometry.Rest, Geometry.Slots;
    MatchesIsSafe(g, d, s, q);
    if q != [] {
      HeadCases(g, d, s, q);
    }
  }

  /** Both register maps in use give sound sizes: 120 records of 1084 words, 4096 records of 24. */
  lemma ShippedSizesAreSound(maxRegisters: nat)
    requires 1084 <= maxRegisters
    ensures var full := Geometry(262144, 2184, 1084, maxRegisters); Sound(full) && full.Slots() == 120
    ensures var small := Geometry(262144, 64, 24, maxRegisters); Sound(small) && small.Slots() == 4096
  {
  }

  // ---------------------------------------------------------------- runs

  datatype Call =
    | Enqueue(slaveAddr: byte, startReg: word, registers: seq<word>, regCount: word, timestamp: dword)
    | Pop(room: nat)
    | Peek(room: nat)
    | PeekAt(index: nat, room: nat)
    | Clear

  datatype Reply = Status(err: Esp) | Delivered(sample: SampleMeta, registers: seq<word>)

  predicate Uniform(g: Geometry, c: Call) {
    c.Enqueue? ==> c.regCount == g.regCount && |c.registers| == Count(c.regCount)
  }

  function Reading(q: seq<Record>, index: nat, room: nat): Reply {
    if index >= |q| then Status(NotFound)
    else if ReadOutcome(q[index], room) != Ok then Status(ReadOutcome(q[index], room))
    else Delivered(MetaOf(q[index]), q[index].registers)
  }

  /** The bounded FIFO's answer to one call. */
  function FifoReply(g: Geometry, overwrite: bool, q: seq<Record>, c: Call): Reply {
    match c
    case Enqueue(_, _, _, _, _) => Status(if |q| < g.Slots() || overwrite then Ok else NoMem)
    case Pop(room) => Reading(q, 0, room)
    case Peek(room) => Reading(q, 0, room)
    case PeekAt(index, room) => Reading(q, index, room)
    case Clear => Status(Ok)
  }

  /** The bounded FIFO's contents after one call. */
  function FifoNext(g: Geometry, overwrite: bool, q: seq<Record>, c: Call): seq<Record>
    requires 0 < g.Slots()
  {
    match c
    case Enqueue(slaveAddr, startReg, registers, regCount, timestamp) =>
      BoundedFifo.Offer(q, NewRecord(slaveAddr, startReg, registers, regCount, timestamp), g.Slots(), overwrite)
    case Pop(room) =>
      if q != [] && Count(q[0].regCount) <= room then q[1..] else q
    case Clear => []
    case _ => q
  }

  function FifoContents(g: Geometry, overwrite: bool, q: seq<Record>, calls: seq<Call>): seq<Record>
    requires 0 < g.Slots()
  {
    if calls == [] then q
    else FifoNext(g, overwrite, FifoContents(g, overwrite, q, calls[..|calls| - 1]), calls[|calls| - 1])
  }

  function FifoReplies(g: Geometry, overwrite: bool, q: seq<Record>, calls: seq<Call>): (r: seq<Reply>)
    requires 0 < g.Slots()
    ensures |r| == |calls|
  {
    if calls == [] then []
    else
      var before := calls[..|calls| - 1];
      FifoReplies(g, overwrite, q, before)
      + [FifoReply(g, overwrite, FifoContents(g, overwrite, q, before), calls[|calls| - 1])]
  }

  /**
   The queues a restart may find when power fails during a call: the one before it, the one after
   it, and, when an enqueue evicts, the one between the eviction and the append.
  */
  function CrashOutcomes(g: Geometry, overwrite: bool, q: seq<Record>, c: Call): set<seq<Record>>
    requires 0 < g.Slots()
  {
    {q, FifoNext(g, overwrite, q, c)} + if c.Enqueue? && |q| >= g.Slots() && overwrite then {q[1..]} else {}
  }

  /** What a queue answers whose head cannot be read. */
  function StandstillReply(overwrite: bool, q: seq<Record>, c: Call): Reply {
    match c
    case Enqueue(_, _, _, _, _) => Status(if overwrite then InvalidSize else NoMem)
    case Pop(_) => Status(InvalidSize)
    case Peek(_) => Status(InvalidSize)
    case PeekAt(index, _) => Status(if index < |q| then InvalidSize else NotFound)
    case Clear => Status(Ok)
  }

  /**
   One call on the queue in flash.  While the head is readable it is the bounded FIFO's call, and
   clearing always is; on a stuck queue every other call fails and leaves flash and counters alone.
  */
  method Perform(c: CircularQueue, call: Call) returns (reply: Reply)
    requires c.Rep() && Uniform(c.geo, call) && 0 < c.geo.Slots()
    modifies c
    ensures c.Rep() && old(c.log) <= c.log
    ensures !old(c.Blocked()) || call.Clear? ==>
      && reply == FifoReply(c.geo, c.overwriteOldest, old(c.contents), call)
      && c.contents == FifoNext(c.geo, c.overwriteOldest, old(c.contents), call)
      && SafeSteps(c.geo, c.log, |old(c.log)|, CrashOutcomes(c.geo, c.overwriteOldest, old(c.contents), call))
    ensures old(c.Blocked()) && !call.Clear? ==>
      && reply == StandstillReply(c.overwriteOldest, c.contents, call)
      && c.contents == old(c.contents) && c.log == old(c.log)
      && c.meta == old(c.meta) && c.data == old(c.data) && c.file == old(c.file)
  {
    hide Matches, SafeSteps, Count, Geometry.Slots, Stuck, NewRecord, Geometry.Fits;
    ghost var q, stuck := c.contents, c.Blocked();
    BlockedMeansFull(c.geo, Disk(c.data, c.meta), c.shape, q);
    RepSize(c.geo, Disk(c.data, c.meta), c.shape, q);
    var err, sample, registers := Ok, SampleMeta(0, 0, 0, 0), [];
    match call {
      case Enqueue(slaveAddr, startReg, regs, regCount, timestamp) =>
        err := c.Enqueue(slaveAddr, startReg, regs, regCount, timestamp);
        reply := Status(err);
      case Pop(room) =>
        err, sample, registers := c.Pop(room);
        reply := if err == Ok then Delivered(sample, registers) else Status(err);
      case Peek(room) =>
        err, sample, registers := c.Peek(room);
        reply := if err == Ok then Delivered(sample, registers) else Status(err);
      case PeekAt(index, room) =>
        err, sample, registers := c.PeekAt(index, room);
        reply := if err == Ok then Delivered(sample, registers) else Status(err);
      case Clear =>
        err := c.Clear();
        reply := Status(err);
    }
    ghost var outcomes := if call.Enqueue? && |q| >= c.geo.Slots() && err == Ok then {q, Rest(q), c.contents}
                          else {q, c.contents};
    if !stuck || call.Clear? {
      SafeStepsWiden(c.geo, c.log, |old(c.log)|, outcomes, CrashOutcomes(c.geo, c.overwriteOldest, q, call));
    }
  }

  lemma BlockedMeansFull(g: Geometry, d: Disk, s: Shape, q: seq<Record>)
    requires Matches(g, d, s, q)
    ensures Stuck(g.capacity, d.meta) ==> q != [] && |q| == g.Slots()
  {
    hide Matches, Geometry.Slots;
    MatchesIsSafe(g, d, s, q);
    if q != [] {
      NotStuckUnlessFull(g, d, s, q);
    }
  }

  /** Under the side condition on the file size every call is the bounded FIFO's. */
  method PerformAsFifo(c: CircularQueue, call: Call) returns (reply: Reply)
    requires c.Rep() && Sound(c.geo) && Uniform(c.geo, call) && 0 < c.geo.Slots()
    modifies c
    ensures c.Rep() && old(c.log) <= c.log
    ensures reply == FifoReply(c.geo, c.overwriteOldest, old(c.contents), call)
    ensures c.contents == FifoNext(c.geo, c.overwriteOldest, old(c.contents), call)
    ensures SafeSteps(c.geo, c.log, |old(c.log)|, CrashOutcomes(c.geo, c.overwriteOldest, old(c.contents), call))
  {
    hide Matches, SafeSteps, Geometry.Slots, Geometry.Rest, Stuck, FifoReply, FifoNext, CrashOutcomes, Uniform;
    SoundIsNeverBlocked(c.geo, Disk(c.data, c.meta), c.shape, c.contents);
    reply := Perform(c, call);
  }

  /** The writes of call `k` of a run lie between `marks[k]` and `marks[k + 1]`, in the order of the calls. */
  ghost predicate Marked(marks: seq<nat>, from: nat, to: nat) {
    && marks != [] && marks[0] == from && marks[|marks| - 1] == to
    && forall k :: 0 <= k < |marks| - 1 ==> marks[k] <= marks[k + 1]
  }

  /** Every write of call `k` leaves, if interrupted, what a crash during that very call may leave. */
  ghost predicate SafeCall(g: Geometry, overwrite: bool, q: seq<Record>, calls: seq<Call>, k: nat,
      log: seq<Step>, from: nat, to: nat)
    requires 0 < g.Slots() && k < |calls|
  {
    forall w :: from <= w < to && w < |log| ==>
      SafeStep(g, log[w], CrashOutcomes(g, overwrite, FifoContents(g, overwrite, q, calls[..k]), calls[k]))
  }

  /**
   Every run of calls answers as the bounded FIFO of capacity / record-size places, from any
   representable start.  The log is the complete history of flash; `marks` divides it among the
   calls; and if power fails in a write of call k, a restart finds the FIFO's contents before or
   after call k, or between its eviction and its append.
  */
  method Run(c: CircularQueue, calls: seq<Call>) returns (replies: seq<Reply>, ghost marks: seq<nat>)
    requires c.Rep() && Sound(c.geo) && 0 < c.geo.Slots()
    requires forall k :: 0 <= k < |calls| ==> Uniform(c.geo, calls[k])
    modifies c
    ensures c.Rep() && old(c.log) <= c.log && History(c.origin, c.log, Image(c.data, c.file))
    ensures replies == FifoReplies(c.geo, c.overwriteOldest, old(c.contents), calls)
    ensures c.contents == FifoContents(c.geo, c.overwriteOldest, old(c.contents), calls)
    ensures |marks| == |calls| + 1 && Marked(marks, |old(c.log)|, |c.log|)
    ensures forall k :: 0 <= k < |calls| ==>
      SafeCall(c.geo, c.overwriteOldest, old(c.contents), calls, k, c.log, marks[k], marks[k + 1])
  {
    hide Matches, Geometry.Slots, Geometry.Rest, Uniform, FifoReply, FifoNext, SafeStep, CrashOutcomes, Stuck, History;
    replies, marks := [], [|c.log|];
    for k := 0 to |calls|
      invariant c.Rep() && old(c.log) <= c.log
      invariant replies == FifoReplies(c.geo, c.overwriteOldest, old(c.contents), calls[..k])
      invariant c.contents == FifoContents(c.geo, c.overwriteOldest, old(c.contents), calls[..k])
      invariant |marks| == k + 1 && Marked(marks, |old(c.log)|, |c.log|)
      invariant forall i :: 0 <= i < k ==>
        SafeCall(c.geo, c.overwriteOldest, old(c.contents), calls, i, c.log, marks[i], marks[i + 1])
    {
      ghost var sofar, before := c.log, marks;
      assert calls[..k + 1][..k] == calls[..k];
      var reply := PerformAsFifo(c, calls[k]);
      replies, marks := replies + [reply], marks + [|c.log|];
      MarksGrow(before, |old(c.log)|, |sofar|, |c.log|);
      forall i | 0 <= i < k
        ensures SafeCall(c.geo, c.overwriteOldest, old(c.contents), calls, i, c.log, marks[i], marks[i + 1])
      {
        MarkBelow(before, |old(c.log)|, |sofar|, i + 1);
        SafeCallLater(c.geo, c.overwriteOldest, old(c.contents), calls, i, sofar, c.log, before[i], before[i + 1]);
      }
    }
    assert calls[..|calls|] == calls;
  }

  lemma MarksGrow(marks: seq<nat>, from: nat, to: nat, to': nat)
    requires Marked(marks, from, to) && to <= to'
    ensures Marked(marks + [to'], from, to')
  {
  }

  lemma {:induction false} MarkBelow(marks: seq<nat>, from: nat, to: nat, k: nat)
    requires Marked(marks, from, to) && k < |marks|
    ensures marks[k] <= to
    decreases |marks| - k
  {
    if k < |marks| - 1 {
      MarkBelow(marks, from, to, k + 1);
    }
  }

  lemma SafeCallLater(g: Geometry, overwrite: bool, q: seq<Record>, calls: seq<Call>, k: nat,
      log: seq<Step>, log': seq<Step>, from: nat, to: nat)
    requires 0 < g.Slots() && k < |calls| && log <= log' && to <= |log|
    requires SafeCall(g, overwrite, q, calls, k, log, from, to)
    ensures SafeCall(g, overwrite, q, calls, k, log', from, to)
  {
    hide SafeStep, CrashOutcomes, FifoContents, Geometry.Slots;
  }

  // ---------------------------------------------------------------- start-up and power failures

  /** A first start, with no files, finds an empty queue. */
  lemma FreshFlashIsEmpty(g: Geometry)
    requires g.Fits()
    ensures Represents(g, Recovered(g.capacity, Image([], Missing)), [])
  {
    hide Matches, Geometry.Slots, Geometry.At;
    var data := LoadedData(g.capacity, []);
    ZeroFileIsBlank(g.capacity, [], g.At(g.Slots()) + HEADER_BYTES);
    EmptyMatches(g, data);
    assert Matches(g, Disk(data, EMPTY_META), Shape(0, 0, false, false), []);
  }

  /** The first start of all. */
  method FirstStart(g: Geometry, overwriteOldest: bool) returns (c: CircularQueue)
    requires g.Fits() && HEADER_BYTES < g.capacity <= MAX_CAPACITY
    ensures fresh(c) && c.Rep() && c.geo == g && c.overwriteOldest == overwriteOldest
    ensures c.contents == [] && c.meta == EMPTY_META
  {
    hide Matches, Geometry.Slots, LoadedData, GapIsBlank, History;
    FreshFlashIsEmpty(g);
    c := new CircularQueue(g.capacity, g.maxRegisters, overwriteOldest, Image([], Missing), g);
  }

  lemma ZeroFileIsBlank(capacity: nat, found: seq<byte>, offset: nat)
    requires |found| != capacity
    ensures GapIsBlank(LoadedData(capacity, found), offset)
  {
    hide DecodeHeader;
    var data := LoadedData(capacity, found);
    if offset + HEADER_BYTES <= |data| {
      var b := data[offset..offset + HEADER_BYTES];
      assert b[0] == data[offset] && b[1] == data[offset + 1] && b[2] == data[offset + 2] && b[3] == data[offset + 3];
      ZeroBytesAreNoMagic(b);
    }
  }

  lemma ZeroBytesAreNoMagic(b: seq<byte>)
    requires |b| == HEADER_BYTES && b[0] == 0 && b[1] == 0 && b[2] == 0 && b[3] == 0
    ensures DecodeHeader(b).magic == 0
  {
  }

  /**
   Metadata of another format, version or file size is not taken over: the queue starts empty, and in
   a data file that had to be created it is empty in every respect.
  */
  lemma ForeignMetadataStartsEmpty(g: Geometry, img: Image)
    requires g.Fits()
    requires img.file.Whole? ==>
      img.file.magic != 0x4D455441 || img.file.version != 1 || img.file.capacity != g.capacity
    ensures Recovered(g.capacity, img).meta == Meta(0, 0, 0, 0)
    ensures |img.data| != g.capacity ==> Represents(g, Recovered(g.capacity, img), [])
  {
    hide Matches, Geometry.Slots, Geometry.At;
    if |img.data| != g.capacity {
      var data := LoadedData(g.capacity, img.data);
      ZeroFileIsBlank(g.capacity, img.data, g.At(g.Slots()) + HEADER_BYTES);
      EmptyMatches(g, data);
      assert Matches(g, Disk(data, EMPTY_META), Shape(0, 0, false, false), []);
    }
  }

  /** A torn write, as far as it got, is among the images a power failure can leave. */
  lemma TornWriteIsCrash(before: Image, offset: nat, bytes: seq<byte>, k: nat)
    requires k <= |bytes| && offset + |bytes| <= |before.data|
    ensures CrashImage(DataStep(before, offset, bytes), before.(data := Overwrite(before.data, offset, bytes[..k])))
  {
  }

  /** Power fails during any write of an operation; the next start finds one of the queues the operation allows. */
  method RestartAfterCrash(g: Geometry, step: Step, ghost allowed: set<seq<Record>>, img: Image,
      overwriteOldest: bool) returns (c: CircularQueue)
    requires g.Fits() && HEADER_BYTES < g.capacity <= MAX_CAPACITY
    requires img.file.Whole? ==> img.file.meta.count < COUNT_LIMIT
    requires SafeStep(g, step, allowed) && CrashImage(step, img)
    ensures c.Rep() && c.geo == g && c.contents in allowed
  {
    hide Matches;
    c := new CircularQueue(g.capacity, g.maxRegisters, overwriteOldest, img, g);
  }

  // ---------------------------------------------------------------- the walkers agree

  /** Peeking at place `index` reports what the pop after `index` more pops reports. */
  method PeekForetellsPop(c: CircularQueue, index: nat, room: nat) returns (peeked: Reply, popped: Reply)
    requires c.Rep() && Sound(c.geo) && 0 < c.geo.Slots()
    requires index < |c.contents| && Count(c.geo.regCount) <= room
    modifies c
    ensures c.Rep() && peeked == popped == Reading(old(c.contents), index, room)
    ensures c.contents == old(c.contents)[index + 1..]
  {
    hide Matches, Geometry.Slots, Geometry.Rest, Count, FifoNext, FifoReply;
    ghost var q := c.contents;
    peeked := PerformAsFifo(c, PeekAt(index, room));
    PeekIsReading(c.geo, c.overwriteOldest, q, index, room);
    for k := 0 to index
      invariant c.Rep() && c.contents == q[k..]
    {
      UniformRecords(c.geo, Disk(c.data, c.meta), c.shape, c.contents);
      PopTakesFirst(c.geo, c.overwriteOldest, q[k..], room);
      popped := PerformAsFifo(c, Pop(room));
    }
    UniformRecords(c.geo, Disk(c.data, c.meta), c.shape, c.contents);
    PopTakesFirst(c.geo, c.overwriteOldest, q[index..], room);
    popped := PerformAsFifo(c, Pop(room));
  }

  lemma UniformRecords(g: Geometry, d: Disk, s: Shape, q: seq<Record>)
    requires Matches(g, d, s, q)
    ensures forall i :: 0 <= i < |q| ==> q[i].regCount == g.regCount
  {
    forall i | 0 <= i < |q|
      ensures q[i].regCount == g.regCount
    {
      assert RecordAt(g, d.data, SlotOf(g, s, i), q[i]);
    }
  }

  lemma PeekIsReading(g: Geometry, overwrite: bool, q: seq<Record>, index: nat, room: nat)
    requires 0 < g.Slots()
    ensures FifoReply(g, overwrite, q, PeekAt(index, room)) == Reading(q, index, room)
    ensures FifoNext(g, overwrite, q, PeekAt(index, room)) == q
  {
  }

  lemma PopTakesFirst(g: Geometry, overwrite: bool, q: seq<Record>, room: nat)
    requires 0 < g.Slots() && q != [] && Count(q[0].regCount) <= room
    ensures FifoReply(g, overwrite, q, Pop(room)) == Reading(q, 0, room)
    ensures FifoNext(g, overwrite, q, Pop(room)) == q[1..]
  {
  }

  // ---------------------------------------------------------------- damage

  /** The payload bytes of the record in `slot`. */
  function PayloadAt(g: Geometry, slot: nat): nat {
    g.At(slot) + HEADER_BYTES
  }

  /** Record `i` after its payload bytes have become `payload`. */
  function Damaged(r: Record, payload: seq<byte>): Record
    requires |payload| % 2 == 0
  {
    r.(registers := BytesToWords(payload))
  }

  /**
   A payload that is changed on flash inside sixteen consecutive bits - one register word, in
   particular - leaves a queue of the same records but for that one, which every reader with
   room for it reports as InvalidCrc.
  */
  lemma DamageIsReported(g: Geometry, d: Disk, s: Shape, q: seq<Record>, i: nat, payload: seq<byte>, bit: nat)
    requires Matches(g, d, s, q) && i < |q| && q[i].Intact()
    requires |payload| == 2 * Count(g.regCount) && payload != WordsToBytes(q[i].registers)
    requires Crc16.WithinBurst(Crc16.MessageBits(WordsToBytes(q[i].registers)), Crc16.MessageBits(payload), bit)
    requires PayloadAt(g, SlotOf(g, s, i)) + |payload| <= |d.data|
    ensures Matches(g, Disk(Overwrite(d.data, PayloadAt(g, SlotOf(g, s, i)), payload), d.meta), s,
                    q[i := Damaged(q[i], payload)])
    ensures forall room: nat :: Count(g.regCount) <= room ==> ReadOutcome(Damaged(q[i], payload), room) == InvalidCrc
  {
    hide Counters, Geometry.Slots, Geometry.Rest, Geometry.At, Overwrite, WordsToBytes, BytesToWords, HeaderAt, Encode,
      Crc16.MessageBits, Crc16.WithinBurst, Crc16.Checksum, Count;
    var r := q[i];
    assert RecordAt(g, d.data, SlotOf(g, s, i), r);
    BytesRoundTrip(payload);
    Crc16.ChecksumDetectsBurst(WordsToBytes(r.registers), payload, bit);
    DamageStaysInPlace(g, d, s, q, i, payload);
  }

  lemma DamageStaysInPlace(g: Geometry, d: Disk, s: Shape, q: seq<Record>, i: nat, payload: seq<byte>)
    requires Matches(g, d, s, q) && i < |q|
    requires |payload| == 2 * Count(g.regCount)
    requires PayloadAt(g, SlotOf(g, s, i)) + |payload| <= |d.data|
    ensures Matches(g, Disk(Overwrite(d.data, PayloadAt(g, SlotOf(g, s, i)), payload), d.meta), s,
                    q[i := Damaged(q[i], payload)])
  {
    hide Count, Counters, Geometry.Slots, Geometry.Rest, Geometry.At, Overwrite, AgreeOutside, WordsToBytes,
      BytesToWords, EncodeHeader, HeaderAt;
    var at := PayloadAt(g, SlotOf(g, s, i));
    var data' := Overwrite(d.data, at, payload);
    var q' := q[i := Damaged(q[i], payload)];
    OverwriteAgrees(d.data, at, payload);
    LayoutFacts(g);
    forall k | 0 <= k < |q|
      ensures RecordAt(g, data', SlotOf(g, s, k), q'[k])
    {
      assert RecordAt(g, d.data, SlotOf(g, s, k), q[k]);
      if k == i {
        DamagedRecord(g, d.data, SlotOf(g, s, i), q[i], payload);
      } else {
        SlotsDiffer(g, d.meta, s, |q|, k, i);
        var slot := SlotOf(g, s, k);
        if slot < SlotOf(g, s, i) {
          AtOrder(g, slot, SlotOf(g, s, i));
        } else {
          AtOrder(g, SlotOf(g, s, i), slot);
        }
        DisjointSlice(d.data, data', at, |payload|, g.At(slot), g.At(slot) + g.size);
      }
    }
    SlotInRange(g, d.meta, s, |q|, i);
    SlotBelowEnd(g, SlotOf(g, s, i));
    UntouchedRest(g, d.data, data', s, q, at, |payload|);
  }

  lemma DamagedRecord(g: Geometry, data: seq<byte>, slot: nat, r: Record, payload: seq<byte>)
    requires RecordAt(g, data, slot, r) && g.size == RecordSize(g.regCount)
    requires |payload| == 2 * Count(g.regCount) && PayloadAt(g, slot) + |payload| <= |data|
    ensures RecordAt(g, Overwrite(data, PayloadAt(g, slot), payload), slot, Damaged(r, payload))
  {
    hide Count, Geometry.At, WordsToBytes, BytesToWords, EncodeHeader;
    var data' := Overwrite(data, PayloadAt(g, slot), payload);
    BytesRoundTrip(payload);
    var bytes := data[g.At(slot)..g.At(slot) + g.size];
    assert bytes[..HEADER_BYTES] == EncodeHeader(r.HeaderOf());
    assert data'[g.At(slot)..g.At(slot) + HEADER_BYTES] == bytes[..HEADER_BYTES];
    assert data'[g.At(slot)..g.At(slot) + g.size]
        == data'[g.At(slot)..g.At(slot) + HEADER_BYTES] + data'[PayloadAt(g, slot)..g.At(slot) + g.size];
  }

  lemma SlotsDiffer(g: Geometry, m: Meta, s: Shape, n: nat, k: nat, i: nat)
    requires Counters(g, m, s, n) && k < n && i < n && k != i
    ensures SlotOf(g, s, k) != SlotOf(g, s, i)
  {
  }

  lemma SlotInRange(g: Geometry, m: Meta, s: Shape, n: nat, i: nat)
    requires Counters(g, m, s, n) && i < n
    ensures SlotOf(g, s, i) < g.Slots()
  {
  }

  // ---------------------------------------------------------------- the file sizes that do not work

  /** Exactly when the head of a non-empty queue cannot be read: short rest, head and tail both behind the last slot. */
  lemma StuckExactly(g: Geometry, d: Disk, s: Shape, q: seq<Record>)
    requires Matches(g, d, s, q)
    ensures Stuck(g.capacity, d.meta) <==>
      q != [] && 0 < g.Rest() < HEADER_BYTES && s.h == s.t == g.Slots()
  {
    hide Geometry.At, Geometry.Slots, Geometry.Rest, Stored, HeaderAt, Count;
    LayoutFacts(g);
    if q != [] {
      HeadCases(g, d, s, q);
      if Stuck(g.capacity, d.meta) && !s.inGap {
        AtIsInjective(g, s.h, g.Slots());
        AtIsInjective(g, s.t, g.Slots());
      }
      if s.inGap {
        HeadInGap(g, d, s, q);
      }
    }
  }

  /**
   With one to fifteen bytes behind the last slot, filling an empty overwriting queue and
   overwriting it once brings it to a halt.
  */
  method OverwriteToStandstill(c: CircularQueue, feed: seq<Call>)
    requires c.Rep() && c.contents == [] && c.shape == Shape(0, 0, false, false) && c.overwriteOldest
    requires 0 < c.geo.Rest() < HEADER_BYTES && |feed| == 2 * c.geo.Slots()
    requires forall k :: 0 <= k < |feed| ==> feed[k].Enqueue? && Uniform(c.geo, feed[k])
    modifies c
    ensures c.Rep() && c.Full() && c.Blocked()
  {
    hide Matches, Geometry.Slots, Geometry.Rest, SafeSteps, NewRecord, Stuck;
    ghost var g := c.geo;
    ghost var slots := g.Slots();
    for k := 0 to |feed|
      invariant c.Rep()
      invariant k <= slots ==> c.shape == Shape(0, k, false, false) && |c.contents| == k
      invariant slots < k ==> c.shape == Shape(k - slots, k - slots, true, false) && |c.contents| == slots
    {
      StuckExactly(g, Disk(c.data, c.meta), c.shape, c.contents);
      RepSize(g, Disk(c.data, c.meta), c.shape, c.contents);
      assert Uniform(g, feed[k]);
      var err := c.Enqueue(feed[k].slaveAddr, feed[k].startReg, feed[k].registers, feed[k].regCount, feed[k].timestamp);
    }
    RepSize(g, Disk(c.data, c.meta), c.shape, c.contents);
    StuckExactly(g, Disk(c.data, c.meta), c.shape, c.contents);
  }

  /**
   The policy makes no difference, and nothing has to overflow: with one to fifteen bytes behind
   the last slot, filling an empty queue, emptying it and filling it again brings it to a halt.
  */
  method FillDrainFill(c: CircularQueue, feed: seq<Call>, refill: seq<Call>, room: nat)
    requires c.Rep() && c.contents == [] && c.shape == Shape(0, 0, false, false)
    requires 0 < c.geo.Rest() < HEADER_BYTES && Count(c.geo.regCount) <= room
    requires |feed| == |refill| == c.geo.Slots()
    requires forall k :: 0 <= k < |feed| ==> feed[k].Enqueue? && Uniform(c.geo, feed[k])
    requires forall k :: 0 <= k < |refill| ==> refill[k].Enqueue? && Uniform(c.geo, refill[k])
    modifies c
    ensures c.Rep() && c.Full() && c.Blocked()
  {
    hide Matches, Geometry.Slots, Geometry.Rest, SafeSteps, NewRecord, Stuck, Uniform, PoppedShape, Count;
    ghost var g, slots := c.geo, c.geo.Slots();
    for k := 0 to |feed|
      invariant c.Rep() && c.shape == Shape(0, k, false, false) && |c.contents| == k
    {
      EnqueueStep(c, feed[k]);
    }
    for k := 0 to |feed|
      invariant c.Rep() && c.shape == Shape(k, slots, false, false) && |c.contents| == slots - k
    {
      PopStep(c, room);
    }
    for k := 0 to |refill|
      invariant c.Rep() && |c.contents| == k
      invariant c.shape == if k == 0 then Shape(slots, slots, false, false) else Shape(slots, k, true, false)
    {
      EnqueueStep(c, refill[k]);
    }
    RepSize(g, Disk(c.data, c.meta), c.shape, c.contents);
    StuckExactly(g, Disk(c.data, c.meta), c.shape, c.contents);
  }

  /** So for every such file size, record size and policy there is a run from the first start that halts the queue. */
  method HaltFromFirstStart(g: Geometry, overwriteOldest: bool, sample: Call) returns (c: CircularQueue)
    requires g.Fits() && 0 < g.Rest() < HEADER_BYTES && HEADER_BYTES < g.capacity <= MAX_CAPACITY
    requires sample.Enqueue? && Uniform(g, sample)
    ensures c.Rep() && c.geo == g && c.overwriteOldest == overwriteOldest && c.Full() && c.Blocked()
  {
    hide Matches, Geometry.Slots, Geometry.Rest, Uniform, Stuck, Count, History;
    c := FirstStart(g, overwriteOldest);
    FreshShape(g, c.data, c.shape);
    var feed := seq(g.Slots(), _ => sample);
    FillDrainFill(c, feed, feed, Count(g.regCount));
  }

  lemma FreshShape(g: Geometry, data: seq<byte>, s: Shape)
    requires Matches(g, Disk(data, EMPTY_META), s, [])
    ensures s == Shape(0, 0, false, false)
  {
    hide Geometry.Slots, Geometry.Rest, Geometry.At;
    EmptyMatches(g, data);
    ShapeIsUnique(g, Disk(data, EMPTY_META), s, [], Shape(0, 0, false, false), []);
  }

  /** One sample more in a queue that is not full, and where the tail moves. */
  method EnqueueStep(c: CircularQueue, call: Call)
    requires c.Rep() && !c.Full() && 0 < c.geo.Rest() && call.Enqueue? && Uniform(c.geo, call)
    modifies c
    ensures c.Rep() && |c.contents| == |old(c.contents)| + 1
    ensures c.shape == if old(c.shape).t == c.geo.Slots() then Shape(old(c.shape).h, 1, true, false)
                       else old(c.shape).(t := old(c.shape).t + 1)
  {
    hide Matches, Geometry.Slots, Geometry.Rest, SafeSteps, NewRecord, Stuck;
    RepSize(c.geo, Disk(c.data, c.meta), c.shape, c.contents);
    var err := c.Enqueue(call.slaveAddr, call.startReg, call.registers, call.regCount, call.timestamp);
  }

  /** One sample less in a queue whose head stands on a slot that the tail has not come round to. */
  method PopStep(c: CircularQueue, room: nat)
    requires c.Rep() && c.contents != [] && 0 < c.geo.Rest() && Count(c.geo.regCount) <= room
    requires !c.shape.inGap && c.shape.h < c.geo.Slots()
    modifies c
    ensures c.Rep() && |c.contents| == |old(c.contents)| - 1
    ensures c.shape == old(c.shape).(h := old(c.shape).h + 1)
  {
    hide Matches, Geometry.Slots, Geometry.Rest, SafeSteps, Stuck, Count, Record.Intact;
    StuckExactly(c.geo, Disk(c.data, c.meta), c.shape, c.contents);
    UniformRecords(c.geo, Disk(c.data, c.meta), c.shape, c.contents);
    var err, sample, registers := c.Pop(room);
  }

  /**
   From then on, under either policy, every enqueue, pop, peek and peek-at of every run is refused,
   and neither the records nor the flash nor the counters ever change.
  */
  method StandstillIsFinal(c: CircularQueue, calls: seq<Call>) returns (replies: seq<Reply>)
    requires c.Rep() && c.Blocked() && 0 < c.geo.Slots()
    requires forall k :: 0 <= k < |calls| ==> !calls[k].Clear? && Uniform(c.geo, calls[k])
    modifies c
    ensures c.Rep() && c.Blocked() && c.contents == old(c.contents)
    ensures c.meta == old(c.meta) && c.data == old(c.data) && c.file == old(c.file) && c.log == old(c.log)
    ensures |replies| == |calls|
    ensures forall k :: 0 <= k < |calls| ==> replies[k] == StandstillReply(c.overwriteOldest, c.contents, calls[k])
  {
    hide Matches, Geometry.Slots, Uniform, StandstillReply, History, Stuck;
    replies := [];
    for k := 0 to |calls|
      invariant c.Rep() && c.contents == old(c.contents)
      invariant c.meta == old(c.meta) && c.data == old(c.data) && c.file == old(c.file) && c.log == old(c.log)
      invariant |replies| == k
      invariant forall i :: 0 <= i < k ==> replies[i] == StandstillReply(c.overwriteOldest, c.contents, calls[i])
    {
      var reply := Perform(c, calls[k]);
      replies := replies + [reply];
    }
  }

  /**
   Exactly where the answers of a halted queue and of a bounded FIFO with the same records agree: on
   readers without room, on places that do not exist, and on enqueues that a full FIFO refuses too.
  */
  lemma StandstillIsNoFifo(g: Geometry, overwrite: bool, q: seq<Record>, c: Call)
    requires q != [] && !c.Clear?
    ensures c.Pop? || c.Peek? ==>
      (FifoReply(g, overwrite, q, c) == StandstillReply(overwrite, q, c) <==> c.room < Count(q[0].regCount))
    ensures c.PeekAt? ==>
      (FifoReply(g, overwrite, q, c) == StandstillReply(overwrite, q, c) <==>
        (c.index < |q| ==> c.room < Count(q[c.index].regCount)))
    ensures c.Enqueue? ==>
      (FifoReply(g, overwrite, q, c) == StandstillReply(overwrite, q, c) <==> !overwrite && |q| >= g.Slots())
  {
    hide Record.Intact, Count;
  }

  /** A restart does not help: it finds the same counters and the same records. */
  method Restart(c: CircularQueue) returns (next: CircularQueue)
    requires c.Rep()
    ensures next.Rep() && next.contents == c.contents && next.meta == c.meta && next.data == c.data
    ensures next.Blocked() == c.Blocked()
  {
    hide Matches;
    PersistedIsLoaded(c.capacity, c.data, c.meta);
    assert Represents(c.geo, Recovered(c.capacity, Image(c.data, c.file)), c.contents);
    next := new CircularQueue(c.capacity, c.maxRegisters, c.overwriteOldest, Image(c.data, c.file), c.geo);
  }

  /** There are such sizes: one-word records in the default file leave ten bytes behind the last slot. */
  lemma ShortRestExists()
    ensures var g := Geometry(262144, 18, 1, 1084); g.Fits() && g.Rest() == 10 && g.Slots() == 14563 && !Sound(g)
  {
  }

  function RecordOf(c: Call): Record
    requires c.Enqueue?
  {
    NewRecord(c.slaveAddr, c.startReg, c.registers, c.regCount, c.timestamp)
  }

  /** An overwriting queue retains exactly the newest capacity / record-size samples. */
  method FeedAll(c: CircularQueue, feed: seq<Call>, ghost records: seq<Record>)
    requires c.Rep() && Sound(c.geo) && 0 < c.geo.Slots() && c.overwriteOldest
    requires |records| == |feed|
    requires forall k :: 0 <= k < |feed| ==> feed[k].Enqueue? && Uniform(c.geo, feed[k])
    requires forall k :: 0 <= k < |feed| ==> records[k] == RecordOf(feed[k])
    modifies c
    ensures c.Rep()
    ensures c.contents == BoundedFifo.Newest(old(c.contents) + records, c.geo.Slots())
  {
    hide Matches, Geometry.Slots, Geometry.Rest, NewRecord, Count;
    ghost var q := c.contents;
    RepSize(c.geo, Disk(c.data, c.meta), c.shape, c.contents);
    for k := 0 to |feed|
      invariant c.Rep()
      invariant BoundedFifo.OfferAll(q, records, c.geo.Slots())
             == BoundedFifo.OfferAll(c.contents, records[k..], c.geo.Slots())
    {
      var reply := PerformAsFifo(c, feed[k]);
      assert records[k..][1..] == records[k + 1..];
    }
    BoundedFifo.OverwriteKeepsNewest(q, records, c.geo.Slots());
  }
}
