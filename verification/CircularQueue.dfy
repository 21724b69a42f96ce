/**
 The persistent circular queue.

 Every method is total: from any accepted metadata and any bytes in the data file
 it terminates and leaves metadata that a restart accepts (`Valid`).  When the
 bytes and counters represent a sequence of equally sized records (`Rep`), the
 methods are the operations of a bounded FIFO on `contents`, and every write they
 issue can be interrupted (`SafeSteps`).
*/
module CircularQueue {

  import opened Words
  import opened RecordFormat
  import opened QueueLayout
  import opened FlashImage
  import Crc16

  const COUNT_LIMIT: nat := 0x1_0000_0000
  const MAX_CAPACITY: nat := 4194304

  datatype SampleMeta = SampleMeta(timestamp: dword, startReg: word, regCount: word, slaveAddr: byte)

  function MetaOf(r: Record): SampleMeta {
    SampleMeta(r.timestamp, r.startReg, r.regCount, r.slaveAddr)
  }

  /** The record an enqueue call stores. */
  function NewRecord(slaveAddr: byte, startReg: word, registers: seq<word>, regCount: word, timestamp: dword)
    : (r: Record)
    ensures r.Intact()
  {
    Record(timestamp, startReg, regCount, slaveAddr, Crc16.Checksum(WordsToBytes(registers)), registers)
  }

  /** What a reader with room for `room` registers reports for a stored record. */
  function ReadOutcome(r: Record, room: nat): Esp {
    if room < Count(r.regCount) then InvalidSize
    else if !r.Intact() then InvalidCrc
    else Ok
  }

  function Rest(q: seq<Record>): seq<Record> {
    if q == [] then [] else q[1..]
  }

  /** The layout once a closed lap has made room behind the tail. */
  function RoomShape(g: Geometry, s: Shape): Shape {
    if s.t == g.Slots() then Shape(s.h, 0, true, false) else s
  }

  /** Where an enqueue leaves head and tail of a queue whose head stood on a record. */
  function EnqueuedShape(g: Geometry, s: Shape, full: bool): Shape {
    AppendedShape(g, RoomShape(g, if full then PoppedShape(g, s) else s))
  }

  /** How the search for the oldest record ended; on Corrupt the queue has been cleared. */
  datatype Found = OnRecord | Nothing | Unreadable | Corrupt

  class CircularQueue {

    const capacity: nat
    const maxRegisters: nat
    const overwriteOldest: bool

    /** The data file, the metadata file, and the counters in RAM. */
    var data: seq<byte>
    var file: MetaFile
    var meta: Meta

    /** What start-up found on flash, and every write since. */
    ghost const origin: Image
    ghost var log: seq<Step>

    ghost const geo: Geometry
    ghost var shape: Shape
    ghost var contents: seq<Record>

    ghost predicate Valid()
      reads this
    {
      Sane() && file == Persisted(capacity, meta)
    }

    /** All but that the counters in RAM are saved. */
    ghost predicate Sane()
      reads this
    {
      && geo.capacity == capacity && geo.maxRegisters == maxRegisters
      && HEADER_BYTES < capacity <= MAX_CAPACITY
      && |data| == capacity
      && Safe(capacity, meta) && meta.count < COUNT_LIMIT
      && LogAcceptable() && Recorded()
    }

    /** Flash holds what the logged writes have left: nothing is written past the log. */
    ghost predicate Recorded()
      reads this`log, this`data, this`file
    {
      History(origin, log, Image(data, file))
    }

    /** No restart discards metadata this queue has written. */
    ghost predicate LogAcceptable()
      reads this`log
    {
      forall k :: 0 <= k < |log| ==> (log[k].MetaStep? ==> Acceptable(capacity, log[k].after))
    }

    /** Bytes and counters represent `contents`. */
    ghost predicate Rep()
      reads this
    {
      Valid() && Matches(geo, Disk(data, meta), shape, contents)
    }

    ghost predicate Blocked()
      reads this
    {
      Stuck(capacity, meta)
    }

    ghost predicate Full()
      reads this
    {
      |contents| >= geo.Slots()
    }

    /**
     Start-up on whatever is on flash: a data file of the wrong size is recreated, metadata
     that does not pass the checks is reset.
    */
    constructor (capacity: nat, maxRegisters: nat, overwriteOldest: bool, img: Image, ghost g: Geometry)
      requires HEADER_BYTES < capacity <= MAX_CAPACITY
      requires img.file.Whole? ==> img.file.meta.count < COUNT_LIMIT
      requires g.capacity == capacity && g.maxRegisters == maxRegisters
      ensures Valid() && geo == g
      ensures this.capacity == capacity && this.maxRegisters == maxRegisters && this.overwriteOldest == overwriteOldest
      ensures Disk(data, meta) == Recovered(capacity, img)
      ensures meta == if && img.file.Whole? && img.file.magic == 0x4D455441 && img.file.version == 1
                         && img.file.capacity == capacity && img.file.meta.head < capacity
                         && img.file.meta.tail < capacity && img.file.meta.used <= capacity
                      then img.file.meta else Meta(0, 0, 0, 0)
      ensures |img.data| == capacity ==> data == img.data
      ensures |img.data| != capacity ==> |data| == capacity && forall i :: 0 <= i < capacity ==> data[i] == 0
      ensures origin == Image(LoadedData(capacity, img.data), img.file)
      ensures forall q: seq<Record> :: Represents(g, Recovered(capacity, img), q) ==> Rep() && contents == q
    {
      this.capacity, this.maxRegisters, this.overwriteOldest := capacity, maxRegisters, overwriteOldest;
      geo, origin := g, Image(LoadedData(capacity, img.data), img.file);
      data := if |img.data| == capacity then img.data else seq(capacity, _ => 0);
      file := img.file;
      meta := if Acceptable(capacity, img.file) then img.file.meta else EMPTY_META;
      log, shape, contents := [], Shape(0, 0, false, false), [];
      new;
      if !Acceptable(capacity, img.file) {
        WriteMeta();
      }
      if q: seq<Record> :| Represents(g, Disk(data, meta), q) {
        var s: Shape :| Matches(g, Disk(data, meta), s, q);
        shape, contents := s, q;
        forall q': seq<Record> | Represents(g, Disk(data, meta), q')
          ensures q' == q
        {
          var s': Shape :| Matches(g, Disk(data, meta), s', q');
          RepresentationIsUnique(g, Disk(data, meta), s, q, s', q');
        }
      }
    }

    // ---------------------------------------------------------------- flash access

    method WriteMeta()
      requires Sane()
      modifies this`file, this`log
      ensures Valid() && file == Whole(0x4D455441, 1, capacity, meta)
      ensures log == old(log) + [MetaStep(Image(data, old(file)), file)]
    {
      hide Safe, Overwrite, ImageAt;
      ghost var now := Image(data, file);
      file := Whole(META_MAGIC, META_VERSION, capacity, meta);
      HistoryGrows(origin, log, now, MetaStep(now, file));
      log := log + [MetaStep(now, file)];
    }

    method WriteAt(offset: nat, bytes: seq<byte>)
      requires Sane() && offset + |bytes| <= capacity
      modifies this`data, this`log
      ensures Sane() && data == Overwrite(old(data), offset, bytes)
      ensures log == old(log) + [DataStep(Image(old(data), file), offset, bytes)]
    {
      hide Overwrite, Safe;
      ghost var now := Image(data, file);
      data := Overwrite(data, offset, bytes);
      HistoryGrows(origin, log, now, DataStep(now, offset, bytes));
      log := log + [DataStep(now, offset, bytes)];
    }

    method ReadHeader(offset: nat) returns (err: Esp, hdr: Header)
      requires |data| == capacity
      ensures err == if offset + HEADER_BYTES > capacity then InvalidSize else Ok
      ensures err == Ok ==> hdr == HeaderAt(data, offset)
    {
      if offset + HEADER_BYTES > capacity {
        return InvalidSize, WRAP_HEADER;
      }
      return Ok, DecodeHeader(data[offset..offset + HEADER_BYTES]);
    }

    method ResetMeta()
      requires Valid()
      modifies this`meta, this`file, this`log
      ensures Valid() && meta == EMPTY_META
      ensures log == old(log) + [MetaStep(Image(data, old(file)), file)]
    {
      meta := EMPTY_META;
      WriteMeta();
    }

    // ---------------------------------------------------------------- the head

    /** Moves the head without giving up a record, and persists it. */
    method MoveHead(head: nat, used: nat, ghost next: Shape)
      requires Valid() && head < capacity && used <= capacity
      modifies this`meta, this`file, this`log, this`shape
      ensures Valid() && old(log) <= log && meta == old(meta).(head := head, used := used)
      ensures old(Rep()) && Matches(geo, Disk(data, meta), next, contents) ==>
        Rep() && shape == next && SafeSteps(geo, log, |old(log)|, {contents})
    {
      hide Matches, SafeStep;
      ghost var before, s := meta, shape;
      meta := meta.(head := head, used := used);
      WriteMeta();
      shape := next;
      if old(Rep()) && Matches(geo, Disk(data, meta), next, contents) {
        MetaStepIsSafe(geo, data, before, meta, s, next, contents, contents, {contents});
      }
    }

    /**
     The loop shared by the pop and read paths: takes the head over a short end, a marker
     or the blank bytes behind it, until it stands on a record.
    */
    method FindOldest() returns (found: Found, hdr: Header)
      requires Valid()
      modifies this`meta, this`file, this`log, this`shape
      ensures Valid() && old(log) <= log
      ensures found == Corrupt ==> meta == EMPTY_META && 0 < old(meta.count)
      ensures found != Corrupt ==> meta.count == old(meta.count) && meta.tail == old(meta.tail)
      ensures found == OnRecord ==>
        && 0 < meta.count && meta.head + HEADER_BYTES <= capacity
        && hdr == HeaderAt(data, meta.head)
      ensures old(Rep()) ==>
        && Rep() && SafeSteps(geo, log, |old(log)|, {contents})
        && found == (if contents == [] then Nothing else if old(Blocked()) then Unreadable else OnRecord)
        && (found == OnRecord ==> !shape.inGap && shape.h < geo.Slots())
        && (old(!shape.inGap && shape.h < geo.Slots()) ==> shape == old(shape))
        && (old(Blocked()) ==> meta == old(meta) && log == old(log) && shape == old(shape))
    {
      hide Count, LogAcceptable, Recorded, Advance, Matches, SafeStep, Geometry.Slots, Geometry.Rest, Geometry.At,
        HeaderAt;
      hdr := WRAP_HEADER;
      ghost var rep := Rep();
      while meta.count > 0 && meta.used > 0
        invariant Valid() && old(log) <= log
        invariant meta.count == old(meta.count) && meta.tail == old(meta.tail)
        invariant rep ==> Rep() && SafeSteps(geo, log, |old(log)|, {contents})
        invariant rep ==> Blocked() == old(Blocked())
        invariant rep && old(!shape.inGap && shape.h < geo.Slots()) ==> shape == old(shape)
        invariant rep && old(Blocked()) ==> meta == old(meta) && log == old(log) && shape == old(shape)
        decreases meta.used, meta.head
      {
        if rep {
          MatchesIsSafe(geo, Disk(data, meta), shape, contents);
          HeadCases(geo, Disk(data, meta), shape, contents);
        }
        if meta.head > meta.tail && capacity - meta.head < HEADER_BYTES {
          SkipToStart();
          continue;
        }

        var readErr;
        readErr, hdr := ReadHeader(meta.head);
        if readErr != Ok {
          return Unreadable, hdr;
        }
        if hdr.magic == MAGIC_WRAP {
          PassMarker();
          continue;
        }
        if hdr.magic != MAGIC_DATA {
          if meta.head > meta.tail {
            SkipToStart();
            continue;
          }
          ResetMeta();
          return Corrupt, hdr;
        }
        return OnRecord, hdr;
      }
      if rep && contents != [] {
        HeadCases(geo, Disk(data, meta), shape, contents);
      }
      return Nothing, hdr;
    }

    method SkipToStart()
      requires Valid()
      modifies this`meta, this`file, this`log, this`shape
      ensures Valid() && old(log) <= log && meta == old(meta).(head := 0)
      ensures old(Rep() && (shape.inGap || (shape.lap && shape.h == geo.Slots() && geo.Rest() < HEADER_BYTES))) ==>
        Rep() && !Blocked() && SafeSteps(geo, log, |old(log)|, {contents})
    {
      hide Count, LogAcceptable, Recorded, Advance, Matches, SafeStep, Geometry.Slots, Geometry.Rest;
      if Rep() && (shape.inGap || (shape.lap && shape.h == geo.Slots() && geo.Rest() < HEADER_BYTES)) {
        HeadToStart(geo, Disk(data, meta), shape, contents);
      }
      MoveHead(0, meta.used, Shape(0, shape.t, false, false));
    }

    method PassMarker()
      requires Valid()
      modifies this`meta, this`file, this`log, this`shape
      ensures Valid() && old(log) <= log
      ensures meta.count == old(meta.count) && meta.tail == old(meta.tail)
      ensures old(meta.used) > 0 ==> meta.used < old(meta.used)
      ensures old(Rep() && shape.lap && shape.h == geo.Slots()
                  && HEADER_BYTES <= geo.Rest() && HEADER_BYTES <= meta.used)
        ==> Rep() && !Blocked() && SafeSteps(geo, log, |old(log)|, {contents})
    {
      hide Count, LogAcceptable, Recorded, Advance, Matches, SafeStep, Geometry.Slots, Geometry.Rest;
      if Rep() && shape.lap && shape.h == geo.Slots() && HEADER_BYTES <= geo.Rest() && HEADER_BYTES <= meta.used {
        SkipMarker(geo, Disk(data, meta), shape, contents);
      }
      MoveHead(Advance(meta.head, HEADER_BYTES, capacity),
               if meta.used >= HEADER_BYTES then meta.used - HEADER_BYTES else 0,
               Shape(0, shape.t, false, HEADER_BYTES < geo.Rest()));
    }

    /** Gives up the record under the head. */
    method DropRecord(recSize: nat)
      requires Valid() && 0 < recSize <= meta.used && 0 < meta.count
      modifies this`meta, this`file, this`log, this`shape, this`contents
      ensures Valid() && old(log) <= log
      ensures meta.count == old(meta.count) - 1 && meta.tail == old(meta.tail)
      ensures old(Rep() && contents != [] && !shape.inGap && shape.h < geo.Slots()) && recSize == geo.size ==>
        && Rep() && contents == Rest(old(contents)) && shape == PoppedShape(geo, old(shape))
        && SafeSteps(geo, log, |old(log)|, {old(contents), Rest(old(contents))})
    {
      hide Count, LogAcceptable, Recorded, Advance, Matches, SafeStep, PoppedShape, Geometry.Slots, Geometry.Rest;
      ghost var before, s, q := meta, shape, contents;
      meta := meta.(head := Advance(meta.head, recSize, capacity), used := meta.used - recSize,
                    count := meta.count - 1);
      WriteMeta();
      if old(Rep() && contents != [] && !shape.inGap && shape.h < geo.Slots()) && recSize == geo.size {
        DropIsSafe(geo, Disk(data, before), s, q);
        shape, contents := PoppedShape(geo, s), Rest(q);
      }
    }

    /** Gives up the oldest record to make room. */
    method PopOldest() returns (err: Esp)
      requires Valid()
      modifies this`meta, this`file, this`log, this`shape, this`contents
      ensures Valid() && old(log) <= log
      ensures err == Ok || err == NotFound || err == InvalidSize
      ensures err == Ok ==> meta.count < old(meta.count)
      ensures meta.tail == old(meta.tail) || meta == EMPTY_META
      ensures old(Rep()) ==>
        && Rep()
        && meta.tail == old(meta.tail)
        && err == (if old(contents) == [] then NotFound else if old(Blocked()) then InvalidSize else Ok)
        && contents == (if err == Ok then Rest(old(contents)) else old(contents))
        && (err == Ok && old(!shape.inGap && shape.h < geo.Slots()) ==> shape == PoppedShape(geo, old(shape)))
        && (old(Blocked()) ==> meta == old(meta) && log == old(log) && shape == old(shape))
        && SafeSteps(geo, log, |old(log)|, {old(contents), contents})
    {
      hide PoppedShape, Count, LogAcceptable, Recorded, Advance, Matches, SafeStep, Geometry.Slots, Geometry.Rest,
        Stuck, HeaderAt;
      ghost var q := contents;
      var found, hdr := FindOldest();
      assert old(Rep()) ==> {q, contents} == {q};
      match found
      case Nothing => return NotFound;
      case Unreadable => return InvalidSize;
      case Corrupt => return Ok;
      case OnRecord =>
        var recSize := RecordSize(hdr.regCount);
        if old(Rep()) {
          HeadOnRecord(geo, Disk(data, meta), shape, q);
        }
        if recSize > capacity || recSize > meta.used {
          ResetMeta();
          return Ok;
        }
        ghost var sofar := log;
        DropRecord(recSize);
        if old(Rep()) {
          SafeStepsWiden(geo, sofar, |old(log)|, {q}, {q, Rest(q)});
          SafeStepsJoin(geo, sofar, |old(log)|, log, {q, Rest(q)}, {q, Rest(q)});
        }
        return Ok;
    }

    // ---------------------------------------------------------------- reading

    /** Reads the registers behind the header at `offset` and compares their checksum. */
    method ReadPayload(offset: nat, hdr: Header) returns (err: Esp, registers: seq<word>)
      requires Valid()
      ensures err == Ok ==> |registers| == Count(hdr.regCount)
      ensures 0 < Count(hdr.regCount) && offset + RecordSize(hdr.regCount) <= capacity ==>
        var payload := data[offset + HEADER_BYTES..offset + RecordSize(hdr.regCount)];
        && registers == BytesToWords(payload)
        && err == if Crc16.Checksum(payload) == hdr.payloadCrc then Ok else InvalidCrc
    {
      hide Count, LogAcceptable, Recorded, Crc16.Checksum, BytesToWords;
      if Count(hdr.regCount) == 0 {
        return Ok, [];
      }
      var recSize := RecordSize(hdr.regCount);
      if offset + recSize > capacity {
        return Fail, [];
      }
      var payload := data[offset + HEADER_BYTES..offset + recSize];
      registers := BytesToWords(payload);
      var crc := Crc16.Crc16Modbus(payload);
      err := if crc != hdr.payloadCrc then InvalidCrc else Ok;
    }

    /** Reads the oldest record; with `consume`, also gives it up. */
    method ReadSample(consume: bool, room: nat) returns (err: Esp, sample: SampleMeta, registers: seq<word>)
      requires Valid()
      modifies this`meta, this`file, this`log, this`shape, this`contents
      ensures Valid() && old(log) <= log
      ensures err == Ok ==> |registers| == Count(sample.regCount) <= room
      ensures old(Rep()) && old(contents) == [] ==>
        Rep() && contents == [] && err == NotFound
      ensures old(Rep()) && old(contents) != [] && old(Blocked()) ==>
        && Rep() && contents == old(contents) && err == InvalidSize
        && meta == old(meta) && log == old(log) && shape == old(shape)
      ensures old(Rep()) && old(contents) != [] && !old(Blocked()) ==>
        && Rep()
        && err == ReadOutcome(old(contents)[0], room)
        && (err == Ok ==> sample == MetaOf(old(contents)[0]) && registers == old(contents)[0].registers)
        && contents == (if consume && err != InvalidSize then Rest(old(contents)) else old(contents))
        && (consume && err != InvalidSize && old(!shape.inGap && shape.h < geo.Slots()) ==>
              shape == PoppedShape(geo, old(shape)))
      ensures old(Rep()) ==> SafeSteps(geo, log, |old(log)|, {old(contents), contents})
    {
      hide Count, LogAcceptable, Recorded, Advance, Matches, SafeStep, Geometry.Slots, Geometry.Rest, Stuck, HeaderAt,
        Crc16.Checksum, WordsToBytes, BytesToWords;
      ghost var q := contents;
      ghost var allowed := {q, Rest(q)};
      sample, registers := SampleMeta(0, 0, 0, 0), [];
      var found, hdr := FindOldest();
      if old(Rep()) {
        SafeStepsWiden(geo, log, |old(log)|, {q}, allowed);
        assert {q, contents} == {q};
      }
      match found
      case Nothing => return NotFound, sample, registers;
      case Unreadable => return InvalidSize, sample, registers;
      case Corrupt => return InvalidCrc, sample, registers;
      case OnRecord =>
        if old(Rep()) {
          HeadOnRecord(geo, Disk(data, meta), shape, q);
        }
        var recSize := RecordSize(hdr.regCount);
        if Count(hdr.regCount) > maxRegisters || recSize > capacity || recSize > meta.used {
          ResetMeta();
          return InvalidSize, sample, registers;
        }
        if room < Count(hdr.regCount) {
          return InvalidSize, sample, registers;
        }
        err, registers := ReadPayload(meta.head, hdr);
        if err == InvalidCrc && consume {
          Consume(recSize, old(log), allowed);
        }
        if err != Ok {
          return err, sample, registers;
        }
        sample := SampleMeta(hdr.timestamp, hdr.startReg, hdr.regCount, hdr.slaveAddr);
        if consume {
          Consume(recSize, old(log), allowed);
        }
        return Ok, sample, registers;
    }

    /** DropRecord as the last part of an operation whose earlier steps are in `log`. */
    method Consume(recSize: nat, ghost start: seq<Step>, ghost allowed: set<seq<Record>>)
      requires Valid() && start <= log && 0 < recSize <= meta.used && 0 < meta.count
      modifies this`meta, this`file, this`log, this`shape, this`contents
      ensures Valid() && start <= log
      ensures meta.count == old(meta.count) - 1 && meta.tail == old(meta.tail)
      ensures old(Rep() && contents != [] && !shape.inGap && shape.h < geo.Slots()
                  && SafeSteps(geo, log, |start|, allowed) && {contents, Rest(contents)} <= allowed)
              && recSize == geo.size ==>
        && Rep() && contents == Rest(old(contents)) && shape == PoppedShape(geo, old(shape))
        && SafeSteps(geo, log, |start|, allowed)
    {
      hide PoppedShape, Count, LogAcceptable, Recorded, Matches, SafeStep, Geometry.Slots;
      ghost var sofar := log;
      DropRecord(recSize);
      if old(Rep() && contents != [] && !shape.inGap && shape.h < geo.Slots()
             && SafeSteps(geo, log, |start|, allowed) && {contents, Rest(contents)} <= allowed)
         && recSize == geo.size {
        SafeStepsJoin(geo, sofar, |start|, log, {old(contents), Rest(old(contents))}, allowed);
      }
    }

    /** The record at `offset`, once the walk has reached it. */
    method DeliverAt(offset: nat, hdr: Header, room: nat) returns (err: Esp, sample: SampleMeta, registers: seq<word>)
      requires Valid() && 0 < Count(hdr.regCount)
      modifies this`meta, this`file, this`log
      ensures Valid() && old(log) <= log
      ensures err == Ok ==> |registers| == Count(sample.regCount) <= room
      ensures room < Count(hdr.regCount) ==> err == InvalidSize && meta == old(meta) && log == old(log)
      ensures Count(hdr.regCount) <= room && offset + RecordSize(hdr.regCount) <= capacity ==>
        var payload := data[offset + HEADER_BYTES..offset + RecordSize(hdr.regCount)];
        && meta == old(meta) && log == old(log)
        && err == (if Crc16.Checksum(payload) == hdr.payloadCrc then Ok else InvalidCrc)
        && (err == Ok ==> registers == BytesToWords(payload)
                          && sample == SampleMeta(hdr.timestamp, hdr.startReg, hdr.regCount, hdr.slaveAddr))
    {
      hide Count, LogAcceptable, Recorded, Crc16.Checksum, BytesToWords;
      sample, registers := SampleMeta(0, 0, 0, 0), [];
      if room < Count(hdr.regCount) {
        return InvalidSize, sample, registers;
      }
      if offset + RecordSize(hdr.regCount) > capacity {
        ResetMeta();
        return InvalidSize, sample, registers;
      }
      err, registers := ReadPayload(offset, hdr);
      if err == Ok {
        sample := SampleMeta(hdr.timestamp, hdr.startReg, hdr.regCount, hdr.slaveAddr);
      }
    }

    /**
     Takes a reading cursor over a short end, a marker or the blank bytes behind it, until it
     stands on a record.  With `n` records left to walk, the counters `start`, `used` and `n`
     and the layout `at` are those of a queue whose oldest record is the next one.
    */
    method CursorToRecord(start: nat, used: nat, ghost n: nat, ghost at: Shape, ghost q: seq<Record>)
      returns (err: Esp, cursor: nat, usedRemaining: nat, hdr: Header, ghost next: Shape)
      requires Valid() && start < capacity && used <= capacity
      modifies this`meta, this`file, this`log
      ensures Valid() && old(log) <= log
      ensures err == Ok ==>
        && meta == old(meta) && log == old(log)
        && cursor < capacity && 0 < usedRemaining <= used
        && cursor + HEADER_BYTES <= capacity && hdr == HeaderAt(data, cursor)
      ensures q != [] && Matches(geo, Disk(data, Meta(start, old(meta.tail), used, n)), at, q) ==>
        && meta == old(meta) && log == old(log)
        && err == (if Stuck(capacity, Meta(start, meta.tail, used, n)) then InvalidSize else Ok)
        && (err == Ok ==> !next.inGap && next.h < geo.Slots()
                          && Matches(geo, Disk(data, Meta(cursor, meta.tail, usedRemaining, n)), next, q))
    {
      hide Count, LogAcceptable, Recorded, Advance, Matches, Geometry.Slots, Geometry.Rest, HeaderAt;
      cursor, usedRemaining, next, hdr := start, used, at, WRAP_HEADER;
      ghost var seen := Meta(start, meta.tail, used, n);
      ghost var rep := q != [] && Matches(geo, Disk(data, seen), at, q);
      ghost var stuck := Stuck(capacity, seen);
      while usedRemaining > 0
        invariant Valid() && meta == old(meta) && log == old(log)
        invariant cursor < capacity && usedRemaining <= used
        invariant seen == Meta(cursor, meta.tail, usedRemaining, n)
        invariant rep ==> Matches(geo, Disk(data, seen), next, q) && Stuck(capacity, seen) == stuck
        decreases usedRemaining, cursor
      {
        if rep {
          HeadCases(geo, Disk(data, seen), next, q);
        }
        if cursor > meta.tail && capacity - cursor < HEADER_BYTES {
          if rep {
            HeadToStart(geo, Disk(data, seen), next, q);
          }
          cursor, seen, next := 0, seen.(head := 0), Shape(0, next.t, false, false);
          continue;
        }
        err, hdr := ReadHeader(cursor);
        if err != Ok {
          return;
        }
        if hdr.magic == MAGIC_WRAP {
          if usedRemaining < HEADER_BYTES {
            ResetMeta();
            err := InvalidSize;
            return;
          }
          if rep {
            SkipMarker(geo, Disk(data, seen), next, q);
          }
          cursor, usedRemaining := Advance(cursor, HEADER_BYTES, capacity), usedRemaining - HEADER_BYTES;
          seen, next := Meta(cursor, meta.tail, usedRemaining, n), Shape(0, next.t, false, HEADER_BYTES < geo.Rest());
          continue;
        }
        if hdr.magic != MAGIC_DATA {
          if cursor > meta.tail {
            if rep {
              HeadToStart(geo, Disk(data, seen), next, q);
            }
            cursor, seen, next := 0, seen.(head := 0), Shape(0, next.t, false, false);
            continue;
          }
          ResetMeta();
          err := InvalidCrc;
          return;
        }
        err := Ok;
        return;
      }
      if rep {
        HeadCases(geo, Disk(data, seen), next, q);
      }
      err := NotFound;
    }

    /** Reads the record `index` places behind the oldest one, with a cursor of its own. */
    method PeekAt(index: nat, room: nat) returns (err: Esp, sample: SampleMeta, registers: seq<word>)
      requires Valid()
      modifies this`meta, this`file, this`log
      ensures Valid() && old(log) <= log
      ensures err == Ok ==> |registers| == Count(sample.regCount) <= room
      ensures old(Rep()) ==>
        && Rep() && meta == old(meta) && log == old(log)
        && err == (if index >= |contents| then NotFound else if Blocked() then InvalidSize
                   else ReadOutcome(contents[index], room))
        && (err == Ok ==> sample == MetaOf(contents[index]) && registers == contents[index].registers)
    {
      hide Count, LogAcceptable, Recorded, Advance, Matches, Geometry.Slots, Geometry.Rest, HeaderAt, Crc16.Checksum,
        WordsToBytes, BytesToWords, PoppedShape, Stuck;
      sample, registers := SampleMeta(0, 0, 0, 0), [];
      ghost var rep := Rep();
      if rep {
        MatchesIsSafe(geo, Disk(data, meta), shape, contents);
        RepSize(geo, Disk(data, meta), shape, contents);
      }
      if index >= meta.count {
        return NotFound, sample, registers;
      }
      var cursor: nat, usedRemaining: nat, sampleIndex: nat := meta.head, meta.used, 0;
      ghost var at := shape;
      while usedRemaining > 0
        invariant Valid() && meta == old(meta) && log == old(log)
        invariant cursor < capacity && usedRemaining <= capacity && sampleIndex <= index < meta.count
        invariant rep ==> Rep() && index < |contents|
        invariant rep ==>
          Matches(geo, Disk(data, Meta(cursor, meta.tail, usedRemaining, meta.count - sampleIndex)), at,
                  contents[sampleIndex..])
        invariant sampleIndex == 0 ==> cursor == meta.head && usedRemaining == meta.used
        invariant rep && sampleIndex > 0 ==> !Blocked()
        decreases usedRemaining
      {
        if rep {
          NotStuckUnlessFull(geo, Disk(data, Meta(cursor, meta.tail, usedRemaining, meta.count - sampleIndex)), at,
                             contents[sampleIndex..]);
        }
        var hdr;
        err, cursor, usedRemaining, hdr, at :=
          CursorToRecord(cursor, usedRemaining, meta.count - sampleIndex, at,
                         if rep then contents[sampleIndex..] else []);
        if err != Ok {
          return;
        }
        ghost var seen := Disk(data, Meta(cursor, meta.tail, usedRemaining, meta.count - sampleIndex));
        if rep {
          HeadOnRecord(geo, seen, at, contents[sampleIndex..]);
        }
        var recSize := RecordSize(hdr.regCount);
        if Count(hdr.regCount) == 0 || Count(hdr.regCount) > maxRegisters
           || recSize > capacity || recSize > usedRemaining {
          ResetMeta();
          return InvalidSize, sample, registers;
        }
        if sampleIndex == index {
          err, sample, registers := DeliverAt(cursor, hdr, room);
          return;
        }
        if rep {
          PopRecord(geo, seen, at, contents[sampleIndex..]);
          assert contents[sampleIndex..][1..] == contents[sampleIndex + 1..];
        }
        sampleIndex, cursor, usedRemaining, at :=
          sampleIndex + 1, Advance(cursor, recSize, capacity), usedRemaining - recSize, PoppedShape(geo, at);
      }
      if rep {
        HeadCases(geo, Disk(data, Meta(cursor, meta.tail, usedRemaining, meta.count - sampleIndex)), at,
                  contents[sampleIndex..]);
      }
      return NotFound, sample, registers;
    }

    method Peek(room: nat) returns (err: Esp, sample: SampleMeta, registers: seq<word>)
      requires Valid()
      modifies this`meta, this`file, this`log, this`shape, this`contents
      ensures Valid() && old(log) <= log
      ensures old(Rep()) ==>
        && Rep() && contents == old(contents)
        && err == (if contents == [] then NotFound else if old(Blocked()) then InvalidSize
                   else ReadOutcome(contents[0], room))
        && (err == Ok ==> sample == MetaOf(contents[0]) && registers == contents[0].registers)
        && (contents != [] && old(Blocked()) ==> meta == old(meta) && log == old(log) && shape == old(shape))
        && SafeSteps(geo, log, |old(log)|, {old(contents), contents})
    {
      hide Valid, Matches, SafeSteps, Stuck;
      err, sample, registers := ReadSample(false, room);
    }

    method Pop(room: nat) returns (err: Esp, sample: SampleMeta, registers: seq<word>)
      requires Valid()
      modifies this`meta, this`file, this`log, this`shape, this`contents
      ensures Valid() && old(log) <= log
      ensures old(Rep()) ==>
        && Rep()
        && err == (if old(contents) == [] then NotFound else if old(Blocked()) then InvalidSize
                   else ReadOutcome(old(contents)[0], room))
        && (err == Ok ==> sample == MetaOf(old(contents)[0]) && registers == old(contents)[0].registers)
        && contents == (if err == Ok || err == InvalidCrc then Rest(old(contents)) else old(contents))
        && (old(contents) != [] && old(Blocked()) ==> meta == old(meta) && log == old(log) && shape == old(shape))
        && ((err == Ok || err == InvalidCrc) && old(!shape.inGap && shape.h < geo.Slots()) ==>
              shape == PoppedShape(geo, old(shape)))
        && SafeSteps(geo, log, |old(log)|, {old(contents), contents})
    {
      hide Valid, Matches, SafeSteps, Stuck;
      err, sample, registers := ReadSample(true, room);
    }

    method Clear() returns (err: Esp)
      requires Valid()
      modifies this`meta, this`file, this`log, this`shape, this`contents
      ensures Valid() && old(log) <= log && err == Ok
      ensures old(Rep()) ==>
        Rep() && contents == [] && SafeSteps(geo, log, |old(log)|, {old(contents), []})
    {
      hide SafeStep, LogAcceptable, Recorded, Stored, Counters, Geometry.Slots, Geometry.Rest, Geometry.At;
      ghost var before, s, q := meta, shape, contents;
      ResetMeta();
      if old(Rep()) {
        ClearedMatches(geo, Disk(data, before), s, q);
        MetaStepIsSafe(geo, data, before, EMPTY_META, s, Shape(0, 0, false, false), q, [], {q, []});
        shape, contents := Shape(0, 0, false, false), [];
      }
      return Ok;
    }

    method Pending() returns (count: nat)
      requires Valid()
      ensures Rep() ==> count == |contents|
    {
      if Rep() {
        MatchesIsSafe(geo, Disk(data, meta), shape, contents);
      }
      count := meta.count;
    }

    // ---------------------------------------------------------------- making room

    /** Gives up oldest records until `required` bytes are free, or refuses. */
    method EnsureFreeSpace(required: nat) returns (err: Esp)
      requires Valid()
      modifies this`meta, this`file, this`log, this`shape, this`contents
      ensures Valid() && old(log) <= log
      ensures err == Ok ==> required <= capacity - meta.used
      ensures required > capacity ==> err == InvalidSize && meta == old(meta) && log == old(log)
      ensures meta.tail == old(meta.tail) || meta == EMPTY_META
      ensures err == NoMem ==> meta == old(meta) && log == old(log) && shape == old(shape) && contents == old(contents)
      ensures required <= old(capacity - meta.used) ==>
        err == Ok && meta == old(meta) && log == old(log) && shape == old(shape) && contents == old(contents)
      ensures old(Rep() && Full()) && required == geo.size ==>
        && Rep() && meta.tail == old(meta.tail)
        && err == (if !overwriteOldest then NoMem else if old(Blocked()) then InvalidSize else Ok)
        && contents == (if err == Ok then Rest(old(contents)) else old(contents))
        && (err == Ok && old(!shape.inGap && shape.h < geo.Slots()) ==> shape == PoppedShape(geo, old(shape)))
        && (err != Ok ==> meta == old(meta) && log == old(log) && shape == old(shape))
        && SafeSteps(geo, log, |old(log)|, {old(contents), contents})
    {
      hide PoppedShape, Count, LogAcceptable, Recorded, Matches, SafeStep, Geometry.Slots, Stuck;
      ghost var evicting := Rep() && Full() && required == geo.size;
      if evicting {
        FreeBytes(geo, Disk(data, meta), shape, contents);
        FullMeansRecords(geo, Disk(data, meta), shape, contents);
      }
      if required > capacity {
        return InvalidSize;
      }
      ghost var evicted := false;
      while capacity - meta.used < required
        invariant Valid() && old(log) <= log
        invariant meta.tail == old(meta.tail) || meta == EMPTY_META
        invariant !evicted ==> meta == old(meta) && log == old(log) && shape == old(shape) && contents == old(contents)
        invariant evicted ==> required > old(capacity - meta.used) && overwriteOldest
        invariant evicting && evicted ==>
          && Rep() && meta.tail == old(meta.tail) && contents == Rest(old(contents))
          && overwriteOldest && !old(Blocked()) && required <= capacity - meta.used
          && (old(!shape.inGap && shape.h < geo.Slots()) ==> shape == PoppedShape(geo, old(shape)))
          && SafeSteps(geo, log, |old(log)|, {old(contents), contents})
        decreases meta.count
      {
        if meta.count == 0 {
          ResetMeta();
          evicted := true;
          break;
        }
        if !overwriteOldest {
          return NoMem;
        }
        var popErr := PopOldest();
        if popErr != Ok {
          return popErr;
        }
        evicted := true;
        if evicting {
          FreeBytes(geo, Disk(data, meta), shape, contents);
        }
      }
      return Ok;
    }

    /** Closes the lap when a record of this size does not fit behind the tail. */
    method PlaceWrapMarkerIfNeeded(recordSize: nat) returns (err: Esp)
      requires Valid() && recordSize <= capacity
      modifies this`data, this`meta, this`file, this`log, this`shape, this`contents
      ensures Valid() && old(log) <= log
      ensures err == Ok ==> recordSize <= capacity - meta.tail
      ensures old(Rep() && !Full()) && recordSize == geo.size ==>
        && err == Ok && Rep() && contents == old(contents) && shape.t < geo.Slots()
        && shape == RoomShape(geo, old(shape))
        && SafeSteps(geo, log, |old(log)|, {contents})
    {
      hide Count, LogAcceptable, Recorded, Matches, SafeStep, Geometry.Slots, Geometry.Rest, Geometry.At,
        EncodeHeader, Overwrite;
      ghost var rep := Rep() && !Full() && recordSize == geo.size;
      if rep {
        FreeBytes(geo, Disk(data, meta), shape, contents);
      }
      var remaining := capacity - meta.tail;
      if recordSize <= remaining {
        return Ok;
      }
      if remaining >= HEADER_BYTES {
        err := EnsureFreeSpace(recordSize + HEADER_BYTES);
        if err != Ok {
          return;
        }
        ghost var before := data;
        WriteAt(meta.tail, EncodeHeader(WRAP_HEADER));
        if rep {
          MarkerWrite(geo, Disk(before, meta), shape, contents, data);
        }
        meta := meta.(tail := meta.tail + HEADER_BYTES, used := meta.used + HEADER_BYTES);
      } else if rep {
        LapWithoutMarker(geo, Disk(data, meta), shape, contents);
      }
      meta := meta.(tail := 0);
      WriteMeta();
      if rep {
        shape := Shape(shape.h, 0, true, false);
      }
      return Ok;
    }

    // ---------------------------------------------------------------- the queue operations

    method Enqueue(slaveAddr: byte, startReg: word, registers: seq<word>, regCount: word, timestamp: dword)
      returns (err: Esp)
      requires Valid() && |registers| == Count(regCount)
      modifies this
      ensures Valid() && old(log) <= log
      ensures !(0 < Count(regCount) <= maxRegisters) ==>
        err == InvalidArg && meta == old(meta) && data == old(data) && log == old(log)
      ensures 0 < Count(regCount) <= maxRegisters && RecordSize(regCount) > capacity ==>
        err == InvalidSize && meta == old(meta) && data == old(data) && log == old(log)
      ensures old(Rep()) && regCount == geo.regCount ==>
        var r := NewRecord(slaveAddr, startReg, registers, regCount, timestamp);
        && Rep()
        && err == (if !old(Full()) then Ok else if !overwriteOldest then NoMem
                   else if old(Blocked()) then InvalidSize else Ok)
        && contents == (if err != Ok then old(contents)
                        else if old(Full()) then Rest(old(contents)) + [r] else old(contents) + [r])
        && (err == Ok && (old(!Full()) || old(!shape.inGap && shape.h < geo.Slots())) ==>
              shape == EnqueuedShape(geo, old(shape), old(Full())))
        && (err != Ok ==> meta == old(meta) && data == old(data) && log == old(log) && shape == old(shape))
        && SafeSteps(geo, log, |old(log)|,
                     if old(Full()) && err == Ok then {old(contents), Rest(old(contents)), contents}
                     else {old(contents), contents})
    {
      hide PoppedShape, AppendedShape, RoomShape, Count, LogAcceptable, Recorded, Matches, SafeStep, SafeSteps,
        Geometry.Slots, WordsToBytes, Stuck, Crc16.Checksum;
      ghost var rep, q := Rep() && regCount == geo.regCount, contents;
      if rep {
        RepSize(geo, Disk(data, meta), shape, contents);
      }
      if !(0 < Count(regCount) <= maxRegisters) {
        return InvalidArg;
      }
      var crc := Crc16.Crc16Modbus(WordsToBytes(registers));
      ghost var r := NewRecord(slaveAddr, startReg, registers, regCount, timestamp);
      ghost var kept := if Full() then Rest(q) else q;
      ghost var allowed := if Full() then {q, kept, kept + [r]} else {q, kept + [r]};

      err := MakeRoom(RecordSize(regCount));
      if err != Ok {
        return;
      }
      if rep {
        SafeStepsWiden(geo, log, |old(log)|, {q, kept}, allowed);
      }
      ghost var sofar := log;
      Append(Header(MAGIC_DATA, timestamp, startReg, regCount, slaveAddr, 0, crc), registers, r);
      if rep {
        SafeStepsJoin(geo, sofar, |old(log)|, log, {kept, kept + [r]}, allowed);
      }
    }

    /** Room for a record behind the tail, in bytes and in one piece. */
    method MakeRoom(recSize: nat) returns (err: Esp)
      requires Valid()
      modifies this
      ensures Valid() && old(log) <= log
      ensures recSize > capacity ==> err == InvalidSize && meta == old(meta) && data == old(data) && log == old(log)
      ensures err == Ok ==> meta.tail + recSize <= capacity && meta.used + recSize <= capacity
      ensures old(Rep()) && recSize == geo.size ==>
        var kept := if old(Full()) then Rest(old(contents)) else old(contents);
        && Rep()
        && err == (if !old(Full()) then Ok else if !overwriteOldest then NoMem
                   else if old(Blocked()) then InvalidSize else Ok)
        && contents == (if err == Ok then kept else old(contents))
        && (err == Ok ==> !Full() && shape.t < geo.Slots())
        && (err == Ok && (old(!Full()) || old(!shape.inGap && shape.h < geo.Slots())) ==>
              shape == RoomShape(geo, if old(Full()) then PoppedShape(geo, old(shape)) else old(shape)))
        && (err != Ok ==> meta == old(meta) && data == old(data) && log == old(log) && shape == old(shape))
        && SafeSteps(geo, log, |old(log)|, {old(contents), contents})
    {
      hide PoppedShape, RoomShape, Count, LogAcceptable, Recorded, Matches, SafeStep, Geometry.Slots, Stuck;
      ghost var rep, q := Rep() && recSize == geo.size, contents;
      ghost var kept := if Full() then Rest(q) else q;
      if rep {
        FreeBytes(geo, Disk(data, meta), shape, contents);
        RepSize(geo, Disk(data, meta), shape, contents);
      }
      err := EnsureFreeSpace(recSize);
      if err != Ok {
        return;
      }
      ghost var sofar := log;
      err := PlaceWrapMarkerIfNeeded(recSize);
      if rep {
        SafeStepsJoin(geo, sofar, |old(log)|, log, {kept}, {q, kept});
        FreeBytes(geo, Disk(data, meta), shape, contents);
      }
      if err != Ok {
        return;
      }
      err := EnsureFreeSpace(recSize);
    }

    /** The three writes that add a record at the tail. */
    method Append(hdr: Header, registers: seq<word>, ghost r: Record)
      requires Valid() && |registers| == Count(hdr.regCount)
      requires meta.tail + RecordSize(hdr.regCount) <= capacity && meta.used + RecordSize(hdr.regCount) <= capacity
      modifies this
      ensures Valid() && old(log) <= log
      ensures old(Rep() && !Full() && shape.t < geo.Slots())
              && r.Valid() && r.regCount == geo.regCount && hdr == r.HeaderOf() && registers == r.registers ==>
        && Rep() && contents == old(contents) + [r] && shape == AppendedShape(geo, old(shape))
        && SafeSteps(geo, log, |old(log)|, {old(contents), old(contents) + [r]})
    {
      hide Count, LogAcceptable, Recorded, Matches, SafeStep, Geometry.Slots, EncodeHeader, WordsToBytes, Overwrite,
        AppendedShape, Advance, Record.HeaderOf;
      var recSize := RecordSize(hdr.regCount);
      ghost var data0, meta0, log0 := data, meta, log;
      WriteAt(meta.tail, EncodeHeader(hdr));
      ghost var data1 := data;
      WriteAt(meta.tail + HEADER_BYTES, WordsToBytes(registers));
      meta := Meta(meta.head, Advance(meta.tail, recSize, capacity), meta.used + recSize,
                   (meta.count + 1) % COUNT_LIMIT);
      WriteMeta();
      if old(Rep() && !Full() && shape.t < geo.Slots())
         && r.Valid() && r.regCount == geo.regCount && hdr == r.HeaderOf() && registers == r.registers {
        ghost var q := contents;
        MatchesIsSafe(geo, Disk(data0, meta0), shape, q);
        FreeBytes(geo, Disk(data0, meta0), shape, q);
        RepSize(geo, Disk(data0, meta0), shape, q);
        RecordWrite(geo, Disk(data0, meta0), shape, q, r, data1, data);
        SafeStepWidens(geo, log[|log0|], {q}, {q, q + [r]});
        SafeStepWidens(geo, log[|log0| + 1], {q}, {q, q + [r]});
        shape, contents := AppendedShape(geo, shape), q + [r];
      }
    }
  }

  lemma DropIsSafe(g: Geometry, d: Disk, s: Shape, q: seq<Record>)
    requires Matches(g, d, s, q) && q != [] && !s.inGap && s.h < g.Slots()
    requires 0 < g.capacity && g.size <= d.meta.used && 0 < d.meta.count
    ensures Matches(g, Disk(d.data, PoppedMeta(g, d.meta)), PoppedShape(g, s), Rest(q))
    ensures SafeStep(g, MetaStep(Image(d.data, Persisted(g.capacity, d.meta)),
                                 Persisted(g.capacity, PoppedMeta(g, d.meta))), {q, Rest(q)})
  {
    hide Matches, SafeStep, PoppedMeta, PoppedShape, Persisted;
    HeadOnRecord(g, d, s, q);
    PopRecord(g, d, s, q);
    MetaStepIsSafe(g, d.data, d.meta, PoppedMeta(g, d.meta), s, PoppedShape(g, s), q, Rest(q), {q, Rest(q)});
  }

  lemma NotStuckUnlessFull(g: Geometry, d: Disk, s: Shape, q: seq<Record>)
    requires Matches(g, d, s, q) && q != []
    ensures Stuck(g.capacity, d.meta) ==> |q| == g.Slots()
  {
    hide Matches, Geometry.Slots, Geometry.Rest;
    HeadCases(g, d, s, q);
  }

  /** Clearing leaves stale bytes behind, and they do not matter. */
  lemma ClearedMatches(g: Geometry, d: Disk, s: Shape, q: seq<Record>)
    requires Matches(g, d, s, q)
    ensures Matches(g, Disk(d.data, EMPTY_META), Shape(0, 0, false, false), [])
  {
    EmptyMatches(g, d.data);
  }

  lemma RepSize(g: Geometry, d: Disk, s: Shape, q: seq<Record>)
    requires Matches(g, d, s, q)
    ensures g.size == RecordSize(g.regCount) && 0 < Count(g.regCount) <= g.maxRegisters
    ensures |q| <= g.Slots() && 0 < g.Slots()
  {
    hide Geometry.Slots, Stored;
    LayoutFacts(g);
  }

  lemma FullMeansRecords(g: Geometry, d: Disk, s: Shape, q: seq<Record>)
    requires Matches(g, d, s, q) && |q| >= g.Slots()
    ensures q != [] && d.meta.count == |q| == g.Slots() && g.size <= g.capacity
  {
    hide Geometry.Slots, Stored;
    LayoutFacts(g);
  }
}
