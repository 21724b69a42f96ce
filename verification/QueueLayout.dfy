/**
 Where the flash queue keeps its records.

 A file of `capacity` bytes that only ever receives records of one size R has
 `Slots` = capacity / R record slots, at offsets k * R, and `Rest` = capacity % R
 bytes behind them.  When `Rest` is at least a header, a lap of the file is
 closed by a WRAP marker at the start of the rest; when it is shorter, readers
 skip it by its length.  This module says which bytes and counters represent
 which sequence of records, how every elementary change of the counters moves
 through the layout, and which disk images a power failure can leave.
*/
module QueueLayout {

  import opened Words
  import opened RecordFormat

  /** The queue counters, in RAM and in the metadata file. */
  datatype Meta = Meta(head: nat, tail: nat, used: nat, count: nat)

  const EMPTY_META := Meta(0, 0, 0, 0)

  datatype Disk = Disk(data: seq<byte>, meta: Meta)

  type pos = n: nat | 0 < n witness 1

  /** The file size, the one register count in use with its record size, and the configured bound on it. */
  datatype Geometry = Geometry(capacity: nat, size: pos, regCount: word, maxRegisters: nat)
  {
    function Slots(): nat {
      capacity / size
    }

    function Rest(): nat {
      capacity % size
    }

    function At(k: nat): nat {
      k * size
    }

    predicate Fits() {
      0 < Count(regCount) <= maxRegisters && size == RecordSize(regCount) && size <= capacity
    }
  }

  lemma Grows(x: int, r: nat)
    requires 0 <= x && 1 <= r
    ensures x <= x * r
  {
  }

  lemma Division(c: nat, r: nat)
    requires 0 < r <= c
    ensures 1 <= c / r <= c && c % r < r && c == (c / r) * r + c % r
  {
    Grows(c / r, r);
  }

  lemma LayoutFacts(g: Geometry)
    requires g.Fits()
    ensures g.size > HEADER_BYTES && 1 <= g.Slots() <= g.capacity && g.Rest() < g.size
    ensures g.capacity == g.At(g.Slots()) + g.Rest() && g.At(0) == 0
  {
    hide Count;
    Division(g.capacity, g.size);
  }

  lemma AtStep(g: Geometry, k: nat)
    ensures g.At(k + 1) == g.At(k) + g.size
  {
  }

  lemma Multiples(j: nat, k: nat, r: nat)
    requires j < k
    ensures j * r + r <= k * r
  {
    assert k * r == (j + 1) * r + (k - j - 1) * r;
  }

  lemma AtOrder(g: Geometry, j: nat, k: nat)
    requires j < k
    ensures g.At(j) + g.size <= g.At(k)
  {
    Multiples(j, k, g.size);
  }

  /** Moving an offset `n` bytes on, around the end of the file. */
  function Advance(offset: nat, n: nat, capacity: nat): (r: nat)
    requires 0 < capacity
    ensures r < capacity
  {
    (offset + n) % capacity
  }

  lemma AdvanceWithin(offset: nat, n: nat, capacity: nat)
    requires 0 < capacity && offset + n <= capacity
    ensures Advance(offset, n, capacity) == if offset + n == capacity then 0 else offset + n
  {
  }

  // ---------------------------------------------------------------- representation

  /**
   `h` is the slot of the oldest record (or Slots, when the head stands behind the
   last slot) and `t` the slot of the next one.  `lap`: the records run past the
   end of the file.  `inGap`: the head stands behind a consumed marker.
  */
  datatype Shape = Shape(h: nat, t: nat, lap: bool, inGap: bool)

  function SlotOf(g: Geometry, s: Shape, i: nat): nat {
    if s.h + i < g.Slots() then s.h + i else s.h + i - g.Slots()
  }

  /** The counters a layout with `n` records has. */
  predicate Counters(g: Geometry, m: Meta, s: Shape, n: nat) {
    && n == m.count <= g.Slots()
    && s.h <= g.Slots() && s.t <= g.Slots()
    && s.h + n == s.t + (if s.lap then g.Slots() else 0)
    && (s.lap ==> s.t <= s.h)
    && (g.Rest() == 0 ==> s.h < g.Slots() && s.t < g.Slots())
    && (s.inGap ==> HEADER_BYTES < g.Rest() && s.h == 0 && !s.lap)
    && m.head == (if s.inGap then g.At(g.Slots()) + HEADER_BYTES else g.At(s.h))
    && m.tail == g.At(s.t)
    && m.used == g.At(n) + (if s.lap && HEADER_BYTES <= g.Rest() then HEADER_BYTES else 0)
  }

  predicate RecordAt(g: Geometry, data: seq<byte>, slot: nat, r: Record) {
    && r.Valid()
    && r.regCount == g.regCount
    && g.At(slot) + g.size <= |data|
    && data[g.At(slot)..g.At(slot) + g.size] == Encode(r)
  }

  predicate MarkerAt(data: seq<byte>, offset: nat) {
    offset + HEADER_BYTES <= |data| && data[offset..offset + HEADER_BYTES] == EncodeHeader(WRAP_HEADER)
  }

  function HeaderAt(data: seq<byte>, offset: nat): Header
    requires offset + HEADER_BYTES <= |data|
  {
    DecodeHeader(data[offset..offset + HEADER_BYTES])
  }

  /** The never-written bytes behind the marker cannot be taken for a header. */
  predicate GapIsBlank(data: seq<byte>, offset: nat) {
    offset + HEADER_BYTES <= |data| ==>
      HeaderAt(data, offset).magic !in {MAGIC_DATA, MAGIC_WRAP}
  }

  predicate Stored(g: Geometry, data: seq<byte>, s: Shape, q: seq<Record>) {
    && |data| == g.capacity
    && (forall i :: 0 <= i < |q| ==> RecordAt(g, data, SlotOf(g, s, i), q[i]))
    && (s.lap && HEADER_BYTES <= g.Rest() ==> MarkerAt(data, g.At(g.Slots())))
    && GapIsBlank(data, g.At(g.Slots()) + HEADER_BYTES)
  }

  /** The bytes and counters of `d` represent the records `q`, oldest first. */
  predicate Matches(g: Geometry, d: Disk, s: Shape, q: seq<Record>) {
    g.Fits() && Counters(g, d.meta, s, |q|) && Stored(g, d.data, s, q)
  }

  ghost predicate Represents(g: Geometry, d: Disk, q: seq<Record>) {
    exists s: Shape :: Matches(g, d, s, q)
  }

  /** The reader cannot go on: the header at the head would run over the end of the file. */
  predicate Stuck(capacity: nat, m: Meta) {
    0 < m.count && m.head == m.tail && m.head + HEADER_BYTES > capacity
  }

  /** All counters are in range, as the check at load demands. */
  predicate Safe(capacity: nat, m: Meta) {
    m.head < capacity && m.tail < capacity && m.used <= capacity
  }

  lemma EmptyMatches(g: Geometry, data: seq<byte>)
    requires g.Fits() && |data| == g.capacity && GapIsBlank(data, g.At(g.Slots()) + HEADER_BYTES)
    ensures Matches(g, Disk(data, EMPTY_META), Shape(0, 0, false, false), [])
  {
    LayoutFacts(g);
  }

  lemma MatchesIsSafe(g: Geometry, d: Disk, s: Shape, q: seq<Record>)
    requires Matches(g, d, s, q)
    ensures Safe(g.capacity, d.meta) && |d.data| == g.capacity
    ensures d.meta.count == |q| <= g.Slots() <= g.capacity
  {
    hide Advance, Geometry.At, Geometry.Slots, Geometry.Rest, RecordAt;
    LayoutFacts(g);
    SlotBelowEnd(g, s.h);
    SlotBelowEnd(g, s.t);
    SlotBelowEnd(g, |q|);
  }

  lemma SlotBelowEnd(g: Geometry, k: nat)
    requires g.Fits() && k <= g.Slots()
    ensures g.At(k) + g.Rest() <= g.capacity
    ensures k < g.Slots() ==> g.At(k) + g.size + g.Rest() <= g.capacity
  {
    hide Advance, Geometry.At, Geometry.Slots, Geometry.Rest;
    LayoutFacts(g);
    if k < g.Slots() {
      AtOrder(g, k, g.Slots());
    }
  }

  lemma AtIsInjective(g: Geometry, j: nat, k: nat)
    requires g.At(j) == g.At(k)
    ensures j == k
  {
    hide Geometry.At;
    if j < k {
      AtOrder(g, j, k);
    } else if k < j {
      AtOrder(g, k, j);
    }
  }

  /** Bytes and counters determine the layout, and so the records: the abstraction is a function. */
  lemma RepresentationIsUnique(g: Geometry, d: Disk, s: Shape, q: seq<Record>, s': Shape, q': seq<Record>)
    requires Matches(g, d, s, q) && Matches(g, d, s', q')
    ensures s == s' && q == q'
  {
    ShapeIsUnique(g, d, s, q, s', q');
    hide Advance, Geometry.At, Geometry.Slots, Geometry.Rest, Encode, GapIsBlank, MarkerAt;
    forall i | 0 <= i < |q|
      ensures q[i] == q'[i]
    {
      assert RecordAt(g, d.data, SlotOf(g, s, i), q[i]) && RecordAt(g, d.data, SlotOf(g, s, i), q'[i]);
      EncodeIsInjective(q[i], q'[i]);
    }
  }

  lemma ShapeIsUnique(g: Geometry, d: Disk, s: Shape, q: seq<Record>, s': Shape, q': seq<Record>)
    requires Matches(g, d, s, q) && Matches(g, d, s', q')
    ensures s == s' && |q| == |q'|
  {
    hide Advance, Geometry.At, Geometry.Slots, Geometry.Rest, Stored;
    LayoutFacts(g);
    SlotBelowEnd(g, s.h);
    SlotBelowEnd(g, s'.h);
    if g.At(s.h) == g.At(s'.h) {
      AtIsInjective(g, s.h, s'.h);
    }
    AtIsInjective(g, s.t, s'.t);
  }

  // ---------------------------------------------------------------- the head moves

  /** The counters after the record at the head is given up. */
  function PoppedMeta(g: Geometry, m: Meta): Meta
    requires g.size <= m.used && 0 < m.count && 0 < g.capacity
  {
    Meta(Advance(m.head, g.size, g.capacity), m.tail, m.used - g.size, m.count - 1)
  }

  function PoppedShape(g: Geometry, s: Shape): Shape {
    if s.h + 1 == g.Slots() && g.Rest() == 0 then Shape(0, s.t, false, false) else s.(h := s.h + 1)
  }

  lemma HeadWithinSlots(g: Geometry, m: Meta, s: Shape, n: nat)
    requires g.Fits() && Counters(g, m, s, n) && 0 < n && !s.inGap && s.h < g.Slots()
    ensures m.head == g.At(s.h) && m.head + g.size <= g.capacity && g.size <= m.used
  {
    hide Advance, Geometry.At, Geometry.Slots, Geometry.Rest, Count;
    LayoutFacts(g);
    SlotBelowEnd(g, s.h);
    AtOrder(g, 0, n);
  }

  lemma SliceOfSlice(data: seq<byte>, at: nat, n: nat, len: nat)
    requires at + len <= |data| && n <= len
    ensures data[at..at + n] == data[at..at + len][..n]
    ensures data[at + n..at + len] == data[at..at + len][n..]
  {
  }

  lemma ReadRecord(g: Geometry, data: seq<byte>, slot: nat, r: Record)
    requires g.Fits() && RecordAt(g, data, slot, r)
    ensures HEADER_BYTES < g.size
    ensures HeaderAt(data, g.At(slot)) == r.HeaderOf()
    ensures data[g.At(slot) + HEADER_BYTES..g.At(slot) + g.size] == WordsToBytes(r.registers)
    ensures BytesToWords(WordsToBytes(r.registers)) == r.registers
  {
    hide Geometry.At, DecodeHeader, BytesToWords, Encode, WordsToBytes, Count, Record.HeaderOf;
    RecordRoundTrip(r);
    SliceOfSlice(data, g.At(slot), HEADER_BYTES, g.size);
  }

  /** A head that stands on a slot stands on the oldest record. */
  lemma HeadOnRecord(g: Geometry, d: Disk, s: Shape, q: seq<Record>)
    requires Matches(g, d, s, q) && q != [] && !s.inGap && s.h < g.Slots()
    ensures HEADER_BYTES < g.size <= d.meta.used && d.meta.head + g.size <= g.capacity
    ensures g.Fits()
    ensures HeaderAt(d.data, d.meta.head) == q[0].HeaderOf()
    ensures q[0].Valid() && q[0].regCount == g.regCount
    ensures d.data[d.meta.head + HEADER_BYTES..d.meta.head + g.size] == WordsToBytes(q[0].registers)
    ensures BytesToWords(WordsToBytes(q[0].registers)) == q[0].registers
  {
    hide Advance, Geometry.At, Geometry.Slots, Geometry.Rest, DecodeHeader, BytesToWords, MarkerAt, GapIsBlank,
      Encode, WordsToBytes, RecordSize, Counters;
    HeadWithinSlots(g, d.meta, s, |q|);
    assert RecordAt(g, d.data, SlotOf(g, s, 0), q[0]);
    ReadRecord(g, d.data, s.h, q[0]);
  }

  lemma PopRecord(g: Geometry, d: Disk, s: Shape, q: seq<Record>)
    requires Matches(g, d, s, q) && q != [] && !s.inGap && s.h < g.Slots()
    requires g.size <= d.meta.used && d.meta.head + g.size <= g.capacity
    ensures Matches(g, Disk(d.data, PoppedMeta(g, d.meta)), PoppedShape(g, s), q[1..])
  {
    PopCounters(g, d.meta, s, |q|);
    PopStored(g, d.data, s, q);
  }

  lemma PopCounters(g: Geometry, m: Meta, s: Shape, n: nat)
    requires g.Fits() && Counters(g, m, s, n) && 0 < n && !s.inGap && s.h < g.Slots()
    requires g.size <= m.used && m.head + g.size <= g.capacity
    ensures Counters(g, PoppedMeta(g, m), PoppedShape(g, s), n - 1)
  {
    hide Advance, Geometry.At, Geometry.Slots, Geometry.Rest, Count;
    LayoutFacts(g);
    AtStep(g, s.h);
    AtStep(g, n - 1);
    SlotBelowEnd(g, s.h + 1);
    AdvanceWithin(m.head, g.size, g.capacity);
    if s.h + 1 < g.Slots() {
      SlotBelowEnd(g, s.h + 1);
    }
  }

  lemma PopStored(g: Geometry, data: seq<byte>, s: Shape, q: seq<Record>)
    requires g.Fits() && Stored(g, data, s, q) && q != [] && |q| <= g.Slots() && s.h < g.Slots()
    ensures Stored(g, data, PoppedShape(g, s), q[1..])
  {
    hide Advance, Geometry.At, Geometry.Slots, Geometry.Rest, RecordAt, MarkerAt, GapIsBlank;
    forall i | 0 <= i < |q[1..]|
      ensures RecordAt(g, data, SlotOf(g, PoppedShape(g, s), i), q[1..][i])
    {
      assert RecordAt(g, data, SlotOf(g, s, i + 1), q[i + 1]);
      assert SlotOf(g, PoppedShape(g, s), i) == SlotOf(g, s, i + 1);
    }
  }

  /** Behind the last slot a non-empty queue has wrapped: either the marker is there or the rest is short. */
  lemma HeadBehindSlots(g: Geometry, d: Disk, s: Shape, q: seq<Record>)
    requires Matches(g, d, s, q) && q != [] && !s.inGap && s.h == g.Slots()
    ensures s.lap && 0 < g.Rest() && d.meta.head == g.At(g.Slots()) == g.capacity - g.Rest() && 0 < d.meta.used
    ensures HEADER_BYTES <= g.Rest() ==>
      && d.meta.head + HEADER_BYTES <= g.capacity
      && HeaderAt(d.data, d.meta.head).magic == MAGIC_WRAP
      && HEADER_BYTES <= d.meta.used
    ensures d.meta.head > d.meta.tail <==> s.t < g.Slots()
    ensures d.meta.head >= d.meta.tail
    ensures d.meta.head == d.meta.tail ==> |q| == g.Slots()
  {
    hide Advance, Geometry.At, Geometry.Slots, Geometry.Rest, DecodeHeader, EncodeHeader, GapIsBlank, RecordAt, Count;
    LayoutFacts(g);
    HeaderRoundTrip(WRAP_HEADER);
    AtOrder(g, 0, |q|);
    if s.t < g.Slots() {
      AtOrder(g, s.t, g.Slots());
    }
  }

  function AfterMarkerMeta(g: Geometry, m: Meta): Meta
    requires HEADER_BYTES <= m.used && 0 < g.capacity
  {
    m.(head := Advance(m.head, HEADER_BYTES, g.capacity), used := m.used - HEADER_BYTES)
  }

  lemma SkipMarker(g: Geometry, d: Disk, s: Shape, q: seq<Record>)
    requires Matches(g, d, s, q) && s.lap && s.h == g.Slots() && HEADER_BYTES <= g.Rest()
    requires HEADER_BYTES <= d.meta.used
    ensures Matches(g, Disk(d.data, AfterMarkerMeta(g, d.meta)),
                    Shape(0, s.t, false, HEADER_BYTES < g.Rest()), q)
    ensures !Stuck(g.capacity, AfterMarkerMeta(g, d.meta))
  {
    hide Advance, Geometry.At, Geometry.Slots, Geometry.Rest, RecordAt, MarkerAt, GapIsBlank, Count;
    LayoutFacts(g);
    AdvanceWithin(d.meta.head, HEADER_BYTES, g.capacity);
    SameRecords(g, d.data, s, Shape(0, s.t, false, HEADER_BYTES < g.Rest()), q);
    SlotBelowEnd(g, s.t);
  }

  /** A head behind the last slot means the same as a head at the first one. */
  lemma SameRecords(g: Geometry, data: seq<byte>, s: Shape, s': Shape, q: seq<Record>)
    requires Stored(g, data, s, q) && |q| <= g.Slots() && !s'.lap
    requires s'.h == 0 && (s.h == 0 || s.h == g.Slots())
    ensures Stored(g, data, s', q)
  {
    hide Advance, Geometry.At, Geometry.Slots, Geometry.Rest, RecordAt, MarkerAt, GapIsBlank;
    forall i | 0 <= i < |q|
      ensures RecordAt(g, data, SlotOf(g, s', i), q[i])
    {
      assert RecordAt(g, data, SlotOf(g, s, i), q[i]);
      assert SlotOf(g, s', i) == SlotOf(g, s, i);
    }
  }

  /** Behind a consumed marker there is nothing to read, and the head is past the tail. */
  lemma HeadInGap(g: Geometry, d: Disk, s: Shape, q: seq<Record>)
    requires Matches(g, d, s, q) && s.inGap
    ensures d.meta.head > d.meta.tail
    ensures d.meta.head + HEADER_BYTES <= g.capacity ==>
      HeaderAt(d.data, d.meta.head).magic !in {MAGIC_DATA, MAGIC_WRAP}
    ensures q != [] ==> 0 < d.meta.used
  {
    hide Advance, Geometry.At, Geometry.Slots, Geometry.Rest, DecodeHeader, RecordAt, Count;
    LayoutFacts(g);
    SlotBelowEnd(g, s.t);
    if s.t < g.Slots() {
      AtOrder(g, s.t, g.Slots());
    }
    if q != [] {
      AtOrder(g, 0, |q|);
    }
  }

  /** Moving the head back to the start, out of the gap or over a rest too short for a marker. */
  lemma HeadToStart(g: Geometry, d: Disk, s: Shape, q: seq<Record>)
    requires Matches(g, d, s, q)
    requires s.inGap || (s.lap && s.h == g.Slots() && g.Rest() < HEADER_BYTES)
    ensures Matches(g, Disk(d.data, d.meta.(head := 0)), Shape(0, s.t, false, false), q)
  {
    hide Advance, Geometry.At, Geometry.Slots, Geometry.Rest, RecordAt, MarkerAt, GapIsBlank, Count;
    LayoutFacts(g);
    SameRecords(g, d.data, s, Shape(0, s.t, false, false), q);
  }

  /** What the branches of the reading loop see, and what it means for the layout. */
  lemma HeadCases(g: Geometry, d: Disk, s: Shape, q: seq<Record>)
    requires Matches(g, d, s, q) && q != []
    ensures 0 < d.meta.used && 0 < d.meta.count && |d.data| == g.capacity
    ensures d.meta.head > d.meta.tail && g.capacity - d.meta.head < HEADER_BYTES ==>
      s.inGap || (s.lap && s.h == g.Slots() && g.Rest() < HEADER_BYTES)
    ensures !(d.meta.head > d.meta.tail && g.capacity - d.meta.head < HEADER_BYTES) ==>
      (d.meta.head + HEADER_BYTES > g.capacity <==> Stuck(g.capacity, d.meta))
    ensures Stuck(g.capacity, d.meta) ==>
      0 < g.Rest() < HEADER_BYTES && |q| == g.Slots() && d.meta.head == g.At(g.Slots())
    ensures d.meta.head + HEADER_BYTES <= g.capacity ==>
      var magic := HeaderAt(d.data, d.meta.head).magic;
      && (magic == MAGIC_WRAP <==> !s.inGap && s.h == g.Slots())
      && (magic == MAGIC_WRAP ==> s.lap && HEADER_BYTES <= g.Rest() && HEADER_BYTES <= d.meta.used)
      && (magic == MAGIC_DATA <==> !s.inGap && s.h < g.Slots())
      && (magic != MAGIC_WRAP && magic != MAGIC_DATA ==> s.inGap && d.meta.head > d.meta.tail)
  {
    hide Advance, Geometry.At, Geometry.Slots, Geometry.Rest, DecodeHeader, Stored, Count;
    MatchesIsSafe(g, d, s, q);
    if s.inGap {
      HeadInGap(g, d, s, q);
    } else if s.h < g.Slots() {
      HeadOnRecord(g, d, s, q);
    } else {
      HeadBehindSlots(g, d, s, q);
      LayoutFacts(g);
    }
  }

  // ---------------------------------------------------------------- the tail moves

  lemma FreeBytes(g: Geometry, d: Disk, s: Shape, q: seq<Record>)
    requires Matches(g, d, s, q)
    ensures d.meta.used <= g.capacity && s.t <= g.Slots() && 0 < g.Slots()
    ensures |q| < g.Slots() <==> g.capacity - d.meta.used >= g.size
    ensures |q| < g.Slots() && s.t == g.Slots() ==>
      !s.lap && !s.inGap && (HEADER_BYTES <= g.Rest() ==> g.capacity - d.meta.used >= g.size + HEADER_BYTES)
    ensures g.size <= g.capacity - d.meta.tail <==> s.t < g.Slots()
    ensures s.t == g.Slots() ==> g.capacity - d.meta.tail == g.Rest()
  {
    hide Advance, Geometry.At, Geometry.Slots, Geometry.Rest, Stored, Count;
    LayoutFacts(g);
    SlotBelowEnd(g, |q|);
    SlotBelowEnd(g, s.t);
  }

  predicate AgreeOutside(a: seq<byte>, b: seq<byte>, offset: nat, len: nat) {
    |a| == |b| && forall i :: 0 <= i < |a| && !(offset <= i < offset + len) ==> a[i] == b[i]
  }

  lemma OverwriteAgrees(data: seq<byte>, offset: nat, bytes: seq<byte>)
    requires offset + |bytes| <= |data|
    ensures AgreeOutside(data, Overwrite(data, offset, bytes), offset, |bytes|)
    ensures Overwrite(data, offset, bytes)[offset..offset + |bytes|] == bytes
  {
  }

  lemma DisjointSlice(a: seq<byte>, b: seq<byte>, offset: nat, len: nat, lo: nat, hi: nat)
    requires AgreeOutside(a, b, offset, len) && lo <= hi <= |a|
    requires hi <= offset || offset + len <= lo
    ensures a[lo..hi] == b[lo..hi]
  {
  }

  /** Whatever lands in a byte range that no record, marker or gap header occupies, the records stay. */
  lemma UntouchedRecords(g: Geometry, data: seq<byte>, data': seq<byte>, s: Shape, q: seq<Record>,
      offset: nat, len: nat)
    requires g.Fits() && Stored(g, data, s, q) && AgreeOutside(data, data', offset, len)
    requires forall i :: 0 <= i < |q| ==>
      g.At(SlotOf(g, s, i)) + g.size <= offset || offset + len <= g.At(SlotOf(g, s, i))
    requires offset + len <= g.At(g.Slots()) + HEADER_BYTES
    requires s.lap && HEADER_BYTES <= g.Rest() ==> offset + len <= g.At(g.Slots())
    ensures Stored(g, data', s, q)
  {
    hide Advance, Geometry.At, Geometry.Slots, Geometry.Rest, Encode, EncodeHeader, DecodeHeader, Count;
    LayoutFacts(g);
    forall i | 0 <= i < |q|
      ensures RecordAt(g, data', SlotOf(g, s, i), q[i])
    {
      var at := g.At(SlotOf(g, s, i));
      assert RecordAt(g, data, SlotOf(g, s, i), q[i]);
      DisjointSlice(data, data', offset, len, at, at + g.size);
    }
    UntouchedRest(g, data, data', s, q, offset, len);
  }

  /** The marker and the blank bytes behind it stay. */
  lemma UntouchedRest(g: Geometry, data: seq<byte>, data': seq<byte>, s: Shape, q: seq<Record>, offset: nat, len: nat)
    requires Stored(g, data, s, q) && AgreeOutside(data, data', offset, len)
    requires offset + len <= g.At(g.Slots()) + HEADER_BYTES
    requires s.lap && HEADER_BYTES <= g.Rest() ==> offset + len <= g.At(g.Slots())
    ensures s.lap && HEADER_BYTES <= g.Rest() ==> MarkerAt(data', g.At(g.Slots()))
    ensures GapIsBlank(data', g.At(g.Slots()) + HEADER_BYTES)
  {
    hide Geometry.At, Geometry.Slots, Geometry.Rest, EncodeHeader, DecodeHeader, RecordAt;
    var m := g.At(g.Slots());
    if s.lap && HEADER_BYTES <= g.Rest() {
      DisjointSlice(data, data', offset, len, m, m + HEADER_BYTES);
    }
    if m + 2 * HEADER_BYTES <= |data| {
      DisjointSlice(data, data', offset, len, m + HEADER_BYTES, m + 2 * HEADER_BYTES);
    }
  }

  /** Nothing written into the slot at the tail of a queue that is not full touches a live record. */
  lemma TailSlotIsFree(g: Geometry, d: Disk, s: Shape, q: seq<Record>, data': seq<byte>, offset: nat, len: nat)
    requires Matches(g, d, s, q) && |q| < g.Slots() && s.t < g.Slots()
    requires d.meta.tail <= offset && offset + len <= d.meta.tail + g.size
    requires AgreeOutside(d.data, data', offset, len)
    ensures Matches(g, Disk(data', d.meta), s, q)
  {
    hide Advance, Geometry.At, Geometry.Slots, Geometry.Rest, Stored, Count;
    LayoutFacts(g);
    SlotBelowEnd(g, s.t);
    forall i | 0 <= i < |q|
      ensures g.At(SlotOf(g, s, i)) + g.size <= offset || offset + len <= g.At(SlotOf(g, s, i))
    {
      var k := SlotOf(g, s, i);
      if k < s.t {
        AtOrder(g, k, s.t);
      } else {
        AtOrder(g, s.t, k);
      }
    }
    UntouchedRecords(g, d.data, data', s, q, offset, len);
  }

  function AppendedMeta(g: Geometry, m: Meta): Meta
    requires 0 < g.capacity
  {
    Meta(m.head, Advance(m.tail, g.size, g.capacity), m.used + g.size, m.count + 1)
  }

  function AppendedShape(g: Geometry, s: Shape): Shape {
    if s.t + 1 == g.Slots() && g.Rest() == 0 then Shape(s.h, 0, true, s.inGap) else s.(t := s.t + 1)
  }

  /** A whole record written at the tail becomes the newest one when the counters move on. */
  lemma AppendRecord(g: Geometry, d: Disk, s: Shape, q: seq<Record>, r: Record)
    requires Matches(g, d, s, q) && |q| < g.Slots() && s.t < g.Slots()
    requires RecordAt(g, d.data, s.t, r)
    ensures Matches(g, Disk(d.data, AppendedMeta(g, d.meta)), AppendedShape(g, s), q + [r])
  {
    AppendCounters(g, d.meta, s, |q|);
    hide Advance, Geometry.At, Geometry.Slots, Geometry.Rest, RecordAt, MarkerAt, GapIsBlank, Count;
    var s' := AppendedShape(g, s);
    forall i | 0 <= i < |q + [r]|
      ensures RecordAt(g, d.data, SlotOf(g, s', i), (q + [r])[i])
    {
      if i < |q| {
        assert RecordAt(g, d.data, SlotOf(g, s, i), q[i]);
      } else {
        assert SlotOf(g, s', i) == s.t;
      }
    }
  }

  lemma AppendCounters(g: Geometry, m: Meta, s: Shape, n: nat)
    requires g.Fits() && Counters(g, m, s, n) && n < g.Slots() && s.t < g.Slots()
    ensures Counters(g, AppendedMeta(g, m), AppendedShape(g, s), n + 1)
  {
    hide Advance, Geometry.At, Geometry.Slots, Geometry.Rest, Count;
    LayoutFacts(g);
    AtStep(g, s.t);
    AtStep(g, n);
    SlotBelowEnd(g, s.t);
    AdvanceWithin(m.tail, g.size, g.capacity);
    if s.t + 1 < g.Slots() {
      SlotBelowEnd(g, s.t + 1);
    }
  }

  /** Nothing written behind the last slot while no marker is live touches a record. */
  lemma RestIsFree(g: Geometry, d: Disk, s: Shape, q: seq<Record>, data': seq<byte>)
    requires Matches(g, d, s, q) && |q| < g.Slots() && !s.lap
    requires AgreeOutside(d.data, data', g.At(g.Slots()), HEADER_BYTES)
    ensures Matches(g, Disk(data', d.meta), s, q)
  {
    hide Advance, Geometry.At, Geometry.Slots, Geometry.Rest, Stored, Count;
    LayoutFacts(g);
    forall i | 0 <= i < |q|
      ensures g.At(SlotOf(g, s, i)) + g.size <= g.At(g.Slots())
    {
      SlotBelowEnd(g, SlotOf(g, s, i));
    }
    UntouchedRecords(g, d.data, data', s, q, g.At(g.Slots()), HEADER_BYTES);
  }

  function LapClosedMeta(g: Geometry, m: Meta): Meta {
    m.(tail := 0, used := m.used + if HEADER_BYTES <= g.Rest() then HEADER_BYTES else 0)
  }

  lemma CloseLap(g: Geometry, d: Disk, s: Shape, q: seq<Record>)
    requires Matches(g, d, s, q) && |q| < g.Slots() && s.t == g.Slots()
    requires HEADER_BYTES <= g.Rest() ==> MarkerAt(d.data, g.At(g.Slots()))
    ensures Matches(g, Disk(d.data, LapClosedMeta(g, d.meta)), Shape(s.h, 0, true, false), q)
  {
    hide Advance, Geometry.At, Geometry.Slots, Geometry.Rest, RecordAt, MarkerAt, GapIsBlank, Count;
    LayoutFacts(g);
    var s' := Shape(s.h, 0, true, false);
    forall i | 0 <= i < |q|
      ensures RecordAt(g, d.data, SlotOf(g, s', i), q[i])
    {
      assert RecordAt(g, d.data, SlotOf(g, s, i), q[i]);
    }
  }
}
