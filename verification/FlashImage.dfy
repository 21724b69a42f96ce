/**
 What is on flash, and what a power failure can leave there.

 The metadata file is replaced as a whole; a write into the data file may be
 torn, that is, leave any bytes at all in the range it was writing.
*/
module FlashImage {

  import opened Words
  import opened RecordFormat
  import opened QueueLayout

  const META_MAGIC: dword := 0x4D455441
  const META_VERSION: word := 1

  datatype MetaFile =
    | Missing
    | Truncated
    | Whole(magic: dword, version: word, capacity: nat, meta: Meta)

  /** The data file (of any length, before the first start) and the metadata file. */
  datatype Image = Image(data: seq<byte>, file: MetaFile)

  function Persisted(capacity: nat, m: Meta): MetaFile {
    Whole(META_MAGIC, META_VERSION, capacity, m)
  }

  /** The checks a metadata file has to pass at start-up. */
  predicate Acceptable(capacity: nat, file: MetaFile) {
    && file.Whole?
    && file.magic == META_MAGIC
    && file.version == META_VERSION
    && file.capacity == capacity
    && Safe(capacity, file.meta)
  }

  function LoadedMeta(capacity: nat, file: MetaFile): Meta {
    if Acceptable(capacity, file) then file.meta else EMPTY_META
  }

  function LoadedData(capacity: nat, data: seq<byte>): (d: seq<byte>)
    ensures |d| == capacity
  {
    if |data| == capacity then data else seq(capacity, _ => 0)
  }

  /** The queue that start-up finds on an image. */
  function Recovered(capacity: nat, img: Image): Disk {
    Disk(LoadedData(capacity, img.data), LoadedMeta(capacity, img.file))
  }

  /** One write to flash, with the image it starts from. */
  datatype Step =
    | MetaStep(before: Image, after: MetaFile)
    | DataStep(before: Image, offset: nat, bytes: seq<byte>)

  /** The images a power failure during `step`, or just before or after it, can leave. */
  predicate CrashImage(step: Step, img: Image) {
    match step
    case MetaStep(before, after) => img == before || img == before.(file := after)
    case DataStep(before, offset, bytes) =>
      img.file == before.file && AgreeOutside(before.data, img.data, offset, |bytes|)
  }

  /** The image a write leaves when it is not interrupted. */
  function Completed(step: Step): Image {
    match step
    case MetaStep(before, after) => before.(file := after)
    case DataStep(before, offset, bytes) =>
      if offset + |bytes| <= |before.data| then before.(data := Overwrite(before.data, offset, bytes)) else before
  }

  /** The image in front of write `k` of a log that starts from `origin`. */
  function ImageAt(origin: Image, log: seq<Step>, k: nat): Image
    requires k <= |log|
  {
    if k == 0 then origin else Completed(log[k - 1])
  }

  /** `log` holds every write that led from `origin` to `now`: each starts from what the one before it has left. */
  ghost predicate History(origin: Image, log: seq<Step>, now: Image) {
    && (forall k :: 0 <= k < |log| ==> log[k].before == ImageAt(origin, log, k))
    && now == ImageAt(origin, log, |log|)
  }

  lemma HistoryGrows(origin: Image, log: seq<Step>, now: Image, step: Step)
    requires History(origin, log, now) && step.before == now
    ensures History(origin, log + [step], Completed(step))
  {
    hide Completed, ImageAt;
    forall k | 0 <= k < |log + [step]|
      ensures (log + [step])[k].before == ImageAt(origin, log + [step], k)
    {
      SameImage(origin, log, step, k);
    }
    SameImage(origin, log, step, |log| + 1);
  }

  lemma SameImage(origin: Image, log: seq<Step>, step: Step, k: nat)
    requires k <= |log| + 1
    ensures k <= |log| ==> ImageAt(origin, log + [step], k) == ImageAt(origin, log, k)
    ensures k == |log| + 1 ==> ImageAt(origin, log + [step], k) == Completed(step)
  {
    hide Completed;
  }

  /** Every crash during `step` leaves one of the `allowed` queues. */
  ghost predicate SafeStep(g: Geometry, step: Step, allowed: set<seq<Record>>) {
    forall img: Image :: CrashImage(step, img) ==>
      exists q :: q in allowed && Represents(g, Recovered(g.capacity, img), q)
  }

  ghost predicate SafeSteps(g: Geometry, log: seq<Step>, from: nat, allowed: set<seq<Record>>) {
    forall k :: from <= k < |log| ==> SafeStep(g, log[k], allowed)
  }

  lemma SafeStepsWiden(g: Geometry, log: seq<Step>, from: nat, a: set<seq<Record>>, b: set<seq<Record>>)
    requires SafeSteps(g, log, from, a) && a <= b
    ensures SafeSteps(g, log, from, b)
  {
    forall k | from <= k < |log|
      ensures SafeStep(g, log[k], b)
    {
      assert SafeStep(g, log[k], a);
    }
  }

  lemma SafeStepWidens(g: Geometry, step: Step, a: set<seq<Record>>, b: set<seq<Record>>)
    requires SafeStep(g, step, a) && a <= b
    ensures SafeStep(g, step, b)
  {
  }

  /** More steps after a safe run. */
  lemma SafeStepsJoin(g: Geometry, log: seq<Step>, from: nat, log': seq<Step>, a: set<seq<Record>>,
      allowed: set<seq<Record>>)
    requires SafeSteps(g, log, from, allowed) && log <= log'
    requires SafeSteps(g, log', |log|, a) && a <= allowed
    ensures SafeSteps(g, log', from, allowed)
  {
    SafeStepsWiden(g, log', |log|, a, allowed);
    forall k | from <= k < |log'|
      ensures SafeStep(g, log'[k], allowed)
    {
      if k < |log| {
        assert SafeStep(g, log[k], allowed);
      }
    }
  }

  lemma PersistedIsLoaded(capacity: nat, data: seq<byte>, m: Meta)
    requires Safe(capacity, m) && |data| == capacity
    ensures Recovered(capacity, Image(data, Persisted(capacity, m))) == Disk(data, m)
  {
  }

  /** Replacing the metadata is safe when the queue before and the queue after are both allowed. */
  lemma MetaStepIsSafe(g: Geometry, data: seq<byte>, m: Meta, m': Meta, s: Shape, s': Shape,
      q: seq<Record>, q': seq<Record>, allowed: set<seq<Record>>)
    requires Matches(g, Disk(data, m), s, q) && Matches(g, Disk(data, m'), s', q')
    requires q in allowed && q' in allowed
    ensures SafeStep(g, MetaStep(Image(data, Persisted(g.capacity, m)), Persisted(g.capacity, m')), allowed)
  {
    hide Stored, Counters;
    MatchesIsSafe(g, Disk(data, m), s, q);
    MatchesIsSafe(g, Disk(data, m'), s', q');
    PersistedIsLoaded(g.capacity, data, m);
    PersistedIsLoaded(g.capacity, data, m');
    assert Represents(g, Disk(data, m), q);
    assert Represents(g, Disk(data, m'), q');
  }

  /** A write into the free slot at the tail, torn or whole, leaves the queue as it was. */
  lemma TailStepIsSafe(g: Geometry, d: Disk, s: Shape, q: seq<Record>, offset: nat, bytes: seq<byte>)
    requires Matches(g, d, s, q) && |q| < g.Slots() && s.t < g.Slots()
    requires d.meta.tail <= offset && offset + |bytes| <= d.meta.tail + g.size
    ensures SafeStep(g, DataStep(Image(d.data, Persisted(g.capacity, d.meta)), offset, bytes), {q})
  {
    hide Counters, Geometry.Slots;
    MatchesIsSafe(g, d, s, q);
    var step := DataStep(Image(d.data, Persisted(g.capacity, d.meta)), offset, bytes);
    forall img: Image | CrashImage(step, img)
      ensures exists q' :: q' in {q} && Represents(g, Recovered(g.capacity, img), q')
    {
      TailSlotIsFree(g, d, s, q, img.data, offset, |bytes|);
      PersistedIsLoaded(g.capacity, img.data, d.meta);
      assert Represents(g, Recovered(g.capacity, img), q);
    }
  }

  /** The same for the marker behind the last slot. */
  lemma MarkerStepIsSafe(g: Geometry, d: Disk, s: Shape, q: seq<Record>, bytes: seq<byte>)
    requires Matches(g, d, s, q) && |q| < g.Slots() && !s.lap && |bytes| == HEADER_BYTES
    ensures SafeStep(g, DataStep(Image(d.data, Persisted(g.capacity, d.meta)), g.At(g.Slots()), bytes), {q})
  {
    hide Counters, Geometry.Slots, Geometry.At;
    MatchesIsSafe(g, d, s, q);
    var step := DataStep(Image(d.data, Persisted(g.capacity, d.meta)), g.At(g.Slots()), bytes);
    forall img: Image | CrashImage(step, img)
      ensures exists q' :: q' in {q} && Represents(g, Recovered(g.capacity, img), q')
    {
      RestIsFree(g, d, s, q, img.data);
      PersistedIsLoaded(g.capacity, img.data, d.meta);
      assert Represents(g, Recovered(g.capacity, img), q);
    }
  }

  /** Writing the marker and then moving the tail to the start: both writes may be interrupted. */
  lemma MarkerWrite(g: Geometry, d: Disk, s: Shape, q: seq<Record>, data': seq<byte>)
    requires Matches(g, d, s, q) && |q| < g.Slots() && s.t == g.Slots() && !s.lap && HEADER_BYTES <= g.Rest()
    requires |d.data| == g.capacity && d.meta.tail + HEADER_BYTES <= g.capacity
    requires data' == Overwrite(d.data, d.meta.tail, EncodeHeader(WRAP_HEADER))
    ensures Matches(g, Disk(data', LapClosedMeta(g, d.meta)), Shape(s.h, 0, true, false), q)
    ensures SafeStep(g, DataStep(Image(d.data, Persisted(g.capacity, d.meta)), d.meta.tail,
                                 EncodeHeader(WRAP_HEADER)), {q})
    ensures SafeStep(g, MetaStep(Image(data', Persisted(g.capacity, d.meta)),
                                 Persisted(g.capacity, LapClosedMeta(g, d.meta))), {q})
  {
    hide SafeStep, EncodeHeader, Stored, Geometry.Slots, Geometry.At, Geometry.Rest, LapClosedMeta, Persisted;
    OverwriteAgrees(d.data, d.meta.tail, EncodeHeader(WRAP_HEADER));
    MarkerStepIsSafe(g, d, s, q, EncodeHeader(WRAP_HEADER));
    RestIsFree(g, d, s, q, data');
    CloseLap(g, Disk(data', d.meta), s, q);
    MetaStepIsSafe(g, data', d.meta, LapClosedMeta(g, d.meta), s, Shape(s.h, 0, true, false), q, q, {q});
  }

  lemma LapWithoutMarker(g: Geometry, d: Disk, s: Shape, q: seq<Record>)
    requires Matches(g, d, s, q) && |q| < g.Slots() && s.t == g.Slots() && g.Rest() < HEADER_BYTES
    ensures Matches(g, Disk(d.data, LapClosedMeta(g, d.meta)), Shape(s.h, 0, true, false), q)
    ensures SafeStep(g, MetaStep(Image(d.data, Persisted(g.capacity, d.meta)),
                                 Persisted(g.capacity, LapClosedMeta(g, d.meta))), {q})
  {
    hide SafeStep, Matches, LapClosedMeta, Persisted;
    CloseLap(g, d, s, q);
    MetaStepIsSafe(g, d.data, d.meta, LapClosedMeta(g, d.meta), s, Shape(s.h, 0, true, false), q, q, {q});
  }

  lemma TwoWrites(data: seq<byte>, at: nat, a: seq<byte>, b: seq<byte>)
    requires at + |a| + |b| <= |data|
    ensures Overwrite(Overwrite(data, at, a), at + |a|, b) == Overwrite(data, at, a + b)
  {
  }

  /** Header, payload, counters: each of the three writes of an append may be interrupted. */
  lemma RecordWrite(g: Geometry, d: Disk, s: Shape, q: seq<Record>, r: Record, data1: seq<byte>, data2: seq<byte>)
    requires Matches(g, d, s, q) && |q| < g.Slots() && s.t < g.Slots() && 0 < g.capacity
    requires r.Valid() && r.regCount == g.regCount
    requires |d.data| == g.capacity && d.meta.tail + g.size <= g.capacity && g.size == RecordSize(g.regCount)
    requires data1 == Overwrite(d.data, d.meta.tail, EncodeHeader(r.HeaderOf()))
    requires data2 == Overwrite(data1, d.meta.tail + HEADER_BYTES, WordsToBytes(r.registers))
    ensures Matches(g, Disk(data2, AppendedMeta(g, d.meta)), AppendedShape(g, s), q + [r])
    ensures SafeStep(g, DataStep(Image(d.data, Persisted(g.capacity, d.meta)), d.meta.tail,
                                 EncodeHeader(r.HeaderOf())), {q})
    ensures SafeStep(g, DataStep(Image(data1, Persisted(g.capacity, d.meta)),
                                 d.meta.tail + HEADER_BYTES, WordsToBytes(r.registers)), {q})
    ensures SafeStep(g, MetaStep(Image(data2, Persisted(g.capacity, d.meta)),
                                 Persisted(g.capacity, AppendedMeta(g, d.meta))), {q, q + [r]})
  {
    hide SafeStep, EncodeHeader, WordsToBytes, Stored, Geometry.Slots, Geometry.At, Geometry.Rest,
      Persisted, Count, AppendedMeta, AppendedShape, Overwrite, AgreeOutside;
    OverwriteAgrees(d.data, d.meta.tail, EncodeHeader(r.HeaderOf()));
    TailStepIsSafe(g, d, s, q, d.meta.tail, EncodeHeader(r.HeaderOf()));
    TailSlotIsFree(g, d, s, q, data1, d.meta.tail, HEADER_BYTES);
    OverwriteAgrees(data1, d.meta.tail + HEADER_BYTES, WordsToBytes(r.registers));
    TailStepIsSafe(g, Disk(data1, d.meta), s, q, d.meta.tail + HEADER_BYTES, WordsToBytes(r.registers));
    TailSlotIsFree(g, Disk(data1, d.meta), s, q, data2, d.meta.tail + HEADER_BYTES, g.size - HEADER_BYTES);
    TwoWrites(d.data, d.meta.tail, EncodeHeader(r.HeaderOf()), WordsToBytes(r.registers));
    OverwriteAgrees(d.data, d.meta.tail, Encode(r));
    AppendRecord(g, Disk(data2, d.meta), s, q, r);
    MetaStepIsSafe(g, data2, d.meta, AppendedMeta(g, d.meta), s, AppendedShape(g, s), q, q + [r], {q, q + [r]});
  }
}
