/**
 The tasks between the meter and the server: the sampling sink and the writer share a RAM
 queue, the writer and the processing task share the flash queue.  Each step below is one
 call that the queue or the mutex makes atomic; a run is any interleaving of steps.

 Samples are numbered in the order they are taken.
*/
module SamplingPipeline {

  import opened Wrappers
  import BoundedFifo

  const WINDOW: nat := 6

  /** RAM queue length, flash queue places, and the overflow policy. */
  datatype Config = Config(ramSize: nat, slots: nat, overwrite: bool)
  {
    predicate Valid() {
      1 <= ramSize && 1 <= slots
    }
  }

  /** Where the sink stands: between calls, after a failed first send, or after taking one item out. */
  datatype SinkPhase = SinkIdle | SinkFull(item: nat) | SinkMadeRoom(item: nat)

  /**
   A peeked window, with the number of samples that were gone from flash at each peek, and the
   number of evictions at the last one.
  */
  datatype Window = Window(ids: seq<nat>, at: seq<nat>, evictionsAtPeek: nat)

  /**
   The processing task: waiting, peeking (complete at six), or popping what the server has
   accepted - from place `start` on, `disturbed` by an eviction between two pops.  `evictionsAtPop`
   is the number of evictions at the first pop.
  */
  datatype Phase =
    | Idle
    | Peeking(win: Window)
    | Popping(win: Window, start: nat, evictionsAtPop: nat, popped: seq<nat>, disturbed: bool)

  /** The sampling side: the RAM queue, the sink in front of it and the writer behind it. */
  datatype RamSide = RamSide(
    sampled: nat, queued: seq<nat>, ram: seq<nat>, sink: SinkPhase, dropped: seq<nat>, lost: nat,
    held: Option<nat>, persisted: seq<nat>)

  /** The processing side: the flash queue, and the task that empties it. */
  datatype FlashSide = FlashSide(
    flash: seq<nat>, gone: nat, evictions: nat,
    phase: Phase, accepted: seq<Window>, notReady: nat, shortPops: nat)

  datatype State = State(r: RamSide, f: FlashSide)

  const INITIAL := State(RamSide(0, [], [], SinkIdle, [], 0, None, []), FlashSide([], 0, 0, Idle, [], 0, 0))

  datatype Step =
    | SinkCall(stored: bool)
    | SinkReceive
    | SinkSend
    | WriterReceive
    | WriterPersist(ioOk: bool)
    | CheckPending
    | PeekNext
    | Abandon
    | Send(delivered: bool)
    | PopNext
    | Finish

  /** The sink's steps; a step that is not enabled changes nothing. */
  function ApplySink(c: Config, s: RamSide, step: Step): RamSide {
    match step
    case SinkCall(stored) =>
      if !s.sink.SinkIdle? then s
      else if !stored then s.(sampled := s.sampled + 1)
      else if |s.ram| < c.ramSize then
        s.(sampled := s.sampled + 1, queued := s.queued + [s.sampled], ram := s.ram + [s.sampled])
      else s.(sampled := s.sampled + 1, sink := SinkFull(s.sampled))
    case SinkReceive =>
      if !s.sink.SinkFull? then s
      else if s.ram == [] then s.(sink := SinkMadeRoom(s.sink.item))
      else s.(ram := s.ram[1..], dropped := s.dropped + [s.ram[0]], sink := SinkMadeRoom(s.sink.item))
    case SinkSend =>
      if !s.sink.SinkMadeRoom? then s
      else if |s.ram| < c.ramSize then
        s.(queued := s.queued + [s.sink.item], ram := s.ram + [s.sink.item], sink := SinkIdle)
      else s.(lost := s.lost + 1, sink := SinkIdle)
    case _ => s
  }

  /** The writer takes the next item when it has none. */
  function ApplyReceive(s: RamSide): RamSide {
    if s.held.Some? || s.ram == [] then s else s.(held := Some(s.ram[0]), ram := s.ram[1..])
  }

  /** The enqueue call of the writer succeeds; a failed one leaves the item in its hands for a retry. */
  predicate Persists(c: Config, s: State, ioOk: bool) {
    s.r.held.Some? && ioOk && (|s.f.flash| < c.slots || c.overwrite)
  }

  function PersistRam(s: RamSide): RamSide
    requires s.held.Some?
  {
    s.(held := None, persisted := s.persisted + [s.held.value])
  }

  /** A sample arrives in flash; a full queue evicts its oldest one. */
  function PersistFlash(c: Config, f: FlashSide, x: nat): FlashSide
    requires c.Valid()
  {
    var full := |f.flash| >= c.slots;
    f.(flash := BoundedFifo.Offer(f.flash, x, c.slots, true),
       gone := if full then f.gone + 1 else f.gone,
       evictions := if full then f.evictions + 1 else f.evictions,
       phase := if full && f.phase.Popping? && 0 < |f.phase.popped| < WINDOW then f.phase.(disturbed := true)
                else f.phase)
  }

  /** The processing task's steps. */
  function ApplyConsumer(f: FlashSide, step: Step): FlashSide {
    match step
    case CheckPending =>
      if f.phase.Idle? && |f.flash| >= WINDOW then f.(phase := Peeking(Window([], [], 0))) else f
    case PeekNext =>
      if !f.phase.Peeking? || |f.phase.win.ids| >= WINDOW then f
      else
        var i := |f.phase.win.ids|;
        if i >= |f.flash| then f.(phase := Idle, notReady := f.notReady + 1)
        else f.(phase := Peeking(Window(f.phase.win.ids + [f.flash[i]], f.phase.win.at + [f.gone], f.evictions)))
    case Abandon =>
      if f.phase.Peeking? then f.(phase := Idle) else f
    case Send(delivered) =>
      if !f.phase.Peeking? || |f.phase.win.ids| < WINDOW then f
      else if !delivered then f.(phase := Idle)
      else f.(accepted := f.accepted + [f.phase.win], phase := Popping(f.phase.win, 0, 0, [], false))
    case PopNext =>
      if !f.phase.Popping? || |f.phase.popped| >= WINDOW then f
      else if f.flash == [] then f.(phase := Idle, shortPops := f.shortPops + 1)
      else
        f.(flash := f.flash[1..], gone := f.gone + 1,
           phase := f.phase.(popped := f.phase.popped + [f.flash[0]],
                             start := if f.phase.popped == [] then f.gone else f.phase.start,
                             evictionsAtPop := if f.phase.popped == [] then f.evictions else f.phase.evictionsAtPop))
    case Finish =>
      if f.phase.Popping? && |f.phase.popped| >= WINDOW then f.(phase := Idle) else f
    case _ => f
  }

  function Apply(c: Config, s: State, step: Step): State
    requires c.Valid()
  {
    match step
    case SinkCall(_) => s.(r := ApplySink(c, s.r, step))
    case SinkReceive => s.(r := ApplySink(c, s.r, step))
    case SinkSend => s.(r := ApplySink(c, s.r, step))
    case WriterReceive => s.(r := ApplyReceive(s.r))
    case WriterPersist(ioOk) =>
      if Persists(c, s, ioOk) then State(PersistRam(s.r), PersistFlash(c, s.f, s.r.held.value)) else s
    case _ => s.(f := ApplyConsumer(s.f, step))
  }

  /** The state after a run. */
  function After(c: Config, steps: seq<Step>): State
    requires c.Valid()
  {
    if steps == [] then INITIAL else Apply(c, After(c, steps[..|steps| - 1]), steps[|steps| - 1])
  }

  // ---------------------------------------------------------------- the RAM queue

  function Held(o: Option<nat>): seq<nat> {
    if o.Some? then [o.value] else []
  }

  function InSink(p: SinkPhase): seq<nat> {
    if p.SinkIdle? then [] else [p.item]
  }

  predicate Increasing(xs: seq<nat>) {
    forall i, j :: 0 <= i < j < |xs| ==> xs[i] < xs[j]
  }

  /** Everything taken and not dropped, in the order it reaches or will reach flash. */
  function InOrder(s: RamSide): seq<nat> {
    s.persisted + Held(s.held) + s.ram + InSink(s.sink)
  }

  ghost predicate Ordered(s: RamSide) {
    Increasing(InOrder(s)) && forall i :: 0 <= i < |InOrder(s)| ==> InOrder(s)[i] < s.sampled
  }

  ghost predicate Counted(s: RamSide) {
    multiset(s.queued) == multiset(s.persisted) + multiset(s.dropped) + multiset(s.ram) + multiset(Held(s.held))
  }

  /** The samples that wait are the newest of those ever queued, and they were queued in the order they were taken. */
  ghost predicate Recent(s: RamSide) {
    && |s.ram| <= |s.queued| && s.ram == s.queued[|s.queued| - |s.ram|..]
    && Increasing(s.queued + InSink(s.sink))
    && forall i :: 0 <= i < |s.queued + InSink(s.sink)| ==> (s.queued + InSink(s.sink))[i] < s.sampled
  }

  /** What the sink and the writer keep. */
  ghost predicate RamInv(c: Config, s: RamSide) {
    && |s.ram| <= c.ramSize && s.lost == 0
    && (s.sink.SinkMadeRoom? ==> |s.ram| < c.ramSize)
    && Ordered(s) && Counted(s) && Recent(s)
  }

  lemma SinkKeepsRecent(c: Config, s: RamSide, step: Step)
    requires c.Valid() && Recent(s) && (s.sink.SinkMadeRoom? ==> |s.ram| < c.ramSize)
    ensures Recent(ApplySink(c, s, step))
  {
    hide Increasing;
    var s' := ApplySink(c, s, step);
    if step.SinkCall? && s.sink.SinkIdle? && step.stored {
      assert s'.queued + InSink(s'.sink) == s.queued + InSink(s.sink) + [s.sampled];
      OneMore(s.queued + InSink(s.sink), s.sampled);
    } else {
      assert s'.queued + InSink(s'.sink) == s.queued + InSink(s.sink);
    }
  }

  lemma OneMore(xs: seq<nat>, x: nat)
    requires Increasing(xs) && forall i :: 0 <= i < |xs| ==> xs[i] < x
    ensures Increasing(xs + [x])
  {
  }

  lemma RemoveOne(a: seq<nat>, b: seq<nat>, e: seq<nat>)
    requires Increasing(a + b + e) && b != []
    ensures Increasing(a + b[1..] + e)
    ensures forall i :: 0 <= i < |a + b[1..] + e| ==> (a + b[1..] + e)[i] in a + b + e
  {
    var all, less := a + b + e, a + b[1..] + e;
    assert forall i :: 0 <= i < |less| ==> less[i] == all[if i < |a| then i else i + 1];
  }

  lemma SinkKeepsOrder(c: Config, s: RamSide, step: Step)
    requires c.Valid() && RamInv(c, s)
    ensures Ordered(ApplySink(c, s, step))
  {
    var s' := ApplySink(c, s, step);
    if step.SinkCall? && s.sink.SinkIdle? && step.stored {
      assert InOrder(s') == InOrder(s) + [s.sampled];
    } else if step.SinkReceive? && s.sink.SinkFull? && s.ram != [] {
      RemoveOne(s.persisted + Held(s.held), s.ram, InSink(s.sink));
      assert InOrder(s') == s.persisted + Held(s.held) + s.ram[1..] + InSink(s.sink);
    } else {
      assert InOrder(s') == InOrder(s);
    }
  }

  lemma SinkKeepsCount(c: Config, s: RamSide, step: Step)
    requires c.Valid() && RamInv(c, s)
    ensures Counted(ApplySink(c, s, step))
  {
    hide Ordered, Held;
    if step.SinkReceive? && s.sink.SinkFull? && s.ram != [] {
      assert s.ram == [s.ram[0]] + s.ram[1..];
    }
  }

  lemma SinkKeepsRamInv(c: Config, s: RamSide, step: Step)
    requires c.Valid() && RamInv(c, s)
    ensures RamInv(c, ApplySink(c, s, step))
  {
    hide Ordered, Counted, Recent, ApplySink;
    SinkKeepsRecent(c, s, step);
    SinkKeepsOrder(c, s, step);
    SinkKeepsCount(c, s, step);
    SinkKeepsSize(c, s, step);
  }

  lemma SinkKeepsSize(c: Config, s: RamSide, step: Step)
    requires c.Valid() && |s.ram| <= c.ramSize && s.lost == 0
    requires s.sink.SinkMadeRoom? ==> |s.ram| < c.ramSize
    ensures var s' := ApplySink(c, s, step);
      |s'.ram| <= c.ramSize && s'.lost == 0 && (s'.sink.SinkMadeRoom? ==> |s'.ram| < c.ramSize)
  {
  }

  lemma ReceiveKeepsRamInv(c: Config, s: RamSide)
    requires RamInv(c, s)
    ensures RamInv(c, ApplyReceive(s))
  {
    hide Increasing, Recent;
    ReceiveKeepsRecent(s);
    if s.held.None? && s.ram != [] {
      assert s.ram == [s.ram[0]] + s.ram[1..];
    }
    assert InOrder(ApplyReceive(s)) == InOrder(s);
  }

  lemma ReceiveKeepsRecent(s: RamSide)
    requires Recent(s)
    ensures Recent(ApplyReceive(s))
  {
    hide Increasing;
  }

  lemma PersistKeepsRamInv(c: Config, s: RamSide)
    requires RamInv(c, s) && s.held.Some?
    ensures RamInv(c, PersistRam(s))
  {
    hide Increasing;
    assert InOrder(PersistRam(s)) == InOrder(s);
  }

  lemma ApplyKeepsRamInv(c: Config, s: State, step: Step)
    requires c.Valid() && RamInv(c, s.r)
    ensures RamInv(c, Apply(c, s, step).r)
  {
    hide ApplySink, ApplyReceive, PersistRam, PersistFlash, ApplyConsumer, RamInv;
    SinkKeepsRamInv(c, s.r, step);
    ReceiveKeepsRamInv(c, s.r);
    if s.r.held.Some? {
      PersistKeepsRamInv(c, s.r);
    }
  }

  lemma {:induction false} RamInvHolds(c: Config, steps: seq<Step>)
    requires c.Valid()
    ensures RamInv(c, After(c, steps).r)
  {
    if steps != [] {
      hide Apply, RamInv;
      RamInvHolds(c, steps[..|steps| - 1]);
      ApplyKeepsRamInv(c, After(c, steps[..|steps| - 1]), steps[|steps| - 1]);
    } else {
      assert InOrder(INITIAL.r) == [];
    }
  }

  lemma SizesOf(a: seq<nat>)
    ensures |multiset(a)| == |a|
  {
  }

  /**
   RAM conservation, in every interleaving of sink and writer: what was queued is persisted,
   dropped, waiting or held; flash receives samples in the order they were taken; and the
   branch that loses a sample after making room is never reached.
  */
  lemma NothingIsLostInRam(c: Config, steps: seq<Step>)
    requires c.Valid()
    ensures var s := After(c, steps).r;
      && |s.queued| == |s.persisted| + |s.dropped| + |s.ram| + |Held(s.held)|
      && multiset(s.queued) == multiset(s.persisted) + multiset(s.dropped) + multiset(s.ram) + multiset(Held(s.held))
      && Increasing(s.persisted) && (forall i :: 0 <= i < |s.persisted| ==> s.persisted[i] < s.sampled)
      && s.lost == 0
  {
    RamInvHolds(c, steps);
    hide After, Held, Recent;
    var s := After(c, steps).r;
    SizesOf(s.queued);
    SizesOf(s.persisted);
    SizesOf(s.dropped);
    SizesOf(s.ram);
    SizesOf(Held(s.held));
    assert forall i :: 0 <= i < |s.persisted| ==> s.persisted[i] == InOrder(s)[i];
  }

  lemma PrefixIsOlder(queued: seq<nat>, k: nat, x: nat, y: nat)
    requires k <= |queued| && Increasing(queued) && x in multiset(queued[..k]) && y in queued[k..]
    ensures x < y
  {
    var i :| 0 <= i < k && queued[..k][i] == x;
    var j :| 0 <= j < |queued| - k && queued[k..][j] == y;
    assert queued[i] == x && queued[k + j] == y;
  }

  /**
   The oldest is dropped: in every interleaving the waiting samples are the newest ones queued, and
   every sample that was dropped is older than every one that waits.
  */
  lemma OldestAreDropped(c: Config, steps: seq<Step>)
    requires c.Valid()
    ensures var s := After(c, steps).r;
      && |s.ram| <= |s.queued| && s.ram == s.queued[|s.queued| - |s.ram|..]
      && forall x, y :: x in s.dropped && y in s.ram ==> x < y
  {
    RamInvHolds(c, steps);
    hide After, Held, Ordered;
    var s := After(c, steps).r;
    var k := |s.queued| - |s.ram|;
    Parts(s.queued, s.queued[..k], s.ram);
    Cancel(multiset(s.queued[..k]), multiset(s.persisted), multiset(s.dropped), multiset(s.ram),
           multiset(Held(s.held)));
    QueuedAscends(s);
    forall x, y | x in s.dropped && y in s.ram
      ensures x < y
    {
      PrefixIsOlder(s.queued, k, x, y);
    }
  }

  lemma Cancel(prefix: multiset<nat>, p: multiset<nat>, d: multiset<nat>, r: multiset<nat>, h: multiset<nat>)
    requires prefix + r == p + d + r + h
    ensures prefix == p + d + h
  {
    forall x: nat
      ensures prefix[x] == (p + d + h)[x]
    {
      assert (prefix + r)[x] == (p + d + r + h)[x];
    }
  }

  lemma Parts(xs: seq<nat>, a: seq<nat>, b: seq<nat>)
    requires xs == a + b
    ensures multiset(xs) == multiset(a) + multiset(b)
  {
  }

  lemma QueuedAscends(s: RamSide)
    requires Recent(s)
    ensures Increasing(s.queued)
  {
    var all := s.queued + InSink(s.sink);
    assert forall i :: 0 <= i < |s.queued| ==> s.queued[i] == all[i];
  }

  /** A call of the sink that is not interrupted takes the sample in, and gives up the oldest one for it when full. */
  lemma SampleIsQueued(c: Config, s: RamSide)
    requires c.Valid() && |s.ram| <= c.ramSize && s.sink.SinkIdle?
    ensures var s' := ApplySink(c, ApplySink(c, ApplySink(c, s, SinkCall(true)), SinkReceive), SinkSend);
      && s'.queued == s.queued + [s.sampled]
      && s'.ram == BoundedFifo.Newest(s.ram + [s.sampled], c.ramSize)
      && s'.dropped == s.dropped + (if |s.ram| == c.ramSize then [s.ram[0]] else [])
      && s'.sink.SinkIdle? && s'.sampled == s.sampled + 1 && s'.held == s.held && s'.persisted == s.persisted
  {
    if |s.ram| == c.ramSize {
      assert (s.ram + [s.sampled])[1..] == s.ram[1..] + [s.sampled];
    }
  }

  /** The writer brings the oldest waiting sample to flash; if the call fails, it keeps it and can try again. */
  lemma OldestIsPersisted(c: Config, s: State)
    requires c.Valid() && s.r.held.None? && s.r.ram != [] && |s.f.flash| <= c.slots
    ensures var s1 := Apply(c, s, WriterReceive);
      && Apply(c, s1, WriterPersist(false)) == s1
      && (|s.f.flash| < c.slots || c.overwrite ==>
            var s2 := Apply(c, s1, WriterPersist(true));
            && s2.r.persisted == s.r.persisted + [s.r.ram[0]] && s2.r.ram == s.r.ram[1..] && s2.r.held.None?
            && s2.f.flash == BoundedFifo.Newest(s.f.flash + [s.r.ram[0]], c.slots))
  {
    if |s.f.flash| == c.slots {
      assert (s.f.flash + [s.r.ram[0]])[1..] == s.f.flash[1..] + [s.r.ram[0]];
    }
  }

  // ---------------------------------------------------------------- the flash queue and the windows

  /** Flash holds everything persisted but the `gone` oldest. */
  ghost predicate Queue(c: Config, p: seq<nat>, f: FlashSide) {
    && |f.flash| <= c.slots && f.gone <= |p| && f.flash == p[f.gone..]
    && f.notReady == 0 && f.shortPops == 0
  }

  /** Each sample of a window stood at its index behind the samples gone at its peek. */
  ghost predicate Peeked(p: seq<nat>, w: Window, gone: nat) {
    && |w.ids| == |w.at| <= WINDOW
    && (forall i :: 0 <= i < |w.at| ==> w.at[i] <= gone && w.at[i] + i < |p| && w.ids[i] == p[w.at[i] + i])
    && (forall i, j :: 0 <= i <= j < |w.at| ==> w.at[i] <= w.at[j])
  }

  /** Between the last peek and a moment without pops in between, samples have gone by eviction only. */
  predicate GoneByEviction(w: Window, gone: nat, evictions: nat) {
    w.at != [] ==> gone - w.at[|w.at| - 1] == evictions - w.evictionsAtPeek
  }

  ghost predicate PhaseOk(p: seq<nat>, f: FlashSide) {
    match f.phase
    case Idle => true
    case Peeking(win) => Peeked(p, win, f.gone) && WINDOW <= |f.flash| && GoneByEviction(win, f.gone, f.evictions)
    case Popping(win, start, evictionsAtPop, popped, disturbed) =>
      && f.gone <= |p| && Peeked(p, win, f.gone) && |win.ids| == WINDOW
      && |popped| <= WINDOW <= |f.flash| + |popped|
      && f.accepted != [] && f.accepted[|f.accepted| - 1] == win
      && (if popped == [] then GoneByEviction(win, f.gone, f.evictions) else GoneByEviction(win, start, evictionsAtPop))
      && (popped != [] ==>
            && win.at[WINDOW - 1] <= start && start + |popped| <= f.gone
            && (!disturbed ==> popped == p[start..start + |popped|])
            && (!disturbed && |popped| < WINDOW ==> start + |popped| == f.gone))
  }

  /** The number of accepted windows that are completely dealt with. */
  function Settled(f: FlashSide): nat {
    if f.phase.Popping? && f.accepted != [] then |f.accepted| - 1 else |f.accepted|
  }

  /** No sample of a settled window can still be, or be being, popped. */
  ghost predicate AcceptedOk(p: seq<nat>, f: FlashSide) {
    forall k :: 0 <= k < Settled(f) ==>
      && Peeked(p, f.accepted[k], f.gone) && |f.accepted[k].ids| == WINDOW
      && f.accepted[k].at[WINDOW - 1] + WINDOW <=
         (if f.phase.Popping? && f.phase.popped != [] then f.phase.start else f.gone)
  }

  ghost predicate FlashInv(c: Config, s: State) {
    Queue(c, s.r.persisted, s.f) && PhaseOk(s.r.persisted, s.f) && AcceptedOk(s.r.persisted, s.f)
  }

  lemma PeekedExtends(p: seq<nat>, x: nat, w: Window, gone: nat, gone': nat)
    requires Peeked(p, w, gone) && gone <= gone'
    ensures Peeked(p + [x], w, gone')
  {
  }

  lemma PersistKeepsQueue(c: Config, p: seq<nat>, f: FlashSide, x: nat)
    requires c.Valid() && Queue(c, p, f)
    ensures Queue(c, p + [x], PersistFlash(c, f, x))
    ensures |f.flash| <= |PersistFlash(c, f, x).flash|
  {
  }

  lemma PersistKeepsPhase(c: Config, p: seq<nat>, f: FlashSide, x: nat)
    requires c.Valid() && Queue(c, p, f) && PhaseOk(p, f)
    ensures PhaseOk(p + [x], PersistFlash(c, f, x))
  {
    var f' := PersistFlash(c, f, x);
    PersistKeepsQueue(c, p, f, x);
    hide Queue;
    if !f.phase.Idle? {
      PeekedExtends(p, x, f.phase.win, f.gone, f'.gone);
    }
    hide Peeked;
    if f.phase.Popping? && f.phase.popped != [] && !f'.phase.disturbed {
      var from, to := f.phase.start, f.phase.start + |f.phase.popped|;
      assert (p + [x])[from..to] == p[from..to];
    }
  }

  lemma PersistKeepsAccepted(c: Config, p: seq<nat>, f: FlashSide, x: nat)
    requires c.Valid() && AcceptedOk(p, f)
    ensures AcceptedOk(p + [x], PersistFlash(c, f, x))
  {
    hide Peeked;
    var f' := PersistFlash(c, f, x);
    forall k | 0 <= k < Settled(f)
      ensures Peeked(p + [x], f.accepted[k], f'.gone)
    {
      PeekedExtends(p, x, f.accepted[k], f.gone, f'.gone);
    }
  }

  lemma PeekKeepsWindows(c: Config, p: seq<nat>, f: FlashSide)
    requires c.Valid() && Queue(c, p, f) && PhaseOk(p, f)
    ensures Queue(c, p, ApplyConsumer(f, PeekNext)) && PhaseOk(p, ApplyConsumer(f, PeekNext))
  {
  }

  lemma PopKeepsQueue(c: Config, p: seq<nat>, f: FlashSide)
    requires Queue(c, p, f) && PhaseOk(p, f)
    ensures Queue(c, p, ApplyConsumer(f, PopNext))
  {
    hide Peeked;
    if f.phase.Popping? && |f.phase.popped| < WINDOW {
      var f' := ApplyConsumer(f, PopNext);
      assert f'.flash == p[f'.gone..];
    }
  }

  lemma PeekedLater(p: seq<nat>, w: Window, gone: nat, gone': nat)
    requires Peeked(p, w, gone) && gone <= gone'
    ensures Peeked(p, w, gone')
  {
  }

  lemma PopKeepsPhase(c: Config, p: seq<nat>, f: FlashSide)
    requires Queue(c, p, f) && PhaseOk(p, f)
    ensures PhaseOk(p, ApplyConsumer(f, PopNext))
  {
    if f.phase.Popping? && |f.phase.popped| < WINDOW {
      var f' := ApplyConsumer(f, PopNext);
      PeekedLater(p, f.phase.win, f.gone, f'.gone);
      assert f.phase.win.at[WINDOW - 1] <= f.gone;
      hide Peeked;
      assert f.flash[0] == p[f.gone];
      assert !f.phase.disturbed ==> p[f'.phase.start..f'.phase.start + |f'.phase.popped|] == f'.phase.popped;
    }
  }

  lemma PopKeepsAccepted(p: seq<nat>, f: FlashSide)
    requires AcceptedOk(p, f)
    ensures AcceptedOk(p, ApplyConsumer(f, PopNext)) || (f.phase.Popping? && f.flash == [] && |f.phase.popped| < WINDOW)
  {
    hide Peeked;
    var f' := ApplyConsumer(f, PopNext);
    forall k | 0 <= k < Settled(f)
      ensures Peeked(p, f.accepted[k], f'.gone)
    {
      PeekedLater(p, f.accepted[k], f.gone, f'.gone);
    }
  }

  lemma PopFindsSomething(p: seq<nat>, f: FlashSide)
    requires PhaseOk(p, f) && f.phase.Popping? && |f.phase.popped| < WINDOW
    ensures f.flash != []
  {
  }

  lemma OtherStepsKeepWindows(c: Config, p: seq<nat>, f: FlashSide, step: Step)
    requires c.Valid() && Queue(c, p, f) && PhaseOk(p, f) && AcceptedOk(p, f)
    requires step.CheckPending? || step.Abandon? || step.Send? || step.Finish?
    ensures var f' := ApplyConsumer(f, step);
      Queue(c, p, f') && PhaseOk(p, f') && AcceptedOk(p, f')
  {
  }

  lemma ApplyKeepsFlashInv(c: Config, s: State, step: Step)
    requires c.Valid() && FlashInv(c, s)
    ensures FlashInv(c, Apply(c, s, step))
  {
    hide PhaseOk, AcceptedOk, Queue, PersistFlash;
    match step
    case WriterPersist(ioOk) =>
      if Persists(c, s, ioOk) {
        PersistKeepsQueue(c, s.r.persisted, s.f, s.r.held.value);
        PersistKeepsPhase(c, s.r.persisted, s.f, s.r.held.value);
        PersistKeepsAccepted(c, s.r.persisted, s.f, s.r.held.value);
      }
    case PeekNext =>
      PeekKeepsWindows(c, s.r.persisted, s.f);
      PeekKeepsAccepted(s.r.persisted, s.f);
    case PopNext =>
      PopKeepsQueue(c, s.r.persisted, s.f);
      PopKeepsPhase(c, s.r.persisted, s.f);
      PopKeepsAccepted(s.r.persisted, s.f);
      if s.f.phase.Popping? && |s.f.phase.popped| < WINDOW {
        PopFindsSomething(s.r.persisted, s.f);
      }
    case CheckPending => OtherStepsKeepWindows(c, s.r.persisted, s.f, step);
    case Abandon => OtherStepsKeepWindows(c, s.r.persisted, s.f, step);
    case Send(_) => OtherStepsKeepWindows(c, s.r.persisted, s.f, step);
    case Finish => OtherStepsKeepWindows(c, s.r.persisted, s.f, step);
    case _ =>
  }

  lemma PeekKeepsAccepted(p: seq<nat>, f: FlashSide)
    requires AcceptedOk(p, f)
    ensures AcceptedOk(p, ApplyConsumer(f, PeekNext))
  {
  }

  lemma {:induction false} FlashInvHolds(c: Config, steps: seq<Step>)
    requires c.Valid()
    ensures FlashInv(c, After(c, steps))
  {
    if steps != [] {
      hide Apply, FlashInv;
      FlashInvHolds(c, steps[..|steps| - 1]);
      ApplyKeepsFlashInv(c, After(c, steps[..|steps| - 1]), steps[|steps| - 1]);
    }
  }

  /** A window, once six samples are pending, is always complete, and so are the pops that follow its upload. */
  lemma WindowsAreNeverShort(c: Config, steps: seq<Step>)
    requires c.Valid()
    ensures var s := After(c, steps);
      && s.f.notReady == 0 && s.f.shortPops == 0
      && s.f.gone <= |s.r.persisted| && s.f.flash == s.r.persisted[s.f.gone..]
  {
    FlashInvHolds(c, steps);
    hide After;
  }

  // ---------------------------------------------------------------- what eviction costs

  /** `x` is in none of the windows the server has accepted. */
  ghost predicate NeverSent(f: FlashSide, x: nat) {
    forall k :: 0 <= k < |f.accepted| ==> x !in f.accepted[k].ids
  }

  ghost function CountNeverSent(f: FlashSide, xs: seq<nat>): nat {
    if xs == [] then 0
    else CountNeverSent(f, xs[..|xs| - 1]) + if NeverSent(f, xs[|xs| - 1]) then 1 else 0
  }

  /** The six pops after an upload are done, and no eviction fell between them. */
  ghost predicate PopsDone(f: FlashSide) {
    f.phase.Popping? && |f.phase.popped| == WINDOW && !f.phase.disturbed
  }

  /** Evictions between the last peek of the window and the first pop. */
  function EvictedMeanwhile(f: FlashSide): int
    requires f.phase.Popping?
  {
    f.phase.evictionsAtPop - f.phase.win.evictionsAtPeek
  }

  /** They are the places by which the first pop is behind the last peek. */
  lemma EvictionsMovePops(c: Config, s: State)
    requires FlashInv(c, s) && PopsDone(s.f)
    ensures |s.f.phase.win.at| == WINDOW && 0 <= EvictedMeanwhile(s.f)
    ensures s.f.phase.start == s.f.phase.win.at[WINDOW - 1] + EvictedMeanwhile(s.f)
  {
  }

  lemma PlacesDiffer(p: seq<nat>, i: nat, j: nat)
    requires Increasing(p) && i < |p| && j < |p| && i != j
    ensures p[i] != p[j]
  {
  }

  /** A popped sample was sent exactly if its place is the place of a sample of the window just uploaded. */
  lemma SentMeansPeeked(c: Config, s: State, j: nat)
    requires FlashInv(c, s) && Increasing(s.r.persisted) && PopsDone(s.f) && j < WINDOW
    ensures var ph := s.f.phase;
      NeverSent(s.f, ph.popped[j]) <==> forall i :: 0 <= i < WINDOW ==> ph.win.at[i] + i != ph.start + j
  {
    var p, f := s.r.persisted, s.f;
    var ph := f.phase;
    var x := ph.popped[j];
    assert x == p[ph.start + j];
    assert f.accepted[|f.accepted| - 1] == ph.win;
    if i :| 0 <= i < WINDOW && ph.win.at[i] + i == ph.start + j {
      assert ph.win.ids[i] == x;
    } else {
      forall k, i | 0 <= k < |f.accepted| && 0 <= i < |f.accepted[k].ids|
        ensures f.accepted[k].ids[i] != x
      {
        var w := f.accepted[k];
        if k < Settled(f) {
          assert Peeked(p, w, f.gone);
          assert w.at[i] <= w.at[WINDOW - 1];
        } else {
          assert w == ph.win;
        }
        PlacesDiffer(p, w.at[i] + i, ph.start + j);
      }
    }
  }

  /** With e evictions in between, the last min(e, 6) popped samples were never sent ... */
  lemma LastPoppedAreUnsent(c: Config, s: State, j: nat)
    requires FlashInv(c, s) && Increasing(s.r.persisted) && PopsDone(s.f) && j < WINDOW
    requires EvictedMeanwhile(s.f) + j >= WINDOW
    ensures NeverSent(s.f, s.f.phase.popped[j])
  {
    SentMeansPeeked(c, s, j);
    var w := s.f.phase.win;
    assert forall i :: 0 <= i < WINDOW ==> w.at[i] <= w.at[WINDOW - 1];
  }

  /** ... and, when nothing was evicted between the peek at index e and the last one, all the others were. */
  lemma FirstPoppedAreSent(c: Config, s: State, j: nat)
    requires FlashInv(c, s) && Increasing(s.r.persisted) && PopsDone(s.f) && j < WINDOW
    requires 0 <= EvictedMeanwhile(s.f) && EvictedMeanwhile(s.f) + j < WINDOW
    requires s.f.phase.win.at[EvictedMeanwhile(s.f)] == s.f.phase.win.at[WINDOW - 1]
    ensures !NeverSent(s.f, s.f.phase.popped[j])
  {
    SentMeansPeeked(c, s, j);
    var w, e := s.f.phase.win, EvictedMeanwhile(s.f);
    assert w.at[e] <= w.at[e + j] <= w.at[WINDOW - 1];
    assert w.at[e + j] + e + j == s.f.phase.start + j;
  }

  function Min(a: int, b: int): int {
    if a <= b then a else b
  }

  /** How many of the first n samples of a window stand at or behind place `start`. */
  function StillThere(w: Window, start: nat, n: nat): nat
    requires n <= |w.at|
  {
    if n == 0 then 0 else StillThere(w, start, n - 1) + if w.at[n - 1] + n - 1 >= start then 1 else 0
  }

  /** How many of them stand at the places lo .. hi - 1. */
  function Between(w: Window, lo: nat, hi: nat, n: nat): nat
    requires n <= |w.at|
  {
    if n == 0 then 0 else Between(w, lo, hi, n - 1) + if lo <= w.at[n - 1] + n - 1 < hi then 1 else 0
  }

  /** One place holds at most one sample of a window. */
  lemma {:induction false} BetweenGrows(w: Window, lo: nat, hi: nat, n: nat)
    requires n <= |w.at| && lo <= hi && forall i, j :: 0 <= i <= j < |w.at| ==> w.at[i] <= w.at[j]
    ensures Between(w, lo, hi, 0) == Between(w, lo, lo, n) == 0
    ensures Between(w, lo, hi + 1, n)
         == Between(w, lo, hi, n) + if exists i :: 0 <= i < n && w.at[i] + i == hi then 1 else 0
    decreases n
  {
    if n > 0 {
      BetweenGrows(w, lo, hi, n - 1);
    }
  }

  /** No sample of a window stands further behind the first pop than the pops reach. */
  lemma {:induction false} PopsReachWindow(w: Window, start: nat, n: nat)
    requires n <= |w.at| == WINDOW && w.at[WINDOW - 1] <= start
    requires forall i, j :: 0 <= i <= j < |w.at| ==> w.at[i] <= w.at[j]
    ensures Between(w, start, start + WINDOW, n) == StillThere(w, start, n)
    decreases n
  {
    if n > 0 {
      PopsReachWindow(w, start, n - 1);
    }
  }

  lemma WindowIsOrdered(c: Config, s: State)
    requires FlashInv(c, s) && PopsDone(s.f)
    ensures |s.f.phase.win.at| == WINDOW
    ensures forall i, j :: 0 <= i <= j < WINDOW ==> s.f.phase.win.at[i] <= s.f.phase.win.at[j]
  {
  }

  lemma CountLast(f: FlashSide, xs: seq<nat>, m: nat)
    requires 0 < m <= |xs|
    ensures CountNeverSent(f, xs[..m]) == CountNeverSent(f, xs[..m - 1]) + if NeverSent(f, xs[m - 1]) then 1 else 0
  {
    hide NeverSent;
    assert xs[..m][..m - 1] == xs[..m - 1];
  }

  lemma {:induction false} NeverSentAmongPopped(c: Config, s: State, m: nat)
    requires FlashInv(c, s) && Increasing(s.r.persisted) && PopsDone(s.f) && m <= WINDOW
    ensures var ph := s.f.phase;
      CountNeverSent(s.f, ph.popped[..m]) == m - Between(ph.win, ph.start, ph.start + m, WINDOW)
    decreases m
  {
    hide NeverSent, FlashInv, Increasing, Between;
    var ph := s.f.phase;
    WindowIsOrdered(c, s);
    if m == 0 {
      BetweenGrows(ph.win, ph.start, ph.start, WINDOW);
      assert ph.popped[..0] == [];
    } else {
      NeverSentAmongPopped(c, s, m - 1);
      SentMeansPeeked(c, s, m - 1);
      BetweenGrows(ph.win, ph.start, ph.start + m - 1, WINDOW);
      CountLast(s.f, ph.popped, m);
    }
  }

  /**
   With e evictions in between, at most n - e of the first n are still there, and exactly n - e if
   and only if nothing was evicted since the peek at index e.
  */
  lemma {:induction false} StillThereAtMost(w: Window, e: nat, n: nat)
    requires n <= |w.at| == WINDOW && forall i, j :: 0 <= i <= j < |w.at| ==> w.at[i] <= w.at[j]
    ensures var k := StillThere(w, w.at[WINDOW - 1] + e, n);
      && (n <= e ==> k == 0)
      && (e < n ==> k <= n - e && (k == n - e <==> w.at[e] == w.at[WINDOW - 1]))
    decreases n
  {
    if n > 0 {
      StillThereAtMost(w, e, n - 1);
    }
  }

  /**
   Eviction accounting, in every interleaving.  Let e samples be evicted after the last peek of a
   window and before the first pop that follows its upload, and none between the pops.  The six
   popped samples include exactly as many never-sent ones as samples of the window are no longer
   in flash; these are at least min(e, 6), and they are exactly min(e, 6) if and only if e is at
   least 6 or nothing was evicted between the peek at index e and the last one.
  */
  lemma EvictionCost(c: Config, steps: seq<Step>)
    requires c.Valid() && PopsDone(After(c, steps).f)
    ensures var f := After(c, steps).f;
      var w, e := f.phase.win, EvictedMeanwhile(f);
      && |w.at| == WINDOW && 0 <= e && f.phase.start == w.at[WINDOW - 1] + e
      && CountNeverSent(f, f.phase.popped) == WINDOW - StillThere(w, f.phase.start, WINDOW) >= Min(e, WINDOW)
      && (CountNeverSent(f, f.phase.popped) == Min(e, WINDOW) <==> e >= WINDOW || w.at[e] == w.at[WINDOW - 1])
  {
    hide After, FlashInv, StillThere, CountNeverSent, Increasing;
    FlashInvHolds(c, steps);
    PersistedInOrder(c, steps);
    EvictionCostAt(c, After(c, steps));
  }

  lemma PersistedInOrder(c: Config, steps: seq<Step>)
    requires c.Valid()
    ensures Increasing(After(c, steps).r.persisted)
  {
    hide After, Held;
    NothingIsLostInRam(c, steps);
  }

  lemma EvictionCostAt(c: Config, s: State)
    requires FlashInv(c, s) && Increasing(s.r.persisted) && PopsDone(s.f)
    ensures var f := s.f;
      var w, e := f.phase.win, EvictedMeanwhile(f);
      && |w.at| == WINDOW && 0 <= e && f.phase.start == w.at[WINDOW - 1] + e
      && CountNeverSent(f, f.phase.popped) == WINDOW - StillThere(w, f.phase.start, WINDOW) >= Min(e, WINDOW)
      && (CountNeverSent(f, f.phase.popped) == Min(e, WINDOW) <==> e >= WINDOW || w.at[e] == w.at[WINDOW - 1])
  {
    hide FlashInv, StillThere, Between, CountNeverSent, Increasing;
    var f := s.f;
    WindowIsOrdered(c, s);
    EvictionsMovePops(c, s);
    NeverSentAmongPopped(c, s, WINDOW);
    PopsReachWindow(f.phase.win, f.phase.start, WINDOW);
    StillThereAtMost(f.phase.win, EvictedMeanwhile(f), WINDOW);
    assert f.phase.popped[..WINDOW] == f.phase.popped;
  }

  // ---------------------------------------------------------------- an upload goes through

  /** An undisturbed round of the processing task: check, six peeks, upload, six pops. */
  function Round(): seq<Step> {
    [CheckPending] + Repeated(PeekNext, 6) + [Send(true)] + Repeated(PopNext, 6) + [Finish]
  }

  lemma {:induction false} PeeksTakeFirst(c: Config, steps: seq<Step>, n: nat)
    requires c.Valid() && n <= 6
    requires var f := After(c, steps).f; f.phase == Peeking(Window([], [], 0)) && |f.flash| >= 6
    ensures var s, s' := After(c, steps), After(c, steps + Repeated(PeekNext, n));
      && s'.r == s.r && s'.f.phase.Peeking? && s'.f == s.f.(phase := s'.f.phase)
      && s'.f.phase.win.ids == s.f.flash[..n] && |s'.f.phase.win.at| == n
      && (0 < n ==> s'.f.phase.win.evictionsAtPeek == s.f.evictions)
  {
    hide After;
    if n == 0 {
      assert steps + Repeated(PeekNext, 0) == steps;
    } else {
      PeeksTakeFirst(c, steps, n - 1);
      OneStep(c, steps + Repeated(PeekNext, n - 1), PeekNext);
      assert steps + Repeated(PeekNext, n) == steps + Repeated(PeekNext, n - 1) + [PeekNext];
      var flash := After(c, steps).f.flash;
      assert flash[..n] == flash[..n - 1] + [flash[n - 1]];
    }
  }

  lemma {:induction false} PopsTakeFirst(c: Config, steps: seq<Step>, n: nat)
    requires c.Valid() && n <= 6
    requires var f := After(c, steps).f; f.phase.Popping? && f.phase.popped == [] && |f.flash| >= 6
    ensures var s, s' := After(c, steps), After(c, steps + Repeated(PopNext, n));
      && s'.r == s.r && s'.f.phase.Popping? && s'.f.phase.popped == s.f.flash[..n]
      && s'.f == s.f.(flash := s.f.flash[n..], gone := s.f.gone + n, phase := s'.f.phase)
  {
    hide After;
    if n == 0 {
      assert steps + Repeated(PopNext, 0) == steps;
    } else {
      PopsTakeFirst(c, steps, n - 1);
      OneStep(c, steps + Repeated(PopNext, n - 1), PopNext);
      assert steps + Repeated(PopNext, n) == steps + Repeated(PopNext, n - 1) + [PopNext];
      var flash := After(c, steps).f.flash;
      assert flash[..n] == flash[..n - 1] + [flash[n - 1]] && flash[n - 1..][1..] == flash[n..];
    }
  }

  /**
   The processing task can always proceed: from every state in which it is idle and six samples are
   pending, one round has the server accept exactly the first six and removes exactly those.
  */
  lemma RoundUploadsFirstSix(c: Config, steps: seq<Step>)
    requires c.Valid() && After(c, steps).f.phase.Idle? && |After(c, steps).f.flash| >= 6
    ensures var s, s' := After(c, steps), After(c, steps + Round());
      && s'.r == s.r && s'.f.phase.Idle? && s'.f.flash == s.f.flash[6..] && s'.f.gone == s.f.gone + 6
      && |s'.f.accepted| == |s.f.accepted| + 1 && s.f.accepted <= s'.f.accepted
      && s'.f.accepted[|s.f.accepted|].ids == s.f.flash[..6]
      && s'.f.evictions == s.f.evictions && s'.f.notReady == s.f.notReady && s'.f.shortPops == s.f.shortPops
  {
    hide After, Repeated;
    var a := steps + [CheckPending];
    OneStep(c, steps, CheckPending);
    PeeksTakeFirst(c, a, 6);
    var b := a + Repeated(PeekNext, 6);
    OneStep(c, b, Send(true));
    PopsTakeFirst(c, b + [Send(true)], 6);
    var d := b + [Send(true)] + Repeated(PopNext, 6);
    OneStep(c, d, Finish);
    assert steps + Round() == d + [Finish];
  }

  /** An upload that fails, and a window that is given up, leave flash as it was. */
  lemma FailedRoundKeepsFlash(f: FlashSide, step: Step)
    requires step == Send(false) || step == Abandon
    ensures var f' := ApplyConsumer(f, step);
      && f'.flash == f.flash && f'.accepted == f.accepted
      && (f.phase.Peeking? && |f.phase.win.ids| == 6 ==> f'.phase.Idle?)
  {
  }

  // ---------------------------------------------------------------- an eviction between two peeks

  const SIX_PLACES := Config(1, WINDOW, true)

  /** One sample on its way from the meter to flash. */
  const DELIVERY: seq<Step> := [SinkCall(true), WriterReceive, WriterPersist(true)]

  function Deliveries(n: nat): seq<Step> {
    if n == 0 then [] else Deliveries(n - 1) + DELIVERY
  }

  function Repeated(step: Step, n: nat): seq<Step> {
    if n == 0 then [] else Repeated(step, n - 1) + [step]
  }

  /** Six samples fill flash; a seventh arrives after the first peek of the window. */
  function EvictionAfterFirstPeek(): seq<Step> {
    EvictionAfterFirstPeekToSend() + Repeated(PopNext, WINDOW)
  }

  /** All of it up to the upload. */
  function EvictionAfterFirstPeekToSend(): seq<Step> {
    Deliveries(WINDOW) + [CheckPending] + [PeekNext] + DELIVERY + Repeated(PeekNext, WINDOW - 1) + [Send(true)]
  }

  /** Both tasks on the sampling side are at rest, with nothing in between. */
  predicate AtRest(s: RamSide) {
    s.sink.SinkIdle? && s.ram == [] && s.held.None?
  }

  lemma OneStep(c: Config, steps: seq<Step>, step: Step)
    requires c.Valid()
    ensures After(c, steps + [step]) == Apply(c, After(c, steps), step)
  {
    hide Apply;
    assert (steps + [step])[..|steps|] == steps;
  }

  lemma DeliveryArrives(c: Config, steps: seq<Step>)
    requires c.Valid() && c.overwrite && AtRest(After(c, steps).r)
    ensures var s, s' := After(c, steps), After(c, steps + DELIVERY);
      AtRest(s'.r) && s'.f == PersistFlash(c, s.f, s.r.sampled)
  {
    hide After, PersistFlash;
    OneStep(c, steps, SinkCall(true));
    OneStep(c, steps + [SinkCall(true)], WriterReceive);
    OneStep(c, steps + [SinkCall(true)] + [WriterReceive], WriterPersist(true));
    assert steps + DELIVERY == steps + [SinkCall(true)] + [WriterReceive] + [WriterPersist(true)];
  }

  lemma {:induction false} DeliveriesFill(n: nat)
    requires n <= WINDOW
    ensures var s := After(SIX_PLACES, Deliveries(n));
      AtRest(s.r) && |s.f.flash| == n && s.f.phase.Idle? && s.f.gone == s.f.evictions == 0
  {
    if n > 0 {
      hide After;
      DeliveriesFill(n - 1);
      DeliveryArrives(SIX_PLACES, Deliveries(n - 1));
    }
  }

  /** Further peeks of a window while nothing is evicted. */
  lemma {:induction false} PeeksFollow(steps: seq<Step>, n: nat)
    requires n < WINDOW
    requires var f := After(SIX_PLACES, steps).f;
      |f.flash| == WINDOW && f.phase.Peeking? && |f.phase.win.ids| == |f.phase.win.at| == 1 && f.phase.win.at[0] == 0
      && f.gone == f.evictions == 1
    ensures var f := After(SIX_PLACES, steps + Repeated(PeekNext, n)).f;
      && |f.flash| == WINDOW && f.phase.Peeking? && |f.phase.win.ids| == |f.phase.win.at| == n + 1
      && f.phase.win.at[0] == 0 && (forall i :: 0 < i <= n ==> f.phase.win.at[i] == 1)
      && f.gone == f.evictions == 1 && (0 < n ==> f.phase.win.evictionsAtPeek == 1)
  {
    hide After;
    if n == 0 {
      assert steps + Repeated(PeekNext, 0) == steps;
    } else {
      PeeksFollow(steps, n - 1);
      OneStep(SIX_PLACES, steps + Repeated(PeekNext, n - 1), PeekNext);
      assert steps + Repeated(PeekNext, n) == steps + Repeated(PeekNext, n - 1) + [PeekNext];
    }
  }

  lemma {:induction false} PopsFollow(steps: seq<Step>, w: Window, n: nat)
    requires n <= WINDOW
    requires var f := After(SIX_PLACES, steps).f;
      |f.flash| == WINDOW && f.phase == Popping(w, 0, 0, [], false) && f.gone == f.evictions == 1
    ensures var f := After(SIX_PLACES, steps + Repeated(PopNext, n)).f;
      && |f.flash| == WINDOW - n && f.phase.Popping? && f.phase.win == w && |f.phase.popped| == n
      && !f.phase.disturbed && f.evictions == 1
      && (if n == 0 then f.gone == 1 else f.phase.start == f.phase.evictionsAtPop == 1)
  {
    hide After;
    if n == 0 {
      assert steps + Repeated(PopNext, 0) == steps;
    } else {
      PopsFollow(steps, w, n - 1);
      OneStep(SIX_PLACES, steps + Repeated(PopNext, n - 1), PopNext);
      assert steps + Repeated(PopNext, n) == steps + Repeated(PopNext, n - 1) + [PopNext];
    }
  }

  lemma WindowIsAccepted()
    ensures var f := After(SIX_PLACES, EvictionAfterFirstPeekToSend()).f;
      && |f.flash| == WINDOW && f.gone == f.evictions == 1
      && f.phase.Popping? && f.phase == Popping(f.phase.win, 0, 0, [], false)
      && |f.phase.win.at| == WINDOW && f.phase.win.at[0] == 0 && (forall i :: 0 < i < WINDOW ==> f.phase.win.at[i] == 1)
      && f.phase.win.evictionsAtPeek == 1
  {
    hide After, Deliveries, Repeated, ApplySink, ApplyReceive;
    var c, a := SIX_PLACES, Deliveries(WINDOW);
    DeliveriesFill(WINDOW);
    OneStep(c, a, CheckPending);
    OneStep(c, a + [CheckPending], PeekNext);
    var d := a + [CheckPending] + [PeekNext];
    DeliveryArrives(c, d);
    PeeksFollow(d + DELIVERY, WINDOW - 1);
    OneStep(c, d + DELIVERY + Repeated(PeekNext, WINDOW - 1), Send(true));
  }

  /**
   The number of evictions after the last peek is not the whole cost: here nothing is evicted between
   the last peek and the first pop, and yet one of the six popped samples was never sent.
  */
  lemma EvictionBetweenPeeksCosts()
    ensures SIX_PLACES.Valid()
    ensures var f := After(SIX_PLACES, EvictionAfterFirstPeek()).f;
      PopsDone(f) && EvictedMeanwhile(f) == 0 && CountNeverSent(f, f.phase.popped) == 1
  {
    WindowIsAccepted();
    hide After, EvictionAfterFirstPeekToSend, Repeated;
    var w := After(SIX_PLACES, EvictionAfterFirstPeekToSend()).f.phase.win;
    PopsFollow(EvictionAfterFirstPeekToSend(), w, WINDOW);
    EvictionCost(SIX_PLACES, EvictionAfterFirstPeek());
    FiveStillThere(w);
  }

  lemma FiveStillThere(w: Window)
    requires |w.at| == WINDOW && w.at[0] == 0 && forall i :: 0 < i < WINDOW ==> w.at[i] == 1
    ensures StillThere(w, 1, WINDOW) == 5
  {
    assert StillThere(w, 1, 1) == 0;
    assert StillThere(w, 1, 3) == 2;
    assert StillThere(w, 1, 5) == 4;
  }

  // ---------------------------------------------------------------- without eviction

  /** The accepted windows are the consecutive groups of six of what was persisted, and only they have left flash. */
  ghost predicate Partitioned(p: seq<nat>, f: FlashSide) {
    && WINDOW * |f.accepted| <= |p|
    && (forall k :: 0 <= k < |f.accepted| ==> f.accepted[k].ids == p[WINDOW * k..WINDOW * k + WINDOW])
    && f.gone + (if f.phase.Popping? then WINDOW - |f.phase.popped| else 0) == WINDOW * |f.accepted|
    && (f.phase.Popping? ==> |f.phase.popped| <= WINDOW)
    && (f.phase.Peeking? ==> forall i :: 0 <= i < |f.phase.win.at| ==> f.phase.win.at[i] == f.gone)
  }

  lemma PersistKeepsPartition(c: Config, p: seq<nat>, f: FlashSide, x: nat)
    requires c.Valid() && Partitioned(p, f) && |f.flash| < c.slots
    ensures Partitioned(p + [x], PersistFlash(c, f, x))
  {
    forall k | 0 <= k < |f.accepted|
      ensures f.accepted[k].ids == (p + [x])[WINDOW * k..WINDOW * k + WINDOW]
    {
      assert WINDOW * k + WINDOW <= WINDOW * |f.accepted|;
      assert (p + [x])[WINDOW * k..WINDOW * k + WINDOW] == p[WINDOW * k..WINDOW * k + WINDOW];
    }
  }

  lemma ConsumerKeepsPartition(c: Config, p: seq<nat>, f: FlashSide, step: Step)
    requires Queue(c, p, f) && PhaseOk(p, f) && Partitioned(p, f)
    ensures Partitioned(p, ApplyConsumer(f, step))
  {
    if step.Send? && f.phase.Peeking? && |f.phase.win.ids| == WINDOW && step.delivered {
      var g := WINDOW * |f.accepted|;
      assert f.phase.win.ids == p[g..g + WINDOW];
    }
  }

  lemma ApplyKeepsPartition(c: Config, s: State, step: Step)
    requires c.Valid() && FlashInv(c, s) && (s.f.evictions == 0 ==> Partitioned(s.r.persisted, s.f))
    ensures var s' := Apply(c, s, step);
      s'.f.evictions == 0 ==> s.f.evictions == 0 && Partitioned(s'.r.persisted, s'.f)
  {
    hide Partitioned, Queue, PhaseOk, AcceptedOk;
    if s.f.evictions == 0 {
      ConsumerKeepsPartition(c, s.r.persisted, s.f, step);
      if step.WriterPersist? && Persists(c, s, step.ioOk) && |s.f.flash| < c.slots {
        PersistKeepsPartition(c, s.r.persisted, s.f, s.r.held.value);
      }
    }
  }

  /**
   Without evictions - under the reject policy, or as long as flash never fills - the windows
   the server accepts divide the persisted samples into consecutive groups of six, in order, and
   nothing that was not sent has been removed.
  */
  lemma {:induction false} WindowsPartitionSamples(c: Config, steps: seq<Step>)
    requires c.Valid()
    ensures var s := After(c, steps);
      s.f.evictions == 0 ==> Partitioned(s.r.persisted, s.f)
    ensures !c.overwrite ==> After(c, steps).f.evictions == 0
  {
    if steps != [] {
      hide Apply, Partitioned, FlashInv;
      var n := |steps| - 1;
      WindowsPartitionSamples(c, steps[..n]);
      FlashInvHolds(c, steps[..n]);
      ApplyKeepsPartition(c, After(c, steps[..n]), steps[n]);
      if !c.overwrite {
        RejectNeverEvicts(c, After(c, steps[..n]), steps[n]);
      }
    }
  }

  lemma RejectNeverEvicts(c: Config, s: State, step: Step)
    requires c.Valid() && !c.overwrite
    ensures Apply(c, s, step).f.evictions == s.f.evictions
  {
  }
}
