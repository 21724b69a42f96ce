/**
 The acquisition cycle: it reads the meter, one request after another, into one flat buffer
 and publishes the buffer only when it is complete.
*/
module SampleCycle {

  import opened Words
  import opened Wrappers
  import opened ResilientRead
  import opened RequestPlan

  const MAX_CYCLE_WORDS: nat := 1200

  /** A published acquisition cycle. */
  datatype Cycle = Cycle(startReg: u16, words: seq<u16>)

  // ---------------------------------------------------------------- acquisition

  class ModbusManager {

    const bus: Bus
    const readBuf: array<u16>
    const cycleBuf: array<u16>

    ghost predicate Valid()
      reads this
    {
      readBuf.Length == MAX_REQUEST_WORDS && cycleBuf.Length == MAX_CYCLE_WORDS && readBuf != cycleBuf
    }

    constructor (bus: Bus)
      ensures Valid() && this.bus == bus && fresh(readBuf) && fresh(cycleBuf)
    {
      this.bus := bus;
      readBuf := new u16[MAX_REQUEST_WORDS](_ => 0);
      cycleBuf := new u16[MAX_CYCLE_WORDS](_ => 0);
    }

    /** The acquisition side's merge: one request for as many registers as fit. */
    method MergeBlock(regs: seq<Register>, i: nat) returns (j: nat, blockEnd: nat)
      requires i < |regs| && regs[i].ValidWidth()
      ensures j == Grow(regs, i, i + 1) && blockEnd == MaxEnd(regs, i, j)
    {
      blockEnd := regs[i].start + regs[i].count;
      j := i + 1;
      while j < |regs|
        invariant i < j <= |regs|
        invariant blockEnd == MaxEnd(regs, i, j)
        invariant Grow(regs, i, j) == Grow(regs, i, i + 1)
      {
        var next := regs[j];
        if next.count == 0 || next.count > MAX_REQUEST_WORDS {
          break;
        }
        if next.fc != regs[i].fc {
          break;
        }
        if next.start > blockEnd {
          break;
        }
        var nextEnd := next.start + next.count;
        var mergedEnd := if nextEnd > blockEnd then nextEnd else blockEnd;
        if mergedEnd - regs[i].start > MAX_REQUEST_WORDS {
          break;
        }
        blockEnd := mergedEnd;
        j := j + 1;
      }
    }

    /** Appends a block that was read to the cycle, unless it does not fit. */
    method StoreBlock(count: nat, cycleWords: nat, copied: nat)
      returns (cycleWords': nat, copied': nat, tooLong: bool)
      requires Valid() && 1 <= count <= MAX_REQUEST_WORDS && copied <= MAX_CYCLE_WORDS && copied <= cycleWords
      modifies cycleBuf
      ensures copied' <= MAX_CYCLE_WORDS && copied <= copied' <= cycleWords' <= cycleWords + count
      ensures tooLong <==> cycleWords + count > 0xFFFF || copied + count > MAX_CYCLE_WORDS
      ensures !tooLong ==>
        && cycleWords' == cycleWords + count && copied' == copied + count
        && cycleBuf[..copied'] == old(cycleBuf[..copied]) + readBuf[..count]
    {
      cycleWords', copied', tooLong := cycleWords, copied, false;
      if cycleWords + count > 0xFFFF {
        tooLong := true;
        return;
      }
      cycleWords' := cycleWords + count;
      if copied + count > MAX_CYCLE_WORDS {
        tooLong := true;
        return;
      }
      forall k | 0 <= k < count {
        cycleBuf[copied + k] := readBuf[k];
      }
      copied' := copied + count;
      assert cycleBuf[..copied'] == old(cycleBuf[..copied]) + readBuf[..count];
    }

    /**
     One cycle over the register map.  What is published is complete: the words of the whole plan, in
     order.  Whether it is published is decided by the map and the bus: every block has to be read in
     the end, however many requests that takes, and all of them have to fit.
    */
    method SampleAndStoreCycle(regs: seq<Register>) returns (err: Esp, published: Option<Cycle>)
      requires Valid()
      modifies bus`requests, readBuf, cycleBuf
      ensures err == Ok <==> published.Some?
      ensures published.Some? <==>
        && regs != [] && AllValid(regs) && TotalWords(Plan(regs, 0)) <= 1200
        && PlanServed(bus.outcome, old(bus.requests), Plan(regs, 0)).ok
      ensures regs == [] ==> err == InvalidState
      ensures regs != [] && !PlanServed(bus.outcome, old(bus.requests), Plan(regs, 0)).ok ==>
        err == FirstError(bus.outcome, old(bus.requests), Plan(regs, 0))
      ensures regs != [] && PlanServed(bus.outcome, old(bus.requests), Plan(regs, 0)).ok ==>
        && (!AllValid(regs) ==> err == Fail)
        && (AllValid(regs) && TotalWords(Plan(regs, 0)) > 1200 ==> err == InvalidSize)
      ensures published.Some? ==>
        published.value == Cycle(regs[0].start, CycleWords(bus.memory, Plan(regs, 0)))
      ensures regs != [] ==> bus.requests == PlanServed(bus.outcome, old(bus.requests), Plan(regs, 0)).next
      ensures bus.requests <= old(bus.requests) + 62 * |Plan(regs, 0)|
    {
      hide Grow, Continues, MaxEnd, DeviceWords, CycleWords, TotalWords, RequestAt, Plan, Resilient, PlanServed,
        FirstError;
      PlanEnds(bus.memory, regs);
      CycleIsBounded(bus.outcome, bus.requests, regs);
      NothingServed(bus.outcome, bus.requests);
      if regs == [] {
        return InvalidState, None;
      }
      var fail, skipped, cycleWords, copied := 0, 0, 0, 0;
      var overflow, startSet, cycleStart, firstErr := false, false, 0, Ok;
      ghost var done: seq<Request> := [];
      var i := 0;
      while i < |regs|
        invariant i <= |regs|
        invariant Attempt(fail == 0, bus.requests) == PlanServed(bus.outcome, old(bus.requests), done)
        invariant Plan(regs, 0) == done + Plan(regs, i)
        invariant skipped == 0 <==> forall k :: 0 <= k < i ==> regs[k].ValidWidth()
        invariant firstErr == FirstError(bus.outcome, old(bus.requests), done) && (fail > 0 <==> firstErr != Ok)
        invariant startSet ==> done != []
        invariant skipped == 0 && fail == 0 ==> (i == 0 <==> done == [])
        invariant skipped == 0 && fail == 0 && i > 0 ==> startSet && cycleStart == regs[0].start
        invariant copied <= MAX_CYCLE_WORDS && copied <= cycleWords <= TotalWords(done)
        invariant overflow ==> TotalWords(done) > MAX_CYCLE_WORDS
        invariant fail == 0 && !overflow ==>
          cycleWords == copied == TotalWords(done) && cycleBuf[..copied] == CycleWords(bus.memory, done)
        invariant 0 < copied || done == [] || fail > 0 || overflow
        decreases |regs| - i
      {
        if !regs[i].ValidWidth() {
          PlanSkips(regs, i);
          skipped := skipped + 1;
          i := i + 1;
          continue;
        }
        var j, blockEnd := MergeBlock(regs, i);
        RequestCovers(regs, i);
        ghost var q := RequestAt(regs, i);
        var blockCount := blockEnd - regs[i].start;
        var blockErr := bus.ReadBlockResilient(regs[i].fc, regs[i].start, blockCount, readBuf);
        PlanStep(bus.memory, regs, i, done);
        if blockErr == Ok {
          if !startSet {
            cycleStart, startSet := regs[i].start, true;
          }
          var tooLong;
          cycleWords, copied, tooLong := StoreBlock(blockCount, cycleWords, copied);
          overflow := overflow || tooLong;
        } else {
          fail := fail + 1;
          if firstErr == Ok {
            firstErr := blockErr;
          }
        }
        OneMoreServed(bus.outcome, old(bus.requests), done, q);
        done := done + [q];
        i := j;
      }

      assert done + [] == done;
      if fail != 0 || skipped != 0 || !startSet {
        return (if firstErr != Ok then firstErr else Fail), None;
      }
      if overflow || cycleWords == 0 {
        return InvalidSize, None;
      }
      return Ok, Some(Cycle(cycleStart, cycleBuf[..copied]));
    }
  }

  // ---------------------------------------------------------------- success in terms of the bus

  function RequestServed(outcome: nat -> Esp, r: nat, q: Request): Attempt {
    if Readable(q.fc) && 0 < q.count then Resilient(outcome, r, q.count) else Attempt(false, r)
  }

  /** All blocks are tried, one after the other, whether or not an earlier one has failed. */
  function PlanServed(outcome: nat -> Esp, r: nat, plan: seq<Request>): Attempt {
    if plan == [] then Attempt(true, r)
    else
      var before := PlanServed(outcome, r, plan[..|plan| - 1]);
      var last := RequestServed(outcome, before.next, plan[|plan| - 1]);
      Attempt(before.ok && last.ok, last.next)
  }

  /** The error of a request's last attempt. */
  function RequestError(outcome: nat -> Esp, r: nat, q: Request): Esp {
    var a := RequestServed(outcome, r, q);
    if !Readable(q.fc) || q.count == 0 then InvalidArg else if a.next == 0 then Ok else outcome(a.next - 1)
  }

  /** The error of the first block that could not be read. */
  function FirstError(outcome: nat -> Esp, r: nat, plan: seq<Request>): Esp {
    if plan == [] then Ok
    else
      var init, last := plan[..|plan| - 1], plan[|plan| - 1];
      var first := FirstError(outcome, r, init);
      if first != Ok then first else RequestError(outcome, PlanServed(outcome, r, init).next, last)
  }

  /** A failed block does not keep the later ones from being tried. */
  lemma {:induction false} EveryBlockIsTried(outcome: nat -> Esp, r: nat, plan: seq<Request>)
    requires forall q :: q in plan ==> Readable(q.fc) && 0 < q.count
    ensures PlanServed(outcome, r, plan).next >= r + |plan|
  {
    hide Resilient;
    if plan != [] {
      var n := |plan| - 1;
      EveryBlockIsTried(outcome, r, plan[..n]);
      assert plan[n] in plan;
      SomethingIsTried(outcome, PlanServed(outcome, r, plan[..n]).next, plan[n].count);
    }
  }

  lemma SomethingIsTried(outcome: nat -> Esp, r: nat, count: nat)
    ensures Resilient(outcome, r, count).next > r
  {
    hide Halving;
    var a := Retried(outcome, r);
    if !a.ok && count >= FALLBACK_MIN_CHUNK_WORDS {
      HalvingGoesOn(outcome, a.next, count, if count < FALLBACK_CHUNK_WORDS then count else FALLBACK_CHUNK_WORDS);
    }
  }

  lemma {:induction false} HalvingGoesOn(outcome: nat -> Esp, r: nat, count: nat, chunk: nat)
    requires FALLBACK_MIN_CHUNK_WORDS <= chunk
    ensures Halving(outcome, r, count, chunk).next >= r
    decreases chunk
  {
    var a := Chunks(outcome, r, Pieces(count, chunk));
    if !a.ok && chunk != FALLBACK_MIN_CHUNK_WORDS {
      HalvingGoesOn(outcome, a.next, count, Smaller(chunk));
    }
  }

  lemma OneMoreServed(outcome: nat -> Esp, r: nat, plan: seq<Request>, q: Request)
    ensures var before := PlanServed(outcome, r, plan);
      var last := RequestServed(outcome, before.next, q);
      && PlanServed(outcome, r, plan + [q]) == Attempt(before.ok && last.ok, last.next)
      && FirstError(outcome, r, plan + [q])
         == (var first := FirstError(outcome, r, plan);
             if first != Ok then first else RequestError(outcome, before.next, q))
  {
    hide RequestServed, RequestError;
    assert (plan + [q])[..|plan|] == plan;
  }

  /**
   On a bus that never fails twice in a row every cycle over readable registers succeeds, with at
   most two requests a block.
  */
  lemma {:induction false} SteadyBusServesPlan(outcome: nat -> Esp, r: nat, plan: seq<Request>)
    requires forall k: nat :: outcome(k) == Ok || outcome(k + 1) == Ok
    requires forall q :: q in plan ==> Readable(q.fc) && 0 < q.count
    ensures PlanServed(outcome, r, plan).ok && PlanServed(outcome, r, plan).next <= r + 2 * |plan|
  {
    hide Resilient;
    if plan != [] {
      var n := |plan| - 1;
      SteadyBusServesPlan(outcome, r, plan[..n]);
      assert plan[n] in plan;
      SingleFailuresAreHarmless(outcome, PlanServed(outcome, r, plan[..n]).next, plan[n].count);
    }
  }

  /** A cycle of requests of at most 125 words costs at most 62 bus requests a block, however the bus behaves. */
  lemma {:induction false} PlanIsBounded(outcome: nat -> Esp, r: nat, plan: seq<Request>)
    requires forall q :: q in plan ==> q.count <= 125
    ensures PlanServed(outcome, r, plan).next <= r + 62 * |plan|
  {
    hide Resilient;
    if plan != [] {
      var n := |plan| - 1;
      PlanIsBounded(outcome, r, plan[..n]);
      assert plan[n] in plan;
      ResilientIsBounded(outcome, PlanServed(outcome, r, plan[..n]).next, plan[n].count);
    }
  }

  lemma NothingServed(outcome: nat -> Esp, r: nat)
    ensures PlanServed(outcome, r, []) == Attempt(true, r) && FirstError(outcome, r, []) == Ok
  {
  }

  lemma CycleIsBounded(outcome: nat -> Esp, r: nat, regs: seq<Register>)
    ensures PlanServed(outcome, r, Plan(regs, 0)).next <= r + 62 * |Plan(regs, 0)|
  {
    hide Plan, PlanServed;
    PlanRequests(regs, 0);
    PlanIsBounded(outcome, r, Plan(regs, 0));
  }

  /** The requests of a plan are of legal size, and as readable as the registers they are for. */
  lemma {:induction false} PlanRequests(regs: seq<Register>, i: nat)
    requires i <= |regs|
    ensures forall q :: q in Plan(regs, i) ==>
      && 1 <= q.count <= 125 && q.first < |regs| && q.fc == regs[q.first].fc
    decreases |regs| - i
  {
    hide Grow, Continues, MaxEnd;
    if i < |regs| {
      if regs[i].ValidWidth() {
        RequestCovers(regs, i);
        PlanRequests(regs, RequestAt(regs, i).next);
        assert Plan(regs, i) == [RequestAt(regs, i)] + Plan(regs, RequestAt(regs, i).next);
      } else {
        PlanRequests(regs, i + 1);
      }
    }
  }

  /** So a valid map of readable registers is served whole by a bus that never fails twice in a row. */
  lemma SteadyBusServesMap(outcome: nat -> Esp, r: nat, regs: seq<Register>)
    requires forall k: nat :: outcome(k) == Ok || outcome(k + 1) == Ok
    requires forall i :: 0 <= i < |regs| ==> Readable(regs[i].fc)
    ensures PlanServed(outcome, r, Plan(regs, 0)).ok
    ensures PlanServed(outcome, r, Plan(regs, 0)).next <= r + 2 * |Plan(regs, 0)|
  {
    hide Plan, PlanServed;
    PlanRequests(regs, 0);
    SteadyBusServesPlan(outcome, r, Plan(regs, 0));
  }
}
