/**
 From a window of stored cycles to measurements: the layout of the register map over a
 cycle, and the statistics of every register's decoded values over the window.
*/
module WindowProcessing {

  import opened Words
  import opened ResilientRead
  import opened RequestPlan
  import opened SignMagnitude
  import opened WindowStatistics
  import opened Wrappers
  import opened SampleCycle

  const MAX_LAYOUT_ENTRIES: nat := 512
  const TWO_TO_32: nat := 0x1_0000_0000

  /** The numbers of one measurement: its register, its width and its statistics. */
  datatype Aggregate = Aggregate(numReg: u16, word: u16, stats: Stats)

  /** The value a register's words stand for. */
  function Decoded(words: seq<u16>, scale: real, isSigned: bool): real
    requires 1 <= |words|
  {
    (if isSigned then SignedValue(Positional(words), |words|) else Positional(words)) as real * scale
  }

  /** In plain numbers: the words weighted from the front, the first bit taken as the sign if there is one. */
  lemma DecodedIs(words: seq<u16>, scale: real, isSigned: bool)
    requires words != []
    ensures Decoded(words, scale, isSigned)
         == if isSigned && words[0] >= 0x8000 then -(Weighted([words[0] - 0x8000] + words[1..]) as int) as real * scale
            else Weighted(words) as real * scale
  {
    hide Weighted, Positional, SignedValue;
    PositionalIsWeighted(words);
    SignIsFirstBit(words);
  }

  /** A register map that can be laid out and decoded. */
  ghost predicate Usable(regs: seq<Register>) {
    && Ordered(regs) && AllValid(regs)
    && 1 <= |regs| <= MAX_LAYOUT_ENTRIES && TotalWords(Plan(regs, 0)) <= 0xFFFF
    && forall m :: 0 <= m < |regs| ==> regs[m].count <= MAX_WORDS
  }

  /** Cycle s was read by the plan from a device that held `memories[s]`. */
  ghost predicate Faithful(regs: seq<Register>, cycles: seq<seq<u16>>, memories: seq<Memory>)
    requires |memories| == |cycles|
  {
    forall s :: 0 <= s < |cycles| ==> cycles[s] == CycleWords(memories[s], Plan(regs, 0))
  }

  class MeasurementLayout {

    const regs: seq<Register>
    const offsets: array<u16>
    var ready: bool
    var expectedStart: u16
    var expectedWords: u16
    var measurementCount: nat

    ghost predicate Valid()
      reads this, offsets
    {
      offsets.Length == MAX_LAYOUT_ENTRIES && (ready ==> Laid())
    }

    /** What a finished layout says; its offsets are promised for ordered maps. */
    ghost predicate Laid()
      requires offsets.Length == MAX_LAYOUT_ENTRIES
      reads this, offsets
    {
      && 1 <= |regs| <= MAX_LAYOUT_ENTRIES && AllValid(regs)
      && expectedWords == TotalWords(Plan(regs, 0)) && expectedStart == regs[0].start
      && measurementCount == |regs|
      && (Ordered(regs) ==> OffsetsRight(|regs|))
    }

    ghost predicate OffsetsRight(n: nat)
      requires offsets.Length == MAX_LAYOUT_ENTRIES && n <= |regs|
      reads offsets
    {
      n <= MAX_LAYOUT_ENTRIES && forall k :: 0 <= k < n ==> offsets[k] == Offset(Plan(regs, 0), regs, k, 0)
    }

    constructor (regs: seq<Register>)
      ensures Valid() && !ready && this.regs == regs && fresh(offsets)
    {
      this.regs := regs;
      offsets := new u16[MAX_LAYOUT_ENTRIES](_ => 0);
      ready, expectedStart, expectedWords, measurementCount := false, 0, 0, 0;
    }

    /** The processing side's merge of the same map. */
    method MergeBlock(i: nat) returns (j: nat, blockEnd: nat)
      requires i < |regs| && regs[i].ValidWidth()
      ensures MaximalBlock(regs, i, j) && blockEnd == MaxEnd(regs, i, j)
    {
      blockEnd := regs[i].End();
      j := i + 1;
      while j < |regs|
        invariant i < j <= |regs|
        invariant blockEnd == MaxEnd(regs, i, j) && Block(regs, i, j)
      {
        var next := regs[j];
        if next.count == 0 || next.count > MAX_REQUEST_WORDS {
          return;
        }
        if next.fc != regs[i].fc {
          return;
        }
        if next.start > blockEnd {
          return;
        }
        var mergedEnd := if next.End() > blockEnd then next.End() else blockEnd;
        var mergedCount := mergedEnd - regs[i].start;
        if mergedCount > MAX_REQUEST_WORDS {
          return;
        }
        blockEnd := mergedEnd;
        j := j + 1;
      }
    }

    /** The entries of one block; the offsets are computed in 32 bits. */
    method PlaceBlock(i: nat, j: nat, blockCount: nat, cycleWords: nat) returns (err: Esp)
      requires offsets.Length == MAX_LAYOUT_ENTRIES && i < j <= |regs| <= MAX_LAYOUT_ENTRIES
      requires blockCount <= MAX_REQUEST_WORDS && cycleWords + blockCount <= 0xFFFF
      modifies offsets
      ensures forall k :: 0 <= k < i ==> offsets[k] == old(offsets[k])
      ensures err == Ok || err == InvalidSize
      ensures (forall k :: i <= k < j ==>
                regs[i].start <= regs[k].start && regs[k].End() <= regs[i].start + blockCount) ==>
        && err == Ok
        && forall k :: i <= k < j ==> offsets[k] == cycleWords + regs[k].start - regs[i].start
    {
      var k := i;
      while k < j
        invariant i <= k <= j
        invariant forall m :: 0 <= m < i ==> offsets[m] == old(offsets[m])
        invariant (forall m :: i <= m < j ==> regs[i].start <= regs[m].start) ==>
          forall m :: i <= m < k ==> offsets[m] == cycleWords + regs[m].start - regs[i].start
      {
        var offsetInBlock := (regs[k].start + TWO_TO_32 - regs[i].start) % TWO_TO_32;
        if (offsetInBlock + regs[k].count) % TWO_TO_32 > blockCount {
          return InvalidSize;
        }
        var absolute := (cycleWords + offsetInBlock) % TWO_TO_32;
        if absolute > 0xFFFF {
          return InvalidSize;
        }
        offsets[k] := absolute;
        k := k + 1;
      }
      return Ok;
    }

    /**
     Builds the layout.  For an ordered map neither mapping check ever fires: the call fails
     exactly for a map that is empty, too long, holds an invalid width or needs too many words.
    */
    method Build() returns (err: Esp)
      requires Valid() && !ready
      modifies this`ready, this`expectedStart, this`expectedWords, this`measurementCount, offsets
      ensures Valid()
      ensures err == Ok ==> ready
      ensures Ordered(regs) ==>
        (err == Ok <==> 1 <= |regs| <= 512 && AllValid(regs) && TotalWords(Plan(regs, 0)) <= 0xFFFF)
    {
      hide Ordered, Grow, MaxEnd, Continues, Plan, TotalWords, RequestAt;
      if |regs| == 0 {
        return InvalidState;
      }
      if |regs| > MAX_LAYOUT_ENTRIES {
        return InvalidSize;
      }
      var cycleWords: nat := 0;
      ghost var done: seq<Request> := [];
      var i := 0;
      PlanEnds((_, _) => 0, regs);
      while i < |regs|
        invariant !ready && i <= |regs| && cycleWords == TotalWords(done) <= 0xFFFF
        invariant Plan(regs, 0) == done + Plan(regs, i)
        invariant forall q :: q in done ==> q.next <= i
        invariant forall k :: 0 <= k < i ==> regs[k].ValidWidth()
        invariant Ordered(regs) ==> OffsetsRight(i)
        decreases |regs| - i
      {
        if !regs[i].ValidWidth() {
          return InvalidSize;
        }
        var j, blockEnd := MergeBlock(i);
        ghost var q := RequestAt(regs, i);
        RequestCovers(regs, i);
        GrowIsMaximal(regs, i, i + 1);
        MaximalBlockIsUnique(regs, i, j, q.next);
        PlanStep((_, _) => 0, regs, i, done);
        var blockCount := blockEnd - regs[i].start;
        if cycleWords + blockCount > 0xFFFF {
          TotalWordsJoin(done + [q], Plan(regs, j));
          return InvalidSize;
        }
        if Ordered(regs) {
          OrderedBlock(regs, i, done);
        }
        err := PlaceBlock(i, j, blockCount, cycleWords);
        if err != Ok {
          return;
        }
        done := done + [q];
        cycleWords := cycleWords + blockCount;
        i := j;
      }
      assert done + [] == done;
      expectedStart, expectedWords, measurementCount := regs[0].start, cycleWords, |regs|;
      ready := true;
      return Ok;
    }

    method EnsureLayout() returns (err: Esp)
      requires Valid()
      modifies this`ready, this`expectedStart, this`expectedWords, this`measurementCount, offsets
      ensures Valid()
      ensures err == Ok ==> ready
      ensures old(ready) ==>
        && err == Ok && offsets[..] == old(offsets[..]) && expectedStart == old(expectedStart)
        && expectedWords == old(expectedWords) && measurementCount == old(measurementCount)
      ensures Ordered(regs) && !old(ready) ==>
        (err == Ok <==> 1 <= |regs| <= 512 && AllValid(regs) && TotalWords(Plan(regs, 0)) <= 0xFFFF)
    {
      if ready {
        return Ok;
      }
      err := Build();
    }

    /** The values of register m in every cycle of the window. */
    method DecodeColumn(cycles: seq<seq<u16>>, m: nat) returns (err: Esp, values: seq<real>)
      requires Valid() && ready && m < |regs|
      requires forall s :: 0 <= s < |cycles| ==> offsets[m] + regs[m].count <= |cycles[s]|
      ensures err == if regs[m].count <= MAX_WORDS || cycles == [] then Ok else InvalidArg
      ensures err == Ok ==> |values| == |cycles|
      ensures err == Ok ==> forall s :: 0 <= s < |cycles| ==>
        values[s] == Decoded(cycles[s][offsets[m]..offsets[m] + regs[m].count], regs[m].scale, regs[m].isSigned)
    {
      hide TotalWords, Plan, Ordered, Offset, Positional, SignedValue;
      values := [];
      for s := 0 to |cycles|
        invariant |values| == s && (s > 0 ==> regs[m].count <= MAX_WORDS)
        invariant forall t :: 0 <= t < s ==>
          values[t] == Decoded(cycles[t][offsets[m]..offsets[m] + regs[m].count], regs[m].scale, regs[m].isSigned)
      {
        var value;
        err, value := DecodeScaled(cycles[s][offsets[m]..offsets[m] + regs[m].count], regs[m].scale, regs[m].isSigned);
        if err != Ok {
          return;
        }
        values := values + [value];
      }
      err := Ok;
    }

    /**
     The measurements of a window.  For a usable map and cycles read by its plan, the call
     succeeds and every measurement is the statistics of what the device held at that register.
    */
    method ComputeWindow(cycles: seq<seq<u16>>, capacity: nat, ghost memories: seq<Memory>)
      returns (err: Esp, out: seq<Aggregate>)
      requires Valid() && |memories| == |cycles|
      modifies this`ready, this`expectedStart, this`expectedWords, this`measurementCount, offsets
      ensures Valid()
      ensures cycles == [] ==> err == InvalidArg
      ensures |cycles| > 64 ==> err == InvalidSize
      ensures err == Ok ==> ready && |out| == |regs| <= capacity
      ensures err == Ok ==> forall s :: 0 <= s < |cycles| ==> expectedWords <= |cycles[s]|
      ensures err == Ok ==>
        forall m :: 0 <= m < |regs| ==> out[m].numReg == regs[m].start && out[m].word == regs[m].count
      ensures 1 <= |cycles| <= MAX_WINDOW_SAMPLES && |regs| <= capacity
              && Usable(regs) && Faithful(regs, cycles, memories) ==>
        && err == Ok
        && forall m :: 0 <= m < |regs| ==> out[m] == Expected(regs[m], memories)
    {
      hide TotalWords, Plan, Ordered, Offset, CycleWords, WindowStats, Decoded, DeviceWords;
      out := [];
      if cycles == [] {
        return InvalidArg, out;
      }
      if |cycles| > MAX_WINDOW_SAMPLES {
        return InvalidSize, out;
      }
      err := EnsureLayout();
      if err != Ok {
        return;
      }
      if capacity < measurementCount {
        return InvalidSize, out;
      }
      if exists s :: 0 <= s < |cycles| && |cycles[s]| < expectedWords {
        return InvalidSize, out;
      }
      ghost var whole := Usable(regs) && Faithful(regs, cycles, memories);
      for m := 0 to |regs|
        invariant Valid() && ready && |out| == m
        invariant whole ==> forall k :: 0 <= k < m ==> out[k] == Expected(regs[k], memories)
        invariant forall k :: 0 <= k < m ==> out[k].numReg == regs[k].start && out[k].word == regs[k].count
      {
        if whole {
          ColumnIsAddressed(regs, memories, m);
        }
        if offsets[m] + regs[m].count > expectedWords {
          return InvalidSize, out;
        }
        var values;
        err, values := DecodeColumn(cycles, m);
        if err != Ok {
          return;
        }
        var mean, min, max := ComputeIqrStats(values);
        if whole {
          ColumnIsExpected(regs, memories, cycles, m, offsets[m], values);
        }
        out := out + [Aggregate(regs[m].start, regs[m].count, Stats(mean, min, max))];
      }
      err := Ok;
    }
  }

  lemma ColumnIsAddressed(regs: seq<Register>, memories: seq<Memory>, m: nat)
    requires Ordered(regs) && AllValid(regs) && m < |regs|
    ensures var at := Offset(Plan(regs, 0), regs, m, 0);
      0 <= at && at + regs[m].count <= TotalWords(Plan(regs, 0))
    ensures forall s :: 0 <= s < |memories| ==> Addressed(memories[s], regs, Plan(regs, 0), m)
  {
    hide TotalWords, Plan, Ordered, Offset, CycleWords, DeviceWords;
    RegistersAreWhereTheLayoutSays((_, _) => 0, regs, 0, m);
    forall s | 0 <= s < |memories|
      ensures Addressed(memories[s], regs, Plan(regs, 0), m)
    {
      RegistersAreWhereTheLayoutSays(memories[s], regs, 0, m);
    }
  }

  lemma ColumnIsExpected(regs: seq<Register>, memories: seq<Memory>, cycles: seq<seq<u16>>, m: nat, at: nat,
      values: seq<real>)
    requires AllValid(regs) && m < |regs| && |memories| == |cycles| == |values|
    requires at == Offset(Plan(regs, 0), regs, m, 0)
    requires forall s :: 0 <= s < |memories| ==> Addressed(memories[s], regs, Plan(regs, 0), m)
    requires forall s :: 0 <= s < |cycles| ==> cycles[s] == CycleWords(memories[s], Plan(regs, 0))
    requires forall s :: 0 <= s < |cycles| ==> at + regs[m].count <= |cycles[s]|
    requires forall s :: 0 <= s < |cycles| ==>
      values[s] == Decoded(cycles[s][at..at + regs[m].count], regs[m].scale, regs[m].isSigned)
    ensures Expected(regs[m], memories) == Aggregate(regs[m].start, regs[m].count, WindowStats(values))
  {
    hide TotalWords, Plan, Offset, CycleWords, DeviceWords, Decoded, WindowStats;
    var r := regs[m];
    var column := seq(|memories|, s requires 0 <= s < |memories| =>
      Decoded(DeviceWords(memories[s], r.fc, r.start, r.count), r.scale, r.isSigned));
    forall s | 0 <= s < |memories|
      ensures column[s] == values[s]
    {
      assert Addressed(memories[s], regs, Plan(regs, 0), m);
    }
    assert column == values;
  }

  /** One register's statistics over a window in which sample s was read from `memories[s]`. */
  function Expected(r: Register, memories: seq<Memory>): Aggregate
    requires r.ValidWidth()
  {
    Aggregate(r.start, r.count,
                WindowStats(seq(|memories|, s requires 0 <= s < |memories| =>
                  Decoded(DeviceWords(memories[s], r.fc, r.start, r.count), r.scale, r.isSigned))))
  }

  /** In an ordered map, the registers of a request lie inside it, at their distance from its start. */
  lemma OrderedBlock(regs: seq<Register>, i: nat, done: seq<Request>)
    requires Ordered(regs) && i < |regs| && regs[i].ValidWidth()
    requires Plan(regs, 0) == done + Plan(regs, i) && forall q :: q in done ==> q.next <= i
    ensures var q := RequestAt(regs, i);
      forall k :: i <= k < q.next ==>
        && regs[i].start <= regs[k].start && regs[k].End() <= regs[i].start + q.count
        && Offset(Plan(regs, 0), regs, k, 0) == TotalWords(done) + regs[k].start - regs[i].start
  {
    hide Ordered, Grow, MaxEnd, Continues;
    var q := RequestAt(regs, i);
    RequestCovers(regs, i);
    forall k | i <= k < q.next
      ensures regs[i].start <= regs[k].start && regs[k].End() <= regs[i].start + q.count
      ensures Offset(Plan(regs, 0), regs, k, 0) == TotalWords(done) + regs[k].start - regs[i].start
    {
      OrderedWithinRequest(regs, i, k);
      OffsetPastPrefix(done, Plan(regs, i), regs, k, 0);
    }
  }

  /**
   The two sides agree: every cycle that is published over an ordered map of at most 512 registers has
   the start and the length that the layout of that map expects.
  */
  method PublishedCycleFits(manager: ModbusManager, layout: MeasurementLayout) returns (published: Option<Cycle>)
    requires manager.Valid() && layout.Valid() && Ordered(layout.regs) && |layout.regs| <= 512
    requires layout.offsets != manager.readBuf && layout.offsets != manager.cycleBuf
    modifies manager.bus`requests, manager.readBuf, manager.cycleBuf, layout, layout.offsets
    ensures layout.Valid()
    ensures published.Some? ==>
      && layout.ready && published.value.startReg == layout.expectedStart
      && |published.value.words| == layout.expectedWords
  {
    hide TotalWords, Plan, Ordered, CycleWords, PlanServed, Offset;
    var err;
    err, published := manager.SampleAndStoreCycle(layout.regs);
    if published.Some? {
      err := layout.EnsureLayout();
    }
  }
}
