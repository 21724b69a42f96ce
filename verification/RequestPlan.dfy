/**
 The plan of one acquisition cycle: which runs of the register map are read with one
 request, and where each register's words end up when the answers are laid end to end.
*/
module RequestPlan {

  import opened Words
  import opened ResilientRead

  /** One entry of a meter's register map. */
  datatype Register = Register(start: u16, count: u16, fc: nat, scale: real, isSigned: bool)
  {
    function End(): nat {
      start + count
    }

    predicate ValidWidth() {
      1 <= count <= MAX_REQUEST_WORDS
    }
  }

  /** The order a register map promises: by function code, then by ascending address. */
  ghost predicate Ordered(regs: seq<Register>) {
    forall i, j :: 0 <= i < j < |regs| ==>
      regs[i].fc < regs[j].fc || (regs[i].fc == regs[j].fc && regs[i].start <= regs[j].start)
  }

  ghost predicate AllValid(regs: seq<Register>) {
    forall i :: 0 <= i < |regs| ==> regs[i].ValidWidth()
  }

  /** The largest end address among registers i .. j - 1. */
  function MaxEnd(regs: seq<Register>, i: nat, j: nat): (m: nat)
    requires i < j <= |regs|
    ensures regs[i].End() <= m
    decreases j
  {
    if j == i + 1 then regs[i].End()
    else
      var m := MaxEnd(regs, i, j - 1);
      if regs[j - 1].End() > m then regs[j - 1].End() else m
  }

  /** Register k continues the block of i .. k - 1: same function code, no gap, and still one request's size. */
  predicate Continues(regs: seq<Register>, i: nat, k: nat)
    requires i < k < |regs|
  {
    && regs[k].ValidWidth()
    && regs[k].fc == regs[i].fc
    && regs[k].start <= MaxEnd(regs, i, k)
    && MaxEnd(regs, i, k + 1) <= regs[i].start + MAX_REQUEST_WORDS
  }

  /** Registers i .. j - 1 can be read with one request. */
  ghost predicate Block(regs: seq<Register>, i: nat, j: nat) {
    && i < j <= |regs|
    && regs[i].ValidWidth()
    && forall k :: i < k < j ==> Continues(regs, i, k)
  }

  ghost predicate MaximalBlock(regs: seq<Register>, i: nat, j: nat) {
    Block(regs, i, j) && (j == |regs| || !Continues(regs, i, j))
  }

  lemma BlockContinues(regs: seq<Register>, i: nat, j: nat, k: nat)
    requires Block(regs, i, j) && i < k < j
    ensures Continues(regs, i, k)
  {
  }

  /** Two loops that both grow a block as far as it goes grow it equally far. */
  lemma MaximalBlockIsUnique(regs: seq<Register>, i: nat, j: nat, j': nat)
    requires MaximalBlock(regs, i, j) && MaximalBlock(regs, i, j')
    ensures j == j'
  {
    if j < j' {
      BlockContinues(regs, i, j', j);
    } else if j' < j {
      BlockContinues(regs, i, j, j');
    }
  }

  /** How far the block that starts at i grows when it already holds i .. j - 1. */
  function Grow(regs: seq<Register>, i: nat, j: nat): (next: nat)
    requires i < j <= |regs|
    ensures j <= next <= |regs|
    decreases |regs| - j
  {
    if j < |regs| && Continues(regs, i, j) then Grow(regs, i, j + 1) else j
  }

  lemma {:induction false} GrowIsMaximal(regs: seq<Register>, i: nat, j: nat)
    requires Block(regs, i, j)
    ensures MaximalBlock(regs, i, Grow(regs, i, j))
    decreases |regs| - j
  {
    if j < |regs| && Continues(regs, i, j) {
      GrowIsMaximal(regs, i, j + 1);
    }
  }

  /** One request: the registers first .. next - 1, and the words it covers. */
  datatype Request = Request(first: nat, next: nat, fc: nat, start: u16, count: nat)

  function RequestAt(regs: seq<Register>, i: nat): Request
    requires i < |regs|
  {
    var j := Grow(regs, i, i + 1);
    Request(i, j, regs[i].fc, regs[i].start, MaxEnd(regs, i, j) - regs[i].start)
  }

  /** The greedy plan for the registers from i on; an entry of invalid width is passed over. */
  function Plan(regs: seq<Register>, i: nat): seq<Request>
    requires i <= |regs|
    decreases |regs| - i
  {
    if i == |regs| then []
    else if !regs[i].ValidWidth() then Plan(regs, i + 1)
    else [RequestAt(regs, i)] + Plan(regs, RequestAt(regs, i).next)
  }

  function TotalWords(plan: seq<Request>): nat {
    if plan == [] then 0 else plan[0].count + TotalWords(plan[1..])
  }

  lemma {:induction false} TotalWordsJoin(a: seq<Request>, b: seq<Request>)
    ensures TotalWords(a + b) == TotalWords(a) + TotalWords(b)
  {
    if a == [] {
      assert a + b == b;
    } else {
      assert (a + b)[1..] == a[1..] + b;
      TotalWordsJoin(a[1..], b);
    }
  }

  /** The words of a whole cycle: the answers to the plan's requests, end to end. */
  function CycleWords(memory: Memory, plan: seq<Request>): (words: seq<u16>)
    ensures |words| == TotalWords(plan)
  {
    if plan == [] then []
    else DeviceWords(memory, plan[0].fc, plan[0].start, plan[0].count) + CycleWords(memory, plan[1..])
  }

  lemma {:induction false} CycleWordsJoin(memory: Memory, a: seq<Request>, b: seq<Request>)
    ensures CycleWords(memory, a + b) == CycleWords(memory, a) + CycleWords(memory, b)
  {
    if a == [] {
      assert a + b == b;
    } else {
      assert (a + b)[1..] == a[1..] + b;
      CycleWordsJoin(memory, a[1..], b);
    }
  }

  lemma PlanEnds(memory: Memory, regs: seq<Register>)
    ensures Plan(regs, |regs|) == [] && TotalWords([]) == 0 && CycleWords(memory, []) == []
  {
  }

  lemma PlanSkips(regs: seq<Register>, i: nat)
    requires i < |regs| && !regs[i].ValidWidth()
    ensures Plan(regs, i) == Plan(regs, i + 1)
  {
  }

  /** One more request of the plan is carried out. */
  lemma PlanStep(memory: Memory, regs: seq<Register>, i: nat, done: seq<Request>)
    requires i < |regs| && regs[i].ValidWidth()
    ensures var q := RequestAt(regs, i);
      && done + Plan(regs, i) == (done + [q]) + Plan(regs, q.next)
      && TotalWords(done + [q]) == TotalWords(done) + q.count
      && CycleWords(memory, done + [q]) == CycleWords(memory, done) + DeviceWords(memory, q.fc, q.start, q.count)
  {
    hide Grow, MaxEnd, Continues;
    var q := RequestAt(regs, i);
    assert done + ([q] + Plan(regs, q.next)) == (done + [q]) + Plan(regs, q.next);
    TotalWordsJoin(done, [q]);
    CycleWordsJoin(memory, done, [q]);
  }

  /** Where register k's words start in the cycle, when `base` words come before the plan's first request. */
  function Offset(plan: seq<Request>, regs: seq<Register>, k: nat, base: nat): int
    requires k < |regs|
  {
    if plan == [] then base
    else if k < plan[0].next then base + regs[k].start - plan[0].start
    else Offset(plan[1..], regs, k, base + plan[0].count)
  }

  lemma {:induction false} OffsetPastPrefix(a: seq<Request>, b: seq<Request>, regs: seq<Register>, k: nat, base: nat)
    requires k < |regs| && forall q :: q in a ==> q.next <= k
    ensures Offset(a + b, regs, k, base) == Offset(b, regs, k, base + TotalWords(a))
  {
    if a == [] {
      assert a + b == b;
    } else {
      assert (a + b)[1..] == a[1..] + b;
      OffsetPastPrefix(a[1..], b, regs, k, base + a[0].count);
    }
  }

  lemma {:induction false} OffsetShifts(plan: seq<Request>, regs: seq<Register>, k: nat, base: nat)
    requires k < |regs|
    ensures Offset(plan, regs, k, base) == base + Offset(plan, regs, k, 0)
  {
    if plan != [] && plan[0].next <= k {
      OffsetShifts(plan[1..], regs, k, base + plan[0].count);
      OffsetShifts(plan[1..], regs, k, plan[0].count);
    }
  }

  lemma {:induction false} EndWithinMax(regs: seq<Register>, i: nat, j: nat, k: nat)
    requires i <= k < j <= |regs|
    ensures regs[k].End() <= MaxEnd(regs, i, j)
    decreases j
  {
    if k < j - 1 {
      EndWithinMax(regs, i, j - 1, k);
    }
  }

  /** A request of the plan covers 1 to 125 words, and all words of its registers. */
  lemma RequestCovers(regs: seq<Register>, i: nat)
    requires i < |regs| && regs[i].ValidWidth()
    ensures var q := RequestAt(regs, i);
      && q.first == i < q.next == Grow(regs, i, i + 1) && q.fc == regs[i].fc && q.start == regs[i].start
      && 1 <= q.count <= MAX_REQUEST_WORDS && q.start + q.count == MaxEnd(regs, i, q.next)
      && (forall k :: q.first <= k < q.next ==> regs[k].fc == q.fc && regs[k].End() <= q.start + q.count)
      && (forall k :: q.first <= k < q.next ==> regs[k].ValidWidth())
  {
    var q := RequestAt(regs, i);
    GrowIsMaximal(regs, i, i + 1);
    EndWithinMax(regs, i, q.next, i);
    forall k | q.first <= k < q.next
      ensures regs[k].fc == q.fc && regs[k].End() <= q.start + q.count && regs[k].ValidWidth()
    {
      EndWithinMax(regs, i, q.next, k);
      if k > i {
        assert Continues(regs, i, k);
      }
    }
    if q.next > i + 1 {
      assert Continues(regs, i, q.next - 1);
    }
  }

  lemma OrderedWithinRequest(regs: seq<Register>, i: nat, k: nat)
    requires Ordered(regs) && i < |regs| && regs[i].ValidWidth()
    requires i <= k < RequestAt(regs, i).next
    ensures regs[i].start <= regs[k].start && regs[k].fc == regs[i].fc
  {
    RequestCovers(regs, i);
  }

  lemma DeviceSlice(memory: Memory, fc: nat, start: nat, count: nat, at: nat, n: nat)
    requires at + n <= count
    ensures DeviceWords(memory, fc, start, count)[at..at + n] == DeviceWords(memory, fc, start + at, n)
  {
  }

  lemma SliceOfFirst(a: seq<u16>, b: seq<u16>, at: nat, n: nat)
    requires at + n <= |a|
    ensures (a + b)[at..at + n] == a[at..at + n]
  {
  }

  lemma SliceOfSecond(a: seq<u16>, b: seq<u16>, at: nat, n: nat)
    requires at + n <= |b|
    ensures (a + b)[|a| + at..|a| + at + n] == b[at..at + n]
  {
  }

  /** Register k's words in the answers to a plan, at its offset. */
  ghost predicate Addressed(memory: Memory, regs: seq<Register>, plan: seq<Request>, k: nat)
    requires k < |regs|
  {
    var at := Offset(plan, regs, k, 0);
    && 0 <= at && at + regs[k].count <= TotalWords(plan)
    && CycleWords(memory, plan)[at..at + regs[k].count]
       == DeviceWords(memory, regs[k].fc, regs[k].start, regs[k].count)
  }

  lemma AddressedInFirst(memory: Memory, regs: seq<Register>, q: Request, rest: seq<Request>, k: nat)
    requires k < |regs| && k < q.next && q.fc == regs[k].fc
    requires q.start <= regs[k].start && regs[k].End() <= q.start + q.count
    ensures Addressed(memory, regs, [q] + rest, k)
  {
    hide DeviceWords;
    var plan := [q] + rest;
    var at := regs[k].start - q.start;
    assert plan[1..] == rest;
    DeviceSlice(memory, q.fc, q.start, q.count, at, regs[k].count);
    SliceOfFirst(DeviceWords(memory, q.fc, q.start, q.count), CycleWords(memory, rest), at, regs[k].count);
  }

  lemma AddressedLater(memory: Memory, regs: seq<Register>, q: Request, rest: seq<Request>, k: nat)
    requires k < |regs| && q.next <= k && Addressed(memory, regs, rest, k)
    ensures Addressed(memory, regs, [q] + rest, k)
  {
    hide DeviceWords;
    assert ([q] + rest)[1..] == rest;
    OffsetShifts(rest, regs, k, q.count);
    SliceOfSecond(DeviceWords(memory, q.fc, q.start, q.count), CycleWords(memory, rest),
                  Offset(rest, regs, k, 0), regs[k].count);
  }

  /**
   End-to-end addressing: in a cycle read by the plan, every register's words stand at
   the offset the layout gives it.
  */
  lemma {:induction false} RegistersAreWhereTheLayoutSays(memory: Memory, regs: seq<Register>, i: nat, k: nat)
    requires Ordered(regs) && AllValid(regs) && i <= k < |regs|
    ensures Addressed(memory, regs, Plan(regs, i), k)
    decreases |regs| - i
  {
    hide Ordered, MaxEnd, Grow, Continues, Addressed, Offset;
    var q := RequestAt(regs, i);
    RequestCovers(regs, i);
    if k < q.next {
      OrderedWithinRequest(regs, i, k);
      AddressedInFirst(memory, regs, q, Plan(regs, q.next), k);
    } else {
      RegistersAreWhereTheLayoutSays(memory, regs, q.next, k);
      AddressedLater(memory, regs, q, Plan(regs, q.next), k);
    }
  }

  // ---------------------------------------------------------------- the plan is optimal

  /** `cuts` divides the map, in order, into runs that can each be read with one request. */
  ghost predicate Partition(regs: seq<Register>, cuts: seq<nat>) {
    && 1 <= |cuts| && cuts[0] == 0 && cuts[|cuts| - 1] == |regs|
    && forall m :: 0 <= m < |cuts| - 1 ==> Block(regs, cuts[m], cuts[m + 1])
  }

  /** Register i ends behind every earlier register of its function code. */
  ghost predicate Leads(regs: seq<Register>, i: nat) {
    i < |regs| ==> forall k :: 0 <= k < i && regs[k].fc == regs[i].fc ==> regs[k].End() < regs[i].End()
  }

  lemma {:induction false} MaxEndIsSome(regs: seq<Register>, i: nat, j: nat, bound: nat)
    requires i < j <= |regs| && forall k :: i <= k < j ==> regs[k].End() <= bound
    ensures MaxEnd(regs, i, j) <= bound
    decreases j
  {
    if j > i + 1 {
      MaxEndIsSome(regs, i, j - 1, bound);
    }
  }

  lemma BlockSize(regs: seq<Register>, i: nat, j: nat)
    requires Block(regs, i, j)
    ensures MaxEnd(regs, i, j) <= regs[i].start + MAX_REQUEST_WORDS
    ensures forall k :: i <= k < j ==> regs[k].fc == regs[i].fc && regs[k].End() <= MaxEnd(regs, i, j)
  {
    forall k | i <= k < j
      ensures regs[k].fc == regs[i].fc && regs[k].End() <= MaxEnd(regs, i, j)
    {
      EndWithinMax(regs, i, j, k);
      if k > i {
        BlockContinues(regs, i, j, k);
      }
    }
    if j > i + 1 {
      BlockContinues(regs, i, j, j - 1);
    }
  }

  /** The greedy plan only ever starts a request at a register that leads. */
  lemma NextRequestLeads(regs: seq<Register>, i: nat)
    requires Ordered(regs) && AllValid(regs) && i < |regs| && Leads(regs, i)
    ensures Leads(regs, Grow(regs, i, i + 1))
  {
    var j := Grow(regs, i, i + 1);
    GrowIsMaximal(regs, i, i + 1);
    BlockSize(regs, i, j);
    if j < |regs| && regs[j].fc == regs[i].fc {
      hide MaxEnd;
      assert !Continues(regs, i, j);
      assert MaxEnd(regs, i, j) < regs[j].End() by {
        OneMoreEnd(regs, i, j);
      }
      forall k | 0 <= k < j && regs[k].fc == regs[j].fc
        ensures regs[k].End() < regs[j].End()
      {
      }
    }
  }

  lemma OneMoreEnd(regs: seq<Register>, i: nat, j: nat)
    requires i < j < |regs|
    ensures MaxEnd(regs, i, j + 1) == if regs[j].End() > MaxEnd(regs, i, j) then regs[j].End() else MaxEnd(regs, i, j)
  {
  }

  /** The part of a legal run behind a leading register is a legal run. */
  lemma SuffixIsBlock(regs: seq<Register>, c: nat, i: nat, j: nat)
    requires Ordered(regs) && AllValid(regs) && Block(regs, c, j) && c <= i < j && Leads(regs, i)
    ensures Block(regs, i, j)
  {
    hide MaxEnd;
    BlockSize(regs, c, j);
    forall k | i < k < j
      ensures Continues(regs, i, k)
    {
      BlockContinues(regs, c, j, k);
      SuffixEnds(regs, c, i, k);
      SuffixEnds(regs, c, i, k + 1);
    }
  }

  lemma SuffixEnds(regs: seq<Register>, c: nat, i: nat, k: nat)
    requires c <= i < k <= |regs| && Leads(regs, i) && forall m :: c <= m < i ==> regs[m].fc == regs[i].fc
    ensures MaxEnd(regs, c, k) == MaxEnd(regs, i, k)
  {
    forall m | c <= m < k
      ensures regs[m].End() <= MaxEnd(regs, i, k)
    {
      if i <= m {
        EndWithinMax(regs, i, k, m);
      }
    }
    MaxEndIsSome(regs, c, k, MaxEnd(regs, i, k));
    forall m | i <= m < k
      ensures regs[m].End() <= MaxEnd(regs, c, k)
    {
      EndWithinMax(regs, c, k, m);
    }
    MaxEndIsSome(regs, i, k, MaxEnd(regs, c, k));
  }

  lemma {:induction false} GrowReaches(regs: seq<Register>, i: nat, j: nat, m: nat)
    requires Block(regs, i, m) && i < j <= m
    ensures m <= Grow(regs, i, j)
    decreases m - j
  {
    if j < m {
      BlockContinues(regs, i, m, j);
      GrowReaches(regs, i, j + 1, m);
    }
  }

  lemma {:induction false} GreedyStaysAhead(regs: seq<Register>, cuts: seq<nat>, m: nat, i: nat)
    requires Ordered(regs) && AllValid(regs) && Partition(regs, cuts)
    requires m < |cuts| && cuts[m] <= i <= |regs| && Leads(regs, i)
    ensures |Plan(regs, i)| <= |cuts| - 1 - m
    decreases |cuts| - m
  {
    if i < |regs| {
      assert m < |cuts| - 1;
      assert Block(regs, cuts[m], cuts[m + 1]);
      if cuts[m + 1] <= i {
        GreedyStaysAhead(regs, cuts, m + 1, i);
      } else {
        hide Grow, Continues, MaxEnd;
        SuffixIsBlock(regs, cuts[m], i, cuts[m + 1]);
        GrowReaches(regs, i, i + 1, cuts[m + 1]);
        NextRequestLeads(regs, i);
        GreedyStaysAhead(regs, cuts, m + 1, Grow(regs, i, i + 1));
      }
    }
  }

  /** No order-preserving division into legal requests has fewer of them than the greedy plan. */
  lemma GreedyPlanIsShortest(regs: seq<Register>, cuts: seq<nat>)
    requires Ordered(regs) && AllValid(regs) && Partition(regs, cuts)
    ensures |Plan(regs, 0)| <= |cuts| - 1
  {
    GreedyStaysAhead(regs, cuts, 0, 0);
  }

  /** The greedy plan is itself such a division. */
  lemma {:induction false} PlanIsPartition(regs: seq<Register>, i: nat)
    requires AllValid(regs) && i <= |regs|
    ensures var plan := Plan(regs, i);
      && (i < |regs| ==> plan != [] && plan[0].first == i && plan[|plan| - 1].next == |regs|)
      && (forall m :: 0 <= m < |plan| ==> Block(regs, plan[m].first, plan[m].next))
      && (forall m :: 0 <= m < |plan| - 1 ==> plan[m].next == plan[m + 1].first)
    decreases |regs| - i
  {
    if i < |regs| {
      hide Grow, Continues, MaxEnd;
      GrowIsMaximal(regs, i, i + 1);
      var q := RequestAt(regs, i);
      PlanIsPartition(regs, q.next);
      var rest := Plan(regs, q.next);
      assert Plan(regs, i) == [q] + rest;
    }
  }

  // ---------------------------------------------------------------- what a request may be

  // The same notions without the merge: what one Modbus read request can ask for.

  /** Some register of i .. j - 1 holds address a. */
  ghost predicate Covered(regs: seq<Register>, i: nat, j: nat, a: nat)
    requires j <= |regs|
  {
    exists m :: i <= m < j && regs[m].start <= a < regs[m].End()
  }

  /**
   Registers i .. j - 1 can be read at once and nothing else is read with them: one function code, at
   most 125 words from the first of them on, and no address in between that none of them holds.
  */
  ghost predicate OneRequest(regs: seq<Register>, i: nat, j: nat) {
    && i < j <= |regs|
    && (forall k :: i <= k < j ==>
          && 1 <= regs[k].count <= 125 && regs[k].fc == regs[i].fc
          && regs[i].start <= regs[k].start && regs[k].End() <= regs[i].start + 125)
    && forall a: nat, k :: i <= k < j && regs[i].start <= a < regs[k].End() ==> Covered(regs, i, j, a)
  }

  lemma {:induction false} BlockHasNoGap(regs: seq<Register>, i: nat, j: nat, a: nat)
    requires Block(regs, i, j) && regs[i].start <= a < MaxEnd(regs, i, j)
    ensures Covered(regs, i, j, a)
    decreases j
  {
    if j == i + 1 {
      assert regs[i].start <= a < regs[i].End();
    } else {
      BlockContinues(regs, i, j, j - 1);
      if a < MaxEnd(regs, i, j - 1) {
        BlockHasNoGap(regs, i, j - 1, a);
      } else {
        assert regs[j - 1].start <= a < regs[j - 1].End();
      }
    }
  }

  lemma BlockIsRequest(regs: seq<Register>, i: nat, j: nat)
    requires Ordered(regs) && Block(regs, i, j)
    ensures OneRequest(regs, i, j)
  {
    hide MaxEnd, Covered;
    BlockSize(regs, i, j);
    forall k | i <= k < j
      ensures regs[k].ValidWidth()
    {
      if k > i {
        BlockContinues(regs, i, j, k);
      }
    }
    forall a: nat, k | i <= k < j && regs[i].start <= a < regs[k].End()
      ensures Covered(regs, i, j, a)
    {
      BlockHasNoGap(regs, i, j, a);
    }
  }

  lemma RequestContinues(regs: seq<Register>, i: nat, j: nat, k: nat)
    requires Ordered(regs) && OneRequest(regs, i, j) && i < k < j
    ensures Continues(regs, i, k)
  {
    MaxEndIsSome(regs, i, k + 1, regs[i].start + 125);
    var end := MaxEnd(regs, i, k);
    if regs[k].start > end {
      assert Covered(regs, i, j, end);
      var m :| i <= m < j && regs[m].start <= end < regs[m].End();
      if m < k {
        EndWithinMax(regs, i, k, m);
      }
    }
  }

  /** The blocks of the merge are exactly the legal requests. */
  lemma BlocksAreRequests(regs: seq<Register>, i: nat, j: nat)
    requires Ordered(regs)
    ensures Block(regs, i, j) <==> OneRequest(regs, i, j)
  {
    hide MaxEnd;
    if Block(regs, i, j) {
      BlockIsRequest(regs, i, j);
    }
    if OneRequest(regs, i, j) {
      forall k | i < k < j
        ensures Continues(regs, i, k)
      {
        RequestContinues(regs, i, j, k);
      }
    }
  }

  /** `cuts` divides the map, in order, into legal requests. */
  ghost predicate Division(regs: seq<Register>, cuts: seq<nat>) {
    && 1 <= |cuts| && cuts[0] == 0 && cuts[|cuts| - 1] == |regs|
    && forall m :: 0 <= m < |cuts| - 1 ==> OneRequest(regs, cuts[m], cuts[m + 1])
  }

  /** The plan divides the map into legal requests, and no division into legal requests has fewer. */
  lemma PlanHasFewestRequests(regs: seq<Register>)
    requires Ordered(regs) && AllValid(regs)
    ensures forall m :: 0 <= m < |Plan(regs, 0)| ==>
      OneRequest(regs, Plan(regs, 0)[m].first, Plan(regs, 0)[m].next)
    ensures forall cuts :: Division(regs, cuts) ==> |Plan(regs, 0)| <= |cuts| - 1
  {
    hide Block, OneRequest, Ordered, AllValid, Plan;
    PlanIsPartition(regs, 0);
    forall m | 0 <= m < |Plan(regs, 0)|
      ensures OneRequest(regs, Plan(regs, 0)[m].first, Plan(regs, 0)[m].next)
    {
      BlocksAreRequests(regs, Plan(regs, 0)[m].first, Plan(regs, 0)[m].next);
    }
    forall cuts | Division(regs, cuts)
      ensures |Plan(regs, 0)| <= |cuts| - 1
    {
      forall m | 0 <= m < |cuts| - 1
        ensures Block(regs, cuts[m], cuts[m + 1])
      {
        BlocksAreRequests(regs, cuts[m], cuts[m + 1]);
      }
      GreedyPlanIsShortest(regs, cuts);
    }
  }

  /** What a planned request asks for: from its first register to the last address any of its registers holds. */
  lemma RequestIsExact(regs: seq<Register>, i: nat)
    requires Ordered(regs) && i < |regs| && regs[i].ValidWidth()
    ensures var q := RequestAt(regs, i);
      && q.fc == regs[i].fc && q.start == regs[i].start && q.first == i
      && (forall a: nat :: q.start <= a < q.start + q.count ==> Covered(regs, i, q.next, a))
      && (forall k :: i <= k < q.next ==> regs[k].End() <= q.start + q.count)
  {
    hide MaxEnd, Covered, Continues, Grow;
    var q := RequestAt(regs, i);
    RequestCovers(regs, i);
    GrowIsMaximal(regs, i, i + 1);
    forall a: nat | q.start <= a < q.start + q.count
      ensures Covered(regs, i, q.next, a)
    {
      BlockHasNoGap(regs, i, q.next, a);
    }
  }
}
