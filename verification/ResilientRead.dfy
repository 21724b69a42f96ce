/**
 Reading one block of registers over a bus that may fail: a retry after each failed
 request, and when a whole block cannot be read, smaller and smaller chunks.
*/
module ResilientRead {

  import opened Words

  const READ_HOLDING: nat := 0x03
  const READ_INPUT: nat := 0x04
  const FALLBACK_CHUNK_WORDS: nat := 64
  const FALLBACK_MIN_CHUNK_WORDS: nat := 8
  const MAX_REQUEST_WORDS: nat := 125

  type Memory = (nat, u16) -> u16

  /** The words a device holds at `count` addresses from `start`, around the 16-bit address space. */
  function DeviceWords(memory: Memory, fc: nat, start: nat, count: nat): (words: seq<u16>)
    ensures |words| == count
    ensures forall i :: 0 <= i < count ==> words[i] == memory(fc, (start + i) % 0x1_0000)
  {
    seq(count, i requires 0 <= i < count => memory(fc, (start + i) % 0x1_0000))
  }

  lemma DeviceWordsJoin(memory: Memory, fc: nat, start: nat, m: nat, n: nat)
    ensures DeviceWords(memory, fc, start, m) + DeviceWords(memory, fc, (start + m) % 0x1_0000, n)
         == DeviceWords(memory, fc, start, m + n)
  {
    hide DeviceWords;
    var a, b := DeviceWords(memory, fc, start, m), DeviceWords(memory, fc, (start + m) % 0x1_0000, n);
    forall i | 0 <= i < m + n
      ensures (a + b)[i] == DeviceWords(memory, fc, start, m + n)[i]
    {
      if m <= i {
        AddressWraps(start + m, i - m);
      }
    }
  }

  lemma AddressWraps(a: nat, i: nat)
    ensures (a % 0x1_0000 + i) % 0x1_0000 == (a + i) % 0x1_0000
  {
  }

  /**
   The bus to the meter.  Which requests fail, and what a failed one leaves in the buffer
   it was given, is arbitrary.
  */
  class Bus {

    const memory: Memory
    const outcome: nat -> Esp
    const noise: (nat, nat) -> u16
    var requests: nat

    constructor (memory: Memory, outcome: nat -> Esp, noise: (nat, nat) -> u16)
      ensures this.memory == memory && this.outcome == outcome && this.noise == noise && requests == 0
    {
      this.memory, this.outcome, this.noise, requests := memory, outcome, noise, 0;
    }

    method ReadByFc(fc: nat, start: u16, count: nat, dest: array<u16>, at: nat) returns (err: Esp)
      requires at + count <= dest.Length
      modifies this`requests, dest
      ensures Readable(fc) && 0 < count ==> err == outcome(old(requests)) && requests == old(requests) + 1
      ensures !Readable(fc) || count == 0 ==> err == InvalidArg && requests == old(requests)
      ensures dest[..at] == old(dest[..at]) && dest[at + count..] == old(dest[at + count..])
      ensures err == Ok ==> dest[at..at + count] == DeviceWords(memory, fc, start, count)
    {
      if fc != READ_INPUT && fc != READ_HOLDING {
        return InvalidArg;
      }
      if count == 0 {
        return InvalidArg;
      }
      err := outcome(requests);
      if err == Ok {
        forall i | 0 <= i < count {
          dest[at + i] := memory(fc, (start + i) % 0x1_0000);
        }
      } else {
        forall i | 0 <= i < count {
          dest[at + i] := noise(requests, i);
        }
      }
      requests := requests + 1;
    }

    /** One retry after a failed request, and none after a good one. */
    method ReadWithRecovery(fc: nat, start: u16, count: nat, dest: array<u16>, at: nat) returns (err: Esp)
      requires at + count <= dest.Length
      modifies this`requests, dest
      ensures Readable(fc) && 0 < count ==>
        && (err == Ok <==> outcome(old(requests)) == Ok || outcome(old(requests) + 1) == Ok)
        && requests == old(requests) + (if outcome(old(requests)) == Ok then 1 else 2)
        && err == outcome(requests - 1)
      ensures !Readable(fc) || count == 0 ==> err == InvalidArg && requests == old(requests)
      ensures dest[..at] == old(dest[..at]) && dest[at + count..] == old(dest[at + count..])
      ensures err == Ok ==> dest[at..at + count] == DeviceWords(memory, fc, start, count)
    {
      err := ReadByFc(fc, start, count, dest, at);
      if err == Ok {
        return;
      }
      err := ReadByFc(fc, start, count, dest, at);
    }

    /** One chunk of a block of `count` words, behind the `offset` words read so far. */
    method ReadChunk(fc: nat, start: u16, offset: nat, chunk: nat, count: nat, dest: array<u16>) returns (err: Esp)
      requires 0 < chunk && offset + chunk <= count <= dest.Length
      modifies this`requests, dest
      ensures Readable(fc) ==>
        && Attempt(err == Ok, requests) == Retried(outcome, old(requests))
        && old(requests) < requests && err == outcome(requests - 1)
      ensures !Readable(fc) ==> err == InvalidArg && requests == old(requests)
      ensures dest[count..] == old(dest[count..])
      ensures err == Ok && old(dest[..offset]) == DeviceWords(memory, fc, start, offset) ==>
        dest[..offset + chunk] == DeviceWords(memory, fc, start, offset + chunk)
    {
      hide DeviceWords;
      err := ReadWithRecovery(fc, (start + offset) % 0x1_0000, chunk, dest, offset);
      assert dest[count..] == dest[offset + chunk..][count - offset - chunk..];
      assert old(dest[count..]) == old(dest[offset + chunk..])[count - offset - chunk..];
      if err == Ok {
        DeviceWordsJoin(memory, fc, start, offset, chunk);
        assert dest[..offset + chunk] == dest[..offset] + dest[offset..offset + chunk];
      }
    }

    /** The block in chunks of at most `chunkWords`, up to the first one that fails twice. */
    method ReadBlockChunked(fc: nat, start: u16, count: nat, chunkWords: nat, dest: array<u16>) returns (err: Esp)
      requires count <= dest.Length
      modifies this`requests, dest
      ensures Readable(fc) && 0 < count && 0 < chunkWords ==>
        && Attempt(err == Ok, requests) == Chunks(outcome, old(requests), Pieces(count, chunkWords))
        && old(requests) < requests && err == outcome(requests - 1)
      ensures !Readable(fc) || count == 0 || chunkWords == 0 ==> err == InvalidArg && requests == old(requests)
      ensures dest[count..] == old(dest[count..])
      ensures err == Ok ==> dest[..count] == DeviceWords(memory, fc, start, count)
    {
      hide Chunks, Pieces, DeviceWords;
      if count == 0 || chunkWords == 0 {
        return InvalidArg;
      }
      var offset := 0;
      err := Ok;
      NoPieces(outcome, chunkWords);
      while offset < count
        invariant offset <= count && err == Ok
        invariant !Readable(fc) ==> offset == 0 && requests == old(requests)
        invariant Readable(fc) ==>
          Chunks(outcome, old(requests), Pieces(count, chunkWords))
          == Chunks(outcome, requests, Pieces(count - offset, chunkWords))
        invariant offset == 0 ==> requests == old(requests)
        invariant 0 < offset ==> old(requests) < requests && outcome(requests - 1) == Ok
        invariant dest[count..] == old(dest[count..])
        invariant dest[..offset] == DeviceWords(memory, fc, start, offset)
      {
        var chunk := if count - offset > chunkWords then chunkWords else count - offset;
        PieceByPiece(outcome, requests, count - offset, chunkWords);
        err := ReadChunk(fc, start, offset, chunk, count, dest);
        if err != Ok {
          return;
        }
        offset := offset + chunk;
      }
      err := Ok;
    }

    /**
     Ok means the whole block was read, at the right place and nowhere else.  When that happens, and
     after how many requests, is decided by the bus alone: the block at once, then in smaller and
     smaller chunks.
    */
    method ReadBlockResilient(fc: nat, start: u16, count: nat, dest: array<u16>) returns (err: Esp)
      requires count <= dest.Length
      modifies this`requests, dest
      ensures dest[count..] == old(dest[count..])
      ensures err == Ok ==> dest[..count] == DeviceWords(memory, fc, start, count)
      ensures Readable(fc) && 0 < count ==>
        && Attempt(err == Ok, requests) == Resilient(outcome, old(requests), count)
        && old(requests) < requests && err == outcome(requests - 1)
      ensures !Readable(fc) || count == 0 ==> err == InvalidArg && requests == old(requests)
      ensures count <= MAX_REQUEST_WORDS ==> requests <= old(requests) + 62
    {
      hide Chunks, Pieces, DeviceWords;
      if count <= MAX_REQUEST_WORDS {
        ResilientIsBounded(outcome, requests, count);
      }
      err := ReadWithRecovery(fc, start, count, dest, 0);
      assert dest[..count] == dest[0..count] && dest[0 + count..] == dest[count..];
      if err == Ok {
        return;
      }
      var chunkWords := FALLBACK_CHUNK_WORDS;
      if chunkWords > count {
        chunkWords := count;
      }
      if chunkWords < FALLBACK_MIN_CHUNK_WORDS {
        chunkWords := FALLBACK_MIN_CHUNK_WORDS;
      }
      var lastErr := err;
      while FALLBACK_MIN_CHUNK_WORDS <= chunkWords <= count
        invariant lastErr != Ok
        invariant FALLBACK_MIN_CHUNK_WORDS <= chunkWords <= FALLBACK_CHUNK_WORDS
        invariant dest[count..] == old(dest[count..])
        invariant !Readable(fc) || count == 0 ==> lastErr == InvalidArg && requests == old(requests)
        invariant Readable(fc) && 0 < count ==> old(requests) < requests && lastErr == outcome(requests - 1)
        invariant Readable(fc) && 0 < count ==>
          Resilient(outcome, old(requests), count)
          == if chunkWords <= count then Halving(outcome, requests, count, chunkWords) else Attempt(false, requests)
        decreases chunkWords
      {
        var chunkErr := ReadBlockChunked(fc, start, count, chunkWords, dest);
        if chunkErr == Ok {
          return Ok;
        }
        lastErr := chunkErr;
        if chunkWords == FALLBACK_MIN_CHUNK_WORDS {
          break;
        }
        chunkWords := chunkWords / 2;
        if chunkWords < FALLBACK_MIN_CHUNK_WORDS {
          chunkWords := FALLBACK_MIN_CHUNK_WORDS;
        }
      }
      return lastErr;
    }
  }

  // ---------------------------------------------------------------- success in terms of the bus

  predicate Readable(fc: nat) {
    fc == READ_HOLDING || fc == READ_INPUT
  }

  /** Whether a read succeeds on a bus, and the number of the request that comes after it. */
  datatype Attempt = Attempt(ok: bool, next: nat)

  function Retried(outcome: nat -> Esp, r: nat): Attempt {
    if outcome(r) == Ok then Attempt(true, r + 1) else Attempt(outcome(r + 1) == Ok, r + 2)
  }

  /** The number of chunks of a block. */
  function Pieces(count: nat, chunk: nat): nat
    requires 0 < chunk
  {
    if count == 0 then 0 else if count <= chunk then 1 else 1 + Pieces(count - chunk, chunk)
  }

  /** n chunks, one after the other. */
  function Chunks(outcome: nat -> Esp, r: nat, n: nat): (a: Attempt)
    ensures r + n <= a.next + (if a.ok then 0 else n)
    ensures r <= a.next <= r + 2 * n
    decreases n
  {
    if n == 0 then Attempt(true, r)
    else
      var a := Retried(outcome, r);
      if a.ok then Chunks(outcome, a.next, n - 1) else a
  }

  lemma NoPieces(outcome: nat -> Esp, chunk: nat)
    requires 0 < chunk
    ensures Pieces(0, chunk) == 0 && forall r: nat :: Chunks(outcome, r, 0) == Attempt(true, r)
  {
  }

  /** One more chunk of a block. */
  lemma PieceByPiece(outcome: nat -> Esp, r: nat, count: nat, chunk: nat)
    requires 0 < count && 0 < chunk
    ensures Chunks(outcome, r, Pieces(count, chunk))
         == var a := Retried(outcome, r);
            if a.ok then Chunks(outcome, a.next, Pieces(if count <= chunk then 0 else count - chunk, chunk)) else a
  {
  }

  /** The next smaller chunk size. */
  function Smaller(chunk: nat): nat {
    if chunk / 2 < FALLBACK_MIN_CHUNK_WORDS then FALLBACK_MIN_CHUNK_WORDS else chunk / 2
  }

  /** Pass after pass over a block, in chunks of half the size each time. */
  function Halving(outcome: nat -> Esp, r: nat, count: nat, chunk: nat): Attempt
    requires FALLBACK_MIN_CHUNK_WORDS <= chunk
    decreases chunk
  {
    var a := Chunks(outcome, r, Pieces(count, chunk));
    if a.ok || chunk == FALLBACK_MIN_CHUNK_WORDS then a else Halving(outcome, a.next, count, Smaller(chunk))
  }

  /** The block at once, and then, unless it is too short for that, in chunks. */
  function Resilient(outcome: nat -> Esp, r: nat, count: nat): Attempt {
    var a := Retried(outcome, r);
    if a.ok || count < FALLBACK_MIN_CHUNK_WORDS then a
    else Halving(outcome, a.next, count, if count < FALLBACK_CHUNK_WORDS then count else FALLBACK_CHUNK_WORDS)
  }

  /** A bus that never fails twice in a row fails no read. */
  lemma SingleFailuresAreHarmless(outcome: nat -> Esp, r: nat, count: nat)
    requires outcome(r) == Ok || outcome(r + 1) == Ok
    ensures Resilient(outcome, r, count).ok && Resilient(outcome, r, count).next <= r + 2
  {
  }

  /** At each of these requests from `lo` to `hi` the bus fails twice in a row; no request belongs to two of them. */
  ghost predicate DoubleFailures(outcome: nat -> Esp, lo: nat, hi: nat, at: seq<nat>) {
    && (forall k :: 0 <= k < |at| ==>
          lo <= at[k] && at[k] + 2 <= hi && outcome(at[k]) != Ok && outcome(at[k] + 1) != Ok)
    && forall k :: 0 <= k < |at| - 1 ==> at[k] + 2 <= at[k + 1]
  }

  lemma DoubleFailuresJoin(outcome: nat -> Esp, lo: nat, mid: nat, hi: nat, first: nat, rest: seq<nat>)
    requires lo <= first && first + 2 <= mid <= hi && outcome(first) != Ok && outcome(first + 1) != Ok
    requires DoubleFailures(outcome, mid, hi, rest)
    ensures DoubleFailures(outcome, lo, hi, [first] + rest)
  {
    var at := [first] + rest;
    forall k | 0 <= k < |at|
      ensures lo <= at[k] && at[k] + 2 <= hi && outcome(at[k]) != Ok && outcome(at[k] + 1) != Ok
      ensures k < |at| - 1 ==> at[k] + 2 <= at[k + 1]
    {
      assert k > 0 ==> at[k] == rest[k - 1];
      assert k < |at| - 1 ==> at[k + 1] == rest[k];
    }
  }

  /** A pass fails with two requests in a row. */
  lemma {:induction false} PassFailsTwice(outcome: nat -> Esp, r: nat, n: nat)
    requires !Chunks(outcome, r, n).ok
    ensures var next := Chunks(outcome, r, n).next;
      r + 2 <= next && outcome(next - 2) != Ok && outcome(next - 1) != Ok
    decreases n
  {
    var a := Retried(outcome, r);
    if a.ok {
      PassFailsTwice(outcome, a.next, n - 1);
    }
  }

  /** The passes over a block from this chunk size on. */
  function Passes(chunk: nat): nat {
    if chunk <= 8 then 1 else if chunk <= 17 then 2 else if chunk <= 35 then 3 else 4
  }

  lemma {:induction false} EveryPassFails(outcome: nat -> Esp, r: nat, count: nat, chunk: nat) returns (at: seq<nat>)
    requires FALLBACK_MIN_CHUNK_WORDS <= chunk <= FALLBACK_CHUNK_WORDS && !Halving(outcome, r, count, chunk).ok
    ensures |at| == Passes(chunk) && DoubleFailures(outcome, r, Halving(outcome, r, count, chunk).next, at)
    decreases chunk
  {
    var a := Chunks(outcome, r, Pieces(count, chunk));
    PassFailsTwice(outcome, r, Pieces(count, chunk));
    var rest: seq<nat> := [];
    if chunk != FALLBACK_MIN_CHUNK_WORDS {
      rest := EveryPassFails(outcome, a.next, count, Smaller(chunk));
      assert rest != [] && a.next <= rest[0];
      assert rest[|rest| - 1] + 2 <= Halving(outcome, r, count, chunk).next;
      DoubleFailuresAscend(outcome, a.next, Halving(outcome, r, count, chunk).next, rest);
    }
    DoubleFailuresJoin(outcome, r, a.next, Halving(outcome, r, count, chunk).next, a.next - 2, rest);
    at := [a.next - 2] + rest;
  }

  lemma DoubleFailuresAscend(outcome: nat -> Esp, lo: nat, hi: nat, at: seq<nat>)
    requires DoubleFailures(outcome, lo, hi, at) && at != []
    ensures lo + 2 <= hi
  {
    assert lo <= at[0] && at[0] + 2 <= hi;
  }

  /**
   What it takes to lose a block: one double failure if it has fewer than 8 words, two if it has 8,
   three up to 17 words, four up to 35, and five separate ones if it is longer.
  */
  lemma LossTakesDoubleFailures(outcome: nat -> Esp, r: nat, count: nat) returns (at: seq<nat>)
    requires !Resilient(outcome, r, count).ok
    ensures DoubleFailures(outcome, r, Resilient(outcome, r, count).next, at)
    ensures |at| == if count < 8 then 1 else if count == 8 then 2 else if count <= 17 then 3 else if count <= 35 then 4
                    else 5
  {
    hide Halving;
    var a := Retried(outcome, r);
    at := [r];
    if count >= FALLBACK_MIN_CHUNK_WORDS {
      var chunk := if count < FALLBACK_CHUNK_WORDS then count else FALLBACK_CHUNK_WORDS;
      var rest := EveryPassFails(outcome, a.next, count, chunk);
      DoubleFailuresAscend(outcome, a.next, Resilient(outcome, r, count).next, rest);
      DoubleFailuresJoin(outcome, r, a.next, Resilient(outcome, r, count).next, r, rest);
      at := [r] + rest;
    }
  }

  // ---------------------------------------------------------------- the number of requests

  lemma {:induction false} PiecesAreFew(count: nat, chunk: nat)
    requires 0 < chunk
    ensures 0 < count ==> 0 < Pieces(count, chunk) && (Pieces(count, chunk) - 1) * chunk < count
    ensures count <= Pieces(count, chunk) * chunk
    decreases count
  {
    if count > chunk {
      PiecesAreFew(count - chunk, chunk);
      var n := Pieces(count - chunk, chunk);
      assert Pieces(count, chunk) == n + 1;
      assert n * chunk == (n - 1) * chunk + chunk && (n + 1) * chunk == n * chunk + chunk;
    }
  }

  lemma {:induction false} HalvingIsBounded(outcome: nat -> Esp, r: nat, count: nat, chunk: nat)
    requires FALLBACK_MIN_CHUNK_WORDS <= chunk <= count <= MAX_REQUEST_WORDS && chunk <= FALLBACK_CHUNK_WORDS
    requires OnSchedule(count, chunk)
    ensures Halving(outcome, r, count, chunk).next + Spent(count, chunk) <= r + 60
    decreases chunk
  {
    hide OnSchedule, Spent, Cost, Pieces;
    PiecesAreFew(count, chunk);
    RoundsAreFew(count, chunk, Pieces(count, chunk));
    var a := Chunks(outcome, r, Pieces(count, chunk));
    if chunk != FALLBACK_MIN_CHUNK_WORDS && !a.ok {
      HalvingIsBounded(outcome, a.next, count, Smaller(chunk));
    } else {
      BudgetIsEnough(count, chunk);
    }
  }

  lemma BudgetIsEnough(count: nat, chunk: nat)
    requires FALLBACK_MIN_CHUNK_WORDS <= chunk <= count <= MAX_REQUEST_WORDS && chunk <= FALLBACK_CHUNK_WORDS
    requires OnSchedule(count, chunk)
    ensures Spent(count, chunk) + Cost(count, chunk) <= 60
  {
  }

  /** However the bus behaves, a block of one request's size costs at most 62 requests. */
  lemma ResilientIsBounded(outcome: nat -> Esp, r: nat, count: nat)
    requires count <= MAX_REQUEST_WORDS
    ensures Resilient(outcome, r, count).next <= r + 62
  {
    hide Halving;
    if count >= FALLBACK_MIN_CHUNK_WORDS {
      HalvingIsBounded(outcome, Retried(outcome, r).next, count,
                       if count < FALLBACK_CHUNK_WORDS then count else FALLBACK_CHUNK_WORDS);
    }
  }

  /** The chunk sizes a block can come to: 64, 32, 16, 8 for a long one; a short one starts with itself. */
  predicate OnSchedule(count: nat, chunk: nat) {
    if count > FALLBACK_CHUNK_WORDS then chunk in {64, 32, 16, 8}
    else chunk == count || chunk <= 32
  }

  /** A bound on the chunk requests made before chunks of this size are tried. */
  function Spent(count: nat, chunk: nat): nat {
    if count > FALLBACK_CHUNK_WORDS then
      if chunk > 32 then 0 else if chunk > 16 then 4 else if chunk > 8 then 12 else 28
    else
      if chunk > 32 then 0 else if chunk > 16 then 2 else if chunk > 8 then 18 else 34
  }

  /** A bound on the chunk requests made with chunks of this size. */
  function Cost(count: nat, chunk: nat): nat {
    if count > FALLBACK_CHUNK_WORDS then
      if chunk > 32 then 4 else if chunk > 16 then 8 else if chunk > 8 then 16 else 32
    else
      if chunk > 32 then 2 else 16
  }

  lemma RoundsAreFew(count: nat, chunk: nat, rounds: nat)
    requires FALLBACK_MIN_CHUNK_WORDS <= chunk <= count <= MAX_REQUEST_WORDS && chunk <= FALLBACK_CHUNK_WORDS
    requires OnSchedule(count, chunk)
    requires 0 < rounds ==> (rounds - 1) * chunk < count
    ensures 2 * rounds <= Cost(count, chunk)
    ensures chunk == FALLBACK_MIN_CHUNK_WORDS ==> Spent(count, chunk) + Cost(count, chunk) <= 60
    ensures chunk != FALLBACK_MIN_CHUNK_WORDS ==>
      var next := if chunk / 2 < FALLBACK_MIN_CHUNK_WORDS then FALLBACK_MIN_CHUNK_WORDS else chunk / 2;
      OnSchedule(count, next) && Spent(count, chunk) + Cost(count, chunk) <= Spent(count, next)
  {
    if count <= FALLBACK_CHUNK_WORDS {
      if rounds > 8 {
        AtLeast(rounds - 1, 8, chunk);
      } else if chunk == count && rounds > 1 {
        AtLeast(rounds - 1, 1, chunk);
      }
    }
  }

  lemma AtLeast(x: nat, m: nat, y: nat)
    requires m <= x
    ensures m * y <= x * y
  {
  }
}
