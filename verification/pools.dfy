/**
 A minimal model of the bounded pool of scratch byte arrays that the bridge borrows
 from (`Pools.SynchronizedPool<byte[]>`). The pool class itself is not part of this
 model; what is stated here is the least the bridge relies on:
 - `Acquire` hands out one idle buffer, or nothing when none is idle;
 - `Release` puts a buffer back when the pool is under capacity and silently drops it
   otherwise.
 Calls are sequential; the pool's lock is not modelled.
 */
module Pools {
  import opened Wrappers

  /**
   A Java `byte[]`. A value of this type stands for one array: `id` is its reference and
   `length` its fixed size, so two values are the same array iff they are equal.
   */
  datatype ScratchBuffer = ScratchBuffer(id: nat, length: nat)

  /** The pool's state: its capacity and the idle buffers, oldest first. */
  datatype Pool = Pool(capacity: nat, idle: seq<ScratchBuffer>)

  /** No two idle entries are the same array. */
  predicate Distinct(buffers: seq<ScratchBuffer>) {
    forall i, j :: 0 <= i < j < |buffers| ==> buffers[i] != buffers[j]
  }

  /** The pool never holds more than its capacity, and never holds one array twice. */
  predicate Valid(p: Pool) {
    |p.idle| <= p.capacity && Distinct(p.idle)
  }

  /** True iff the array `b` is idle in `p`. */
  predicate IsIdle(p: Pool, b: ScratchBuffer) {
    b in p.idle
  }

  /** The empty pool of the given capacity. */
  function Empty(capacity: nat): (p: Pool)
    ensures Valid(p) && p.capacity == capacity && |p.idle| == 0
  {
    Pool(capacity, [])
  }

  /**
   Borrows an idle buffer. The result is the borrowed buffer (None when the pool is
   empty) and the pool after the call.
   */
  function Acquire(p: Pool): (r: (Option<ScratchBuffer>, Pool))
    ensures r.1.capacity == p.capacity
    ensures r.0.None? <==> |p.idle| == 0
    ensures r.0.None? ==> r.1 == p
    ensures r.0.Some? ==> IsIdle(p, r.0.value) && |r.1.idle| == |p.idle| - 1
    ensures r.0.Some? ==> multiset(r.1.idle) + multiset{r.0.value} == multiset(p.idle)
  {
    if |p.idle| == 0 then (None, p)
    else
      var last := |p.idle| - 1;
      assert p.idle == p.idle[..last] + [p.idle[last]];
      (Some(p.idle[last]), p.(idle := p.idle[..last]))
  }

  /**
   Returns a buffer to the pool: kept when the pool is under capacity, dropped
   (without error) when it is full.
   */
  function Release(p: Pool, b: ScratchBuffer): (q: Pool)
    ensures q.capacity == p.capacity
    ensures |q.idle| <= q.capacity || q == p
    ensures IsIdle(q, b) <==> IsIdle(p, b) || |p.idle| < p.capacity
    ensures multiset(q.idle) == multiset(p.idle) + (if |p.idle| < p.capacity then multiset{b} else multiset{})
  {
    if |p.idle| < p.capacity then p.(idle := p.idle + [b]) else p
  }

  /** Acquire leaves a valid pool valid, and the buffer it hands out is no longer idle. */
  lemma AcquireTakesOut(p: Pool)
    requires Valid(p)
    ensures Valid(Acquire(p).1)
    ensures Acquire(p).0.Some? ==> !IsIdle(Acquire(p).1, Acquire(p).0.value)
  {
  }

  /** Release keeps a valid pool valid provided the buffer is not already idle. */
  lemma ReleaseKeepsValid(p: Pool, b: ScratchBuffer)
    requires Valid(p) && !IsIdle(p, b)
    ensures Valid(Release(p, b))
  {
  }

  /** Release undoes Acquire: on a valid pool, borrowing then returning leaves the pool as it was. */
  lemma ReleaseUndoesAcquire(p: Pool)
    requires Valid(p)
    requires Acquire(p).0.Some?
    ensures Release(Acquire(p).1, Acquire(p).0.value) == p
  {
  }
}
