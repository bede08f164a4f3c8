/**
 The collaborators the bridge delegates to, as opaque capabilities: the serialization
 context it forwards, the errors a serializer may raise, and the serializer itself.
 Also the events the bridge produces on its collaborators, so that the order and
 number of pool and serializer calls can be stated.
 */
module Serialization {
  import opened Wrappers
  import opened Pools

  /** A Java `byte[]`'s contents. */
  type Bytes = seq<bv8>

  /** The policy object forwarded to every serializer call; opaque beyond its identity. */
  datatype Context = AlwaysRelease | OtherContext(tag: nat)

  /** The exceptions that can leave the bridge. */
  datatype Error =
    | IOFailure(message: string)         // IOException, from serialize or deserialize
    | ClassNotFound(className: string)   // ClassNotFoundException, from deserialize
    | IllegalState(message: string)      // IllegalStateException, from deserialize
    | NegativeArraySize(size: int)       // NegativeArraySizeException, from `new byte[size]`

  /**
   A `Serializer<T>` together with the output/input adapters the bridge wraps around it.
   `serialize(context, scratch, value)` is `serializer.serialize` over an output bound to
   `scratch` (or to no buffer), followed by the output's `getSerializedData()`;
   `deserialize(context, bytes)` is `serializer.deserialize` over an input reading `bytes`,
   and may itself yield null.
   */
  datatype Serializer<!T> = Serializer(
    serialize: (Context, Option<ScratchBuffer>, T) -> Result<Bytes, Error>,
    deserialize: (Context, Bytes) -> Result<Option<T>, Error>)

  /** One call the bridge makes on a collaborator. */
  datatype Event =
    | PoolAcquire(got: Option<ScratchBuffer>)
    | PoolRelease(buffer: ScratchBuffer)
    | Serialize(context: Context, scratch: Option<ScratchBuffer>)
    | Deserialize(context: Context, input: Bytes)

  predicate IsPoolEvent(e: Event) {
    e.PoolAcquire? || e.PoolRelease?
  }

  predicate IsSerializerEvent(e: Event) {
    e.Serialize? || e.Deserialize?
  }

  /** True iff no event of `trace` is a call on the pool. */
  predicate NoPoolEvents(trace: seq<Event>) {
    forall i :: 0 <= i < |trace| ==> !IsPoolEvent(trace[i])
  }

  /** The serializer calls in `trace`, in order. */
  function SerializerCalls(trace: seq<Event>): (calls: seq<Event>)
    ensures |calls| <= |trace|
    ensures forall i :: 0 <= i < |calls| ==> IsSerializerEvent(calls[i])
  {
    if |trace| == 0 then []
    else (if IsSerializerEvent(trace[0]) then [trace[0]] else []) + SerializerCalls(trace[1..])
  }

  /** The buffers taken from the pool in `trace`. */
  function Acquisitions(trace: seq<Event>): multiset<ScratchBuffer> {
    if |trace| == 0 then multiset{}
    else (match trace[0] case PoolAcquire(Some(b)) => multiset{b} case _ => multiset{})
         + Acquisitions(trace[1..])
  }

  /** The buffers given back to the pool in `trace`. */
  function Releases(trace: seq<Event>): multiset<ScratchBuffer> {
    if |trace| == 0 then multiset{}
    else (match trace[0] case PoolRelease(b) => multiset{b} case _ => multiset{})
         + Releases(trace[1..])
  }

  /** Every buffer taken from the pool is given back, as many times as it was taken. */
  predicate Balanced(trace: seq<Event>) {
    Acquisitions(trace) == Releases(trace)
  }

  /** Every serializer call of `trace` carries `context`. */
  predicate ForwardsContext(trace: seq<Event>, context: Context) {
    forall i :: 0 <= i < |trace| && IsSerializerEvent(trace[i]) ==> trace[i].context == context
  }

  lemma {:induction false} SerializerCallsAppend(a: seq<Event>, b: seq<Event>)
    ensures SerializerCalls(a + b) == SerializerCalls(a) + SerializerCalls(b)
  {
    if |a| == 0 {
      assert a + b == b;
    } else {
      assert (a + b)[0] == a[0] && (a + b)[1..] == a[1..] + b;
      SerializerCallsAppend(a[1..], b);
    }
  }

  /** Acquisitions and releases of two traces run one after the other add up. */
  lemma {:induction false} CountsAppend(a: seq<Event>, b: seq<Event>)
    ensures Acquisitions(a + b) == Acquisitions(a) + Acquisitions(b)
    ensures Releases(a + b) == Releases(a) + Releases(b)
  {
    if |a| == 0 {
      assert a + b == b;
    } else {
      assert (a + b)[1..] == a[1..] + b;
      CountsAppend(a[1..], b);
    }
  }

  /** A trace with no pool calls neither takes nor gives back a buffer. */
  lemma {:induction false} NoPoolEventsBalanced(trace: seq<Event>)
    requires NoPoolEvents(trace)
    ensures Acquisitions(trace) == multiset{} && Releases(trace) == multiset{}
  {
    if |trace| > 0 {
      assert !IsPoolEvent(trace[0]);
      NoPoolEventsBalanced(trace[1..]);
    }
  }

  /**
   Wrapping a pool-free trace in an acquire of `b` and a release of `b` keeps it
   balanced and adds no serializer call.
   */
  lemma BorrowedTrace(b: ScratchBuffer, inner: seq<Event>)
    requires NoPoolEvents(inner)
    ensures Balanced([PoolAcquire(Some(b))] + inner + [PoolRelease(b)])
    ensures SerializerCalls([PoolAcquire(Some(b))] + inner + [PoolRelease(b)]) == SerializerCalls(inner)
  {
    var head, tail := [PoolAcquire(Some(b))], [PoolRelease(b)];
    NoPoolEventsBalanced(inner);
    CountsAppend(head, inner);
    CountsAppend(head + inner, tail);
    SerializerCallsAppend(head, inner);
    SerializerCallsAppend(head + inner, tail);
    assert head[1..] == [] && tail[1..] == [];
  }

  /** Prefixing a pool-free trace with a failed acquire keeps it balanced and adds no serializer call. */
  lemma ExhaustedTrace(inner: seq<Event>)
    requires NoPoolEvents(inner)
    ensures Balanced([PoolAcquire(None)] + inner)
    ensures SerializerCalls([PoolAcquire(None)] + inner) == SerializerCalls(inner)
  {
    var trace := [PoolAcquire(None)] + inner;
    assert trace[1..] == inner;
    NoPoolEventsBalanced(inner);
  }

  /** Two traces whose serializer calls carry `context` run one after the other still do. */
  lemma ForwardsContextAppend(a: seq<Event>, b: seq<Event>, context: Context)
    requires ForwardsContext(a, context) && ForwardsContext(b, context)
    ensures ForwardsContext(a + b, context)
  {
  }

  /** Running two balanced traces one after the other gives a balanced trace. */
  lemma BalancedAppend(a: seq<Event>, b: seq<Event>)
    requires Balanced(a) && Balanced(b)
    ensures Balanced(a + b)
  {
    CountsAppend(a, b);
  }
}
