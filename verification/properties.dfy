/**
 Properties of the bridge that relate its operations to each other and to the pool:
 fallback to no scratch buffer, borrow-and-return of a pooled buffer, error
 pass-through, the encode/decode round trip, and pool accounting over many calls.
 */
module SerialProperties {
  import opened Wrappers
  import opened Pools
  import opened Serialization
  import opened ByteBufferSerial

  /** The idle buffer a pool hands out next. */
  function NextIdle(p: Pool): (b: ScratchBuffer)
    requires |p.idle| > 0
    ensures b in p.idle
  {
    p.idle[|p.idle| - 1]
  }

  /**
   Without a pool, or with a pool that has no idle buffer, a non-null value is serialized
   over an output bound to no buffer, and the pool is left as it was.
   */
  lemma FallsBackToNoBuffer<T>(s: Serial, v: T, serializer: Serializer<T>)
    requires s.pool.None? || |s.pool.value.idle| == 0
    ensures var r := ToByteArray(s, Some(v), serializer);
            && SerializerCalls(r.trace) == [Serialize(s.context, None)]
            && r.outcome == serializer.serialize(s.context, None, v)
            && r.serial == s
            && (s.pool.None? <==> r.trace == [Serialize(s.context, None)])
            && (s.pool.Some? <==> r.trace == [PoolAcquire(None), Serialize(s.context, None)])
  {
  }

  /**
   With a valid pool that has an idle buffer `b`, a non-null value is serialized over an
   output bound to `b`; `b` is not idle while the serializer runs, and it is given back
   to the same pool exactly once, after the serializer, whether the serializer
   succeeded or failed, so the pool ends as it began.
   */
  lemma BorrowsAndReturnsOnce<T>(s: Serial, v: T, serializer: Serializer<T>)
    requires ByteBufferSerial.Valid(s) && s.pool.Some? && |s.pool.value.idle| > 0
    ensures var b := NextIdle(s.pool.value);
            var r := ToByteArray(s, Some(v), serializer);
            && r.trace == [PoolAcquire(Some(b)), Serialize(s.context, Some(b)), PoolRelease(b)]
            && !IsIdle(Acquire(s.pool.value).1, b)
            && Acquisitions(r.trace) == multiset{b} == Releases(r.trace)
            && r.outcome == serializer.serialize(s.context, Some(b), v)
            && r.serial == s
  {
    var b := NextIdle(s.pool.value);
    AcquireTakesOut(s.pool.value);
    var r := ToByteArray(s, Some(v), serializer);
    var tail := [Serialize(s.context, Some(b)), PoolRelease(b)];
    assert r.trace == [PoolAcquire(Some(b))] + tail;
    assert r.trace[1..] == tail;
    assert tail[1..] == [PoolRelease(b)] && tail[1..][1..] == [];
    assert Acquisitions(tail[1..]) == multiset{} && Releases(tail[1..]) == multiset{b};
    assert Acquisitions(tail) == multiset{} && Releases(tail) == multiset{b};
  }

  /**
   The explicit-buffer overload never calls the pool: the bridge's pool is irrelevant to
   it, and its result is exactly the serializer's.
   */
  lemma ExplicitBufferIgnoresPool<T>(s: Serial, pool: Option<Pool>, v: Option<T>,
                                     serializer: Serializer<T>, scratch: Option<ScratchBuffer>)
    ensures ToByteArrayWith(s.(pool := pool), v, serializer, scratch) == ToByteArrayWith(s, v, serializer, scratch)
    ensures v.Some? ==> ToByteArrayWith(s, v, serializer, scratch).0 == serializer.serialize(s.context, scratch, v.value)
    ensures NoPoolEvents(ToByteArrayWith(s, v, serializer, scratch).1)
  {
  }

  /**
   Whichever scratch buffer the bridge hands the serializer, a serializer error on it is
   the encode call's result, unchanged and with no data, and the pool is still restored
   and every borrowed buffer given back.
   */
  lemma SerializeErrorPropagates<T>(s: Serial, v: T, serializer: Serializer<T>)
    requires ByteBufferSerial.Valid(s)
    ensures var r := ToByteArray(s, Some(v), serializer);
            var used := SerializerCalls(r.trace)[0].scratch;
            serializer.serialize(s.context, used, v).Failure? ==>
              && r.outcome == serializer.serialize(s.context, used, v)
              && r.serial == s
              && Balanced(r.trace)
  {
  }

  /** A deserializer error is the decode call's result, unchanged. */
  lemma DeserializeErrorPropagates<T>(s: Serial, bytes: Bytes, serializer: Serializer<T>)
    requires |bytes| > 0
    ensures FromByteArray(s, Some(bytes), serializer).outcome.Failure?
            <==> serializer.deserialize(s.context, bytes).Failure?
    ensures serializer.deserialize(s.context, bytes).Failure? ==>
            FromByteArray(s, Some(bytes), serializer).outcome == Failure(serializer.deserialize(s.context, bytes).error)
  {
  }

  /** True iff, whatever scratch buffer it is given, `serializer` writes `v` as non-empty data it reads back as `v`. */
  ghost predicate Inverts<T>(serializer: Serializer<T>, context: Context, v: T) {
    forall scratch ::
      var out := serializer.serialize(context, scratch, v);
      out.Success? && |out.value| > 0 && serializer.deserialize(context, out.value) == Success(Some(v))
  }

  /**
   Encoding a value and decoding the resulting bytes with the same bridge gives the value
   back, for a serializer that inverts itself on that value.
   */
  lemma RoundTrip<T>(s: Serial, v: T, serializer: Serializer<T>)
    requires Inverts(serializer, s.context, v)
    ensures var encoded := ToByteArray(s, Some(v), serializer);
            && encoded.outcome.Success?
            && FromByteArray(encoded.serial, Some(encoded.outcome.value), serializer).outcome == Success(Some(v))
  {
  }

  /**
   The round trip needs the encoding to be non-empty: a serializer that writes nothing
   for a non-null value gets null back from the bridge, without being asked to decode.
   */
  lemma EmptyEncodingDecodesToNull<T>(s: Serial, v: T, serializer: Serializer<T>)
    requires forall scratch :: serializer.serialize(s.context, scratch, v) == Success([])
    ensures var encoded := ToByteArray(s, Some(v), serializer);
            && encoded.outcome == Success([])
            && FromByteArray(encoded.serial, Some(encoded.outcome.value), serializer) == Decoding(Success(None), [])
  {
  }

  /** Every serializer call of an encode or a decode carries the bridge's context. */
  lemma ForwardsItsContext<T>(s: Serial, v: Option<T>, bytes: Option<Bytes>, serializer: Serializer<T>)
    ensures ForwardsContext(ToByteArray(s, v, serializer).trace, s.context)
    ensures ForwardsContext(FromByteArray(s, bytes, serializer).trace, s.context)
  {
  }

  /**
   A bridge built without a pool never calls a pool, and the bridge built by the no-argument
   constructor forwards the always-release context.
   */
  lemma PoolFreeConstructorsNeverAcquire<T>(c: Context, v: T, serializer: Serializer<T>)
    ensures NoPoolEvents(ToByteArray(New(), Some(v), serializer).trace)
    ensures NoPoolEvents(ToByteArray(WithContext(c), Some(v), serializer).trace)
    ensures NoPoolEvents(ToByteArray(WithPool(None), Some(v), serializer).trace)
    ensures SerializerCalls(ToByteArray(New(), Some(v), serializer).trace) == [Serialize(AlwaysRelease, None)]
    ensures SerializerCalls(ToByteArray(WithContext(c), Some(v), serializer).trace) == [Serialize(c, None)]
  {
  }

  // ---------------------------------------------------------------------------------
  // Many calls in sequence

  /** The outcomes of encoding `values` one after the other, with the bridge and trace at the end. */
  datatype Batch = Batch(outcomes: seq<Result<Bytes, Error>>, serial: Serial, trace: seq<Event>)

  /** Encodes each of `values` in turn on the same bridge, threading the pool's state. */
  function EncodeAll<T>(s: Serial, values: seq<Option<T>>, serializer: Serializer<T>): (r: Batch)
    ensures |r.outcomes| == |values|
    decreases |values|
  {
    if |values| == 0 then Batch([], s, [])
    else
      var first := ToByteArray(s, values[0], serializer);
      var rest := EncodeAll(first.serial, values[1..], serializer);
      Batch([first.outcome] + rest.outcomes, rest.serial, first.trace + rest.trace)
  }

  /** The number of non-null entries of `values`. */
  function NonNull<T>(values: seq<Option<T>>): nat {
    if |values| == 0 then 0 else (if values[0].Some? then 1 else 0) + NonNull(values[1..])
  }

  /**
   Over any sequence of encode calls on a bridge with a valid pool, the pool ends exactly
   as it began and every buffer taken from it was given back as often as it was taken.
   */
  lemma {:induction false} EncodeAllRestoresPool<T>(s: Serial, values: seq<Option<T>>, serializer: Serializer<T>)
    requires ByteBufferSerial.Valid(s)
    ensures EncodeAll(s, values, serializer).serial == s
    ensures Balanced(EncodeAll(s, values, serializer).trace)
    decreases |values|
  {
    if |values| > 0 {
      var first := ToByteArray(s, values[0], serializer);
      EncodeAllRestoresPool(s, values[1..], serializer);
      BalancedAppend(first.trace, EncodeAll(s, values[1..], serializer).trace);
    }
  }

  /** Over any sequence of encode calls, the serializer ran once per non-null value and never for a null one. */
  lemma {:induction false} EncodeAllSerializesEachValue<T>(s: Serial, values: seq<Option<T>>, serializer: Serializer<T>)
    ensures |SerializerCalls(EncodeAll(s, values, serializer).trace)| == NonNull(values)
    decreases |values|
  {
    if |values| > 0 {
      var first := ToByteArray(s, values[0], serializer);
      var rest := EncodeAll(first.serial, values[1..], serializer);
      EncodeAllSerializesEachValue(first.serial, values[1..], serializer);
      SerializerCallsAppend(first.trace, rest.trace);
      assert |SerializerCalls(first.trace)| == (if values[0].Some? then 1 else 0);
    }
  }

  /** Over any sequence of encode calls, every serializer call carries the bridge's context. */
  lemma {:induction false} EncodeAllForwardsContext<T>(s: Serial, values: seq<Option<T>>, serializer: Serializer<T>)
    ensures ForwardsContext(EncodeAll(s, values, serializer).trace, s.context)
    decreases |values|
  {
    if |values| > 0 {
      var first := ToByteArray(s, values[0], serializer);
      EncodeAllForwardsContext(first.serial, values[1..], serializer);
      ForwardsContextAppend(first.trace, EncodeAll(first.serial, values[1..], serializer).trace, s.context);
    }
  }

  /**
   Since a valid pool is restored after every call, each call of a sequence behaves as
   if it were the only one: its outcome is that of the single call on the initial bridge.
   */
  lemma {:induction false} EncodeAllCallsIndependent<T>(s: Serial, values: seq<Option<T>>, serializer: Serializer<T>)
    requires ByteBufferSerial.Valid(s)
    ensures forall i :: 0 <= i < |values| ==>
              EncodeAll(s, values, serializer).outcomes[i] == ToByteArray(s, values[i], serializer).outcome
    decreases |values|
  {
    if |values| > 0 {
      var r := EncodeAll(s, values, serializer);
      EncodeAllCallsIndependent(s, values[1..], serializer);
      forall i | 0 <= i < |values|
        ensures r.outcomes[i] == ToByteArray(s, values[i], serializer).outcome
      {
        if i > 0 {
          assert values[1..][i - 1] == values[i];
        }
      }
    }
  }
}
