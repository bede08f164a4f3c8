/**
 The bridge between a typed value and a byte array (`ByteBufferSerial`): it short-circuits
 null and empty inputs, borrows a scratch buffer from an optional pool for the duration
 of one serialization, always gives that buffer back, and otherwise hands the work to the
 serializer, passing its result or its error through unchanged.

 The pool is a mutable object shared by every call on one bridge; in this sequential
 model each call takes the bridge and returns it with the pool's new state, together
 with the trace of calls it made on the pool and the serializer.
 */
module ByteBufferSerial {
  import opened Wrappers
  import opened Pools
  import opened Serialization

  /** A bridge: its optional buffer pool and the context it forwards to every call. */
  datatype Serial = Serial(pool: Option<Pool>, context: Context)

  /** The pool, if any, respects its capacity and holds each array at most once. */
  predicate Valid(s: Serial) {
    s.pool.Some? ==> Pools.Valid(s.pool.value)
  }

  /** What an encode call produces: its outcome, the bridge afterwards, and the calls it made. */
  datatype Encoding = Encoding(outcome: Result<Bytes, Error>, serial: Serial, trace: seq<Event>)

  /** What a decode call produces: its outcome and the calls it made. */
  datatype Decoding<T> = Decoding(outcome: Result<Option<T>, Error>, trace: seq<Event>)

  // ---------------------------------------------------------------------------------
  // Construction

  /** `new ByteBufferSerial()`: the always-release context, no pool. */
  function New(): (s: Serial)
    ensures s.context == AlwaysRelease && s.pool == None
  {
    WithContextAndPool(AlwaysRelease, None)
  }

  /** `new ByteBufferSerial(context)`: the given context, no pool. */
  function WithContext(context: Context): (s: Serial)
    ensures s.context == context && s.pool == None
  {
    WithContextAndPool(context, None)
  }

  /** `new ByteBufferSerial(pool)`: the always-release context, the given (nullable) pool. */
  function WithPool(pool: Option<Pool>): (s: Serial)
    ensures s.context == AlwaysRelease && s.pool == pool
  {
    WithContextAndPool(AlwaysRelease, pool)
  }

  /** `new ByteBufferSerial(context, pool)`: both as given. */
  function WithContextAndPool(context: Context, pool: Option<Pool>): (s: Serial)
    ensures s.context == context && s.pool == pool
  {
    Serial(pool, context)
  }

  /**
   `createPool(bufferCount, bufferSize)`: a pool of capacity `count`, filled by releasing
   `count` freshly allocated arrays of `size` bytes into it. The new arrays get the
   identities `firstId`, `firstId + 1`, ... Allocating an array of negative size throws.
   */
  method CreatePool(count: int, size: int, firstId: nat) returns (r: Result<Pool, Error>)
    requires count >= 0
    ensures r.Failure? <==> count > 0 && size < 0
    ensures r.Failure? ==> r.error == NegativeArraySize(size)
    ensures r.Success? ==> Pools.Valid(r.value)
    ensures r.Success? ==> r.value.capacity == count && |r.value.idle| == count
    ensures r.Success? ==> forall i :: 0 <= i < count ==> r.value.idle[i] == ScratchBuffer(firstId + i, size)
  {
    var pool := Pools.Empty(count);
    var i := 0;
    while i < count
      invariant 0 <= i <= count
      invariant i > 0 ==> size >= 0
      invariant pool.capacity == count && |pool.idle| == i
      invariant forall k :: 0 <= k < i ==> pool.idle[k] == ScratchBuffer(firstId + k, size)
    {
      if size < 0 {
        return Failure(NegativeArraySize(size));
      }
      pool := Pools.Release(pool, ScratchBuffer(firstId + i, size));
      i := i + 1;
    }
    return Success(pool);
  }

  /** `new ByteBufferSerial(bufferCount, bufferSize)`: the always-release context and a fresh pool. */
  method WithBuffers(count: int, size: int, firstId: nat) returns (r: Result<Serial, Error>)
    requires count >= 0
    ensures r.Failure? <==> count > 0 && size < 0
    ensures r.Failure? ==> r.error == NegativeArraySize(size)
    ensures r.Success? ==> Valid(r.value) && r.value.context == AlwaysRelease && r.value.pool.Some?
    ensures r.Success? ==> r.value.pool.value.capacity == count && |r.value.pool.value.idle| == count
    ensures r.Success? ==> forall i :: 0 <= i < count ==> r.value.pool.value.idle[i].length == size
  {
    var pool := CreatePool(count, size, firstId);
    match pool
    case Failure(e) => return Failure(e);
    case Success(p) => return Success(WithPool(Some(p)));
  }

  // ---------------------------------------------------------------------------------
  // Encode

  /**
   `toByteArray(value, serializer, tempBuffer)`: null encodes to the empty array; otherwise
   the serializer runs once over an output bound to `scratch`, and its data or its error
   is the result. The pool is never touched.
   */
  function ToByteArrayWith<T>(s: Serial, value: Option<T>, serializer: Serializer<T>,
                              scratch: Option<ScratchBuffer>): (r: (Result<Bytes, Error>, seq<Event>))
    ensures NoPoolEvents(r.1) && ForwardsContext(r.1, s.context)
    ensures value.None? ==> r.0 == Success([]) && |SerializerCalls(r.1)| == 0
    ensures value.Some? ==> SerializerCalls(r.1) == [Serialize(s.context, scratch)]
    ensures value.Some? ==> r.0 == serializer.serialize(s.context, scratch, value.value)
  {
    if value.None? then (Success([]), [])
    else
      var trace := [Serialize(s.context, scratch)];
      assert SerializerCalls(trace) == [trace[0]] + SerializerCalls([]);
      (serializer.serialize(s.context, scratch, value.value), trace)
  }

  /**
   `toByteArray(value, serializer)`: null encodes to the empty array without touching the
   pool or the serializer; otherwise a buffer is borrowed from the pool (if there is one
   and it has an idle buffer), the explicit-buffer overload runs with it, and the buffer
   is given back whether that succeeded or failed.
   */
  function ToByteArray<T>(s: Serial, value: Option<T>, serializer: Serializer<T>): (r: Encoding)
    ensures value.None? ==> r == Encoding(Success([]), s, [])
    ensures value.Some? ==> |SerializerCalls(r.trace)| == 1
    ensures value.Some? ==>
              var call := SerializerCalls(r.trace)[0];
              call.Serialize? && call.context == s.context
              && r.outcome == serializer.serialize(s.context, call.scratch, value.value)
    ensures s.pool.None? ==> r.serial == s && NoPoolEvents(r.trace)
    ensures s.pool.None? && value.Some? ==> SerializerCalls(r.trace) == [Serialize(s.context, None)]
    ensures Valid(s) ==> r.serial == s
    ensures Balanced(r.trace) && ForwardsContext(r.trace, s.context)
    ensures r.serial.context == s.context && r.serial.pool.Some? == s.pool.Some?
  {
    if value.None? then Encoding(Success([]), s, [])
    else match s.pool
      case None =>
        var (outcome, trace) := ToByteArrayWith(s, value, serializer, None);
        NoPoolEventsBalanced(trace);
        Encoding(outcome, s, trace)
      case Some(p) =>
        var (got, afterAcquire) := Pools.Acquire(p);
        var (outcome, inner) := ToByteArrayWith(s, value, serializer, got);
        match got
        case None =>
          ExhaustedTrace(inner);
          ForwardsContextAppend([PoolAcquire(None)], inner, s.context);
          Encoding(outcome, s.(pool := Some(afterAcquire)), [PoolAcquire(None)] + inner)
        case Some(b) =>
          BorrowedTrace(b, inner);
          ForwardsContextAppend([PoolAcquire(Some(b))], inner, s.context);
          ForwardsContextAppend([PoolAcquire(Some(b))] + inner, [PoolRelease(b)], s.context);
          assert Valid(s) ==> Pools.Release(afterAcquire, b) == p by {
            if Valid(s) { ReleaseUndoesAcquire(p); }
          }
          Encoding(outcome, s.(pool := Some(Pools.Release(afterAcquire, b))),
                   [PoolAcquire(Some(b))] + inner + [PoolRelease(b)])
  }

  // ---------------------------------------------------------------------------------
  // Decode

  /**
   `fromByteArray(bytes, serializer)`: null or empty input decodes to null without calling
   the serializer; otherwise the serializer's result, or its error, is returned as is.
   */
  function FromByteArray<T>(s: Serial, bytes: Option<Bytes>, serializer: Serializer<T>): (r: Decoding<T>)
    ensures NoPoolEvents(r.trace) && ForwardsContext(r.trace, s.context)
    ensures |SerializerCalls(r.trace)| == 0 <==> bytes.None? || |bytes.value| == 0
    ensures bytes.None? || |bytes.value| == 0 ==> r.outcome == Success(None)
    ensures bytes.Some? && |bytes.value| > 0 ==>
              SerializerCalls(r.trace) == [Deserialize(s.context, bytes.value)]
              && r.outcome == serializer.deserialize(s.context, bytes.value)
  {
    if bytes.None? || |bytes.value| == 0 then Decoding(Success(None), [])
    else
      var trace := [Deserialize(s.context, bytes.value)];
      assert SerializerCalls(trace) == [trace[0]] + SerializerCalls([]);
      Decoding(serializer.deserialize(s.context, bytes.value), trace)
  }
}
