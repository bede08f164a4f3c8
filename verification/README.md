# ByteBufferSerial, modelled in Dafny

`ByteBufferSerial` is the bridge between a typed value and a byte array in the Serial
library. Encoding (`toByteArray`) turns a null value into the empty array. Otherwise it
borrows a scratch `byte[]` from an optional pool (`Pools.SynchronizedPool<byte[]>`) and runs
the injected `Serializer` over an output bound to that buffer, or to no buffer. It returns
the output's serialized data and always gives the buffer back to the pool, even when the
serializer throws. Decoding (`fromByteArray`) turns null or empty input into null. Otherwise
it returns the serializer's result, or its exception, unchanged. `createPool` builds a
pool of `bufferCount` buffers, each `bufferSize` bytes long.

The model is sequential and functional. Files:

- `wrappers.dfy`: `Option` (a nullable reference) and `Result` (a value or a thrown exception).
- `pools.dfy`: the pool as a capacity plus a sequence of idle buffers, with `Acquire` and
  `Release`. A buffer value stands for one Java array: its reference (`id`) and its fixed length. Two buffer values are the same array iff they are equal.
- `serialization.dfy`: the context, the error kinds, and the serializer as two opaque total
  functions. It also defines the events the bridge makes on its collaborators: pool acquire,
  pool release, serialize and deserialize. Each call returns the trace of these events, so
  "not invoked", "exactly once" and "in this order" can be stated.
- `byte_buffer_serial.dfy`: the bridge. Each encode call takes the bridge and returns it with
  the pool's new state.
- `properties.dfy`: lemmas that relate the operations to each other and to the pool.

## Model

| member | source | states |
|---|---|---|
| Pools.Acquire | serialization/src/main/java/com/serial/util/serialization/base/ByteBufferSerial.java:49-50 | Gives nothing iff no buffer is idle, and then leaves the pool unchanged. Otherwise gives an idle buffer and removes exactly that one from the idle multiset. |
| Pools.Release | serialization/src/main/java/com/serial/util/serialization/base/ByteBufferSerial.java:56-58 | Adds the buffer to the idle multiset iff the pool is under capacity. Otherwise the pool is unchanged. Capacity never changes. |
| Pools.Empty | serialization/src/main/java/com/serial/util/serialization/base/ByteBufferSerial.java:97 | A new pool has the given capacity and no idle buffer, and is valid. |
| Pools.AcquireTakesOut | serialization/src/main/java/com/serial/util/serialization/base/ByteBufferSerial.java:50-55 | A borrowed buffer is no longer idle while it is in use, so no other call can be handed it. Acquire keeps the pool valid. |
| Pools.ReleaseKeepsValid | serialization/src/main/java/com/serial/util/serialization/base/ByteBufferSerial.java:57 | Giving back a buffer that is not idle keeps the pool within capacity and free of duplicates. |
| Pools.ReleaseUndoesAcquire | serialization/src/main/java/com/serial/util/serialization/base/ByteBufferSerial.java:50-58 | On a valid pool, releasing the buffer just acquired restores the pool exactly. |
| ByteBufferSerial.New | serialization/src/main/java/com/serial/util/serialization/base/ByteBufferSerial.java:24-26 | The no-argument bridge has the always-release context and no pool. |
| ByteBufferSerial.WithContext | serialization/src/main/java/com/serial/util/serialization/base/ByteBufferSerial.java:28-30 | The context-only bridge keeps the given context and has no pool. |
| ByteBufferSerial.WithPool | serialization/src/main/java/com/serial/util/serialization/base/ByteBufferSerial.java:32-34 | The pool-only bridge has the always-release context and the given, possibly null, pool. |
| ByteBufferSerial.WithContextAndPool | serialization/src/main/java/com/serial/util/serialization/base/ByteBufferSerial.java:36-40 | The two-argument bridge keeps both arguments as given. |
| ByteBufferSerial.CreatePool | serialization/src/main/java/com/serial/util/serialization/base/ByteBufferSerial.java:95-102 | Fails with a negative-array-size error iff at least one buffer must be allocated and the size is negative. Otherwise the pool is valid, has capacity `count`, and holds `count` distinct fresh buffers of length `size` in allocation order. |
| ByteBufferSerial.WithBuffers | serialization/src/main/java/com/serial/util/serialization/base/ByteBufferSerial.java:20-22 | The count/size bridge has the always-release context and a valid pool of `count` idle buffers of length `size`. It fails exactly when `createPool` does. |
| ByteBufferSerial.ToByteArrayWith | serialization/src/main/java/com/serial/util/serialization/base/ByteBufferSerial.java:63-76 | Never calls the pool. Null gives the empty array and no serializer call. Otherwise the serializer is called once, with the bridge's context and the given buffer, and its data or error is the result. |
| ByteBufferSerial.ToByteArray | serialization/src/main/java/com/serial/util/serialization/base/ByteBufferSerial.java:42-61 | Null gives the empty array, with no pool or serializer call and the bridge unchanged. Otherwise the serializer is called exactly once, with the bridge's context, and its outcome is the result. With no pool, no pool call happens and no buffer is used. Every borrowed buffer is returned, and a valid pool ends unchanged. |
| ByteBufferSerial.FromByteArray | serialization/src/main/java/com/serial/util/serialization/base/ByteBufferSerial.java:78-93 | The deserializer is called iff the input is neither null nor empty. When it is not called the result is null. When it is called, it is called once with the bridge's context and the input, and its result or error is returned unchanged. The pool is never called. |
| SerialProperties.FallsBackToNoBuffer | serialization/src/main/java/com/serial/util/serialization/base/ByteBufferSerial.java:49-60 | Without a pool, or with no idle buffer, a non-null value is serialized with no buffer and the pool is left as it was. A missing pool makes no pool call. An exhausted pool makes exactly one failed acquire. |
| SerialProperties.BorrowsAndReturnsOnce | serialization/src/main/java/com/serial/util/serialization/base/ByteBufferSerial.java:50-58 | With an idle buffer `b`, the calls are: acquire `b`, serialize with `b`, release `b`. `b` is out of the pool while serializing and is returned exactly once, whatever the serializer's outcome. The pool ends as it began. |
| SerialProperties.ExplicitBufferIgnoresPool | serialization/src/main/java/com/serial/util/serialization/base/ByteBufferSerial.java:64-75 | The explicit-buffer overload does not depend on the bridge's pool and never calls it. Its result is exactly the serializer's. |
| SerialProperties.SerializeErrorPropagates | serialization/src/main/java/com/serial/util/serialization/base/ByteBufferSerial.java:70-74 | Whichever scratch buffer the bridge hands the serializer (a pooled one or none), a serializer error on it is the encode result, unchanged and with no data. The pool is still restored and every borrowed buffer is given back. |
| SerialProperties.DeserializeErrorPropagates | serialization/src/main/java/com/serial/util/serialization/base/ByteBufferSerial.java:88-92 | Decoding fails iff the deserializer fails, and with the same error. |
| SerialProperties.RoundTrip | serialization/src/main/java/com/serial/util/serialization/base/ByteBufferSerial.java:44-89 | Suppose the serializer writes a value as non-empty data that it reads back as the value. Then decoding the bridge's encoding gives the value back. |
| SerialProperties.EmptyEncodingDecodesToNull | serialization/src/main/java/com/serial/util/serialization/base/ByteBufferSerial.java:84-86 | If the serializer writes nothing for a non-null value, decoding the result gives null and never calls the deserializer. |
| SerialProperties.ForwardsItsContext | serialization/src/main/java/com/serial/util/serialization/base/ByteBufferSerial.java:71-89 | Every serializer and deserializer call carries the bridge's own context. |
| SerialProperties.PoolFreeConstructorsNeverAcquire | serialization/src/main/java/com/serial/util/serialization/base/ByteBufferSerial.java:24-34 | A bridge built without a pool never calls a pool. The no-argument bridge serializes with the always-release context. |
| SerialProperties.EncodeAllRestoresPool | serialization/src/main/java/com/serial/util/serialization/base/ByteBufferSerial.java:49-58 | After any sequence of encode calls, a valid pool is exactly as it began. Every buffer taken was given back as often as it was taken. |
| SerialProperties.EncodeAllSerializesEachValue | serialization/src/main/java/com/serial/util/serialization/base/ByteBufferSerial.java:44-71 | Over any sequence of encode calls, whatever the pool's state, the serializer runs once per non-null value and never for a null one. |
| SerialProperties.EncodeAllForwardsContext | serialization/src/main/java/com/serial/util/serialization/base/ByteBufferSerial.java:71 | Over any sequence of encode calls, every serializer call carries the bridge's context. |
| SerialProperties.EncodeAllCallsIndependent | serialization/src/main/java/com/serial/util/serialization/base/ByteBufferSerial.java:49-60 | Each call in a sequence has the same outcome as that call made alone on the initial bridge. |

## Left out

- The `synchronized (tempBuffer)` block and the pool's lock. Their purpose is mutual exclusion between threads, and calls are modelled one at a time. What remains is that a borrowed buffer is not idle while it is in use (`Pools.AcquireTakesOut`).
- The pool class itself is not part of this model. `Pools.Acquire` hands out the most recently released idle buffer. `Pools.Release` drops a buffer when the pool is full. The pool's own check against releasing a buffer that is already idle is not modelled. On the bridge's path an acquired buffer is never idle (`Pools.AcquireTakesOut`), so that check cannot fire there.
- ByteBufferSerial.CreatePool: requires `count >= 0`. What the pool constructor does with a zero or negative capacity is not visible. A negative capacity is excluded, and a capacity of 0 is assumed to be accepted, giving an empty pool that drops every release. A negative `size` is modelled as Java's `NegativeArraySizeException` from `new byte[size]`.
- ByteBufferSerial.WithBuffers: requires `count >= 0`, for the same reason as `CreatePool`. `new ByteBufferSerial(bufferCount, bufferSize)` passes `bufferCount` straight to `createPool`, and the pool constructor's handling of a negative capacity is not visible.
- The serializer output and input adapters (`ByteBufferSerializerOutput`, `ByteBufferSerializerInput`) are not part of this model. Writing into the output and reading back `getSerializedData()` are one opaque function of the context, the optional buffer and the value. Growth beyond the buffer and copying out are left to that function.
- Buffer contents are not modelled. A scratch buffer is its identity and its length.
- Java's 32-bit `int` for `bufferCount` and `bufferSize`: only their sign matters to the code shown, so they are unbounded integers.
- The identity of the shared `EMPTY_BYTE_ARRAY` constant. The model returns an empty byte sequence.
- Unchecked exceptions other than those named in the `Error` datatype, and the annotations (`@Contract`, `@NotNull`, `@Nullable`). Nullability is modelled with `Option`.
- SerialProperties.RoundTrip: the round trip needs a non-empty encoding. The general round-trip promise `decode(encode(v)) == v` does not hold as the code is written when a serializer writes nothing for a non-null value: `fromByteArray` then returns null without calling the deserializer (`SerialProperties.EmptyEncodingDecodesToNull`). The model follows the code.
