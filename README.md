# SocketReceiveBuffer: a byte-bounded FIFO of received datagrams

This project models the receive buffer that ice4j puts between a socket's
reading thread and the threads that consume received packets. The buffer
keeps an ordered list of datagrams (`bufList`), the running byte total of
that list (`size`), and a capacity (`receiveBufferSize`). The capacity is
taken, once, from the socket's SO_RCVBUF option and then cached. When adding
would exceed the capacity, the oldest packets are evicted. Packets are taken
from the head.

Two modules:

- `PacketBuffer` (buffer_spec.dfy) is the value-level specification.
  - `Packet` is a datagram reduced to an id and a non-negative length.
  - `SumLen` is the byte total of a packet list.
  - `DropCount` and `Survivors` describe the oldest-first eviction loop.
  - `FirstNull` and `Admitted` describe how far `addAll` gets through a
    collection before it meets a null element.
  - `ResolveCapacity` is the fallback-and-doubling policy around the 1 MiB
    default.
- `ReceiveBuffer` (socket_receive_buffer.dfy) holds the class
  `SocketReceiveBuffer`. It has the three fields of the Java class and
  methods that update them in place. Its invariant `Valid()` says:
  - `size == SumLen(bufList)`;
  - `departed + bufList == arrived`, where the ghost `arrived` lists every
    packet ever appended and the ghost `departed` lists every packet evicted
    or polled. So packets always leave in arrival order (FIFO);
  - the ghost counter `queries` of transport consultations is 1 once the
    cache is filled and 0 before. So the transport is asked at most once.

The transport's `getReceiveBufferSize()` is abstract in the source. Here it
is the parameter `answer: Option<int>` of every method that may consult it:
`None` is a `SocketException`, and `Some(v)` is a returned value `v`. A Java
`null` argument is `None` of an `Option`. A `NullPointerException` is the
result `NullPointer`.

Three behaviours of the code shape the model:

- `add` evicts *before* appending (SocketReceiveBuffer.java:81-90). The
  total it tests already includes the new packet, but the new packet is not
  yet in the list, so the new packet is never evicted. A packet longer than
  the capacity empties the buffer and is admitted alone, leaving `size`
  above the capacity.
- `addAll` mutates before it validates (SocketReceiveBuffer.java:105-108).
  On a null element it throws after the earlier elements have been appended
  and counted, and it performs no eviction.
- `addAll` evicts only after appending everything
  (SocketReceiveBuffer.java:105-119), so packets from the same call may be
  evicted.

## Model

| member | source | states |
|---|---|---|
| `PacketBuffer.SumLenAppend` | src/main/java/org/ice4j/socket/SocketReceiveBuffer.java:107-108 | The byte total of a concatenation is the sum of the byte totals. This is why adding a packet's length to `size` when appending it keeps `size` exact. |
| `PacketBuffer.SumLenSuffixShrinks` | src/main/java/org/ice4j/socket/SocketReceiveBuffer.java:84-89 | Removing packets from the head never increases the byte total. |
| `PacketBuffer.DropCount` | src/main/java/org/ice4j/socket/SocketReceiveBuffer.java:84-89 | The eviction loop removes at most the whole list. |
| `PacketBuffer.DropCountIsShortestFittingPrefix` | src/main/java/org/ice4j/socket/SocketReceiveBuffer.java:84-89 | Eviction drops the shortest prefix after which the rest fits. For every index j of s, j is at or past the number of dropped packets exactly when the suffix s[j..] plus the extra bytes is within the capacity. If no suffix fits, all packets are dropped. |
| `PacketBuffer.SurvivorsFit` | src/main/java/org/ice4j/socket/SocketReceiveBuffer.java:81-90 | If the extra bytes (the new packet in `add`) fit within the capacity, the survivors plus those bytes fit too. |
| `PacketBuffer.SurvivorsEmptyWhenTooBig` | src/main/java/org/ice4j/socket/SocketReceiveBuffer.java:81-90 | If the extra bytes alone exceed the capacity, every old packet is evicted. |
| `PacketBuffer.FirstNull` | src/main/java/org/ice4j/socket/SocketReceiveBuffer.java:105-106 | Gives the index where `addAll`'s loop throws. Every element before it is present, and the element at it (if any) is null. |
| `PacketBuffer.Admitted` | src/main/java/org/ice4j/socket/SocketReceiveBuffer.java:105-108 | The packets `addAll` appends before it stops. There are exactly `FirstNull(c)` of them, and they are the elements of c in order. |
| `PacketBuffer.ResolveCapacity` | src/main/java/org/ice4j/socket/SocketReceiveBuffer.java:207-228 | The capacity is always positive. A failed or non-positive answer gives 1048576. A positive answer v gives a capacity between v and 2·v that equals v exactly when v ≥ 1048576, and 2·v otherwise. |
| `ReceiveBuffer.SocketReceiveBuffer.constructor` | src/main/java/org/ice4j/socket/SocketReceiveBuffer.java:65-69 | A new buffer is empty, holds 0 bytes, and has an unresolved cache. |
| `ReceiveBuffer.SocketReceiveBuffer.GetMaxBufSize` | src/main/java/org/ice4j/socket/SocketReceiveBuffer.java:202-233 | The first call consults the transport once and caches `ResolveCapacity(answer)`. Later calls return the cached value and ignore the transport. The result is positive. Nothing else changes. |
| `ReceiveBuffer.SocketReceiveBuffer.EvictOldest` | src/main/java/org/ice4j/socket/SocketReceiveBuffer.java:84-89 | The eviction loop leaves exactly `Survivors` of the list. The evicted prefix is recorded as departed, in order, and `size` stays exact. |
| `ReceiveBuffer.SocketReceiveBuffer.Add` | src/main/java/org/ice4j/socket/SocketReceiveBuffer.java:74-96 | A null packet throws and changes nothing. Otherwise `add` returns true, and the list becomes `Survivors(old list, p.length, capacity) + [p]`, so p is never evicted. If p is longer than the capacity, the list is exactly [p] and `size` exceeds the capacity. Otherwise `size` is within the capacity. The invariant is kept. |
| `ReceiveBuffer.SocketReceiveBuffer.AppendOne` | src/main/java/org/ice4j/socket/SocketReceiveBuffer.java:107-108 | Appends one packet and adds its length to `size`, keeping the invariant. |
| `ReceiveBuffer.SocketReceiveBuffer.AppendEach` | src/main/java/org/ice4j/socket/SocketReceiveBuffer.java:105-109 | The for loop appends `Admitted(c)` and reports completion exactly when c holds no null. The cache is not touched. |
| `ReceiveBuffer.SocketReceiveBuffer.AddAll` | src/main/java/org/ice4j/socket/SocketReceiveBuffer.java:98-125 | A null collection throws and changes nothing. A null element throws after the earlier elements are appended and counted, with no eviction and no capacity query. Without nulls, the list becomes `Survivors(old list + c, 0, capacity)` and `size` is within the capacity. The invariant is kept. |
| `ReceiveBuffer.SocketReceiveBuffer.BufNbElem` | src/main/java/org/ice4j/socket/SocketReceiveBuffer.java:131-139 | Returns the number of buffered packets, which equals arrivals minus departures. Nothing changes. |
| `ReceiveBuffer.SocketReceiveBuffer.BufSize` | src/main/java/org/ice4j/socket/SocketReceiveBuffer.java:145-153 | Returns the exact byte total of the buffered packets, which equals the bytes arrived minus the bytes departed. Nothing changes. |
| `ReceiveBuffer.SocketReceiveBuffer.Poll` | src/main/java/org/ice4j/socket/SocketReceiveBuffer.java:158-171 | An empty buffer gives null and nothing changes. Otherwise the head is returned and removed, its length is subtracted from `size`, and it is recorded as departed. The invariant, including FIFO order, is kept. |
| `ReceiveBuffer.SocketReceiveBuffer.PollTimed` | src/main/java/org/ice4j/socket/SocketReceiveBuffer.java:180-196 | A non-empty buffer behaves exactly like `poll()`. An empty buffer with a non-positive timeout gives null at once, with no change. An empty buffer with time left reports that the caller would wait, with no change. |
| `ReceiveBuffer.EvictionScenario` | src/main/java/org/ice4j/socket/SocketReceiveBuffer.java:81-90 | Setup: SO_RCVBUF of 50, which doubles to a capacity of 100. Adding three 40-byte packets keeps the last two (80 bytes), even though later answers differ. Polling then returns the second packet, the third, and null. |

## Left out

- Concurrency: the `ReentrantLock`, `lockInterruptibly`, and the `notEmpty` condition with its `signal`/`signalAll`. Every operation is modelled as one atomic step.
- `PollTimed`: models only the decisions of one pass of the loop. It does not model the `awaitNanos` wait, the wall-clock timing, or `InterruptedException`, because these need threads and a clock. For an empty buffer with time left it returns `Waits` instead of sleeping. The timeout is taken as nanoseconds, so the `TimeUnit` conversion is not modelled.
- The transport: `getReceiveBufferSize()` (SO_RCVBUF of a real socket) is replaced by the `answer` parameter. "Queried at most once" is stated through the ghost counter `queries`.
- Packet contents: payload, addresses and offsets of `DatagramPacket`. Only `getLength()` is kept, as a `nat`.
- Mutable packets: a buffered packet's length is treated as fixed. In Java a caller may call `setLength` on a packet that is still buffered; each removal then subtracts the current length, so `size` drifts from the true total. In the model `size == SumLen(bufList)` cannot break this way.
- Aliasing: a collection passed to `addAll` that is the buffer's own list is not modelled. In Java, after the first element is appended, the iterator throws `ConcurrentModificationException`, and no eviction runs. The model treats the collection as a value, so it would append a copy of the whole list and then evict.
- Java `int` wrap-around of `size`: `size` is an unbounded integer, which amounts to assuming that totals fit in 32 bits. The doubling in `getMaxBufSize` cannot overflow, because it applies only to values below 2^20.
