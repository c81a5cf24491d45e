/**
 * The receive buffer of a socket: a FIFO of received datagrams whose
 * aggregate byte size is kept near a capacity derived from the socket's
 * SO_RCVBUF option. Every operation is modelled as one atomic step; the
 * answer the transport would give to a receive-buffer-size query is passed
 * in as `answer` (None when the query fails).
 */
module ReceiveBuffer {
  import opened PacketBuffer

  /** How a Java call ends: a normal return, or a NullPointerException. */
  datatype Result<T> = Returned(value: T) | NullPointer

  /** Outcome of one pass of the timed poll's decision logic. */
  datatype TimedPoll =
    | Received(packet: Packet)   // the head packet was taken
    | TimedOut                   // empty buffer and no time left: null
    | Waits                      // empty buffer, time left: the caller sleeps on notEmpty

  class SocketReceiveBuffer {
    /** The buffered packets, oldest first. */
    var bufList: seq<Packet>
    /** Running byte total of bufList. */
    var size: int
    /** Cached capacity; 0 until the transport has been consulted. */
    var receiveBufferSize: int

    /** Every packet ever appended, in order. */
    ghost var arrived: seq<Packet>
    /** Every packet that left again (evicted or polled), in order. */
    ghost var departed: seq<Packet>
    /** How many times the transport was asked for its buffer size. */
    ghost var queries: nat

    /** Object invariant: the byte total is exact, packets leave in the order
        they arrived, and the transport is consulted once, when the cache is
        filled. */
    ghost predicate Valid()
      reads this
    {
      && size == SumLen(bufList)
      && departed + bufList == arrived
      && CacheValid()
    }

    /** The cache is either unresolved (0, never asked) or resolved (positive,
        asked once). */
    ghost predicate CacheValid()
      reads this
    {
      && receiveBufferSize >= 0
      && queries == (if receiveBufferSize > 0 then 1 else 0)
    }

    constructor ()
      ensures Valid()
      ensures bufList == [] && size == 0 && receiveBufferSize == 0
      ensures arrived == [] && departed == [] && queries == 0
    {
      bufList, size, receiveBufferSize := [], 0, 0;
      arrived, departed, queries := [], [], 0;
    }

    /** The capacity, resolved from the transport on first use and cached. */
    method GetMaxBufSize(answer: Option<int>) returns (max: int)
      requires CacheValid()
      modifies this
      ensures CacheValid()
      ensures max > 0 && max == receiveBufferSize
      ensures old(receiveBufferSize) > 0 ==> max == old(receiveBufferSize) && queries == old(queries)
      ensures old(receiveBufferSize) <= 0 ==> max == ResolveCapacity(answer) && queries == old(queries) + 1
      ensures queries <= 1
      ensures bufList == old(bufList) && size == old(size)
      ensures arrived == old(arrived) && departed == old(departed)
    {
      var rbs := receiveBufferSize;
      if rbs <= 0 {
        queries := queries + 1;
        match answer {
          case Some(v) => rbs := v;
          case None =>
        }
        if rbs <= 0 {
          rbs := DefaultReceiveBufferSize;
        } else if rbs < DefaultReceiveBufferSize {
          rbs := rbs * 2;
        }
        receiveBufferSize := rbs;
      }
      max := rbs;
    }

    /** The shared eviction loop: polls the head while `size` (which may
        count `extra` bytes not yet in bufList) exceeds max. */
    method EvictOldest(max: int, ghost extra: nat)
      requires size == SumLen(bufList) + extra
      modifies this
      ensures bufList == Survivors(old(bufList), extra, max)
      ensures departed == old(departed) + old(bufList)[..DropCount(old(bufList), extra, max)]
      ensures departed + bufList == old(departed) + old(bufList)
      ensures size == SumLen(bufList) + extra
      ensures arrived == old(arrived) && receiveBufferSize == old(receiveBufferSize)
      ensures queries == old(queries)
    {
      ghost var b0 := bufList;
      ghost var i := 0;
      while size > max
        invariant 0 <= i <= |b0| && bufList == b0[i..]
        invariant size == SumLen(bufList) + extra
        invariant DropCount(b0, extra, max) == i + DropCount(bufList, extra, max)
        invariant departed == old(departed) + b0[..i]
        invariant arrived == old(arrived) && receiveBufferSize == old(receiveBufferSize)
        invariant queries == old(queries)
        decreases |bufList|
      {
        if bufList == [] {
          break;
        }
        var d := bufList[0];
        assert b0[..i + 1] == b0[..i] + [d];
        assert bufList[1..] == b0[i + 1..];
        bufList := bufList[1..];
        departed := departed + [d];
        size := size - d.length;
        i := i + 1;
      }
      assert b0[..i] + b0[i..] == b0;
    }

    /** add(p): a null packet is refused. Otherwise the old packets are
        evicted oldest first while the total INCLUDING p exceeds the
        capacity, and only then is p appended, so p itself always stays. */
    method Add(p: Option<Packet>, answer: Option<int>) returns (r: Result<bool>)
      requires Valid()
      modifies this
      ensures Valid()
      ensures p.None? ==> r == NullPointer && unchanged(this)
      ensures p.Some? ==> r == Returned(true)
      ensures p.Some? ==> receiveBufferSize == (if old(receiveBufferSize) > 0 then old(receiveBufferSize) else ResolveCapacity(answer))
      ensures p.Some? ==> bufList == Survivors(old(bufList), p.value.length, receiveBufferSize) + [p.value]
      ensures p.Some? ==> arrived == old(arrived) + [p.value]
      ensures p.Some? && p.value.length > receiveBufferSize ==> bufList == [p.value] && size > receiveBufferSize
      ensures p.Some? && p.value.length <= receiveBufferSize ==> size <= receiveBufferSize
    {
      if p.None? {
        return NullPointer;
      }
      var pk := p.value;
      size := size + pk.length;
      var max := GetMaxBufSize(answer);
      ghost var b0 := bufList;
      EvictOldest(max, pk.length);
      SumLenAppend(bufList, [pk]);
      bufList := bufList + [pk];
      arrived := arrived + [pk];
      assert departed + bufList == arrived;
      if pk.length > max {
        SurvivorsEmptyWhenTooBig(b0, pk.length, max);
      } else {
        SurvivorsFit(b0, pk.length, max);
      }
      r := Returned(true);
    }

    /** One step of addAll's loop: append d and count its bytes. */
    method AppendOne(d: Packet)
      requires Valid()
      modifies this
      ensures Valid()
      ensures bufList == old(bufList) + [d] && arrived == old(arrived) + [d]
      ensures size == old(size) + d.length
      ensures departed == old(departed)
      ensures receiveBufferSize == old(receiveBufferSize) && queries == old(queries)
    {
      SumLenAppend(bufList, [d]);
      bufList := bufList + [d];
      arrived := arrived + [d];
      size := size + d.length;
    }

    /** The for loop of addAll: appends the packets of cs one by one and
        stops at the first null element, reporting whether there was none. */
    method AppendEach(cs: seq<Option<Packet>>) returns (complete: bool)
      requires Valid()
      modifies this
      ensures Valid()
      ensures complete <==> FirstNull(cs) == |cs|
      ensures bufList == old(bufList) + Admitted(cs)
      ensures arrived == old(arrived) + Admitted(cs)
      ensures receiveBufferSize == old(receiveBufferSize) && queries == old(queries)
    {
      ghost var b0, a0 := bufList, arrived;
      ghost var all := Admitted(cs);
      for i := 0 to |cs|
        invariant i <= FirstNull(cs)
        invariant bufList == b0 + all[..i] && arrived == a0 + all[..i]
        invariant Valid()
        invariant receiveBufferSize == old(receiveBufferSize) && queries == old(queries)
      {
        if cs[i].None? {
          assert all[..i] == all;
          return false;
        }
        assert all[..i + 1] == all[..i] + [cs[i].value];
        AppendOne(cs[i].value);
      }
      assert all[..|cs|] == all;
      complete := true;
    }

    /** addAll(c): a null collection is refused before anything happens.
        Otherwise the packets of c are appended one by one; a null element
        throws with the earlier ones already appended and no eviction done.
        When c holds no null, eviction then runs on the whole buffer. */
    method AddAll(c: Option<seq<Option<Packet>>>, answer: Option<int>) returns (r: Result<()>)
      requires Valid()
      modifies this
      ensures Valid()
      ensures c.None? ==> r == NullPointer && unchanged(this)
      ensures c.Some? && FirstNull(c.value) < |c.value| ==>
        && r == NullPointer
        && bufList == old(bufList) + Admitted(c.value)
        && receiveBufferSize == old(receiveBufferSize) && queries == old(queries)
      ensures c.Some? && FirstNull(c.value) == |c.value| ==>
        && r == Returned(())
        && receiveBufferSize == (if old(receiveBufferSize) > 0 then old(receiveBufferSize) else ResolveCapacity(answer))
        && bufList == Survivors(old(bufList) + Admitted(c.value), 0, receiveBufferSize)
        && size <= receiveBufferSize
      ensures c.Some? ==> arrived == old(arrived) + Admitted(c.value)
    {
      if c.None? {
        return NullPointer;
      }
      var cs := c.value;
      var complete := AppendEach(cs);
      if !complete {
        return NullPointer;
      }
      var max := GetMaxBufSize(answer);
      ghost var b1 := bufList;
      EvictOldest(max, 0);
      SurvivorsFit(b1, 0, max);
      r := Returned(());
    }

    /** Number of buffered packets. */
    method BufNbElem() returns (n: int)
      requires Valid()
      ensures n == |bufList|
      ensures n == |arrived| - |departed|
    {
      n := |bufList|;
    }

    /** Byte total of the buffered packets. */
    method BufSize() returns (s: int)
      requires Valid()
      ensures s == SumLen(bufList)
      ensures s == SumLen(arrived) - SumLen(departed)
    {
      SumLenAppend(departed, bufList);
      s := size;
    }

    /** poll(): takes the head packet, or gives null on an empty buffer. */
    method Poll() returns (d: Option<Packet>)
      requires Valid()
      modifies this
      ensures Valid()
      ensures old(bufList) == [] ==> d == None && unchanged(this)
      ensures old(bufList) != [] ==>
        && d == Some(old(bufList)[0])
        && bufList == old(bufList)[1..]
        && size == old(size) - old(bufList)[0].length
        && departed == old(departed) + [old(bufList)[0]]
      ensures arrived == old(arrived) && receiveBufferSize == old(receiveBufferSize)
      ensures queries == old(queries)
    {
      if bufList == [] {
        return None;
      }
      var h := bufList[0];
      assert departed + [h] + bufList[1..] == departed + bufList;
      bufList := bufList[1..];
      departed := departed + [h];
      size := size - h.length;
      d := Some(h);
    }

    /** One pass of poll(timeout, unit), with the timeout already in
        nanoseconds: a buffered packet is taken as poll() would; on an empty
        buffer it gives null when no time is left, and otherwise would wait. */
    method PollTimed(nanos: int) returns (r: TimedPoll)
      requires Valid()
      modifies this
      ensures Valid()
      ensures old(bufList) == [] ==> unchanged(this) && r == (if nanos <= 0 then TimedOut else Waits)
      ensures old(bufList) != [] ==>
        && r == Received(old(bufList)[0])
        && bufList == old(bufList)[1..]
        && size == old(size) - old(bufList)[0].length
        && departed == old(departed) + [old(bufList)[0]]
      ensures arrived == old(arrived) && receiveBufferSize == old(receiveBufferSize)
      ensures queries == old(queries)
    {
      if bufList == [] {
        if nanos <= 0 {
          return TimedOut;
        }
        return Waits;
      }
      var h := bufList[0];
      assert departed + [h] + bufList[1..] == departed + bufList;
      bufList := bufList[1..];
      departed := departed + [h];
      size := size - h.length;
      r := Received(h);
    }
  }

  /** A transport reporting SO_RCVBUF = 50 gives a capacity of 100 bytes.
      Three 40-byte packets: the third add evicts the first, leaving the
      last two (80 bytes); later answers are never consulted, and polling
      returns the survivors in arrival order, then null. */
  method EvictionScenario() returns (kept: seq<Packet>, bytes: int, capacity: int,
                                     first: Option<Packet>, second: Option<Packet>, third: Option<Packet>)
    ensures capacity == 100
    ensures kept == [Packet(2, 40), Packet(3, 40)] && bytes == 80
    ensures first == Some(Packet(2, 40)) && second == Some(Packet(3, 40)) && third == None
  {
    var b := new SocketReceiveBuffer();
    var p1, p2, p3 := Packet(1, 40), Packet(2, 40), Packet(3, 40);
    var r := b.Add(Some(p1), Some(50));
    assert SumLen([]) == 0;
    assert b.bufList == [p1];
    r := b.Add(Some(p2), None);
    assert SumLen([p1]) == 40;
    assert b.bufList == [p1, p2];
    r := b.Add(Some(p3), Some(7));
    assert [p1, p2][1..] == [p2];
    assert SumLen([p2]) == 40;
    assert SumLen([p1, p2]) == 80;
    assert DropCount([p1, p2], 40, 100) == 1;
    kept := b.bufList;
    bytes := b.BufSize();
    capacity := b.receiveBufferSize;
    first := b.Poll();
    second := b.Poll();
    third := b.Poll();
  }
}
