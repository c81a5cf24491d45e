/**
 * Value-level specification of a byte-bounded FIFO of received datagrams:
 * packets, their byte total, the oldest-first eviction rule and the policy
 * that turns the transport's receive-buffer size into a capacity.
 */
module PacketBuffer {

  datatype Option<T> = None | Some(value: T)

  /** A received datagram. Only its length is ever looked at; the id keeps
      packets of equal length apart. */
  datatype Packet = Packet(id: nat, length: nat)

  /** Capacity used when the transport gives no usable answer: 1 MiB. */
  const DefaultReceiveBufferSize: int := 1024 * 1024

  /** Total number of bytes held by the packets of s. */
  function SumLen(s: seq<Packet>): nat
  {
    if s == [] then 0 else s[0].length + SumLen(s[1..])
  }

  lemma {:induction false} SumLenAppend(s: seq<Packet>, t: seq<Packet>)
    ensures SumLen(s + t) == SumLen(s) + SumLen(t)
  {
    if s == [] {
      assert s + t == t;
    } else {
      assert (s + t)[1..] == s[1..] + t;
      SumLenAppend(s[1..], t);
    }
  }

  /** Dropping packets from the head never increases the byte total. */
  lemma {:induction false} SumLenSuffixShrinks(s: seq<Packet>, i: nat, j: nat)
    requires i <= j <= |s|
    ensures SumLen(s[j..]) <= SumLen(s[i..])
    decreases j - i
  {
    if i < j {
      assert s[i..][1..] == s[i + 1..];
      SumLenSuffixShrinks(s, i + 1, j);
    }
  }

  /** The number of head packets the eviction loop removes from s when the
      running total also counts `extra` bytes that are not in s: it keeps
      polling the head while the total exceeds max and s is not empty. */
  function DropCount(s: seq<Packet>, extra: nat, max: int): (k: nat)
    ensures k <= |s|
  {
    if s == [] || SumLen(s) + extra <= max then 0
    else 1 + DropCount(s[1..], extra, max)
  }

  /** The packets of s that survive the eviction loop. */
  function Survivors(s: seq<Packet>, extra: nat, max: int): (r: seq<Packet>)
  {
    s[DropCount(s, extra, max)..]
  }

  /** Eviction drops the SHORTEST prefix after which the rest fits: a suffix
      s[j..] together with `extra` fits exactly when j is at or past the
      number of dropped packets. */
  lemma {:induction false} DropCountIsShortestFittingPrefix(s: seq<Packet>, extra: nat, max: int)
    ensures forall j | 0 <= j < |s| ::
      DropCount(s, extra, max) <= j <==> SumLen(s[j..]) + extra <= max
  {
    if s == [] {
    } else if SumLen(s) + extra <= max {
      forall j | 0 <= j < |s| ensures SumLen(s[j..]) + extra <= max {
        assert s[0..] == s;
        SumLenSuffixShrinks(s, 0, j);
      }
    } else {
      DropCountIsShortestFittingPrefix(s[1..], extra, max);
      assert s[0..] == s;
      forall j | 1 <= j < |s| ensures s[1..][j - 1..] == s[j..] {
      }
    }
  }

  /** When the extra bytes themselves fit, the survivors fit with them. */
  lemma {:induction false} SurvivorsFit(s: seq<Packet>, extra: nat, max: int)
    requires extra <= max
    ensures SumLen(Survivors(s, extra, max)) + extra <= max
  {
    DropCountIsShortestFittingPrefix(s, extra, max);
    var k := DropCount(s, extra, max);
    if k == |s| {
      assert s[k..] == [];
    }
  }

  /** When the extra bytes alone exceed max, every packet of s is evicted. */
  lemma {:induction false} SurvivorsEmptyWhenTooBig(s: seq<Packet>, extra: nat, max: int)
    requires extra > max
    ensures Survivors(s, extra, max) == []
  {
    DropCountIsShortestFittingPrefix(s, extra, max);
  }

  /** Index of the first null element of c, or |c| if there is none. */
  function FirstNull(c: seq<Option<Packet>>): (k: nat)
    ensures k <= |c|
    ensures forall i | 0 <= i < k :: c[i].Some?
    ensures k < |c| ==> c[k].None?
  {
    if c == [] || c[0].None? then 0 else 1 + FirstNull(c[1..])
  }

  /** The packets of c in order, up to (not including) its first null. */
  function Admitted(c: seq<Option<Packet>>): (r: seq<Packet>)
    ensures |r| == FirstNull(c)
    ensures forall i | 0 <= i < |r| :: c[i] == Some(r[i])
  {
    if c == [] || c[0].None? then [] else [c[0].value] + Admitted(c[1..])
  }

  /** The capacity derived from the transport's answer: the 1 MiB default
      when the query failed or gave a non-positive value, twice the value
      when it is below the default, and the value itself otherwise. */
  function ResolveCapacity(answer: Option<int>): (cap: int)
    ensures cap > 0
    ensures (answer.None? || answer.value <= 0) ==> cap == DefaultReceiveBufferSize
    ensures answer.Some? && answer.value > 0 ==>
      answer.value <= cap <= 2 * answer.value && (cap == answer.value || cap == 2 * answer.value)
    ensures answer.Some? && answer.value > 0 ==>
      (cap == answer.value <==> answer.value >= DefaultReceiveBufferSize)
  {
    match answer
    case None => DefaultReceiveBufferSize
    case Some(v) =>
      if v <= 0 then DefaultReceiveBufferSize
      else if v < DefaultReceiveBufferSize then v * 2
      else v
  }
}
