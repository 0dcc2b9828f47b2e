/** The telemetry receiver: validates packets, counts accepted and refused
    ones, and keeps a capacity-bounded FIFO buffer of accepted packets. */
module Receivers {
  import opened Wrappers
  import opened Packets
  import Extrema

  const DefaultCapacity: int := 1000

  /** `buffer_size` is the capacity; `packet_buffer` the buffered packets. */
  datatype Receiver = Receiver(capacity: int, buffer: seq<Packet>, packetCount: nat, errorCount: nat)

  /** The mapping `get_stats` returns. */
  datatype Stats = Stats(packetCount: nat, errorCount: nat, bufferSize: nat, bufferCapacity: int)

  /** The state every receiver built with a positive capacity stays in. */
  predicate WellFormed(r: Receiver) {
    && r.capacity >= 1
    && |r.buffer| <= r.capacity
    && |r.buffer| <= r.packetCount
  }

  /** The last `n` elements of `s` (all of `s` when it is shorter). */
  function LastN<T>(s: seq<T>, n: nat): (r: seq<T>)
    ensures |r| <= n && |r| <= |s|
    ensures |s| <= n ==> r == s
    ensures |s| >= n ==> |r| == n
    ensures r == s[|s| - |r|..]
  {
    if |s| <= n then s else s[|s| - n..]
  }

  /** Keeping the last `n` before or after appending one more element is the same. */
  lemma LastNAppend<T>(s: seq<T>, x: T, n: nat)
    requires n >= 1
    ensures LastN(LastN(s, n) + [x], n) == LastN(s + [x], n)
  {
    if |s| > n {
      assert LastN(s, n) + [x] == (s + [x])[|s| - n..];
      assert (s + [x])[|s| - n..][1..] == (s + [x])[|s| + 1 - n..];
    }
  }

  function NewReceiver(capacity: int := DefaultCapacity): (r: Receiver)
    ensures r.capacity == capacity && r.buffer == []
    ensures r.packetCount == 0 && r.errorCount == 0
    ensures capacity >= 1 ==> WellFormed(r)
  {
    Receiver(capacity, [], 0, 0)
  }

  /** `receive_packet`. A refused packet only bumps the error counter. An
      accepted packet evicts the oldest buffered one when the buffer is full;
      with a capacity of zero or less and an empty buffer that eviction pops
      from an empty list, which raises. */
  function ReceivePacket(r: Receiver, p: Packet): (out: Result<Step<Receiver>>)
    ensures !ValidatePacket(p) ==>
      out == Success(Step(r.(errorCount := r.errorCount + 1), false))
    ensures out.Failure? <==> ValidatePacket(p) && |r.buffer| == 0 && r.capacity <= 0
    ensures out.Success? && out.value.ok ==>
      var n := out.value.next;
      && ValidatePacket(p)
      && n.packetCount == r.packetCount + 1
      && n.errorCount == r.errorCount
      && n.capacity == r.capacity
      && |n.buffer| > 0 && n.buffer[|n.buffer| - 1] == p
    ensures WellFormed(r) ==> out.Success? && WellFormed(out.value.next)
    ensures WellFormed(r) && ValidatePacket(p) ==>
      out.value.ok && out.value.next.buffer == LastN(r.buffer + [p], r.capacity)
  {
    if !ValidatePacket(p) then
      Success(Step(r.(errorCount := r.errorCount + 1), false))
    else if |r.buffer| >= r.capacity && |r.buffer| == 0 then
      Failure("pop from empty list")
    else
      var kept := if |r.buffer| >= r.capacity then r.buffer[1..] else r.buffer;
      assert WellFormed(r) && |r.buffer| >= r.capacity ==> kept + [p] == (r.buffer + [p])[1..];
      Success(Step(r.(buffer := kept + [p], packetCount := r.packetCount + 1), true))
  }

  /** The packets of `ps` that pass `validate_packet`, in arrival order. */
  function Accepted(ps: seq<Packet>): (a: seq<Packet>)
    ensures |a| <= |ps|
    ensures forall p :: p in a ==> p in ps && ValidatePacket(p)
  {
    if |ps| == 0 then []
    else Accepted(ps[..|ps| - 1]) + (if ValidatePacket(ps[|ps| - 1]) then [ps[|ps| - 1]] else [])
  }

  /** Feeding the packets of `ps` to `receive_packet` one after the other. */
  function ReceiveAll(r: Receiver, ps: seq<Packet>): (r': Receiver)
    requires WellFormed(r)
    ensures WellFormed(r')
  {
    if |ps| == 0 then r
    else ReceivePacket(ReceiveAll(r, ps[..|ps| - 1]), ps[|ps| - 1]).value.next
  }

  /** FIFO eviction: after any run of packets the buffer holds the last
      `capacity` of everything ever buffered, in arrival order; every accepted
      packet is counted once and every refused one is counted as an error. */
  lemma {:induction false} FifoEviction(r: Receiver, ps: seq<Packet>)
    requires WellFormed(r)
    ensures ReceiveAll(r, ps).buffer == LastN(r.buffer + Accepted(ps), r.capacity)
    ensures ReceiveAll(r, ps).packetCount == r.packetCount + |Accepted(ps)|
    ensures ReceiveAll(r, ps).errorCount == r.errorCount + |ps| - |Accepted(ps)|
    ensures ReceiveAll(r, ps).capacity == r.capacity
  {
    RunCounters(r, ps);
    if |ps| > 0 {
      var init, p := ps[..|ps| - 1], ps[|ps| - 1];
      FifoEviction(r, init);
      ReceiveStep(ReceiveAll(r, init), p);
      if ValidatePacket(p) {
        LastNAppend(r.buffer + Accepted(init), p, r.capacity);
        assert Accepted(ps) == Accepted(init) + [p];
        AppendAssoc(r.buffer, Accepted(init), [p]);
      }
    }
  }

  /** The counters and the capacity after a run of packets. */
  lemma {:induction false} RunCounters(r: Receiver, ps: seq<Packet>)
    requires WellFormed(r)
    ensures ReceiveAll(r, ps).packetCount == r.packetCount + |Accepted(ps)|
    ensures ReceiveAll(r, ps).errorCount == r.errorCount + |ps| - |Accepted(ps)|
    ensures ReceiveAll(r, ps).capacity == r.capacity
  {
    if |ps| > 0 {
      RunCounters(r, ps[..|ps| - 1]);
      ReceiveStep(ReceiveAll(r, ps[..|ps| - 1]), ps[|ps| - 1]);
    }
  }

  /** One call of `receive_packet` on a well-formed receiver, field by field. */
  lemma ReceiveStep(r: Receiver, p: Packet)
    requires WellFormed(r)
    ensures var n := ReceivePacket(r, p).value.next;
      && n.capacity == r.capacity
      && (ValidatePacket(p) ==>
            n.buffer == LastN(r.buffer + [p], r.capacity)
            && n.packetCount == r.packetCount + 1 && n.errorCount == r.errorCount)
      && (!ValidatePacket(p) ==>
            n.buffer == r.buffer && n.packetCount == r.packetCount && n.errorCount == r.errorCount + 1)
  {
  }

  /** At least `capacity` valid packets into a fresh receiver leave exactly
      the newest `capacity` of them buffered, oldest first. */
  lemma {:induction false} OverflowKeepsNewest(capacity: int, ps: seq<Packet>)
    requires capacity >= 1 && |ps| >= capacity
    requires forall i :: 0 <= i < |ps| ==> ValidatePacket(ps[i])
    ensures ReceiveAll(NewReceiver(capacity), ps).buffer == ps[|ps| - capacity..]
  {
    AllValidAccepted(ps);
    RunFromEmpty(NewReceiver(capacity), ps);
  }

  /** From an empty buffer, the buffer ends as the last `capacity` accepted packets. */
  lemma RunFromEmpty(r: Receiver, ps: seq<Packet>)
    requires WellFormed(r) && r.buffer == []
    ensures ReceiveAll(r, ps).buffer == LastN(Accepted(ps), r.capacity)
  {
    FifoEviction(r, ps);
    assert r.buffer + Accepted(ps) == Accepted(ps);
  }

  /** Twelve valid packets into a fresh receiver of capacity ten leave the
      buffer starting at the third packet. */
  lemma TwelveIntoTen(ps: seq<Packet>)
    requires |ps| == 12
    requires forall i :: 0 <= i < |ps| ==> ValidatePacket(ps[i])
    ensures ReceiveAll(NewReceiver(10), ps).buffer == ps[2..]
  {
    OverflowKeepsNewest(10, ps);
  }

  lemma {:induction false} AllValidAccepted(ps: seq<Packet>)
    requires forall i :: 0 <= i < |ps| ==> ValidatePacket(ps[i])
    ensures Accepted(ps) == ps
  {
    if |ps| > 0 {
      var init, last := ps[..|ps| - 1], ps[|ps| - 1];
      assert init + [last] == ps;
      assert Accepted(init) == init by { AllValidAccepted(init); }
      assert ValidatePacket(last);
      assert Accepted(init + [last]) == Accepted(init) + [last] by { AcceptedSnoc(init, last); }
    }
  }

  /** One more packet at the end adds itself to the accepted ones exactly when it is valid. */
  lemma AcceptedSnoc(init: seq<Packet>, p: Packet)
    ensures Accepted(init + [p]) == Accepted(init) + (if ValidatePacket(p) then [p] else [])
  {
    assert (init + [p])[..|init|] == init;
  }

  /** The buffered packets whose milestone is `m`, in buffer order. */
  function FilterMilestone(s: seq<Packet>, m: string): (r: seq<Packet>)
    ensures |r| <= |s|
    ensures forall p :: p in r <==> p in s && p.milestone == m
  {
    if |s| == 0 then []
    else FilterMilestone(s[..|s| - 1], m) + (if s[|s| - 1].milestone == m then [s[|s| - 1]] else [])
  }

  /** Filtering keeps relative order: it distributes over concatenation. */
  lemma {:induction false} FilterMilestoneAppend(a: seq<Packet>, b: seq<Packet>, m: string)
    ensures FilterMilestone(a + b, m) == FilterMilestone(a, m) + FilterMilestone(b, m)
    decreases |b|
  {
    if |b| > 0 {
      var b', x := b[..|b| - 1], b[|b| - 1];
      assert (a + b)[..|a + b| - 1] == a + b';
      FilterMilestoneAppend(a, b', m);
    } else {
      assert a + b == a;
    }
  }

  /** `get_packets`: with a non-empty milestone, the packets for it; with no
      milestone or an empty one, a copy of the whole buffer. */
  function GetPackets(r: Receiver, m: Option<string>): (ps: seq<Packet>)
    ensures forall p :: p in ps ==> p in r.buffer
    ensures m.Some? && |m.value| > 0 ==> forall p :: p in ps <==> p in r.buffer && p.milestone == m.value
    ensures m.Some? && |m.value| > 0 ==> ps == FilterMilestone(r.buffer, m.value)
    ensures m.None? || |m.value| == 0 ==> ps == r.buffer
  {
    if m.Some? && |m.value| > 0 then FilterMilestone(r.buffer, m.value) else r.buffer
  }

  /** `get_latest_packet`: nothing when no packet matches; otherwise the first
      of the matching packets that carries the latest timestamp. */
  method GetLatestPacket(r: Receiver, m: Option<string>) returns (latest: Option<Packet>)
    ensures latest.None? <==> |GetPackets(r, m)| == 0
    ensures latest.Some? ==>
      var ps := GetPackets(r, m);
      exists k :: 0 <= k < |ps| && ps[k] == latest.value
        && (forall j :: 0 <= j < |ps| ==> ps[j].timestamp <= ps[k].timestamp)
        && (forall j :: 0 <= j < k ==> ps[j].timestamp < ps[k].timestamp)
  {
    var ps := GetPackets(r, m);
    if |ps| == 0 {
      return None;
    }
    var keys := seq(|ps|, i requires 0 <= i < |ps| => ps[i].timestamp);
    var k := Extrema.FirstArgMax(keys);
    latest := Some(ps[k]);
    assert forall j :: 0 <= j < |ps| ==> keys[j] == ps[j].timestamp;
  }

  /** `clear_buffer`: empties the buffer, keeps counters and capacity. */
  function ClearBuffer(r: Receiver): (r': Receiver)
    ensures r'.buffer == []
    ensures r'.packetCount == r.packetCount && r'.errorCount == r.errorCount
    ensures r'.capacity == r.capacity
    ensures WellFormed(r) ==> WellFormed(r')
  {
    r.(buffer := [])
  }

  /** `get_stats`: the counters, the buffer length and the capacity. */
  function GetStats(r: Receiver): (s: Stats)
    ensures s.packetCount == r.packetCount && s.errorCount == r.errorCount
    ensures s.bufferSize == |r.buffer| && s.bufferCapacity == r.capacity
    ensures WellFormed(r) ==> s.bufferSize <= s.bufferCapacity && s.bufferSize <= s.packetCount
  {
    Stats(r.packetCount, r.errorCount, |r.buffer|, r.capacity)
  }
}
