/** A ground telemetry packet and its two validity checks: the milestone check
    run when the packet is built, and the structural check run on receipt. */
module Packets {
  import opened Wrappers
  import opened Values
  import opened Milestones

  /** Timestamps are integer instants; a Python `datetime` is always truthy,
      so no instant makes a packet invalid. */
  datatype Packet = Packet(
    packetId: string,
    timestamp: int,
    source: string,
    milestone: string,
    data: map<string, Value>,
    sequenceNumber: Option<int>)

  /** Building a packet: the milestone validator raises for any name outside
      the six known milestones; otherwise the fields are stored as given. */
  function MakePacket(packetId: string, timestamp: int, source: string, milestone: string,
                      data: map<string, Value>, sequenceNumber: Option<int>): (r: Result<Packet>)
    ensures r.Success? <==> IsMilestone(milestone)
    ensures r.Success? ==> r.value == Packet(packetId, timestamp, source, milestone, data, sequenceNumber)
    ensures r.Failure? ==> r.error == "Invalid milestone: " + milestone
  {
    if milestone in AllMilestones then
      Success(Packet(packetId, timestamp, source, milestone, data, sequenceNumber))
    else
      Failure("Invalid milestone: " + milestone)
  }

  /** `TelemetryPacket(...)` called without `data` and `sequence_number`:
      the payload defaults to an empty mapping. */
  function MakePacketWithDefaults(packetId: string, timestamp: int, source: string,
                                  milestone: string): Result<Packet>
  {
    MakePacket(packetId, timestamp, source, milestone, map[], None)
  }

  /** `is_valid`: identifier, source and milestone are non-empty. */
  predicate IsValid(p: Packet) {
    |p.packetId| > 0 && |p.source| > 0 && |p.milestone| > 0
  }

  /** `validate_packet`: structurally valid and a non-empty payload. */
  predicate ValidatePacket(p: Packet) {
    IsValid(p) && |p.data| > 0
  }

  /** A packet that was built successfully already has a non-empty milestone,
      so `is_valid` then depends only on the identifier and the source. */
  lemma BuiltPacketValidity(packetId: string, timestamp: int, source: string, milestone: string,
                            data: map<string, Value>, sequenceNumber: Option<int>)
    requires MakePacket(packetId, timestamp, source, milestone, data, sequenceNumber).Success?
    ensures var p := MakePacket(packetId, timestamp, source, milestone, data, sequenceNumber).value;
      && (IsValid(p) <==> |packetId| > 0 && |source| > 0)
      && (ValidatePacket(p) <==> |packetId| > 0 && |source| > 0 && data != map[])
  {
  }

  /** A packet built with the default payload is always refused by
      `validate_packet`, whatever its other fields. */
  lemma DefaultPayloadRejected(packetId: string, timestamp: int, source: string, milestone: string)
    requires MakePacketWithDefaults(packetId, timestamp, source, milestone).Success?
    ensures !ValidatePacket(MakePacketWithDefaults(packetId, timestamp, source, milestone).value)
    ensures MakePacketWithDefaults(packetId, timestamp, source, milestone).value.sequenceNumber.None?
  {
  }

  /** `validate_packet` refuses every packet `is_valid` refuses, an empty
      identifier in particular, and every packet with an empty payload. */
  lemma ValidationRefusals(p: Packet)
    ensures |p.packetId| == 0 ==> !ValidatePacket(p)
    ensures !IsValid(p) ==> !ValidatePacket(p)
    ensures p.data == map[] ==> !ValidatePacket(p)
    ensures ValidatePacket(p) <==> IsValid(p) && p.data != map[]
  {
  }
}
