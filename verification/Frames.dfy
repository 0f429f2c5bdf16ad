/** The frame records of frame.hpp. */
module Frames {
  import opened Common

  datatype AckRange = AckRange(gap: u64, length: u64)

  datatype EcnCounts = EcnCounts(ect0: u64, ect1: u64, ce: u64)

  datatype AckFrame = AckFrame(
    largest: u64, delay: u64, firstRange: u64, ranges: seq<AckRange>, ecn: Option<EcnCounts>)

  datatype StreamFrame = StreamFrame(
    streamId: nat, offset: nat, offsetPresent: bool, lengthPresent: bool, fin: bool, data: seq<byte>)
  {
    /** The offset a receiver uses: a frame without the OFF bit starts at zero. */
    function Start(): nat {
      if offsetPresent then offset else 0
    }

    function End(): nat {
      Start() + |data|
    }
  }

  /** The eight opaque bytes of a path challenge. */
  type PathToken = s: seq<byte> | |s| == 8 witness [0, 0, 0, 0, 0, 0, 0, 0]

  datatype Direction = Bidirectional | Unidirectional

  datatype Frame =
    | Padding(count: nat)
    | Ping
    | ConnectionClose(errorCode: nat, frameType: nat, reason: seq<byte>)
    | ApplicationClose(errorCode: nat, reason: seq<byte>)
    | ResetStream(streamId: nat, errorCode: nat, finalSize: nat)
    | StopSending(streamId: nat, errorCode: nat)
    | Ack(ack: AckFrame)
    | Crypto(offset: nat, data: seq<byte>)
    | NewToken(token: seq<byte>)
    | Stream(stream: StreamFrame)
    | MaxData(maximum: nat)
    | MaxStreamData(streamId: nat, maximum: nat)
    | DataBlocked(maximum: nat)
    | StreamDataBlocked(streamId: nat, maximum: nat)
    | MaxStreams(direction: Direction, maximum: nat)
    | StreamsBlocked(direction: Direction, maximum: nat)
    | NewConnectionId(sequence: nat, retirePriorTo: nat, id: seq<byte>, resetToken: seq<byte>)
    | RetireConnectionId(sequence: nat)
    | HandshakeDone
    | PathChallenge(pathData: PathToken)
    | PathResponse(pathData: PathToken)
}
