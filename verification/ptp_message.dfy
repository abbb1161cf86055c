/**
 * The decoded form of a PTP message: the structs of ptp_decoded.h. Enumeration
 * fields are 32-bit values, because nothing in C confines them to the
 * enumerators; a `char` array holding a C string is that string.
 */
module PtpMessage {
  import opened Bytes

  const MAX_TLV_COUNT: nat := 20
  const DISPLAY_NAME_SIZE: nat := 10
  const USER_DESCRIPTION_SIZE: nat := 128
  const ERROR_DISPLAY_DATA_SIZE: nat := 50
  const HEADER_SIZE: nat := 34
  const TLV_HEADER_SIZE: nat := 4

  datatype Error = MessageSize | Invalid

  datatype Result<+T> = Ok(value: T) | Err(error: Error) {
    predicate IsFailure() { Err? }
    function PropagateFailure<U>(): Result<U>
      requires Err?
    {
      Err(error)
    }
    function Extract(): T
      requires Ok?
    {
      value
    }
  }

  type DisplayName = s: seq<u8> | |s| <= DISPLAY_NAME_SIZE && 0 !in s
  type DisplayData = s: seq<u8> | |s| <= ERROR_DISPLAY_DATA_SIZE && 0 !in s
  type IcvLength = x: int | 0 <= x < 0x8000
  type UserDescription = s: seq<u8> | |s| == USER_DESCRIPTION_SIZE witness seq(USER_DESCRIPTION_SIZE, _ => 0)

  datatype PortId = PortId(clockId: u64, port: u16)

  datatype ClockQuality = ClockQuality(clockClass: u32, accuracy: u32, variance: u16)

  /** The seven message types that share `struct ptp_decoded_event_message`. */
  datatype EventKind =
    | Sync | DelayRequest | PdelayRequest | PdelayResponse
    | FollowUp | DelayResponse | PdelayResponseFollowUp

  datatype Payload =
    | Event(kind: EventKind, timestamp: u64, portId: PortId)
    | Announce(timestamp: u64, utcOffset: u16, priority: u16, quality: ClockQuality,
               grandmasterId: u64, stepsRemoved: u16, timeSource: u32)
    | Signaling(target: PortId)
    | Management(target: PortId, startingHops: u8, hops: u8, action: u32)
    | UnknownPayload(messageType: u32)

  datatype ManagementData =
    | UserDescriptionData(length: i16, data: UserDescription)
    | TimeData(time: u64)
    | UnknownData(id: u32)

  datatype TlvBody =
    | ManagementTlv(data: ManagementData)
    | ErrorStatus(errorId: u32, id: u32, display: DisplayData)
    | RequestUnicast(messageType: u32, logInterval: u8, duration: u32)
    | GrantUnicast(messageType: u32, logInterval: u8, duration: u32, flags: u32)
    | CancelUnicast(messageType: u32, flags: u32)
    | AcknowledgeCancelUnicast(messageType: u32, flags: u32)
    | TimeOffset(key: u8, currentOffset: i32, jumpSeconds: i32, nextJump: u64, name: DisplayName)
    | Pad(length: u16)
      // `icv` is the position of the ICV in the message buffer
    | Authentication(policy: u32, parameterIndicator: u8, keyId: u32, icv: nat, icvLength: IcvLength)
    | UnknownTlv(tlvType: u32)

  datatype Tlv = Tlv(authenticated: bool, body: TlvBody)

  datatype Message = Message(
    sequenceId: u16, authenticated: bool, sdoId: u16, domain: u8, portId: PortId, flags: u16,
    correction: u64, control: u8, logInterval: u8, payload: Payload, tlvs: seq<Tlv>)

  function EventCode(kind: EventKind): u8 {
    match kind
    case Sync => 0x0
    case DelayRequest => 0x1
    case PdelayRequest => 0x2
    case PdelayResponse => 0x3
    case FollowUp => 0x8
    case DelayResponse => 0x9
    case PdelayResponseFollowUp => 0xa
  }

  function PayloadCode(payload: Payload): u32 {
    match payload
    case Event(kind, _, _) => EventCode(kind)
    case Announce(_, _, _, _, _, _, _) => 0xb
    case Signaling(_) => 0xc
    case Management(_, _, _, _) => 0xd
    case UnknownPayload(t) => t
  }

  function TlvCode(body: TlvBody): u32 {
    match body
    case ManagementTlv(_) => 0x1
    case ErrorStatus(_, _, _) => 0x2
    case RequestUnicast(_, _, _) => 0x4
    case GrantUnicast(_, _, _, _) => 0x5
    case CancelUnicast(_, _) => 0x6
    case AcknowledgeCancelUnicast(_, _) => 0x7
    case TimeOffset(_, _, _, _, _) => 0x9
    case Pad(_) => 0x8008
    case Authentication(_, _, _, _, _) => 0x8009
    case UnknownTlv(t) => t
  }

  const ID_USER_DESCRIPTION: u16 := 0x2
  const ID_TIME: u16 := 0x200F
}
