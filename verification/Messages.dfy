/** BGP messages and the notification codes (`sartd/src/bgp/src/packet/message.rs`). */
module Messages {
  import opened Base
  import opened Net
  import opened Family
  import opened Wire
  import Capabilities
  import Attributes
  import Prefixes

  datatype Message =
    | Open(version: u8, asNum: u32, holdTime: u16, identifier: Octets4, capabilities: seq<Capabilities.Cap>)
    | Update(withdrawn: seq<Prefixes.Prefix>, attributes: seq<Attributes.Attribute>, nlri: seq<Prefixes.Prefix>)
    | Keepalive
    | Notification(code: NotificationCode, subcode: Option<SubCode>, data: Bytes)
    | RouteRefresh(family: AddressFamily)

  const VERSION: u8 := 4
  const HEADER_LENGTH: u16 := 19
  const OPTION_TYPE_CAPABILITIES: u8 := 2

  function Marker(): Bytes {
    [255, 255, 255, 255, 255, 255, 255, 255, 255, 255, 255, 255, 255, 255, 255, 255]
  }

  function MessageType(m: Message): u8 {
    match m
    case Open(_, _, _, _, _) => 1
    case Update(_, _, _) => 2
    case Notification(_, _, _) => 3
    case Keepalive => 4
    case RouteRefresh(_) => 5
  }

  datatype NotificationCode =
    | MessageHeader | OpenMessage | UpdateMessage | HoldTimerExpired | FiniteStateMachine | Cease

  datatype SubCode =
    | ConnectionNotSynchronized | BadLength | BadType
    | UnsupportedVersion | BadPeer | BadBGPIdentifier | UnsupportedParameter | UnacceptableHoldTime
    | MalformedAttributes | UnrecognizedWellknown | MissingWellknown | AttributeFlags | AttributeLength
    | InvalidOrigin | InvalidNextHop | OptionalAttribute | InvalidNetwork | MalformedASPath

  function CodeValue(c: NotificationCode): u8 {
    match c
    case MessageHeader => 1
    case OpenMessage => 2
    case UpdateMessage => 3
    case HoldTimerExpired => 4
    case FiniteStateMachine => 5
    case Cease => 6
  }

  function CodeOf(v: u8): Result<NotificationCode, Error> {
    if v == 1 then Success(MessageHeader)
    else if v == 2 then Success(OpenMessage)
    else if v == 3 then Success(UpdateMessage)
    else if v == 4 then Success(HoldTimerExpired)
    else if v == 5 then Success(FiniteStateMachine)
    else if v == 6 then Success(Cease)
    else Failure(UnrecognizedNotificationCode)
  }

  function SubCodeValue(c: SubCode): u8 {
    match c
    case ConnectionNotSynchronized => 1
    case BadLength => 2
    case BadType => 3
    case UnsupportedVersion => 1
    case BadPeer => 2
    case BadBGPIdentifier => 3
    case UnsupportedParameter => 4
    case UnacceptableHoldTime => 6
    case MalformedAttributes => 1
    case UnrecognizedWellknown => 2
    case MissingWellknown => 3
    case AttributeFlags => 4
    case AttributeLength => 5
    case InvalidOrigin => 6
    case InvalidNextHop => 8
    case OptionalAttribute => 9
    case InvalidNetwork => 10
    case MalformedASPath => 11
  }

  /** `NotificationSubCode::try_from_with_code`: the same number means different things under different codes. */
  function SubCodeOf(v: u8, code: NotificationCode): Result<Option<SubCode>, Error> {
    match code
    case MessageHeader =>
      if v == 1 then Success(Some(ConnectionNotSynchronized))
      else if v == 2 then Success(Some(BadLength))
      else if v == 3 then Success(Some(BadType))
      else Failure(UnrecognizedNotificationSubCode)
    case OpenMessage =>
      if v == 1 then Success(Some(UnsupportedVersion))
      else if v == 2 then Success(Some(BadPeer))
      else if v == 3 then Success(Some(BadBGPIdentifier))
      else if v == 4 then Success(Some(UnsupportedParameter))
      else if v == 6 then Success(Some(UnacceptableHoldTime))
      else Failure(UnrecognizedNotificationSubCode)
    case UpdateMessage =>
      if v == 1 then Success(Some(MalformedAttributes))
      else if v == 2 then Success(Some(UnrecognizedWellknown))
      else if v == 3 then Success(Some(MissingWellknown))
      else if v == 4 then Success(Some(AttributeFlags))
      else if v == 5 then Success(Some(AttributeLength))
      else if v == 6 then Success(Some(InvalidOrigin))
      else if v == 8 then Success(Some(InvalidNextHop))
      else if v == 9 then Success(Some(OptionalAttribute))
      else if v == 10 then Success(Some(InvalidNetwork))
      else if v == 11 then Success(Some(MalformedASPath))
      else Failure(UnrecognizedNotificationSubCode)
    case _ => Success(None)
  }

  /** The code a subcode is defined under in section 4.5 of RFC 4271. */
  function Owner(c: SubCode): NotificationCode {
    match c
    case ConnectionNotSynchronized | BadLength | BadType => MessageHeader
    case UnsupportedVersion | BadPeer | BadBGPIdentifier | UnsupportedParameter | UnacceptableHoldTime => OpenMessage
    case _ => UpdateMessage
  }

  /** The subcode byte: zero when there is none. */
  function SubCodeByte(c: Option<SubCode>): u8 {
    match c
    case None => 0
    case Some(s) => SubCodeValue(s)
  }

  /** The subcode is one of the notification code's own, or there is none to have. */
  predicate SubCodeOk(code: NotificationCode, subcode: Option<SubCode>) {
    match subcode
    case Some(s) => Owner(s) == code
    case None => code !in {MessageHeader, OpenMessage, UpdateMessage}
  }

  lemma SubCodeRoundTripIff(code: NotificationCode, subcode: Option<SubCode>)
    ensures SubCodeOf(SubCodeByte(subcode), code) == Success(subcode) <==> SubCodeOk(code, subcode)
  {
  }
}
