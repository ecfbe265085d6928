/** The real-time wire vocabulary: event kinds, decoded payloads, the
    `{event, data, timestamp}` envelope and the bus channel names. */
module Events {

  /** The seven event names the system defines, plus any other name as sent. */
  datatype EventKind =
    | Ping | Pong | Message | MessageRead | FriendOnline | FriendOffline | GroupMessage
    | Other(name: string)

  function Name(k: EventKind): string {
    match k
    case Ping => "ping"
    case Pong => "pong"
    case Message => "message"
    case MessageRead => "message_read"
    case FriendOnline => "friend_online"
    case FriendOffline => "friend_offline"
    case GroupMessage => "group_message"
    case Other(n) => n
  }

  predicate IsKnownName(s: string) {
    s in {"ping", "pong", "message", "message_read", "friend_online", "friend_offline", "group_message"}
  }

  /** The kind an event name on the wire denotes. */
  function KindOf(s: string): (k: EventKind)
    ensures k.Other? <==> !IsKnownName(s)
  {
    if s == "ping" then Ping
    else if s == "pong" then Pong
    else if s == "message" then Message
    else if s == "message_read" then MessageRead
    else if s == "friend_online" then FriendOnline
    else if s == "friend_offline" then FriendOffline
    else if s == "group_message" then GroupMessage
    else Other(s)
  }

  /** Reading a name back gives the same name. */
  lemma NameOfKindOf(s: string)
    ensures Name(KindOf(s)) == s
  {
  }

  /** Every kind except an `Other` that spells a known name survives a round trip. */
  lemma KindOfName(k: EventKind)
    requires k.Other? ==> !IsKnownName(k.name)
    ensures KindOf(Name(k)) == k
  {
  }

  /** A JSON scalar inside a decoded object. Numbers are modelled as integers. */
  datatype Scalar = SNum(n: int) | SBool(b: bool) | SStr(s: string)

  /** The `data` member of an envelope after decoding: null, a flat object,
      or any other JSON shape (array, string, number). */
  datatype Value = Null | Object(fields: map<string, Scalar>) | NonObject

  /** `types.WSMessage` without the optional `msg_id`, which the core never sets. */
  datatype Envelope = Envelope(event: EventKind, data: Value, timestamp: int)

  /** A frame after `json.Unmarshal`: either malformed or a decoded envelope. */
  datatype Inbound = Malformed | Decoded(env: Envelope)

  const MessageChannel := "im:message"
  const GroupMessageChannel := "im:group:message"
  const OnlineStatusChannel := "im:online:status"

  datatype Publication = Publication(channel: string, envelope: Envelope)

  /** `types.OnlineStatusData` as it appears on the wire. */
  function OnlineStatusData(userID: int, online: bool): Value {
    Object(map["user_id" := SNum(userID), "online" := SBool(online)])
  }
}
