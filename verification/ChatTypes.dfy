/** Constants of the control protocol and the values every layer shares. */
module ChatTypes {

  type byte = x: int | 0 <= x < 256
  type uint16 = x: int | 0 <= x < 0x10000
  const SIZE_MODULUS := 0x1_0000_0000_0000_0000 // size_t is 64 bits wide

  datatype Option<+T> = None | Some(value: T)

  // shared/protocol.h, sizes
  const CHAT_MAX_PAYLOAD := 255
  const CHAT_MAX_MSG_SIZE := 2 + CHAT_MAX_PAYLOAD
  const CHAT_MAX_NAME_LEN := 32 // user names, passwords and group names share the bound
  const CHAT_MAX_IP_STR_LEN := 16
  const CHAT_MCAST_BASE_PORT := 6000
  const FD_SETSIZE := 1024

  // shared/protocol.h, opcodes; every reply opcode is its request opcode plus one
  const OP_REG_REQ: byte := 0x01
  const OP_LOGIN_REQ: byte := 0x03
  const OP_LOGOUT_REQ: byte := 0x05
  const OP_CREATE_GROUP_REQ: byte := 0x07
  const OP_JOIN_GROUP_REQ: byte := 0x09
  const OP_LEAVE_GROUP_REQ: byte := 0x0B
  const OP_REG_REP: byte := 0x02
  const OP_LOGIN_REP: byte := 0x04
  const OP_LOGOUT_REP: byte := 0x06
  const OP_CREATE_GROUP_REP: byte := 0x08
  const OP_JOIN_GROUP_REP: byte := 0x0A
  const OP_LEAVE_GROUP_REP: byte := 0x0C

  // shared/protocol.h, status codes. A decoder casts any byte to a status,
  // so a status is a byte and these are the values the server sends.
  type Status = byte
  const ST_OK: Status := 0x00
  const ST_ERR_USER_EXISTS: Status := 0x01
  const ST_ERR_USER_NOT_FOUND: Status := 0x02
  const ST_ERR_BAD_PASSWORD: Status := 0x03
  const ST_ERR_ALREADY_LOGGED_IN: Status := 0x04
  const ST_ERR_NOT_LOGGED_IN: Status := 0x05
  const ST_ERR_GROUP_EXISTS: Status := 0x06
  const ST_ERR_GROUP_NOT_FOUND: Status := 0x07
  const ST_ERR_ALREADY_IN_GROUP: Status := 0x08
  const ST_ERR_NOT_IN_GROUP: Status := 0x09
  const ST_ERR_SERVER_FULL: Status := 0x0A
  const ST_ERR_PROTOCOL: Status := 0xFF

  /** The content of a C string: the bytes before the terminating NUL. */
  type Name = seq<byte>

  predicate NulFree(s: seq<byte>) {
    forall i :: 0 <= i < |s| ==> s[i] != 0
  }

  ghost predicate NoDup<T>(s: seq<T>) {
    forall i, j :: 0 <= i < j < |s| ==> s[i] != s[j]
  }

  /** What `strncpy(dst, s, 32); dst[32] = 0` leaves in `dst`. */
  function Trunc(s: Name): (t: Name)
    ensures t <= s && |t| == if |s| <= 32 then |s| else 32
  {
    if |s| <= CHAT_MAX_NAME_LEN then s else s[..CHAT_MAX_NAME_LEN]
  }

  /** A multicast address as handed out to a group. */
  datatype Mcast = Mcast(ip: seq<byte>, port: uint16)

  /** The outcome of every allocation one request may perform.
      `lost` holds the group names whose address cannot be put back into the
      pool because the pool's own allocation fails. */
  datatype Mem = Mem(entity: bool,  // the User or Group record
                     list: bool,    // a new user's list of groups
                     slot: bool,    // whatever HashMap_Insert allocates
                     name: bool,    // the copy of a group name
                     node: bool,    // the list node holding that copy
                     lost: set<Name>)

  predicate AllocOk(m: Mem) {
    m.entity && m.list && m.slot && m.name && m.node && m.lost == {}
  }

  /** A request as its handler sees it after decoding. */
  datatype Request =
    | Register(user: Name, pass: Name)
    | Login(user: Name, pass: Name)
    | Logout
    | Create(group: Name)
    | Join(group: Name)
    | Leave(group: Name)

  /** The bound the decoders enforce on every name and password. */
  predicate Fits(req: Request) {
    match req
    case Register(user, pass) => |user| <= CHAT_MAX_NAME_LEN && |pass| <= CHAT_MAX_NAME_LEN
    case Login(user, pass) => |user| <= CHAT_MAX_NAME_LEN && |pass| <= CHAT_MAX_NAME_LEN
    case Logout => true
    case Create(group) => |group| <= CHAT_MAX_NAME_LEN
    case Join(group) => |group| <= CHAT_MAX_NAME_LEN
    case Leave(group) => |group| <= CHAT_MAX_NAME_LEN
  }

  /** Every field is the content of a C string. */
  predicate NulFreeRequest(req: Request) {
    match req
    case Register(user, pass) => NulFree(user) && NulFree(pass)
    case Login(user, pass) => NulFree(user) && NulFree(pass)
    case Logout => true
    case Create(group) => NulFree(group)
    case Join(group) => NulFree(group)
    case Leave(group) => NulFree(group)
  }

  /** The answer to one request: a status, or the address of the group entered. */
  datatype Reply = Plain(status: Status) | Granted(addr: Mcast)

  function OpcodeOf(req: Request): byte {
    match req
    case Register(_, _) => OP_REG_REQ
    case Login(_, _) => OP_LOGIN_REQ
    case Logout => OP_LOGOUT_REQ
    case Create(_) => OP_CREATE_GROUP_REQ
    case Join(_) => OP_JOIN_GROUP_REQ
    case Leave(_) => OP_LEAVE_GROUP_REQ
  }

  function StatusOf(r: Reply): Status {
    if r.Plain? then r.status else ST_OK
  }
}
