/** The client's mirror of its session, as values. */
module ClientModel {
  import opened ChatTypes
  import opened Protocol
  import opened UserState

  /** `groups` are the names of the chat windows the client believes it has open. */
  datatype Client = Client(loggedIn: bool, username: Name, groups: seq<Name>)

  const FRESH_CLIENT := Client(false, [], [])

  /** client_groups_mng_on_join; `windows` says whether the chat windows could be opened. */
  function OnJoin(groups: seq<Name>, group: Name, windows: bool): seq<Name> {
    if group in groups || !windows then groups else groups + [Trunc(group)]
  }

  function OnLeave(groups: seq<Name>, group: Name): seq<Name> {
    RemoveFirst(groups, group)
  }

  /** The status a client call returns for a reply frame. */
  function StatusFrom(req: Request, frame: seq<byte>): Status {
    if req.Create? || req.Join? then
      match DecodeGroupRep(frame)
      case None => ST_ERR_PROTOCOL
      case Some((status, _)) => status
    else
      match DecodeStatus(frame)
      case None => ST_ERR_PROTOCOL
      case Some(status) => status
  }

  /** The address a successful create or join hands to the caller. */
  function AddressFrom(req: Request, frame: seq<byte>): Option<Mcast> {
    if req.Create? || req.Join? then
      match DecodeGroupRep(frame)
      case None => None
      case Some((status, addr)) => if status == ST_OK then Some(addr) else None
    else None
  }

  /** How a client call updates the mirror after its reply arrived. */
  function Update(c: Client, req: Request, status: Status, windows: bool): Client {
    if status != ST_OK then c
    else
      match req
      case Register(_, _) => c
      case Login(user, _) => c.(loggedIn := true, username := Trunc(user))
      case Logout => FRESH_CLIENT
      case Create(g) => c.(groups := OnJoin(c.groups, g, windows))
      case Join(g) => c.(groups := OnJoin(c.groups, g, windows))
      case Leave(g) => c.(groups := OnLeave(c.groups, g))
  }
}
