/** The hash table of users together with the records and the group lists it holds. */
module UserTables {
  import opened ChatTypes
  import opened UserState
  import opened GenDlist
  import opened Chains
  import opened HashTable
  import opened ServerTables
  import opened NameLists
  import opened GroupState
  import opened GroupManager

  class UserRecord {
    const username: Name
    const password: Name
    var online: bool
    var socketFd: int
    const joinedGroups: List<Name>

    constructor (username: Name, password: Name, joinedGroups: List<Name>)
      ensures this.username == username && this.password == password && this.joinedGroups == joinedGroups
      ensures !online && socketFd == -1
    {
      this.username := username;
      this.password := password;
      this.joinedGroups := joinedGroups;
      online, socketFd := false, -1;
    }

    ghost function View(): User
      reads this, joinedGroups
    {
      User(password, online, socketFd, joinedGroups.items)
    }
  }

  class UserTable {
    const table: HashMap<Name, UserRecord>

    /** The map the table stands for, the same with records and lists as values, and the
        objects they are made of. `owner` tells whose list a list or node is. */
    ghost var records: map<Name, UserRecord>
    ghost var users: map<Name, User>
    ghost var owner: map<object?, Name>
    ghost var Repr: set<object>

    /** The table is sound and so is the entry under every name. (The trigger keeps what
        an entry means folded up until one is mentioned.) */
    ghost predicate Valid()
      reads this, Repr
      ensures Valid() ==> this in Repr
    {
      this in Repr && forall n {:trigger Entry(n)} :: Entry(n)
    }

    ghost predicate Entry(n: Name)
      requires this in Repr
      reads this, Repr
    {
      && TableStands(records)
      && (forall o :: o in owner ==> o in Repr)
      && (n in users <==> n in records)
      && (n in records ==> RecordValid(n))
    }

    ghost predicate TableStands(m: map<Name, UserRecord>)
      requires this in Repr
      reads this, Repr
    {
      && table in Repr && table.Repr <= Repr && this !in table.Repr
      && table.Valid() && Stands(table, m)
    }

    /** An object of the list of user `n`, and of nothing else. */
    ghost predicate Owned(o: object, n: Name)
      reads this, table
    {
      o in Repr && o !in table.Repr && o in owner && owner[o] == n
    }

    /** The record of a user and its list are objects of their own and hold what the
        value says. */
    ghost predicate RecordValid(n: Name)
      requires n in records && n in users
      reads this, Repr, table
    {
      var u := records[n];
      && u in Repr && u !in table.Repr && u !in owner && u.username == n
      && Owned(u.joinedGroups, n) && (forall x :: x in u.joinedGroups.ring ==> x in Repr && Owned(x, n))
      && u.joinedGroups.Valid()
      && u.View() == users[n]
    }

    ghost predicate Holds(user: UserRecord)
      reads this
    {
      user.username in records && records[user.username] == user && user.username in users
    }

    constructor ()
      ensures Valid() && fresh(Repr) && users == map[]
    {
      var t := CreateTable<UserRecord>();
      table := t;
      records, users, owner := map[], map[], map[];
      Repr := {this} + t.Repr;
    }

    method Find(name: Name) returns (r: MapResult, user: UserRecord?)
      requires Valid()
      ensures r == MAP_SUCCESS <==> name in users
      ensures r == MAP_SUCCESS ==>
                user != null && user in Repr && Holds(user) && user.username == name && user.View() == users[name]
    {
      assert Entry(name);
      var value;
      r, value := FindEntry(table, records, name);
      if r == MAP_SUCCESS {
        user := value.value;
      } else {
        user := null;
      }
    }

    /** An empty list the table knows nothing of yet. */
    ghost predicate NewList(list: List<Name>)
      reads this, list, list.ring
    {
      list.Valid() && list.ring == [list.sentinel] && list !in Repr && list.sentinel !in Repr
    }

    method Insert(user: UserRecord, ok: bool) returns (r: MapResult)
      requires Valid() && user !in Repr && NewList(user.joinedGroups)
      modifies Repr
      ensures Valid() && fresh(Repr - old(Repr) - {user, user.joinedGroups, user.joinedGroups.sentinel})
      ensures r == MAP_SUCCESS <==> user.username !in old(users) && ok
      ensures users == if r == MAP_SUCCESS then old(users)[user.username := user.View()] else old(users)
      ensures records == if r == MAP_SUCCESS then old(records)[user.username := user] else old(records)
    {
      assert Entry(user.username);
      r := InsertEntry(table, records, user.username, user, ok);
      Repr := Repr + table.Repr;
      if r == MAP_SUCCESS {
        var list := user.joinedGroups;
        records := records[user.username := user];
        users := users[user.username := user.View()];
        owner := owner[list := user.username][list.sentinel := user.username];
        Repr := Repr + {user, list, list.sentinel};
      }
      EntriesKept(user);
    }

    /** After an insertion the entries that were there are as they were. */
    twostate lemma EntriesKept(user: UserRecord)
      requires old(Valid()) && this in Repr && TableStands(records)
      requires forall o :: o in table.Repr && o in old(Repr) ==> o in old(table.Repr)
      requires forall o :: o in old(Repr) && o != this && o !in old(table.Repr) ==> unchanged(o)
      requires old(Repr) <= Repr && if user in Repr then Joined(user) else records == old(records) && users == old(users) && owner == old(owner)
      ensures Valid()
    {
      forall n ensures Entry(n) {
        assert old(Entry(n));
        if n in old(records) {
          records[n].joinedGroups.StillValid();
        }
      }
    }

    /** A record with an empty list, both from outside, has been entered. */
    twostate predicate Joined(user: UserRecord)
      reads this, table, user, user.joinedGroups, user.joinedGroups.ring
    {
      var list := user.joinedGroups;
      && list.Valid() && list.ring == [list.sentinel]
      && (forall o :: o in {user, list, list.sentinel} ==> o in Repr && o !in old(Repr) && o !in table.Repr)
      && user.username !in old(records) && records == old(records)[user.username := user]
      && users == old(users)[user.username := user.View()]
      && owner == old(owner)[list := user.username][list.sentinel := user.username]
    }

    /** After a change to one user's record and list alone, the table is whole again. */
    twostate lemma Restored(user: UserRecord)
      requires old(Valid()) && old(Holds(user))
      requires records == old(records) && users == old(users)[user.username := user.View()]
      requires old(Repr) <= Repr && (forall o :: o in old(owner) ==> o in owner && owner[o] == old(owner[o]))
      requires forall o :: o in owner ==> o in Repr && (o in old(Repr) ==> o in old(owner))
      requires forall o :: o in old(Repr) ==> o == this || o == user || old(Owned(o, user.username)) || unchanged(o)
      requires user.joinedGroups.Valid() && (forall x :: x in user.joinedGroups.ring ==> Owned(x, user.username))
      ensures Valid()
    {
      assert old(Entry(user.username));
      assert forall o :: o in table.Repr ==> unchanged(o);
      forall n ensures Entry(n) {
        assert old(Entry(n));
        if n in records && n != user.username {
          var list := records[n].joinedGroups;
          assert unchanged(list) && unchanged(records[n]);
          list.StillValid();
        }
      }
    }

    // ----- the three ways a record changes, each keeping the value in step

    method SetSession(user: UserRecord, online: bool, socketFd: int)
      requires Valid() && Holds(user)
      modifies this`users, user
      ensures Valid() && users == old(users)[user.username := old(users)[user.username].(online := online, fd := socketFd)]
    {
      assert Entry(user.username);
      user.online := online;
      user.socketFd := socketFd;
      users := users[user.username := user.View()];
      Restored(user);
    }

    /** ListPushTail of a copy of the name. */
    method Append(user: UserRecord, name: Name, ok: bool) returns (pushed: bool)
      requires Valid() && Holds(user)
      modifies this`users, this`owner, this`Repr, user.joinedGroups, user.joinedGroups.ring
      ensures Valid() && fresh(Repr - old(Repr)) && pushed == ok
      ensures users == if ok then old(users)[user.username := old(users)[user.username].(joined := old(users)[user.username].joined + [name])]
                       else old(users)
    {
      assert Entry(user.username);
      var node := user.joinedGroups.PushTail(name, ok);
      pushed := node != null;
      Attach(user, node);
      Restored(user);
    }

    /** The ghost half of a push: the new node, if there is one, becomes the user's. */
    ghost method Attach(user: UserRecord, node: Node?<Name>)
      modifies this`users, this`owner, this`Repr
      ensures users == old(users)[user.username := user.View()]
      ensures owner == if node == null then old(owner) else old(owner)[node := user.username]
      ensures Repr == if node == null then old(Repr) else old(Repr) + {node}
    {
      users := users[user.username := user.View()];
      if node != null {
        owner := owner[node := user.username];
        Repr := Repr + {node};
      }
    }

    /** Unlinks the first node holding the name. */
    method Unlink(user: UserRecord, name: Name) returns (found: bool)
      requires Valid() && Holds(user)
      modifies this`users, user.joinedGroups, user.joinedGroups.ring
      ensures Valid() && (found <==> name in old(users)[user.username].joined)
      ensures users == old(users)[user.username := old(users)[user.username].(joined := RemoveFirst(old(users)[user.username].joined, name))]
    {
      assert Entry(user.username);
      found := RemoveName(user.joinedGroups, name);
      users := users[user.username := user.View()];
      Restored(user);
    }

    /** The list part of a logout: every group of the user is left, front to back. */
    method LeaveGroups(user: UserRecord, groups: GroupMng, mem: Mem)
      requires Valid() && Holds(user) && groups.Valid() && Repr !! groups.Repr
      modifies this`users, user.joinedGroups, user.joinedGroups.ring, groups.Repr
      ensures Valid() && groups.Valid() && groups.Repr == old(groups.Repr)
      ensures users == old(users)[user.username := old(users)[user.username].(joined := [])]
      ensures groups.model == LeaveAll(old(groups.model), old(users)[user.username].joined, mem)
    {
      assert Entry(user.username);
      ghost var list := user.joinedGroups;
      LeaveEach(user.joinedGroups, groups, mem);
      assert forall x :: x in list.ring ==> x in old(list.Footprint());
      users := users[user.username := user.View()];
      Restored(user);
    }
  }

  /** One round of a logout: unlink the first name, tell the group manager, and go back to
      the head of the list. */
  method LeaveFirst(list: List<Name>, itr: Node<Name>, groups: GroupMng, mem: Mem) returns (begin: Node<Name>)
    requires list.Valid() && groups.Valid() && list.Footprint() !! groups.Repr
    requires list.items != [] && itr == list.At(0)
    modifies list.Footprint(), groups.Repr
    ensures list.Valid() && groups.Valid() && groups.Repr == old(groups.Repr)
    ensures |list.items| < |old(list.items)| && list.Footprint() <= old(list.Footprint()) && begin == list.At(0)
    ensures LeaveAll(groups.model, list.items, mem) == LeaveAll(old(groups.model), old(list.items), mem)
  {
    var currentName := list.ItrRemove(itr, 0);
    assert list.items == old(list.items)[1..] && list.Footprint() <= old(list.Footprint());
    var _ := groups.LeaveGroup(currentName.value, mem);
    assert list.items == old(list.items)[1..];
    begin := list.ItrBegin();
  }

  /** The loop of a logout: as long as the list has a first name, take it. */
  method LeaveEach(list: List<Name>, groups: GroupMng, mem: Mem)
    requires list.Valid() && groups.Valid() && list.Footprint() !! groups.Repr
    modifies list.Footprint(), groups.Repr
    ensures list.Valid() && groups.Valid() && groups.Repr == old(groups.Repr)
    ensures list.items == [] && list.Footprint() <= old(list.Footprint())
    ensures groups.model == LeaveAll(old(groups.model), old(list.items), mem)
  {
    var itr := list.ItrBegin();
    var end := list.ItrEnd();
    while itr != end
      invariant list.Valid() && groups.Valid() && groups.Repr == old(groups.Repr)
      invariant list.Footprint() <= old(list.Footprint()) && itr == list.At(0)
      invariant LeaveAll(groups.model, list.items, mem) == LeaveAll(old(groups.model), old(list.items), mem)
      decreases |list.items|
    {
      itr := LeaveFirst(list, itr, groups, mem);
    }
  }
}

/** The user manager: users by name, and the socket index into the same records. */
module UserManager {
  import opened ChatTypes
  import opened UserState
  import opened GroupState
  import opened ServerState
  import opened GenDlist
  import opened Chains
  import opened NameLists
  import opened UserTables
  import opened GroupManager

  class UserMng {
    const usersByName: UserTable
    const activeSockets: array<UserRecord?>

    /** The two indices as values, and the objects they are made of. */
    ghost var model: Users
    ghost var Repr: set<object>

    /** Both indices hold the very same record objects. */
    ghost predicate Valid()
      reads this, Repr
      ensures Valid() ==> this in Repr && Linked(model)
    {
      && this in Repr && usersByName in Repr && activeSockets in Repr && usersByName.Repr <= Repr
      && this !in usersByName.Repr && activeSockets !in usersByName.Repr
      && usersByName.Valid() && model.byName == usersByName.users
      && activeSockets.Length == FD_SETSIZE && SocketsValid()
    }

    ghost predicate SocketsValid()
      requires activeSockets.Length == FD_SETSIZE
      reads this, usersByName, activeSockets
    {
      && (forall fd :: 0 <= fd < FD_SETSIZE && activeSockets[fd] != null ==> usersByName.Holds(activeSockets[fd]))
      && (forall fd :: fd in model.bySocket <==> 0 <= fd < FD_SETSIZE && activeSockets[fd] != null)
      && (forall fd :: fd in model.bySocket ==> model.bySocket[fd] == activeSockets[fd].username)
    }

    constructor ()
      ensures Valid() && fresh(Repr) && model == NO_USERS
    {
      var table := new UserTable();
      usersByName := table;
      activeSockets := new UserRecord?[FD_SETSIZE](_ => null);
      model := NO_USERS;
      new;
      Repr := {this, activeSockets} + table.Repr;
    }

    method Register(username: Name, password: Name, mem: Mem) returns (status: Status)
      requires Valid()
      modifies Repr
      ensures Valid() && fresh(Repr - old(Repr))
      ensures (model, status) == RegisterUser(old(model), username, password, mem)
    {
      var found, _ := usersByName.Find(username);
      if found == MAP_SUCCESS {
        return ST_ERR_USER_EXISTS;
      }
      if !mem.entity {
        return ST_ERR_SERVER_FULL;
      }
      if !mem.list {
        return ST_ERR_SERVER_FULL;
      }
      var list := new List<Name>();
      var newUser := new UserRecord(Trunc(username), Trunc(password), list);
      var inserted := Insert(newUser, mem.slot);
      if inserted != MAP_SUCCESS {
        return ST_ERR_SERVER_FULL;
      }
      return ST_OK;
    }

    method Insert(user: UserRecord, ok: bool) returns (r: MapResult)
      requires Valid() && user !in Repr && user.joinedGroups !in Repr && user.joinedGroups.sentinel !in Repr
      requires user.joinedGroups.Valid() && user.joinedGroups.ring == [user.joinedGroups.sentinel]
      modifies this, usersByName.Repr
      ensures Valid() && fresh(Repr - old(Repr) - {user, user.joinedGroups, user.joinedGroups.sentinel})
      ensures r == MAP_SUCCESS <==> user.username !in old(model).byName && ok
      ensures model == if r != MAP_SUCCESS then old(model)
                       else old(model).(byName := old(model).byName[user.username := user.View()])
    {
      r := usersByName.Insert(user, ok);
      Repr := Repr + usersByName.Repr;
      model := model.(byName := usersByName.users);
    }

    method Login(username: Name, password: Name, fd: int) returns (status: Status)
      requires Valid()
      modifies Repr
      ensures Valid() && Repr == old(Repr)
      ensures (model, status) == LoginUser(old(model), username, password, fd)
    {
      if 0 > fd || fd >= FD_SETSIZE {
        return ST_ERR_PROTOCOL;
      }
      if activeSockets[fd] != null {
        return ST_ERR_ALREADY_LOGGED_IN;
      }
      var found, user := usersByName.Find(username);
      if found != MAP_SUCCESS {
        return ST_ERR_USER_NOT_FOUND;
      }
      if user.password != password {
        return ST_ERR_BAD_PASSWORD;
      }
      if user.online {
        return ST_ERR_ALREADY_LOGGED_IN;
      }
      SetSession(user, true, fd);
      SetSocket(fd, user);
      return ST_OK;
    }

    method SetSession(user: UserRecord, online: bool, socketFd: int)
      requires Valid() && usersByName.Holds(user)
      modifies this`model, usersByName`users, user
      ensures Valid()
      ensures model == old(model).(byName := old(model).byName[user.username :=
                         old(model).byName[user.username].(online := online, fd := socketFd)])
    {
      assert usersByName.Entry(user.username);
      usersByName.SetSession(user, online, socketFd);
      model := model.(byName := usersByName.users);
    }

    method SetSocket(fd: int, user: UserRecord?)
      requires Valid() && 0 <= fd < FD_SETSIZE && (user != null ==> usersByName.Holds(user))
      modifies this`model, activeSockets
      ensures Valid()
      ensures model == old(model).(bySocket := if user == null then old(model).bySocket - {fd}
                                               else old(model).bySocket[fd := user.username])
    {
      activeSockets[fd] := user;
      model := model.(bySocket := if user == null then model.bySocket - {fd} else model.bySocket[fd := user.username]);
    }

    method IsLoggedIn(fd: int) returns (r: bool)
      requires Valid()
      ensures r == UserState.IsLoggedIn(model, fd)
    {
      if 0 > fd || fd >= FD_SETSIZE {
        return false;
      }
      return activeSockets[fd] != null;
    }

    method JoinGroup(fd: int, group: Name, mem: Mem) returns (status: Status)
      requires Valid()
      modifies Repr
      ensures Valid() && fresh(Repr - old(Repr))
      ensures (model, status) == JoinUser(old(model), fd, group, mem)
    {
      if 0 > fd || fd >= FD_SETSIZE {
        return ST_ERR_PROTOCOL;
      }
      var user := activeSockets[fd];
      if user == null {
        return ST_ERR_NOT_LOGGED_IN;
      }
      assert usersByName.Entry(user.username);
      var itr, _ := FindName(user.joinedGroups, group);
      var end := user.joinedGroups.ItrEnd();
      if itr != end {
        return ST_ERR_ALREADY_IN_GROUP;
      }
      if !mem.name {
        return ST_ERR_SERVER_FULL;
      }
      var pushed := Append(user, group, mem.node);
      if !pushed {
        return ST_ERR_SERVER_FULL;
      }
      return ST_OK;
    }

    method Append(user: UserRecord, group: Name, ok: bool) returns (pushed: bool)
      requires Valid() && usersByName.Holds(user)
      modifies Repr
      ensures Valid() && fresh(Repr - old(Repr)) && pushed == ok
      ensures model == if ok then SetJoined(old(model), user.username, old(model).byName[user.username].joined + [group]) else old(model)
    {
      assert usersByName.Entry(user.username);
      pushed := usersByName.Append(user, group, ok);
      Repr := Repr + usersByName.Repr;
      model := model.(byName := usersByName.users);
    }

    method LeaveGroup(fd: int, group: Name) returns (status: Status)
      requires Valid()
      modifies Repr
      ensures Valid() && Repr == old(Repr)
      ensures (model, status) == LeaveUser(old(model), fd, group)
    {
      if 0 > fd || fd >= FD_SETSIZE {
        return ST_ERR_PROTOCOL;
      }
      var user := activeSockets[fd];
      if user == null {
        return ST_ERR_NOT_LOGGED_IN;
      }
      var found := Unlink(user, group);
      return if found then ST_OK else ST_ERR_NOT_IN_GROUP;
    }

    method Unlink(user: UserRecord, group: Name) returns (found: bool)
      requires Valid() && usersByName.Holds(user)
      modifies Repr
      ensures Valid() && Repr == old(Repr) && (found <==> group in old(model).byName[user.username].joined)
      ensures model == if found then SetJoined(old(model), user.username, RemoveFirst(old(model).byName[user.username].joined, group))
                       else old(model)
    {
      assert usersByName.Entry(user.username);
      found := usersByName.Unlink(user, group);
      model := model.(byName := usersByName.users);
      if !found {
        RemoveAbsent(old(model).byName[user.username].joined, group);
        assert model.byName == old(model).byName;
      }
    }

    /** Logout and disconnect. The leave callback changes the group manager while the
        list of the departing user is being emptied. */
    method Logout(fd: int, groups: GroupMng, mem: Mem) returns (status: Status)
      requires Valid() && groups.Valid() && Repr !! groups.Repr
      modifies Repr, groups.Repr
      ensures Valid() && groups.Valid() && Repr == old(Repr) && groups.Repr == old(groups.Repr)
      ensures (Server(model, groups.model, 0), status)
           == LogoutUser(Server(old(model), old(groups.model), 0), fd, mem)
    {
      if 0 > fd || fd >= FD_SETSIZE {
        return ST_ERR_PROTOCOL;
      }
      var user := activeSockets[fd];
      if user == null {
        return ST_ERR_NOT_LOGGED_IN;
      }
      EmptyList(user, groups, mem);
      MarkOffline(user, fd);
      return ST_OK;
    }

    method EmptyList(user: UserRecord, groups: GroupMng, mem: Mem)
      requires Valid() && groups.Valid() && Repr !! groups.Repr && usersByName.Holds(user)
      modifies Repr, groups.Repr
      ensures Valid() && groups.Valid() && Repr == old(Repr) && groups.Repr == old(groups.Repr)
      ensures usersByName.Holds(user) && activeSockets[..] == old(activeSockets[..])
      ensures model == SetJoined(old(model), user.username, [])
      ensures groups.model == LeaveAll(old(groups.model), old(model).byName[user.username].joined, mem)
    {
      assert usersByName.Entry(user.username);
      usersByName.LeaveGroups(user, groups, mem);
      model := model.(byName := usersByName.users);
    }

    /** The end of a logout: the record goes offline and the socket index forgets it. */
    method MarkOffline(user: UserRecord, fd: int)
      requires Valid() && 0 <= fd < FD_SETSIZE && activeSockets[fd] == user
      modifies Repr
      ensures Valid() && Repr == old(Repr) && model == GoOffline(old(model), fd)
    {
      assert usersByName.Entry(user.username);
      SetSession(user, false, -1);
      SetSocket(fd, null);
    }
  }
}
