/** The hash table of groups together with the records it holds. */
module GroupTables {
  import opened ChatTypes
  import opened GroupState
  import opened Chains
  import opened HashTable
  import opened ServerTables

  class GroupRecord {
    const name: Name
    const addr: Mcast
    var memberCount: nat

    constructor (name: Name, addr: Mcast)
      ensures this.name == name && this.addr == addr && memberCount == 1
    {
      this.name := name;
      this.addr := addr;
      memberCount := 1;
    }

    ghost function View(): Group
      reads this
    {
      Group(addr, memberCount)
    }
  }

  class GroupTable {
    const table: HashMap<Name, GroupRecord>

    /** The map the table stands for, the same with records as values, and the objects
        they are made of. */
    ghost var records: map<Name, GroupRecord>
    ghost var groups: map<Name, Group>
    ghost var Repr: set<object>

    /** The table is sound and so is the entry under every name. (The trigger keeps what
        an entry means folded up until one is mentioned.) */
    ghost predicate Valid()
      reads this, Repr
      ensures Valid() ==> this in Repr
    {
      this in Repr && forall n {:trigger Entry(n)} :: Entry(n)
    }

    /** The table stands for `records`; the record under `n`, if there is one, is an object
        of its own and holds what the value says. */
    ghost predicate Entry(n: Name)
      requires this in Repr
      reads this, Repr
    {
      && table in Repr && table.Repr <= Repr && this !in table.Repr
      && table.Valid() && Stands(table, records)
      && (n in groups <==> n in records)
      && (n in records ==>
           records[n] in Repr && records[n] !in table.Repr && records[n].name == n && records[n].View() == groups[n])
    }

    constructor ()
      ensures Valid() && fresh(Repr) && groups == map[]
    {
      var t := CreateTable<GroupRecord>();
      table := t;
      records, groups := map[], map[];
      Repr := {this} + t.Repr;
    }

    ghost predicate Holds(group: GroupRecord)
      reads this
    {
      group.name in records && records[group.name] == group
    }

    method Find(name: Name) returns (r: MapResult, group: GroupRecord?)
      requires Valid()
      ensures r == MAP_SUCCESS <==> name in groups
      ensures r == MAP_SUCCESS ==> 
                group != null && group in Repr && Holds(group) && group.name == name && group.View() == groups[name]
    {
      assert Entry(name);
      var value;
      r, value := FindEntry(table, records, name);
      if r == MAP_SUCCESS {
        group := value.value;
      } else {
        group := null;
      }
    }

    method SetCount(group: GroupRecord, count: nat)
      requires Valid() && Holds(group)
      modifies this`groups, group
      ensures Valid() && Holds(group) && group.memberCount == count
      ensures groups == old(groups)[group.name := Group(group.addr, count)]
    {
      assert Entry(group.name);
      group.memberCount := count;
      groups := groups[group.name := Group(group.addr, count)];
      forall n ensures Entry(n) {
        assert old(Entry(n));
      }
    }

    method Insert(group: GroupRecord, ok: bool) returns (r: MapResult)
      requires Valid() && group !in Repr
      modifies Repr
      ensures Valid() && fresh(Repr - old(Repr) - {group})
      ensures r == MAP_SUCCESS <==> group.name !in old(groups) && ok
      ensures groups == if r == MAP_SUCCESS then old(groups)[group.name := group.View()] else old(groups)
    {
      assert Entry(group.name);
      r := InsertEntry(table, records, group.name, group, ok);
      Repr := Repr + table.Repr;
      if r == MAP_SUCCESS {
        records := records[group.name := group];
        groups := groups[group.name := group.View()];
        Repr := Repr + {group};
      }
      forall n ensures Entry(n) {
        assert old(Entry(n));
      }
    }

    method Remove(name: Name)
      requires Valid()
      modifies Repr
      ensures Valid() && Repr == old(Repr) && groups == old(groups) - {name}
    {
      assert Entry(name);
      var _ := RemoveEntry(table, records, name);
      records := records - {name};
      groups := groups - {name};
      forall n ensures Entry(n) {
        assert old(Entry(n));
      }
    }
  }
}

/** The group manager: live groups by name, their counters, and the address pool. */
module GroupManager {
  import opened ChatTypes
  import opened GroupState
  import opened Chains
  import opened FreeMcQueue
  import opened GroupTables

  class GroupMng {
    const groupsByName: GroupTable
    const ipPool: FreeMcQueue

    /** The groups and the pool as values, and the objects they are made of. */
    ghost var model: Groups
    ghost var Repr: set<object>

    ghost predicate Valid()
      reads this, Repr
      ensures Valid() ==> this in Repr
    {
      && this in Repr && groupsByName in Repr && ipPool.pool in Repr && ipPool.pool.items in Repr
      && groupsByName.Repr <= Repr
      && this !in groupsByName.Repr && ipPool.pool !in groupsByName.Repr && ipPool.pool.items !in groupsByName.Repr
      && groupsByName.Valid() && ipPool.Valid()
      && model == Groups(groupsByName.groups, ipPool.Free())
    }

    constructor (pool: FreeMcQueue)
      requires pool.Valid()
      ensures Valid() && model == Groups(map[], pool.Free())
      ensures fresh(Repr - {pool.pool, pool.pool.items})
    {
      var table := new GroupTable();
      groupsByName := table;
      ipPool := pool;
      model := Groups(map[], pool.Free());
      Repr := {this, pool.pool, pool.pool.items} + table.Repr;
    }

    method TakeAddress() returns (r: int, pair: Option<Mcast>)
      requires Valid()
      modifies this`model, ipPool.pool
      ensures Valid()
      ensures r == if old(model).pool == [] then 0 else 1
      ensures r == 0 ==> model == old(model)
      ensures r == 1 ==> pair == Some(old(model).pool[0]) && model == old(model).(pool := old(model).pool[1..])
    {
      r, pair := ipPool.Take();
      model := model.(pool := ipPool.Free());
    }

    method GiveBack(pair: Mcast, stored: bool)
      requires Valid()
      modifies this`model, ipPool.pool, ipPool.pool.items
      ensures Valid() && model == old(model).(pool := ReturnAddr(old(model).pool, pair, stored))
    {
      var _ := ipPool.Return(pair, stored);
      model := model.(pool := ipPool.Free());
    }

    method CreateGroup(name: Name, mem: Mem) returns (status: Status, group: GroupRecord?)
      requires Valid()
      modifies Repr
      ensures Valid() && fresh(Repr - old(Repr))
      ensures model == GroupState.CreateGroup(old(model), name, mem).0
      ensures status == StatusOf(GroupState.CreateGroup(old(model), name, mem).1)
      ensures status == ST_OK <==> GroupState.CreateGroup(old(model), name, mem).1.Granted?
      ensures status == ST_OK ==> group != null && GroupState.CreateGroup(old(model), name, mem).1 == Granted(group.addr)
    {
      var found, _ := groupsByName.Find(name);
      if found == MAP_SUCCESS {
        return ST_ERR_GROUP_EXISTS, null;
      }
      var took, pair := TakeAddress();
      if took == 0 {
        return ST_ERR_SERVER_FULL, null;
      }
      if !mem.entity {
        GiveBack(pair.value, name !in mem.lost);
        return ST_ERR_PROTOCOL, null;
      }
      var newGroup := new GroupRecord(Trunc(name), pair.value);
      var inserted := Insert(newGroup, mem.slot);
      if inserted != MAP_SUCCESS {
        GiveBack(pair.value, name !in mem.lost);
        return ST_ERR_PROTOCOL, null;
      }
      return ST_OK, newGroup;
    }

    method Insert(group: GroupRecord, ok: bool) returns (r: MapResult)
      requires Valid() && group !in Repr
      modifies this, groupsByName.Repr
      ensures Valid() && fresh(Repr - old(Repr) - {group})
      ensures r == MAP_SUCCESS <==> group.name !in old(model).byName && ok
      ensures model == if r != MAP_SUCCESS then old(model)
                       else old(model).(byName := old(model).byName[group.name := group.View()])
    {
      r := groupsByName.Insert(group, ok);
      Repr := Repr + groupsByName.Repr;
      model := model.(byName := groupsByName.groups);
    }

    method JoinGroup(name: Name) returns (status: Status, group: GroupRecord?)
      requires Valid()
      modifies Repr
      ensures Valid() && Repr == old(Repr)
      ensures model == GroupState.JoinGroup(old(model), name).0
      ensures status == StatusOf(GroupState.JoinGroup(old(model), name).1)
      ensures status == ST_OK <==> GroupState.JoinGroup(old(model), name).1.Granted?
      ensures status == ST_OK ==> group != null && GroupState.JoinGroup(old(model), name).1 == Granted(group.addr)
    {
      var found;
      found, group := groupsByName.Find(name);
      if found != MAP_SUCCESS {
        return ST_ERR_GROUP_NOT_FOUND, null;
      }
      SetCount(group, group.memberCount + 1);
      return ST_OK, group;
    }

    method LeaveGroup(name: Name, mem: Mem) returns (status: Status)
      requires Valid()
      modifies Repr
      ensures Valid() && Repr == old(Repr)
      ensures (model, status) == GroupState.LeaveGroup(old(model), name, mem)
    {
      var found, group := groupsByName.Find(name);
      if found != MAP_SUCCESS {
        return ST_ERR_GROUP_NOT_FOUND;
      }
      if group.memberCount > 0 {
        SetCount(group, group.memberCount - 1);
      }
      if group.memberCount == 0 {
        Close(group, name !in mem.lost);
        assert model.byName == old(model).byName - {name};
      }
      return ST_OK;
    }

    method SetCount(group: GroupRecord, count: nat)
      requires Valid() && groupsByName.Holds(group)
      modifies this`model, groupsByName`groups, group
      ensures Valid() && groupsByName.Holds(group) && group.memberCount == count
      ensures model == old(model).(byName := old(model).byName[group.name := Group(group.addr, count)])
    {
      assert groupsByName.Entry(group.name);
      groupsByName.SetCount(group, count);
      model := model.(byName := groupsByName.groups);
    }

    /** The end of a group: its address goes back and its record leaves the table. */
    method Close(group: GroupRecord, stored: bool)
      requires Valid()
      modifies this`model, ipPool.pool, ipPool.pool.items, groupsByName.Repr
      ensures Valid()
      ensures model == Groups(old(model).byName - {group.name}, ReturnAddr(old(model).pool, group.addr, stored))
    {
      GiveBack(group.addr, stored);
      groupsByName.Remove(group.name);
      model := model.(byName := groupsByName.groups);
    }
  }
}
