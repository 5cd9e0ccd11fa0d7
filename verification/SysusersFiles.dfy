/**
 Loading the account files and writing them back with the new users and groups merged in.
 */
module SysusersFiles {
  import opened UidRanges
  import opened Sysusers
  import Strv
  import opened Wrappers

  datatype PasswdRow = PasswdRow(name: string, passwd: string, uid: Id, gid: Id, gecos: string, dir: string,
                                 shell: string)

  datatype ShadowRow = ShadowRow(name: string, passwd: string, lstchg: int, rest: seq<int>)

  datatype GroupRow = GroupRow(name: string, passwd: string, gid: Id, mem: seq<string>)

  datatype GshadowRow = GshadowRow(name: string, passwd: string, adm: seq<string>, mem: seq<string>)

  // ---- loading ---------------------------------------------------------------------

  /** What hashmap_put leaves of a list of pairs: the first value of each key. */
  function FirstWins<K, V>(keys: seq<K>, values: seq<V>): (m: map<K, V>)
    requires |keys| == |values|
  {
    if keys == [] then map[]
    else
      var n := |keys| - 1;
      var m := FirstWins(keys[..n], values[..n]);
      if keys[n] in m then m else m[keys[n] := values[n]]
  }

  lemma {:induction false} FirstWinsKeys<K, V>(keys: seq<K>, values: seq<V>)
    requires |keys| == |values|
    ensures forall k :: k in FirstWins(keys, values) <==> k in keys
  {
    if keys != [] {
      var n := |keys| - 1;
      FirstWinsKeys(keys[..n], values[..n]);
      assert keys == keys[..n] + [keys[n]];
    }
  }

  /** The value of a key comes from its first row. */
  lemma {:induction false} FirstWinsValue<K, V>(keys: seq<K>, values: seq<V>, i: nat)
    requires |keys| == |values| && i < |keys| && keys[i] !in keys[..i]
    ensures keys[i] in FirstWins(keys, values) && FirstWins(keys, values)[keys[i]] == values[i]
    decreases |keys|
  {
    var n := |keys| - 1;
    FirstWinsKeys(keys[..n], values[..n]);
    if i < n {
      assert keys[..n][..i] == keys[..i];
      FirstWinsValue(keys[..n], values[..n], i);
    }
  }

  /** One column of a file. */
  function Column<R, T>(rows: seq<R>, get: R -> T): (c: seq<T>)
    ensures |c| == |rows| && forall k :: 0 <= k < |rows| ==> c[k] == get(rows[k])
  {
    seq(|rows|, k requires 0 <= k < |rows| => get(rows[k]))
  }

  /** load_user_database and load_group_database: both indices of a file in one pass. */
  method Load(names: seq<string>, ids: seq<Id>) returns (byName: map<string, Id>, byId: map<Id, string>)
    requires |names| == |ids|
    ensures byName == FirstWins(names, ids) && byId == FirstWins(ids, names)
  {
    byName, byId := map[], map[];
    for k := 0 to |names|
      invariant byName == FirstWins(names[..k], ids[..k]) && byId == FirstWins(ids[..k], names[..k])
    {
      assert names[..k + 1][..k] == names[..k] && ids[..k + 1][..k] == ids[..k];
      if names[k] !in byName {
        byName := byName[names[k] := ids[k]];
      }
      if ids[k] !in byId {
        byId := byId[ids[k] := names[k]];
      }
    }
    assert names[..|names|] == names && ids[..|ids|] == ids;
  }

  // ---- passwd ----------------------------------------------------------------------

  datatype Merge<R> = Merged(rows: seq<R>) | Eexist

  /** An iteration over a table visits every key once. */
  ghost predicate Visits(order: seq<Id>, table: map<Id, Item>) {
    && (forall k, l :: 0 <= k < l < |order| ==> order[k] != order[l])
    && (forall u :: u in order <==> u in table)
  }

  method Visit(table: map<Id, Item>) returns (order: seq<Id>)
    ensures Visits(order, table)
  {
    order := [];
    var rest := table.Keys;
    while rest != {}
      invariant forall k, l :: 0 <= k < l < |order| ==> order[k] != order[l]
      invariant forall u :: u in order <==> u in table.Keys - rest
      invariant rest <= table.Keys
    {
      var u :| u in rest;
      assert u !in order;
      order, rest := order + [u], rest - {u};
    }
  }

  /** The row of a new user. Only root gets a shell. */
  function NewPasswd(i: Item): PasswdRow
    reads i
  {
    PasswdRow(i.name, "x", i.uid, i.gid, i.description, if i.home.Some? then i.home.value else "/",
              if i.uid == 0 then "/bin/sh" else "/sbin/nologin")
  }

  /** A row of the file stands in the way of a new user. */
  ghost predicate PasswdClash(a: Allocator, row: PasswdRow)
    reads a, a.users.Values
  {
    (row.name in a.users && a.users[row.name].todoUser) || row.uid in a.todoUids
  }

  /** The old rows, then one row per new user. */
  ghost predicate PasswdMerged(a: Allocator, original: seq<PasswdRow>, order: seq<Id>, rows: seq<PasswdRow>)
    reads a, a.todoUids.Values
  {
    && Visits(order, a.todoUids) && |rows| == |original| + |order|
    && (forall k :: 0 <= k < |original| ==> rows[k] == original[k])
    && (forall k :: 0 <= k < |order| ==> rows[|original| + k] == NewPasswd(a.todoUids[order[k]]))
  }

  method WritePasswd(a: Allocator, original: seq<PasswdRow>) returns (r: Merge<PasswdRow>, order: seq<Id>)
    ensures r.Eexist? <==> exists k :: 0 <= k < |original| && PasswdClash(a, original[k])
    ensures r.Merged? ==> PasswdMerged(a, original, order, r.rows)
  {
    hide Allocator.Inv, PasswdMerged;
    for k := 0 to |original|
      invariant forall j :: 0 <= j < k ==> !PasswdClash(a, original[j])
    {
      var pw := original[k];
      if pw.name in a.users && a.users[pw.name].todoUser {
        return Eexist, [];
      }
      if pw.uid in a.todoUids {
        return Eexist, [];
      }
    }
    order := Visit(a.todoUids);
    var rows := AppendUsers(a, original, order);
    r := Merged(rows);
  }

  method AppendUsers(a: Allocator, original: seq<PasswdRow>, order: seq<Id>) returns (rows: seq<PasswdRow>)
    requires Visits(order, a.todoUids)
    ensures PasswdMerged(a, original, order, rows)
  {
    rows := original;
    for k := 0 to |order|
      invariant |rows| == |original| + k && forall j :: 0 <= j < |original| ==> rows[j] == original[j]
      invariant forall j :: 0 <= j < k ==> rows[|original| + j] == NewPasswd(a.todoUids[order[j]])
    {
      rows := rows + [NewPasswd(a.todoUids[order[k]])];
    }
  }

  /** Merging adds no duplicate name and no duplicate uid. */
  lemma PasswdStaysUnique(a: Allocator, original: seq<PasswdRow>, order: seq<Id>)
    requires a.Inv() && Visits(order, a.todoUids)
    requires forall k :: 0 <= k < |original| ==> !PasswdClash(a, original[k])
    ensures forall k :: 0 <= k < |order| ==> NewPasswd(a.todoUids[order[k]]).uid == order[k]
    ensures forall k, l :: 0 <= k < |order| && 0 <= l < |original| ==>
              order[k] != original[l].uid && a.todoUids[order[k]].name != original[l].name
    ensures forall k, l :: 0 <= k < l < |order| ==>
              order[k] != order[l] && a.todoUids[order[k]].name != a.todoUids[order[l]].name
  {
    hide Valid, Member, Allocator.Inv;
    a.InvSafe();
    forall u | u in a.todoUids
      ensures a.todoUids[u].name in a.users && a.users[a.todoUids[u].name].todoUser
    {
      UserOnList(a, u);
    }
  }

  lemma UserOnList(a: Allocator, u: Id)
    requires a.Inv() && u in a.todoUids
    ensures var i := a.todoUids[u]; i.name in a.users && a.users[i.name] == i && i.todoUser && i.uid == u
    ensures a.NewUserName(a.todoUids[u].name) && u !in a.db.userOf
  {
    hide Valid, Member;
    assert a.UserEntry(a.todoGids, u, a.todoUids[u]);
  }

  lemma FlagOnList(a: Allocator, n: string)
    requires a.Inv() && n in a.users && a.users[n].todoUser
    ensures a.users[n].name == n && a.users[n].uid in a.todoUids && a.todoUids[a.users[n].uid] == a.users[n]
  {
    hide Valid, Member;
    assert a.users[n] in a.users.Values;
    assert a.Listed(a.todoUids, a.todoGids, a.users[n]);
  }

  ghost predicate LoadedFrom(byName: map<string, Id>, byId: map<Id, string>, names: seq<string>, ids: seq<Id>)
    requires |names| == |ids|
  {
    byName == FirstWins(names, ids) && byId == FirstWins(ids, names)
  }

  /** The safety check cannot fail while the file is the one that was loaded. */
  lemma LoadedPasswdNeverClashes(a: Allocator, original: seq<PasswdRow>, k: nat)
    requires a.Inv() && k < |original|
    requires LoadedFrom(a.db.uidOf, a.db.userOf, Column(original, (r: PasswdRow) => r.name),
                        Column(original, (r: PasswdRow) => r.uid))
    ensures !PasswdClash(a, original[k])
  {
    hide Valid, Member, Allocator.Inv;
    var names, ids := Column(original, (r: PasswdRow) => r.name), Column(original, (r: PasswdRow) => r.uid);
    FirstWinsKeys(names, ids);
    FirstWinsKeys(ids, names);
    var row := original[k];
    assert names[k] in a.db.uidOf && ids[k] in a.db.userOf;
    if row.uid in a.todoUids {
      UserOnList(a, row.uid);
    } else if row.name in a.users && a.users[row.name].todoUser {
      FlagOnList(a, row.name);
      UserOnList(a, a.users[row.name].uid);
    }
  }

  // ---- shadow ----------------------------------------------------------------------

  /** Removing an item from the list of users to be created. */
  method DropUser(a: Allocator, i: Item)
    requires a.Inv() && i in a.users.Values && i.todoUser
    modifies a`todoUids, i`todoUser
    ensures a.Inv() && !i.todoUser && a.todoUids == old(a.todoUids) - {i.uid}
  {
    hide Valid, Member, Allocator.UserEntry, Allocator.GroupEntry;
    forall u | u in a.todoUids
      ensures a.todoUids[u].uid == u
    {
      UserOnList(a, u);
    }
    a.todoUids := a.todoUids - {i.uid};
    i.todoUser := false;
  }

  ghost predicate Todo(table: map<Id, Item>, name: string) {
    exists u :: u in table && table[u].name == name
  }

  /** The users still to be created once the names in seen were met in the file. */
  ghost predicate Remaining(before: map<Id, Item>, now: map<Id, Item>, seen: seq<string>) {
    && (forall u <- now :: u in before && now[u] == before[u] && before[u].name !in seen)
    && (forall u <- before :: before[u].name !in seen ==> u in now)
  }

  /** The flag of a user item says whether it is on the list. */
  lemma TodoIsFlag(a: Allocator, name: string)
    requires a.Inv()
    ensures name in a.users && a.users[name].todoUser <==> Todo(a.todoUids, name)
  {
    hide Valid, Member, Allocator.Inv;
    if name in a.users && a.users[name].todoUser {
      FlagOnList(a, name);
    }
    if Todo(a.todoUids, name) {
      var u :| u in a.todoUids && a.todoUids[u].name == name;
      UserOnList(a, u);
    }
  }

  /** Row k of the new file: the first row of a new user gets today's date. */
  ghost function ShadowAfter(table: map<Id, Item>, original: seq<ShadowRow>, k: nat, today: int): (r: ShadowRow)
    requires k < |original|
    ensures r.(lstchg := 0) == original[k].(lstchg := 0)
  {
    var row := original[k];
    if Todo(table, row.name) && forall j :: 0 <= j < k ==> original[j].name != row.name
    then row.(lstchg := today) else row
  }

  lemma RemainingNext(before: map<Id, Item>, now: map<Id, Item>, seen: seq<string>, name: string, next: map<Id, Item>)
    requires Remaining(before, now, seen)
    requires forall u :: u in next <==> u in now && now[u].name != name
    requires forall u <- next :: next[u] == now[u]
    ensures Remaining(before, next, seen + [name])
    ensures Todo(now, name) <==> Todo(before, name) && name !in seen
  {
  }

  /** One row of the file. */
  method UpdateShadowRow(a: Allocator, row: ShadowRow, today: int) returns (r: ShadowRow)
    requires a.Inv()
    modifies a`todoUids, a.users.Values`todoUser
    ensures a.Inv() && r == if Todo(old(a.todoUids), row.name) then row.(lstchg := today) else row
    ensures forall u :: u in a.todoUids <==> u in old(a.todoUids) && old(a.todoUids)[u].name != row.name
    ensures forall u <- a.todoUids :: a.todoUids[u] == old(a.todoUids)[u]
  {
    hide Valid, Member, Allocator.Inv;
    TodoIsFlag(a, row.name);
    r := row;
    if row.name in a.users && a.users[row.name].todoUser {
      var i := a.users[row.name];
      r := row.(lstchg := today);
      FlagOnList(a, row.name);
      OneName(a, i.uid);
      DropUser(a, i);
    }
  }

  lemma OneName(a: Allocator, u: Id)
    requires a.Inv() && u in a.todoUids
    ensures forall v <- a.todoUids :: v != u ==> a.todoUids[v].name != a.todoUids[u].name
  {
    hide Valid, Member, Allocator.Inv;
    a.InvSafe();
  }

  method UpdateShadow(a: Allocator, original: seq<ShadowRow>, today: int) returns (rows: seq<ShadowRow>)
    requires a.Inv()
    modifies a`todoUids, a.users.Values`todoUser
    ensures a.Inv() && |rows| == |original|
    ensures Remaining(old(a.todoUids), a.todoUids, Column(original, (r: ShadowRow) => r.name))
    ensures forall k :: 0 <= k < |original| ==> rows[k] == ShadowAfter(old(a.todoUids), original, k, today)
  {
    hide Valid, Member, Allocator.Inv, Remaining, Todo;
    ghost var before := a.todoUids;
    ghost var names := Column(original, (r: ShadowRow) => r.name);
    rows := [];
    NoneSeen(before);
    assert names[..0] == [];
    while |rows| < |original|
      invariant a.Inv() && |rows| <= |original| && Remaining(before, a.todoUids, names[..|rows|])
      invariant forall k :: 0 <= k < |rows| ==> rows[k] == ShadowAfter(before, original, k, today)
    {
      var k := |rows|;
      ghost var now := a.todoUids;
      var row := UpdateShadowRow(a, original[k], today);
      RemainingNext(before, now, names[..k], original[k].name, a.todoUids);
      assert names[..k] + [original[k].name] == names[..k + 1];
      SeenBefore(names, original, k);
      rows := rows + [row];
    }
    assert names[..|rows|] == names;
  }

  lemma NoneSeen(table: map<Id, Item>)
    ensures Remaining(table, table, [])
  {
  }

  lemma SeenBefore(names: seq<string>, original: seq<ShadowRow>, k: nat)
    requires k < |original| && names == Column(original, (r: ShadowRow) => r.name)
    ensures original[k].name in names[..k] <==> !forall j :: 0 <= j < k ==> original[j].name != original[k].name
  {
    if j :| 0 <= j < k && original[j].name == original[k].name {
      assert names[..k][j] == original[k].name;
    }
  }

  function NewShadow(name: string, today: int): ShadowRow {
    ShadowRow(name, "!!", today, [-1, -1, -1, -1, -1, -1])
  }

  /** The old rows in their places, then one row for every new user that had none. */
  ghost predicate ShadowMerged(before: map<Id, Item>, original: seq<ShadowRow>, today: int, order: seq<Id>,
                               rows: seq<ShadowRow>)
  {
    && |rows| == |original| + |order|
    && (forall k :: 0 <= k < |original| ==> rows[k] == ShadowAfter(before, original, k, today))
    && (forall k :: 0 <= k < |order| ==>
          order[k] in before && rows[|original| + k] == NewShadow(before[order[k]].name, today))
    && (forall k, l :: 0 <= k < l < |order| ==> order[k] != order[l])
    && (forall u <- before :: u in order <==> before[u].name !in Column(original, (r: ShadowRow) => r.name))
  }

  /** The list of users to be created shrinks while the file is read; the new file is still
      determined by the list as it was. */
  method WriteShadow(a: Allocator, original: seq<ShadowRow>, today: int) returns (rows: seq<ShadowRow>, order: seq<Id>)
    requires a.Inv()
    modifies a`todoUids, a.users.Values`todoUser
    ensures a.Inv() && ShadowMerged(old(a.todoUids), original, today, order, rows)
  {
    hide Valid, Member, Allocator.Inv, ShadowAfter;
    ghost var before := a.todoUids;
    rows := UpdateShadow(a, original, today);
    order := Visit(a.todoUids);
    for k := 0 to |order|
      invariant |rows| == |original| + k
      invariant forall j :: 0 <= j < |original| ==> rows[j] == ShadowAfter(before, original, j, today)
      invariant forall j :: 0 <= j < k ==> rows[|original| + j] == NewShadow(before[order[j]].name, today)
    {
      rows := rows + [NewShadow(a.todoUids[order[k]].name, today)];
    }
  }

  /** Every new user has a row, and no row was appended for a name that already had one. */
  lemma ShadowCoversUsers(before: map<Id, Item>, original: seq<ShadowRow>, today: int, order: seq<Id>,
                          rows: seq<ShadowRow>, u: Id)
    requires ShadowMerged(before, original, today, order, rows) && u in before
    ensures exists k :: 0 <= k < |rows| && rows[k].name == before[u].name
    ensures forall k, l :: |original| <= k < |rows| && 0 <= l < |original| ==> rows[k].name != rows[l].name
  {
    var names := Column(original, (r: ShadowRow) => r.name);
    if u in order {
      var k :| 0 <= k < |order| && order[k] == u;
      assert rows[|original| + k].name == before[u].name;
    } else {
      var l :| 0 <= l < |names| && names[l] == before[u].name;
      assert rows[l].name == names[l];
    }
    forall k, l | |original| <= k < |rows| && 0 <= l < |original|
      ensures rows[k].name != rows[l].name
    {
      var j := k - |original|;
      assert order[j] in order && rows[|original| + j].name == before[order[j]].name;
      assert names[l] == original[l].name && names[l] in names;
    }
  }

  // ---- group -----------------------------------------------------------------------

  /** The check looks for the name among the group items only. */
  ghost predicate GroupClash(a: Allocator, row: GroupRow)
    reads a, a.groups.Values
  {
    (row.name in a.groups && a.groups[row.name].todoGroup) || row.gid in a.todoGids
  }

  /** A row with the configured members of its group merged in. */
  ghost predicate WithMembers(members: map<string, seq<string>>, row: GroupRow, r: GroupRow) {
    var extra := if row.name in members then members[row.name] else [];
    && r.name == row.name && r.passwd == row.passwd && r.gid == row.gid
    && (forall y :: y in r.mem <==> y in row.mem || y in extra)
    && (r.mem == row.mem || Strv.Ascending(r.mem))
  }

  method PutGroupRow(members: map<string, seq<string>>, row: GroupRow) returns (r: GroupRow, changed: bool)
    ensures WithMembers(members, row, r) && (changed <==> r != row)
  {
    r, changed := row, false;
    if row.name in members {
      var mem;
      mem, changed := Strv.MergeMembers(row.mem, members[row.name]);
      r := row.(mem := mem);
    }
  }

  function NewGroup(i: Item): GroupRow
    reads i
  {
    GroupRow(i.name, "x", i.gid, [])
  }

  ghost predicate GroupMerged(a: Allocator, members: map<string, seq<string>>, original: seq<GroupRow>, order: seq<Id>,
                              rows: seq<GroupRow>)
    reads a, a.todoGids.Values
  {
    && Visits(order, a.todoGids) && |rows| == |original| + |order|
    && (forall k :: 0 <= k < |original| ==> WithMembers(members, original[k], rows[k]))
    && (forall k :: 0 <= k < |order| ==> WithMembers(members, NewGroup(a.todoGids[order[k]]), rows[|original| + k]))
  }

  /** The new file, and whether it differs from the old one. */
  method WriteGroup(a: Allocator, members: map<string, seq<string>>, original: seq<GroupRow>)
    returns (r: Merge<GroupRow>, order: seq<Id>, changed: bool)
    ensures r.Eexist? <==> exists k :: 0 <= k < |original| && GroupClash(a, original[k])
    ensures r.Merged? ==> GroupMerged(a, members, original, order, r.rows)
    ensures r.Merged? ==> (changed <==> r.rows != original)
  {
    hide Allocator.Inv, GroupMerged, WithMembers;
    var rows := [];
    changed := false;
    for k := 0 to |original|
      invariant forall j :: 0 <= j < k ==> !GroupClash(a, original[j])
      invariant |rows| == k && forall j :: 0 <= j < k ==> WithMembers(members, original[j], rows[j])
      invariant changed <==> rows != original[..k]
    {
      var gr := original[k];
      if gr.name in a.groups && a.groups[gr.name].todoGroup {
        return Eexist, [], changed;
      }
      if gr.gid in a.todoGids {
        return Eexist, [], changed;
      }
      var row, c := PutGroupRow(members, gr);
      PrefixDiffers(rows, row, original, k);
      rows, changed := rows + [row], changed || c;
    }
    assert original[..|original|] == original;
    order := Visit(a.todoGids);
    changed := changed || order != [];
    rows := AppendGroups(a, members, original, rows, order);
    r := Merged(rows);
  }

  lemma PrefixDiffers<R>(rows: seq<R>, row: R, original: seq<R>, k: nat)
    requires k < |original| && |rows| == k
    ensures rows + [row] != original[..k + 1] <==> rows != original[..k] || row != original[k]
  {
    assert original[..k + 1] == original[..k] + [original[k]];
    assert (rows + [row])[..k] == rows && original[..k + 1][..k] == original[..k];
  }

  method AppendGroups(a: Allocator, members: map<string, seq<string>>, original: seq<GroupRow>, old': seq<GroupRow>,
                      order: seq<Id>) returns (rows: seq<GroupRow>)
    requires Visits(order, a.todoGids) && |old'| == |original|
    requires forall k :: 0 <= k < |original| ==> WithMembers(members, original[k], old'[k])
    ensures GroupMerged(a, members, original, order, rows) && |rows| == |original| + |order| &&
            (order == [] ==> rows == old')
  {
    hide WithMembers;
    rows := old';
    for k := 0 to |order|
      invariant |rows| == |original| + k && (k == 0 ==> rows == old')
      invariant forall j :: 0 <= j < |original| ==> WithMembers(members, original[j], rows[j])
      invariant forall j :: 0 <= j < k ==> WithMembers(members, NewGroup(a.todoGids[order[j]]), rows[|original| + j])
    {
      var row, _ := PutGroupRow(members, NewGroup(a.todoGids[order[k]]));
      rows := rows + [row];
    }
  }

  lemma GroupOnList(a: Allocator, g: Id)
    requires a.Inv() && g in a.todoGids
    ensures var i := a.todoGids[g];
            i.gid == g && i.todoGroup && a.Creates(i) && a.NewGroupName(i.name) && g !in a.db.groupOf
  {
    hide Valid, Member;
    assert a.GroupEntry(g, a.todoGids[g]);
  }

  lemma GroupFlagOnList(a: Allocator, i: Item)
    requires a.Inv() && i in a.users.Values + a.groups.Values && i.todoGroup
    ensures i.gid in a.todoGids && a.todoGids[i.gid] == i
  {
    hide Valid, Member;
    assert a.Listed(a.todoUids, a.todoGids, i);
  }

  /** A new group that a user item brings along. The check for existing names does not see it. */
  ghost predicate BroughtByUser(a: Allocator, name: string)
    reads a`users, a.users.Values`todoGroup
  {
    name in a.users && a.users[name].todoGroup
  }

  /** Merging adds no duplicate gid and no two new groups of one name. A new group gets the name
      of an old row exactly when a user item brings that group along. */
  lemma GroupUniqueIff(a: Allocator, original: seq<GroupRow>, order: seq<Id>)
    requires a.Inv() && Visits(order, a.todoGids)
    requires forall k :: 0 <= k < |original| ==> !GroupClash(a, original[k])
    ensures forall k, l :: 0 <= k < |order| && 0 <= l < |original| ==> order[k] != original[l].gid
    ensures forall k, l :: 0 <= k < l < |order| ==> a.todoGids[order[k]].name != a.todoGids[order[l]].name
    ensures forall l :: 0 <= l < |original| ==>
              ((exists k :: 0 <= k < |order| && a.todoGids[order[k]].name == original[l].name) <==>
               BroughtByUser(a, original[l].name))
  {
    hide Valid, Member, Allocator.Inv, GroupClash;
    a.InvSafe();
    forall l | 0 <= l < |original|
      ensures (exists k :: 0 <= k < |order| && a.todoGids[order[k]].name == original[l].name) <==>
              BroughtByUser(a, original[l].name)
      ensures original[l].gid !in a.todoGids
    {
      DuplicateIff(a, original[l], order);
    }
  }

  lemma DuplicateIff(a: Allocator, row: GroupRow, order: seq<Id>)
    requires a.Inv() && Visits(order, a.todoGids) && !GroupClash(a, row)
    ensures row.gid !in a.todoGids
    ensures (exists k :: 0 <= k < |order| && a.todoGids[order[k]].name == row.name) <==> BroughtByUser(a, row.name)
  {
    hide Valid, Member, Allocator.Inv;
    NameIff(a, row.name, order);
  }

  /** A new group of a name that no group item creates comes from a user item. */
  lemma NameIff(a: Allocator, name: string, order: seq<Id>)
    requires a.Inv() && Visits(order, a.todoGids) && !(name in a.groups && a.groups[name].todoGroup)
    ensures (exists k :: 0 <= k < |order| && a.todoGids[order[k]].name == name) <==> BroughtByUser(a, name)
  {
    hide Valid, Member, Allocator.Inv;
    if k :| 0 <= k < |order| && a.todoGids[order[k]].name == name {
      assert order[k] in order;
      GroupOnList(a, order[k]);
    }
    if BroughtByUser(a, name) {
      var i := a.users[name];
      GroupFlagOnList(a, i);
      a.InvNamed();
      var k :| 0 <= k < |order| && order[k] == i.gid;
    }
  }

  /** While the file is the one that was loaded, the check cannot fail and no name is doubled. */
  lemma LoadedGroupNeverClashes(a: Allocator, original: seq<GroupRow>, k: nat)
    requires a.Inv() && k < |original|
    requires LoadedFrom(a.db.gidOf, a.db.groupOf, Column(original, (r: GroupRow) => r.name),
                        Column(original, (r: GroupRow) => r.gid))
    ensures !GroupClash(a, original[k]) && !BroughtByUser(a, original[k].name)
  {
    hide Valid, Member, Allocator.Inv;
    var names, ids := Column(original, (r: GroupRow) => r.name), Column(original, (r: GroupRow) => r.gid);
    FirstWinsKeys(names, ids);
    FirstWinsKeys(ids, names);
    var row := original[k];
    assert names[k] in a.db.gidOf && ids[k] in a.db.groupOf;
    a.InvNamed();
    if row.gid in a.todoGids {
      GroupOnList(a, row.gid);
    }
    if row.name in a.groups && a.groups[row.name].todoGroup {
      GroupFlagOnList(a, a.groups[row.name]);
      GroupOnList(a, a.groups[row.name].gid);
    }
    if BroughtByUser(a, row.name) {
      GroupFlagOnList(a, a.users[row.name]);
      GroupOnList(a, a.users[row.name].gid);
    }
  }

  // ---- gshadow ---------------------------------------------------------------------

  /** A left-over row of a new group. The file is not among those that were loaded, and the check
      looks for the name among the group items only. */
  ghost predicate GshadowClash(a: Allocator, row: GshadowRow)
    reads a`groups, a.groups.Values`todoGroup
  {
    row.name in a.groups && a.groups[row.name].todoGroup
  }

  /** A row with the configured members of its group merged in. */
  ghost predicate Joined(members: map<string, seq<string>>, row: GshadowRow, r: GshadowRow) {
    var extra := if row.name in members then members[row.name] else [];
    && r == row.(mem := r.mem)
    && (forall y :: y in r.mem <==> y in row.mem || y in extra)
    && (r.mem == row.mem || Strv.Ascending(r.mem))
  }

  method PutGshadowRow(members: map<string, seq<string>>, row: GshadowRow) returns (r: GshadowRow, changed: bool)
    ensures Joined(members, row, r) && (changed <==> r != row)
  {
    r, changed := row, false;
    if row.name in members {
      var mem;
      mem, changed := Strv.MergeMembers(row.mem, members[row.name]);
      r := row.(mem := mem);
    }
  }

  function NewGshadow(name: string): GshadowRow {
    GshadowRow(name, "!!", [], [])
  }

  /** The old rows in their places, then one row per new group, in the order of the group file. */
  ghost predicate GshadowMerged(a: Allocator, members: map<string, seq<string>>, original: seq<GshadowRow>,
                                order: seq<Id>, rows: seq<GshadowRow>)
    reads a`todoGids
  {
    && Visits(order, a.todoGids) && |rows| == |original| + |order|
    && (forall k :: 0 <= k < |original| ==> Joined(members, original[k], rows[k]))
    && (forall k :: 0 <= k < |order| ==> Joined(members, NewGshadow(a.todoGids[order[k]].name), rows[|original| + k]))
  }

  method WriteGshadow(a: Allocator, members: map<string, seq<string>>, original: seq<GshadowRow>, order: seq<Id>)
    returns (r: Merge<GshadowRow>, changed: bool)
    requires Visits(order, a.todoGids)
    ensures r.Eexist? <==> exists k :: 0 <= k < |original| && GshadowClash(a, original[k])
    ensures r.Merged? ==> GshadowMerged(a, members, original, order, r.rows) && (changed <==> r.rows != original)
  {
    hide Joined, GshadowMerged;
    var rows := [];
    changed := false;
    for k := 0 to |original|
      invariant forall j :: 0 <= j < k ==> !GshadowClash(a, original[j])
      invariant |rows| == k && forall j :: 0 <= j < k ==> Joined(members, original[j], rows[j])
      invariant changed <==> rows != original[..k]
    {
      var sg := original[k];
      if sg.name in a.groups && a.groups[sg.name].todoGroup {
        return Eexist, changed;
      }
      var row, c := PutGshadowRow(members, sg);
      PrefixDiffers(rows, row, original, k);
      rows, changed := rows + [row], changed || c;
    }
    assert original[..|original|] == original;
    changed := changed || order != [];
    rows := AppendGshadow(a, members, original, rows, order);
    r := Merged(rows);
  }

  method AppendGshadow(a: Allocator, members: map<string, seq<string>>, original: seq<GshadowRow>,
                       old': seq<GshadowRow>, order: seq<Id>) returns (rows: seq<GshadowRow>)
    requires Visits(order, a.todoGids) && |old'| == |original|
    requires forall k :: 0 <= k < |original| ==> Joined(members, original[k], old'[k])
    ensures GshadowMerged(a, members, original, order, rows) && |rows| == |original| + |order| &&
            (order == [] ==> rows == old')
  {
    hide Joined;
    rows := old';
    for k := 0 to |order|
      invariant |rows| == |original| + k && (k == 0 ==> rows == old')
      invariant forall j :: 0 <= j < |original| ==> Joined(members, original[j], rows[j])
      invariant forall j :: 0 <= j < k ==> Joined(members, NewGshadow(a.todoGids[order[j]].name), rows[|original| + j])
    {
      var row, _ := PutGshadowRow(members, NewGshadow(a.todoGids[order[k]].name));
      rows := rows + [row];
    }
  }

  ghost predicate UniqueNames(rows: seq<GshadowRow>) {
    forall k, l :: 0 <= k < l < |rows| ==> rows[k].name != rows[l].name
  }

  /** Names that were unique stay so exactly when no row bears the name of a group that a user item
      brings along. */
  lemma GshadowUniqueIff(a: Allocator, members: map<string, seq<string>>, original: seq<GshadowRow>, order: seq<Id>,
                         rows: seq<GshadowRow>)
    requires a.Inv() && GshadowMerged(a, members, original, order, rows) && UniqueNames(original)
    requires forall k :: 0 <= k < |original| ==> !GshadowClash(a, original[k])
    ensures UniqueNames(rows) <==> forall k :: 0 <= k < |original| ==> !BroughtByUser(a, original[k].name)
  {
    hide Allocator.Inv, BroughtByUser, GshadowClash, NameBehind;
    var n := |original|;
    MergedNames(a, members, original, order, rows);
    hide GshadowMerged;
    NewNamesDiffer(a, order);
    UniqueParts(rows, n);
    forall l | 0 <= l < n
      ensures BroughtByUser(a, original[l].name) <==> NameBehind(rows, n, rows[l].name)
    {
      BehindIff(a, original, order, rows, l);
    }
  }

  ghost predicate NameBehind(rows: seq<GshadowRow>, n: nat, name: string) {
    exists k :: n <= k < |rows| && rows[k].name == name
  }

  lemma UniqueParts(rows: seq<GshadowRow>, n: nat)
    requires n <= |rows|
    requires forall k, l :: 0 <= k < l < n ==> rows[k].name != rows[l].name
    requires forall k, l :: n <= k < l < |rows| ==> rows[k].name != rows[l].name
    ensures UniqueNames(rows) <==> forall l :: 0 <= l < n ==> !NameBehind(rows, n, rows[l].name)
  {
  }

  lemma BehindIff(a: Allocator, original: seq<GshadowRow>, order: seq<Id>, rows: seq<GshadowRow>, l: nat)
    requires a.Inv() && Visits(order, a.todoGids) && |rows| == |original| + |order| && l < |original|
    requires forall k :: 0 <= k < |rows| ==>
               rows[k].name == if k < |original| then original[k].name else a.todoGids[order[k - |original|]].name
    requires !GshadowClash(a, original[l])
    ensures BroughtByUser(a, original[l].name) <==> NameBehind(rows, |original|, rows[l].name)
  {
    hide Allocator.Inv, BroughtByUser;
    NameIff(a, original[l].name, order);
    if k :| 0 <= k < |order| && a.todoGids[order[k]].name == original[l].name {
      assert rows[|original| + k].name == rows[l].name;
    }
  }

  lemma MergedNames(a: Allocator, members: map<string, seq<string>>, original: seq<GshadowRow>, order: seq<Id>,
                    rows: seq<GshadowRow>)
    requires GshadowMerged(a, members, original, order, rows)
    ensures |rows| == |original| + |order| && Visits(order, a.todoGids)
    ensures forall k :: 0 <= k < |rows| ==>
              rows[k].name == if k < |original| then original[k].name else a.todoGids[order[k - |original|]].name
  {
    var n := |original|;
    forall k | 0 <= k < |rows|
      ensures rows[k].name == if k < n then original[k].name else a.todoGids[order[k - n]].name
    {
      assert k < n ==> Joined(members, original[k], rows[k]);
      assert k >= n ==> Joined(members, NewGshadow(a.todoGids[order[k - n]].name), rows[n + (k - n)]);
    }
  }

  lemma NewNamesDiffer(a: Allocator, order: seq<Id>)
    requires a.Inv() && Visits(order, a.todoGids)
    ensures forall k, l :: 0 <= k < l < |order| ==> a.todoGids[order[k]].name != a.todoGids[order[l]].name
  {
    hide Allocator.Inv;
    a.InvSafe();
  }

  // ---- a whole run -----------------------------------------------------------------

  predicate HasUser(rows: seq<PasswdRow>, name: string) {
    exists k :: 0 <= k < |rows| && rows[k].name == name
  }

  predicate HasGroup(rows: seq<GroupRow>, name: string) {
    exists k :: 0 <= k < |rows| && rows[k].name == name
  }

  /** A user or group exists: it has a row, or the name service knows it. */
  ghost predicate UserExists(a: Allocator, rows: seq<PasswdRow>, name: string) {
    HasUser(rows, name) || (!a.root && a.nss.userByName(name).Found?)
  }

  ghost predicate GroupExists(a: Allocator, rows: seq<GroupRow>, name: string) {
    HasGroup(rows, name) || (!a.root && a.nss.groupByName(name).Found?)
  }

  ghost predicate UniqueUsers(rows: seq<PasswdRow>) {
    forall k, l :: 0 <= k < l < |rows| ==> rows[k].name != rows[l].name && rows[k].uid != rows[l].uid
  }

  ghost predicate UniqueGroups(rows: seq<GroupRow>) {
    forall k, l :: 0 <= k < l < |rows| ==> rows[k].name != rows[l].name && rows[k].gid != rows[l].gid
  }

  lemma MergedUserExists(a: Allocator, original: seq<PasswdRow>, order: seq<Id>, rows: seq<PasswdRow>, name: string,
                         uid: Id)
    requires PasswdMerged(a, original, order, rows) && a.UserIs(a.todoUids, name, uid)
    requires a.db.uidOf == FirstWins(Column(original, (r: PasswdRow) => r.name),
                                     Column(original, (r: PasswdRow) => r.uid))
    ensures UserExists(a, rows, name)
  {
    hide Valid, Member;
    var names, ids := Column(original, (r: PasswdRow) => r.name), Column(original, (r: PasswdRow) => r.uid);
    FirstWinsKeys(names, ids);
    if name in a.db.uidOf {
      var k :| 0 <= k < |names| && names[k] == name;
      assert rows[k].name == name;
    } else if uid in a.todoUids && a.todoUids[uid].name == name {
      var k :| 0 <= k < |order| && order[k] == uid;
      assert rows[|original| + k].name == name;
    }
  }

  lemma MergedGroupExists(a: Allocator, members: map<string, seq<string>>, original: seq<GroupRow>, order: seq<Id>,
                          rows: seq<GroupRow>, name: string, gid: Id)
    requires GroupMerged(a, members, original, order, rows) && a.GroupIs(a.todoGids, name, gid)
    requires a.db.gidOf == FirstWins(Column(original, (r: GroupRow) => r.name),
                                     Column(original, (r: GroupRow) => r.gid))
    ensures GroupExists(a, rows, name)
  {
    hide Valid, Member;
    var names, ids := Column(original, (r: GroupRow) => r.name), Column(original, (r: GroupRow) => r.gid);
    FirstWinsKeys(names, ids);
    if name in a.db.gidOf {
      var k :| 0 <= k < |names| && names[k] == name;
      assert WithMembers(members, original[k], rows[k]);
      assert rows[k].name == name;
    } else if gid in a.todoGids && a.todoGids[gid].name == name {
      var k :| 0 <= k < |order| && order[k] == gid;
      assert WithMembers(members, NewGroup(a.todoGids[order[k]]), rows[|original| + k]);
      assert rows[|original| + k].name == name;
    }
  }

  lemma PasswdMergeIsUnique(a: Allocator, original: seq<PasswdRow>, order: seq<Id>, rows: seq<PasswdRow>)
    requires a.Inv() && PasswdMerged(a, original, order, rows) && UniqueUsers(original)
    requires forall k :: 0 <= k < |original| ==> !PasswdClash(a, original[k])
    ensures UniqueUsers(rows)
  {
    hide Allocator.Inv, PasswdClash;
    PasswdStaysUnique(a, original, order);
    var n := |original|;
    forall k, l | 0 <= k < l < |rows|
      ensures rows[k].name != rows[l].name && rows[k].uid != rows[l].uid
    {
      assert k >= n ==> rows[k] == NewPasswd(a.todoUids[order[k - n]]);
      assert l >= n ==> rows[l] == NewPasswd(a.todoUids[order[l - n]]);
    }
  }

  lemma GroupMergeIsUnique(a: Allocator, members: map<string, seq<string>>, original: seq<GroupRow>, order: seq<Id>,
                           rows: seq<GroupRow>)
    requires a.Inv() && GroupMerged(a, members, original, order, rows) && UniqueGroups(original)
    requires forall k :: 0 <= k < |original| ==> !GroupClash(a, original[k]) && !BroughtByUser(a, original[k].name)
    ensures UniqueGroups(rows)
  {
    hide Allocator.Inv, GroupClash, BroughtByUser;
    GroupUniqueIff(a, original, order);
    GroupIds(a, order);
    var n := |original|;
    forall k, l | 0 <= k < l < |rows|
      ensures rows[k].name != rows[l].name && rows[k].gid != rows[l].gid
    {
      assert k < n ==> WithMembers(members, original[k], rows[k]);
      assert l < n ==> WithMembers(members, original[l], rows[l]);
      assert k >= n ==> WithMembers(members, NewGroup(a.todoGids[order[k - n]]), rows[k]);
      assert l >= n ==> WithMembers(members, NewGroup(a.todoGids[order[l - n]]), rows[l]);
    }
  }

  lemma GroupIds(a: Allocator, order: seq<Id>)
    requires a.Inv() && Visits(order, a.todoGids)
    ensures forall k :: 0 <= k < |order| ==> a.todoGids[order[k]].gid == order[k]
  {
    hide Allocator.Inv;
    a.InvSafe();
  }

  /** The account files after a run. */
  datatype Files = Files(group: seq<GroupRow>, gshadow: seq<GshadowRow>, passwd: seq<PasswdRow>, shadow: seq<ShadowRow>)

  /** How a run ends. Nothing is moved into place unless the files are written. */
  datatype Outcome = Written(files: Files) | Refused | Endless

  /** Every row of group has the configured members besides its own. */
  ghost predicate MembersMerged(members: map<string, seq<string>>, before: seq<GroupRow>, after: seq<GroupRow>) {
    && |before| <= |after|
    && (forall k :: 0 <= k < |before| ==> WithMembers(members, before[k], after[k]))
    && (forall k :: |before| <= k < |after| ==>
          after[k].passwd == "x" && WithMembers(members, after[k].(mem := []), after[k]))
  }

  /** The group of that name has the id, in the file or for the name service. */
  ghost predicate GroupHas(a: Allocator, rows: seq<GroupRow>, name: string, gid: Id) {
    || (exists l :: 0 <= l < |rows| && rows[l].name == name && rows[l].gid == gid)
    || (!a.root && a.nss.groupByName(name) == Found(gid))
  }

  /** The row of a new user: the id of its own group, no password in this file, what the item says, and
      a shell for root only. */
  ghost predicate UserRow(a: Allocator, rows: seq<GroupRow>, row: PasswdRow)
    reads a`users
  {
    && row.name in a.users && row.passwd == "x" && GroupHas(a, rows, row.name, row.gid)
    && row.gecos == a.users[row.name].description
    && row.dir == (if a.users[row.name].home.Some? then a.users[row.name].home.value else "/")
    && row.shell == (if row.uid == 0 then "/bin/sh" else "/sbin/nologin")
  }

  /** Every row added to passwd is one of a new user, under an id that no old row has. */
  ghost predicate UserRows(a: Allocator, before: Files, after: Files)
    reads a`users
  {
    forall k :: |before.passwd| <= k < |after.passwd| ==>
      && UserRow(a, after.group, after.passwd[k])
      && forall l :: 0 <= l < |before.passwd| ==> before.passwd[l].uid != after.passwd[k].uid
  }

  /** Only users and groups were added that an item asked for and no one knew. */
  ghost predicate OnlyAsked(a: Allocator, before: Files, after: Files)
    reads a`users, a`groups
  {
    && (forall k :: |before.passwd| <= k < |after.passwd| ==>
          after.passwd[k].name in a.users && a.NewUserName(after.passwd[k].name))
    && (forall k :: |before.group| <= k < |after.group| ==>
          (after.group[k].name in a.users || after.group[k].name in a.groups) && a.NewGroupName(after.group[k].name))
  }

  /** Every item that did not fail has its user and its group. */
  ghost predicate Provided(a: Allocator, after: Files, groupOrder: seq<string>, groupLog: seq<Status>,
                           userOrder: seq<string>, userLog: seq<Status>)
    requires |groupLog| <= |groupOrder| && |userLog| <= |userOrder|
    reads a`users
  {
    && (forall l :: 0 <= l < |userLog| && userLog[l].Done? ==>
                      UserExists(a, after.passwd, userOrder[l]) && GroupExists(a, after.group, userOrder[l]))
    && (forall l :: 0 <= l < |groupLog| && groupLog[l].Done? && groupOrder[l] !in a.users ==>
                      GroupExists(a, after.group, groupOrder[l]))
  }

  /** What a run makes of the tables: nothing is lost, unique files stay unique, and what was asked
      for is there, with its members, and nothing else. */
  ghost predicate Updated(a: Allocator, members: map<string, seq<string>>, before: Files, after: Files)
    reads a`users, a`groups
  {
    && (UniqueUsers(before.passwd) ==> UniqueUsers(after.passwd))
    && (UniqueGroups(before.group) ==> UniqueGroups(after.group))
    && before.passwd <= after.passwd && MembersMerged(members, before.group, after.group)
    && OnlyAsked(a, before, after) && UserRows(a, before, after)
  }

  /** What a run makes of gshadow: the old rows and one for each row added to group, with the
      configured members. Unique names stay so exactly when no old row is left over from a group
      that a user item brings along. */
  ghost predicate GshadowUpdated(a: Allocator, members: map<string, seq<string>>, before: Files, after: Files)
    reads a`users, a.users.Values`todoGroup
  {
    && |before.gshadow| <= |after.gshadow| && |before.group| <= |after.group|
    && |after.gshadow| - |before.gshadow| == |after.group| - |before.group|
    && (forall k :: 0 <= k < |before.gshadow| ==> Joined(members, before.gshadow[k], after.gshadow[k]))
    && (forall k :: |before.gshadow| <= k < |after.gshadow| ==>
          && after.gshadow[k].name == after.group[k - |before.gshadow| + |before.group|].name
          && after.gshadow[k].passwd == "!!" && after.gshadow[k].adm == []
          && Joined(members, NewGshadow(after.gshadow[k].name), after.gshadow[k]))
    && (UniqueNames(before.gshadow) ==>
          (UniqueNames(after.gshadow) <==>
           forall k :: 0 <= k < |before.gshadow| ==> !BroughtByUser(a, before.gshadow[k].name)))
  }

  /** The name is that of a new group whose group item did not fail and has no user item beside it. */
  ghost predicate LeftOver(a: Allocator, groupOrder: seq<string>, groupLog: seq<Status>, name: string)
    requires |groupLog| <= |groupOrder|
    reads a`users
  {
    exists l :: 0 <= l < |groupLog| && groupOrder[l] == name && a.Created(name, groupLog[l])
  }

  lemma ClashIffLeftOver(a: Allocator, groupOrder: seq<string>, groupLog: seq<Status>, row: GshadowRow)
    requires |groupLog| == |groupOrder| && a.Enumerates(groupOrder, a.groups) && a.GroupsDone(groupOrder, groupLog)
    ensures GshadowClash(a, row) <==> LeftOver(a, groupOrder, groupLog, row.name)
  {
    hide Allocator.Created;
    if row.name in a.groups {
      var l :| 0 <= l < |groupOrder| && groupOrder[l] == row.name;
    }
  }

  /** The indices come from these very files. */
  ghost predicate LoadedFiles(a: Allocator, f: Files) {
    && LoadedFrom(a.db.uidOf, a.db.userOf, Column(f.passwd, (r: PasswdRow) => r.name),
                  Column(f.passwd, (r: PasswdRow) => r.uid))
    && LoadedFrom(a.db.gidOf, a.db.groupOf, Column(f.group, (r: GroupRow) => r.name),
                  Column(f.group, (r: GroupRow) => r.gid))
  }

  lemma NothingClashes(a: Allocator, f: Files)
    requires a.Inv() && LoadedFiles(a, f)
    ensures forall k :: 0 <= k < |f.passwd| ==> !PasswdClash(a, f.passwd[k])
    ensures forall k :: 0 <= k < |f.group| ==> !GroupClash(a, f.group[k]) && !BroughtByUser(a, f.group[k].name)
  {
    hide Allocator.Inv, PasswdClash, GroupClash, BroughtByUser, LoadedFrom;
    forall k | 0 <= k < |f.passwd|
      ensures !PasswdClash(a, f.passwd[k])
    {
      LoadedPasswdNeverClashes(a, f.passwd, k);
    }
    forall k | 0 <= k < |f.group|
      ensures !GroupClash(a, f.group[k]) && !BroughtByUser(a, f.group[k].name)
    {
      LoadedGroupNeverClashes(a, f.group, k);
    }
  }

  lemma MergedMembers(a: Allocator, members: map<string, seq<string>>, original: seq<GroupRow>, order: seq<Id>,
                      rows: seq<GroupRow>)
    requires GroupMerged(a, members, original, order, rows)
    ensures MembersMerged(members, original, rows)
  {
    forall k | |original| <= k < |rows|
      ensures rows[k].passwd == "x" && WithMembers(members, rows[k].(mem := []), rows[k])
    {
      var j := k - |original|;
      assert WithMembers(members, NewGroup(a.todoGids[order[j]]), rows[|original| + j]);
      assert rows[k].(mem := []) == NewGroup(a.todoGids[order[j]]);
    }
  }

  lemma MergedOnlyAsked(a: Allocator, members: map<string, seq<string>>, before: Files, after: Files, groups: seq<Id>,
                        users: seq<Id>)
    requires a.Inv() && PasswdMerged(a, before.passwd, users, after.passwd)
    requires GroupMerged(a, members, before.group, groups, after.group)
    ensures OnlyAsked(a, before, after)
  {
    hide Allocator.Inv;
    forall k | |before.passwd| <= k < |after.passwd|
      ensures after.passwd[k].name in a.users && a.NewUserName(after.passwd[k].name)
    {
      var j := k - |before.passwd|;
      assert after.passwd[|before.passwd| + j] == NewPasswd(a.todoUids[users[j]]) && users[j] in users;
      UserOnList(a, users[j]);
    }
    forall k | |before.group| <= k < |after.group|
      ensures (after.group[k].name in a.users || after.group[k].name in a.groups) && a.NewGroupName(after.group[k].name)
    {
      var j := k - |before.group|;
      assert WithMembers(members, NewGroup(a.todoGids[groups[j]]), after.group[|before.group| + j]) &&
             groups[j] in groups;
      GroupOnList(a, groups[j]);
    }
  }

  lemma PrefixKept(a: Allocator, original: seq<PasswdRow>, order: seq<Id>, rows: seq<PasswdRow>)
    requires PasswdMerged(a, original, order, rows)
    ensures original <= rows
  {
  }

  lemma {:induction false} FirstOf(names: seq<string>, name: string) returns (i: nat)
    requires name in names
    ensures i < |names| && names[i] == name && name !in names[..i]
  {
    i := 0;
    while names[i] != name
      invariant i < |names| && name !in names[..i] && name in names[i..]
      decreases |names| - i
    {
      assert names[i..] == [names[i]] + names[i + 1..];
      i := i + 1;
    }
  }

  /** The group that allocation settled on is the one that the files show. */
  lemma MergedGroupHas(a: Allocator, members: map<string, seq<string>>, original: seq<GroupRow>, order: seq<Id>,
                       rows: seq<GroupRow>, name: string, gid: Id)
    requires a.Inv() && GroupMerged(a, members, original, order, rows) && a.GroupIs(a.todoGids, name, gid)
    requires a.db.gidOf == FirstWins(Column(original, (r: GroupRow) => r.name),
                                     Column(original, (r: GroupRow) => r.gid))
    ensures GroupHas(a, rows, name, gid)
  {
    hide Valid, Member, Allocator.Inv;
    var names, ids := Column(original, (r: GroupRow) => r.name), Column(original, (r: GroupRow) => r.gid);
    FirstWinsKeys(names, ids);
    if name in a.db.gidOf {
      var k := FirstOf(names, name);
      FirstWinsValue(names, ids, k);
      assert WithMembers(members, original[k], rows[k]);
      assert rows[k].name == name && rows[k].gid == gid;
    } else if gid in a.todoGids && a.todoGids[gid].name == name {
      var k :| 0 <= k < |order| && order[k] == gid;
      GroupOnList(a, gid);
      assert WithMembers(members, NewGroup(a.todoGids[order[k]]), rows[|original| + k]);
      assert rows[|original| + k].name == name && rows[|original| + k].gid == gid;
    }
  }

  lemma MergedUserRows(a: Allocator, members: map<string, seq<string>>, before: Files, after: Files, groups: seq<Id>,
                       users: seq<Id>)
    requires a.Inv() && LoadedFiles(a, before)
    requires PasswdMerged(a, before.passwd, users, after.passwd)
    requires GroupMerged(a, members, before.group, groups, after.group)
    ensures UserRows(a, before, after)
  {
    hide Allocator.Inv, GroupMerged, GroupHas, Allocator.GroupIs, PasswdClash;
    PasswdClashFree(a, before);
    PasswdStaysUnique(a, before.passwd, users);
    forall k | |before.passwd| <= k < |after.passwd|
      ensures UserRow(a, after.group, after.passwd[k])
      ensures forall l :: 0 <= l < |before.passwd| ==> before.passwd[l].uid != after.passwd[k].uid
    {
      var j := k - |before.passwd|;
      var i := a.todoUids[users[j]];
      assert after.passwd[|before.passwd| + j] == NewPasswd(i) && users[j] in users;
      UserOnList(a, users[j]);
      GroupOfUser(a, users[j]);
      MergedGroupHas(a, members, before.group, groups, after.group, i.name, i.gid);
    }
  }

  lemma GroupOfUser(a: Allocator, u: Id)
    requires a.Inv() && u in a.todoUids
    ensures a.GroupIs(a.todoGids, a.todoUids[u].name, a.todoUids[u].gid)
  {
    hide Allocator.Inv;
    a.InvSafe();
  }

  lemma PasswdClashFree(a: Allocator, f: Files)
    requires a.Inv() && LoadedFiles(a, f)
    ensures forall k :: 0 <= k < |f.passwd| ==> !PasswdClash(a, f.passwd[k])
  {
    hide Allocator.Inv, PasswdClash, LoadedFiles, GroupClash, BroughtByUser;
    NothingClashes(a, f);
  }

  lemma MergeUpdates(a: Allocator, members: map<string, seq<string>>, before: Files, after: Files, groups: seq<Id>,
                     users: seq<Id>)
    requires a.Inv() && LoadedFiles(a, before)
    requires PasswdMerged(a, before.passwd, users, after.passwd)
    requires GroupMerged(a, members, before.group, groups, after.group)
    ensures Updated(a, members, before, after)
  {
    hide Allocator.Inv, PasswdClash, GroupClash, BroughtByUser, UniqueUsers, UniqueGroups, MembersMerged, OnlyAsked,
         GroupMerged, LoadedFiles, UserRows, PasswdMerged;
    NothingClashes(a, before);
    PrefixKept(a, before.passwd, users, after.passwd);
    MergedUserRows(a, members, before, after, groups, users);
    if UniqueUsers(before.passwd) {
      PasswdMergeIsUnique(a, before.passwd, users, after.passwd);
    }
    if UniqueGroups(before.group) {
      GroupMergeIsUnique(a, members, before.group, groups, after.group);
    }
    MergedMembers(a, members, before.group, groups, after.group);
    MergedOnlyAsked(a, members, before, after, groups, users);
  }

  lemma MergeProvides(a: Allocator, members: map<string, seq<string>>, before: Files, after: Files, groups: seq<Id>,
                      users: seq<Id>, groupOrder: seq<string>, groupLog: seq<Status>, userOrder: seq<string>,
                      userLog: seq<Status>)
    requires LoadedFiles(a, before) && Logged(a, groupOrder, groupLog, userOrder, userLog)
    requires PasswdMerged(a, before.passwd, users, after.passwd)
    requires GroupMerged(a, members, before.group, groups, after.group)
    ensures Provided(a, after, groupOrder, groupLog, userOrder, userLog)
  {
    hide PasswdMerged, GroupMerged, Allocator.UserIs, Allocator.GroupIs, UserExists, GroupExists, Allocator.Enumerates;
    forall l | 0 <= l < |userLog| && userLog[l].Done?
      ensures UserExists(a, after.passwd, userOrder[l]) && GroupExists(a, after.group, userOrder[l])
    {
      var i := a.users[userOrder[l]];
      MergedUserExists(a, before.passwd, users, after.passwd, userOrder[l], i.uid);
      MergedGroupExists(a, members, before.group, groups, after.group, userOrder[l], i.gid);
    }
    forall l | 0 <= l < |groupLog| && groupLog[l].Done? && groupOrder[l] !in a.users
      ensures GroupExists(a, after.group, groupOrder[l])
    {
      MergedGroupExists(a, members, before.group, groups, after.group, groupOrder[l], a.groups[groupOrder[l]].gid);
    }
  }

  /** What allocation noted down about the items. */
  ghost predicate Logged(a: Allocator, groupOrder: seq<string>, groupLog: seq<Status>, userOrder: seq<string>,
                         userLog: seq<Status>)
    reads a, a.users.Values, a.groups.Values
  {
    && |groupLog| <= |groupOrder| && |userLog| <= |userOrder|
    && (forall k :: 0 <= k < |groupOrder| ==> groupOrder[k] in a.groups)
    && (forall k :: 0 <= k < |userOrder| ==> userOrder[k] in a.users)
    && a.GroupsDone(groupOrder, groupLog) && a.UsersDone(userOrder, userLog)
  }

  /** A row of that name was added. */
  predicate Added(passwd: seq<PasswdRow>, from: nat, name: string) {
    exists k :: from <= k < |passwd| && passwd[k].name == name
  }

  /** The rows added to passwd are those of the users in the table. */
  ghost predicate RowsOf(table: map<Id, Item>, passwd: seq<PasswdRow>, from: nat) {
    forall name :: Added(passwd, from, name) <==> Todo(table, name)
  }

  lemma MergedRowsOf(a: Allocator, original: seq<PasswdRow>, order: seq<Id>, rows: seq<PasswdRow>)
    requires PasswdMerged(a, original, order, rows)
    ensures RowsOf(a.todoUids, rows, |original|)
  {
    forall name
      ensures Added(rows, |original|, name) <==> Todo(a.todoUids, name)
    {
      if k :| |original| <= k < |rows| && rows[k].name == name {
        var u := order[k - |original|];
        assert u in order && rows[|original| + (k - |original|)] == NewPasswd(a.todoUids[u]);
      }
      if u :| u in a.todoUids && a.todoUids[u].name == name {
        var k :| 0 <= k < |order| && order[k] == u;
        assert rows[|original| + k] == NewPasswd(a.todoUids[u]);
      }
    }
  }

  lemma MergedGshadow(a: Allocator, members: map<string, seq<string>>, before: Files, after: Files, groups: seq<Id>)
    requires a.Inv() && GroupMerged(a, members, before.group, groups, after.group)
    requires GshadowMerged(a, members, before.gshadow, groups, after.gshadow)
    requires forall k :: 0 <= k < |before.gshadow| ==> !GshadowClash(a, before.gshadow[k])
    ensures GshadowUpdated(a, members, before, after)
  {
    hide Allocator.Inv, BroughtByUser, GshadowClash, UniqueNames;
    var n := |before.gshadow|;
    forall k | n <= k < |after.gshadow|
      ensures after.gshadow[k].name == after.group[k - n + |before.group|].name
      ensures Joined(members, NewGshadow(after.gshadow[k].name), after.gshadow[k])
    {
      var j := k - n;
      assert Joined(members, NewGshadow(a.todoGids[groups[j]].name), after.gshadow[n + j]);
      assert WithMembers(members, NewGroup(a.todoGids[groups[j]]), after.group[|before.group| + j]);
    }
    if UniqueNames(before.gshadow) {
      GshadowUniqueIff(a, members, before.gshadow, groups, after.gshadow);
    }
  }

  /** group, gshadow and passwd. A left-over row of gshadow is the only thing that stops the merge. */
  method MergeTables(a: Allocator, before: Files, members: map<string, seq<string>>, ghost groupOrder: seq<string>,
                     ghost groupLog: seq<Status>, ghost userOrder: seq<string>, ghost userLog: seq<Status>)
    returns (r: Option<Files>)
    requires a.Inv() && LoadedFiles(a, before) && Logged(a, groupOrder, groupLog, userOrder, userLog)
    ensures r.None? <==> exists k :: 0 <= k < |before.gshadow| && GshadowClash(a, before.gshadow[k])
    ensures r.Some? ==>
              && Updated(a, members, before, r.value) && GshadowUpdated(a, members, before, r.value)
              && Provided(a, r.value, groupOrder, groupLog, userOrder, userLog)
              && RowsOf(a.todoUids, r.value.passwd, |before.passwd|) && r.value.shadow == before.shadow
  {
    hide Allocator.Inv, Allocator.UsersDone, Allocator.GroupsDone, PasswdClash, GroupClash, BroughtByUser, PasswdMerged,
         GroupMerged, GshadowMerged, Updated, GshadowUpdated, Provided, LoadedFiles, RowsOf, GshadowClash;
    NothingClashes(a, before);
    var g, groups, _ := WriteGroup(a, members, before.group);
    MergedVisits(a, members, before.group, groups, g.rows);
    var sg, _ := WriteGshadow(a, members, before.gshadow, groups);
    if sg.Eexist? {
      return None;
    }
    var p, users := WritePasswd(a, before.passwd);
    var after := Files(g.rows, sg.rows, p.rows, before.shadow);
    MergeUpdates(a, members, before, after, groups, users);
    MergedGshadow(a, members, before, after, groups);
    MergeProvides(a, members, before, after, groups, users, groupOrder, groupLog, userOrder, userLog);
    MergedRowsOf(a, before.passwd, users, after.passwd);
    r := Some(after);
  }

  lemma MergedVisits(a: Allocator, members: map<string, seq<string>>, original: seq<GroupRow>, order: seq<Id>,
                     rows: seq<GroupRow>)
    requires GroupMerged(a, members, original, order, rows)
    ensures Visits(order, a.todoGids)
  {
  }

  lemma NewRowsHaveShadow(table: map<Id, Item>, original: seq<ShadowRow>, today: int, order: seq<Id>,
                          rows: seq<ShadowRow>, passwd: seq<PasswdRow>, from: nat)
    requires ShadowMerged(table, original, today, order, rows) && RowsOf(table, passwd, from)
    ensures forall k :: from <= k < |passwd| ==> HasShadow(rows, passwd[k].name)
  {
    hide ShadowMerged;
    forall k | from <= k < |passwd|
      ensures HasShadow(rows, passwd[k].name)
    {
      assert Added(passwd, from, passwd[k].name);
      var u :| u in table && table[u].name == passwd[k].name;
      ShadowCoversUsers(table, original, today, order, rows, u);
    }
  }

  predicate HasShadow(rows: seq<ShadowRow>, name: string) {
    exists k :: 0 <= k < |rows| && rows[k].name == name
  }

  lemma SameTables(a: Allocator, members: map<string, seq<string>>, before: Files, after: Files, rows: seq<ShadowRow>,
                   groupOrder: seq<string>, groupLog: seq<Status>, userOrder: seq<string>, userLog: seq<Status>)
    requires |groupLog| <= |groupOrder| && |userLog| <= |userOrder|
    requires Updated(a, members, before, after) && GshadowUpdated(a, members, before, after)
    requires Provided(a, after, groupOrder, groupLog, userOrder, userLog)
    ensures Updated(a, members, before, after.(shadow := rows)) &&
            GshadowUpdated(a, members, before, after.(shadow := rows))
    ensures Provided(a, after.(shadow := rows), groupOrder, groupLog, userOrder, userLog)
  {
    hide UniqueUsers, UniqueGroups, UniqueNames, MembersMerged, UserExists, GroupExists, Joined, BroughtByUser;
  }

  /** What a run makes of shadow: the old rows in their places, where the first row of a new user gets the
      date, and a locked row behind them for every new user that had none. */
  ghost predicate ShadowUpdated(before: Files, after: Files, today: int) {
    && |before.shadow| <= |after.shadow|
    && (forall k :: 0 <= k < |before.shadow| ==>
          && after.shadow[k].name == before.shadow[k].name && after.shadow[k].passwd == before.shadow[k].passwd
          && after.shadow[k].rest == before.shadow[k].rest
          && after.shadow[k].lstchg == if FirstOfNew(before, after, k) then today else before.shadow[k].lstchg)
    && (forall k :: |before.shadow| <= k < |after.shadow| ==>
          && after.shadow[k].passwd == "!!" && after.shadow[k].lstchg == today
          && after.shadow[k].rest == [-1, -1, -1, -1, -1, -1]
          && Added(after.passwd, |before.passwd|, after.shadow[k].name)
          && !HasShadow(before.shadow, after.shadow[k].name))
    && (forall k :: |before.passwd| <= k < |after.passwd| ==> HasShadow(after.shadow, after.passwd[k].name))
  }

  /** Row k of shadow is the first of its name and belongs to a new user. */
  ghost predicate FirstOfNew(before: Files, after: Files, k: nat)
    requires k < |before.shadow|
  {
    && Added(after.passwd, |before.passwd|, before.shadow[k].name)
    && forall j :: 0 <= j < k ==> before.shadow[j].name != before.shadow[k].name
  }

  lemma MergedShadow(table: map<Id, Item>, before: Files, after: Files, today: int, order: seq<Id>)
    requires ShadowMerged(table, before.shadow, today, order, after.shadow)
    requires RowsOf(table, after.passwd, |before.passwd|)
    ensures ShadowUpdated(before, after, today)
  {
    hide HasShadow, Added;
    NewRowsHaveShadow(table, before.shadow, today, order, after.shadow, after.passwd, |before.passwd|);
    forall k | |before.shadow| <= k < |after.shadow|
      ensures after.shadow[k] == ShadowRow(after.shadow[k].name, "!!", today, [-1, -1, -1, -1, -1, -1])
      ensures Added(after.passwd, |before.passwd|, after.shadow[k].name)
      ensures !HasShadow(before.shadow, after.shadow[k].name)
    {
      var u := order[k - |before.shadow|];
      assert u in order && after.shadow[|before.shadow| + (k - |before.shadow|)] == NewShadow(table[u].name, today);
      assert Todo(table, table[u].name);
      NotInColumn(before.shadow, table[u].name);
    }
  }

  lemma NotInColumn(rows: seq<ShadowRow>, name: string)
    ensures HasShadow(rows, name) <==> name in Column(rows, (r: ShadowRow) => r.name)
  {
    var names := Column(rows, (r: ShadowRow) => r.name);
    if k :| 0 <= k < |rows| && rows[k].name == name {
      assert names[k] == name;
    }
  }

  /** Files that were written: the three tables, and shadow. */
  ghost predicate Complete(a: Allocator, members: map<string, seq<string>>, before: Files, after: Files, today: int)
    reads a`users, a`groups, a.users.Values`todoGroup
  {
    && Updated(a, members, before, after) && GshadowUpdated(a, members, before, after)
    && ShadowUpdated(before, after, today)
  }

  /** Allocation and merge together, on the files that were loaded. Nothing is written when a search
      does not end, or when gshadow has a row left over from a group that a group item creates. */
  method Update(a: Allocator, before: Files, members: map<string, seq<string>>, groupOrder: seq<string>,
                userOrder: seq<string>, today: int)
    returns (o: Outcome, groupLog: seq<Status>, userLog: seq<Status>)
    requires a.Initial() && a.Enumerates(groupOrder, a.groups) && a.Enumerates(userOrder, a.users) &&
             LoadedFiles(a, before)
    modifies a`todoUids, a`todoGids, a`searchUid, a.users.Values, a.groups.Values
    ensures a.Passed(groupOrder, groupLog) && if Stuck(groupLog) then userLog == [] else a.Passed(userOrder, userLog)
    ensures o.Endless? <==> Stuck(groupLog) || Stuck(userLog)
    ensures o.Refused? <==>
            && !o.Endless?
            && exists k :: 0 <= k < |before.gshadow| && LeftOver(a, groupOrder, groupLog, before.gshadow[k].name)
    ensures o.Written? ==>
              && Complete(a, members, before, o.files, today)
              && Provided(a, o.files, groupOrder, groupLog, userOrder, userLog)
    ensures old(a.FirstIsSure(groupOrder)) ==> groupLog != [] && groupLog[0] == Done
  {
    hide Allocator.Inv, Allocator.Initial, Allocator.Safe, Allocator.GroupsDone, Allocator.UsersDone, ShadowMerged,
         Updated, GshadowUpdated, Provided, LoadedFiles, RowsOf, HasShadow, Allocator.Enumerates, LeftOver,
         GshadowClash, Allocator.FirstIsSure;
    EnumeratesKeys(a, groupOrder, userOrder);
    groupLog, userLog := a.Allocate(groupOrder, userOrder);
    if Stuck(groupLog) || Stuck(userLog) {
      return Endless, groupLog, userLog;
    }
    forall k | 0 <= k < |before.gshadow|
      ensures GshadowClash(a, before.gshadow[k]) <==> LeftOver(a, groupOrder, groupLog, before.gshadow[k].name)
    {
      ClashIffLeftOver(a, groupOrder, groupLog, before.gshadow[k]);
    }
    var tables := MergeTables(a, before, members, groupOrder, groupLog, userOrder, userLog);
    if tables.None? {
      return Refused, groupLog, userLog;
    }
    var after := WriteAll(a, before, tables.value, members, groupOrder, groupLog, userOrder, userLog, today);
    o := Written(after);
  }

  /** The last file. */
  method WriteAll(a: Allocator, before: Files, tables: Files, ghost members: map<string, seq<string>>,
                  ghost groupOrder: seq<string>, ghost groupLog: seq<Status>, ghost userOrder: seq<string>,
                  ghost userLog: seq<Status>, today: int) returns (after: Files)
    requires a.Inv() && |groupLog| <= |groupOrder| && |userLog| <= |userOrder|
    requires Updated(a, members, before, tables) && GshadowUpdated(a, members, before, tables)
    requires Provided(a, tables, groupOrder, groupLog, userOrder, userLog)
    requires RowsOf(a.todoUids, tables.passwd, |before.passwd|)
    modifies a`todoUids, a.users.Values`todoUser
    ensures Complete(a, members, before, after, today) && Provided(a, after, groupOrder, groupLog, userOrder, userLog)
  {
    hide Allocator.Inv, ShadowMerged, Updated, GshadowUpdated, ShadowUpdated, Provided, RowsOf;
    ghost var table := a.todoUids;
    var rows, added := WriteShadow(a, before.shadow, today);
    SameTables(a, members, before, tables, rows, groupOrder, groupLog, userOrder, userLog);
    after := tables.(shadow := rows);
    MergedShadow(table, before, after, today, added);
  }

  lemma EnumeratesKeys(a: Allocator, groupOrder: seq<string>, userOrder: seq<string>)
    requires a.Enumerates(groupOrder, a.groups) && a.Enumerates(userOrder, a.users)
    ensures forall k :: 0 <= k < |groupOrder| ==> groupOrder[k] in a.groups
    ensures forall k :: 0 <= k < |userOrder| ==> userOrder[k] in a.users
  {
  }

  // ---- from the configuration to the files -------------------------------------------

  method KeysOf<V>(table: map<string, V>) returns (order: seq<string>)
    ensures forall k, l :: 0 <= k < l < |order| ==> order[k] != order[l]
    ensures forall n :: n in order <==> n in table
  {
    order := [];
    var rest := table.Keys;
    while rest != {}
      invariant forall k, l :: 0 <= k < l < |order| ==> order[k] != order[l]
      invariant forall n :: n in order <==> n in table.Keys - rest
      invariant rest <= table.Keys
    {
      var n :| n in rest;
      assert n !in order;
      order, rest := order + [n], rest - {n};
    }
  }

  method LoadDatabase(f: Files) returns (db: Database)
    ensures LoadedFrom(db.uidOf, db.userOf, Column(f.passwd, (r: PasswdRow) => r.name),
                       Column(f.passwd, (r: PasswdRow) => r.uid))
    ensures LoadedFrom(db.gidOf, db.groupOf, Column(f.group, (r: GroupRow) => r.name),
                       Column(f.group, (r: GroupRow) => r.gid))
  {
    var uidOf, userOf := Load(Column(f.passwd, (r: PasswdRow) => r.name), Column(f.passwd, (r: PasswdRow) => r.uid));
    var gidOf, groupOf := Load(Column(f.group, (r: GroupRow) => r.name), Column(f.group, (r: GroupRow) => r.gid));
    db := Database(uidOf, userOf, gidOf, groupOf);
  }

  /** The items that the configuration files lead to. */
  ghost predicate Configured(users: map<string, Item>, groups: map<string, Item>)
    reads users.Values, groups.Values
  {
    && (forall n <- users ::
          users[n].name == n && users[n].kind == UserItem && !users[n].todoUser && !users[n].todoGroup)
    && (forall n <- groups ::
          groups[n].name == n && groups[n].kind == GroupItem && !groups[n].todoUser && !groups[n].todoGroup)
  }

  /** The allocator before the first item: the tables of the files, and the items with those that
      "m" lines imply. */
  method Prepare(f: Files, users: map<string, Item>, groups: map<string, Item>, members: map<string, seq<string>>,
                 nss: Nss, root: bool, pool: seq<Range>, stat: string -> Option<Owner>) returns (a: Allocator)
    requires Configured(users, groups) && Valid(pool)
    ensures fresh(a) && a.Initial() && LoadedFiles(a, f) && a.pool == pool && a.root == root && a.nss == nss
    ensures a.Kept(users, a.users) && a.Kept(groups, a.groups)
    ensures forall n <- a.users :: n in users || fresh(a.users[n])
    ensures forall n <- a.groups :: n in groups || fresh(a.groups[n])
    ensures forall n :: n in a.groups <==> n in groups || n in members
    ensures forall n :: n in a.users <==> n in users || exists g :: g in members && n in members[g]
  {
    hide Valid, Member, LoadedFrom;
    var db := LoadDatabase(f);
    a := new Allocator(db, nss, root, pool, stat, users, groups);
    var order := KeysOf(members);
    a.AddImplicit(members, order);
    ImpliedNames(a, members, order);
  }

  lemma ImpliedNames(a: Allocator, members: map<string, seq<string>>, order: seq<string>)
    requires forall n :: n in order <==> n in members
    ensures forall n :: n in a.NamesOf(order) <==> n in members
    ensures forall n :: n in a.MembersOf(members, order) <==> exists g :: g in members && n in members[g]
  {
    forall n
      ensures n in a.MembersOf(members, order) <==> exists g :: g in members && n in members[g]
    {
      if g :| g in members && n in members[g] {
        var k :| 0 <= k < |order| && order[k] == g;
        var l :| 0 <= l < |members[g]| && members[g][l] == n;
        assert members[order[k]][l] == n;
      }
    }
  }

  ghost predicate AllDone(log: seq<Status>) {
    forall l :: 0 <= l < |log| ==> log[l].Done?
  }

  /** Every "m" line is honoured: wherever the group has a row in group or gshadow, the user is a member of it, and the
      group and the user exist if nothing failed. */
  ghost predicate Honoured(a: Allocator, members: map<string, seq<string>>, after: Files, allDone: bool) {
    forall g, u :: g in members && u in members[g] ==>
      && (forall k :: 0 <= k < |after.group| && after.group[k].name == g ==> u in after.group[k].mem)
      && (forall k :: 0 <= k < |after.gshadow| && after.gshadow[k].name == g ==> u in after.gshadow[k].mem)
      && (allDone ==> GroupExists(a, after.group, g) && UserExists(a, after.passwd, u))
  }

  /** The whole of sysusers. It comes to an end when 0 is not in the pool, and is refused exactly when
      gshadow has a row left over from a group that a group item creates. */
  method Apply(before: Files, users: map<string, Item>, groups: map<string, Item>, members: map<string, seq<string>>,
               nss: Nss, root: bool, pool: seq<Range>, stat: string -> Option<Owner>, today: int)
    returns (a: Allocator, o: Outcome, groupOrder: seq<string>, groupLog: seq<Status>, userOrder: seq<string>,
             userLog: seq<Status>)
    requires Configured(users, groups) && Valid(pool)
    modifies users.Values, groups.Values
    ensures a.root == root && a.nss == nss && |groupLog| <= |groupOrder| && |userLog| <= |userOrder|
    ensures forall n :: n in a.groups <==> n in groups || n in members
    ensures forall n :: n in a.users <==> n in users || exists g :: g in members && n in members[g]
    ensures a.Enumerates(groupOrder, a.groups) && a.Enumerates(userOrder, a.users)
    ensures (o.Endless? <==> Stuck(groupLog) || Stuck(userLog)) && (o.Endless? ==> Member(pool, 0))
    ensures !o.Endless? ==> |groupLog| == |groupOrder| && |userLog| == |userOrder|
    ensures o.Refused? <==>
            && !o.Endless?
            && exists k :: 0 <= k < |before.gshadow| && LeftOver(a, groupOrder, groupLog, before.gshadow[k].name)
    ensures o.Written? ==>
              && Complete(a, members, before, o.files, today)
              && Provided(a, o.files, groupOrder, groupLog, userOrder, userLog)
              && Honoured(a, members, o.files, AllDone(groupLog) && AllDone(userLog))
  {
    hide Valid, Member, Allocator.Initial, LoadedFiles, Updated, GshadowUpdated, Provided, Honoured, HasShadow,
         Configured, LeftOver, Allocator.FirstIsSure;
    a := Prepare(before, users, groups, members, nss, root, pool, stat);
    groupOrder := KeysOf(a.groups);
    userOrder := KeysOf(a.users);
    o, groupLog, userLog := Update(a, before, members, groupOrder, userOrder, today);
    if o.Written? {
      HonouredByUpdate(a, members, before, o.files, groupOrder, groupLog, userOrder, userLog);
    }
  }

  lemma HonouredByUpdate(a: Allocator, members: map<string, seq<string>>, before: Files, after: Files,
                         groupOrder: seq<string>, groupLog: seq<Status>, userOrder: seq<string>, userLog: seq<Status>)
    requires Updated(a, members, before, after) && GshadowUpdated(a, members, before, after)
    requires |groupLog| == |groupOrder| && |userLog| == |userOrder|
    requires a.Enumerates(groupOrder, a.groups) && a.Enumerates(userOrder, a.users)
    requires Provided(a, after, groupOrder, groupLog, userOrder, userLog)
    requires forall g <- members :: g in a.groups && forall u <- members[g] :: u in a.users
    ensures Honoured(a, members, after, AllDone(groupLog) && AllDone(userLog))
  {
    hide UniqueUsers, UniqueGroups, UniqueNames, OnlyAsked, UserExists, GroupExists, Joined, WithMembers, BroughtByUser;
    forall g, u | g in members && u in members[g]
      ensures forall k :: 0 <= k < |after.group| && after.group[k].name == g ==> u in after.group[k].mem
      ensures forall k :: 0 <= k < |after.gshadow| && after.gshadow[k].name == g ==> u in after.gshadow[k].mem
    {
      forall k | 0 <= k < |after.group| && after.group[k].name == g
        ensures u in after.group[k].mem
      {
        var row := if k < |before.group| then before.group[k] else after.group[k].(mem := []);
        HasMember(members, row, after.group[k], u);
      }
      forall k | 0 <= k < |after.gshadow| && after.gshadow[k].name == g
        ensures u in after.gshadow[k].mem
      {
        HasJoined(members, if k < |before.gshadow| then before.gshadow[k] else NewGshadow(g), after.gshadow[k], u);
      }
    }
    if AllDone(groupLog) && AllDone(userLog) {
      forall g, u | g in members && u in members[g]
        ensures GroupExists(a, after.group, g) && UserExists(a, after.passwd, u)
      {
        var l :| 0 <= l < |userOrder| && userOrder[l] == u;
        assert userLog[l].Done?;
        if g in a.users {
          var k :| 0 <= k < |userOrder| && userOrder[k] == g;
          assert userLog[k].Done?;
        } else {
          var k :| 0 <= k < |groupOrder| && groupOrder[k] == g;
          assert groupLog[k].Done?;
        }
      }
    }
  }

  lemma HasMember(members: map<string, seq<string>>, row: GroupRow, r: GroupRow, u: string)
    requires WithMembers(members, row, r) && r.name in members && u in members[r.name]
    ensures u in r.mem
  {
  }

  lemma HasJoined(members: map<string, seq<string>>, row: GshadowRow, r: GshadowRow, u: string)
    requires Joined(members, row, r) && r.name in members && u in members[r.name]
    ensures u in r.mem
  {
  }

  // ---- a group that is doubled ---------------------------------------------------------

  /** A user item that brings its group along. */
  method BringGroup(nss: Nss, stat: string -> Option<Owner>) returns (a: Allocator, i: Item)
    ensures a.groups == map[] && i.name == "u" && a.todoGids == map[i.gid := i] && i.gid != 500
  {
    hide Allocator.Inv, Allocator.UserAdded, Allocator.Skipped, Allocator.GroupIs, Allocator.UserIs, Allocator.UidIsOk,
         Allocator.Extends;
    i := new Item(UserItem, "u");
    a := new Allocator(Database(map[], map[], map[], map[]), nss, true, [Range(1, 100)], stat, map["u" := i], map[]);
    assert a.Initial();
    assert Member(a.pool, 50) && a.GidIsOk(50) == Free;
    a.InitialInv();
    var _, _, _ := a.ProcessUser(i);
  }

  /** A row of that name written after the files were loaded is not noticed. */
  method DoubledGroup(nss: Nss, stat: string -> Option<Owner>) returns (r: Merge<GroupRow>)
    ensures r.Merged? && |r.rows| >= 2 && r.rows[0].name == r.rows[1].name == "u"
  {
    var a, i := BringGroup(nss, stat);
    var row := GroupRow("u", "x", 500, []);
    var order, changed;
    r, order, changed := WriteGroup(a, map[], [row]);
    assert !GroupClash(a, row);
    assert i.gid in a.todoGids && order[0] in order;
    assert WithMembers(map[], NewGroup(a.todoGids[order[0]]), r.rows[1]);
  }

  /** A row of that name left over in gshadow is not noticed either, on the files as they were loaded. */
  method DoubledGshadow(nss: Nss, stat: string -> Option<Owner>) returns (r: Merge<GshadowRow>)
    ensures r.Merged? && |r.rows| >= 2 && r.rows[0].name == r.rows[1].name == "u"
  {
    var a, i := BringGroup(nss, stat);
    var order := Visit(a.todoGids);
    var row := GshadowRow("u", "!", [], []);
    var changed;
    r, changed := WriteGshadow(a, map[], [row], order);
    assert !GshadowClash(a, row);
    assert i.gid in a.todoGids && order[0] in order;
    assert Joined(map[], NewGshadow(a.todoGids[order[0]].name), r.rows[1]);
  }

  // ---- a run that is refused -----------------------------------------------------------

  /** The group item "g", no group, and a row of gshadow left over from "g". */
  method RefusedRun(nss: Nss, stat: string -> Option<Owner>) returns (o: Outcome)
    ensures o == Refused
  {
    hide Allocator.Initial, LoadedFiles, Provided, Complete, Allocator.Enumerates, Allocator.FirstIsSure,
         Allocator.NewGroupName, Allocator.Kept, Valid, Member;
    SmallPool();
    var i := new Item(GroupItem, "g");
    var before := Files([], [GshadowRow("g", "!", [], [])], [], []);
    var a := Prepare(before, map[], map["g" := i], map[], nss, true, [Range(1, 100)], stat);
    OneGroup(a, i);
    FirstItemIsSure(a, before, i);
    var groupLog, userLog;
    o, groupLog, userLog := Update(a, before, map[], ["g"], [], 0);
    assert LeftOver(a, ["g"], groupLog, before.gshadow[0].name);
  }

  lemma SmallPool()
    ensures Valid([Range(1, 100)]) && !Member([Range(1, 100)], 0)
  {
  }

  lemma OneGroup(a: Allocator, i: Item)
    requires a.Kept(map["g" := i], a.groups) && forall n :: n in a.groups <==> n in map["g" := i]
    requires forall n :: n !in a.users
    ensures "g" in a.groups && a.groups["g"] == i && a.Enumerates(["g"], a.groups) && a.Enumerates([], a.users)
  {
    assert "g" in map["g" := i];
  }

  lemma FirstItemIsSure(a: Allocator, f: Files, i: Item)
    requires LoadedFiles(a, f) && f.group == [] && f.passwd == [] && a.root && a.Initial()
    requires "g" in a.groups && a.groups["g"] == i && i.name == "g" && "g" !in a.users && a.pool == [Range(1, 100)]
    ensures a.FirstIsSure(["g"]) && a.NewGroupName("g")
  {
    hide Valid;
    var gid: Id := 50;
    assert a.pool[0] == Range(1, 100);
    assert Member(a.pool, gid);
    assert a.GidIsOk(gid) == Free;
  }
}
