/**
 The id allocator of sysusers: users and groups to be created get ids from one descending
 pool, with several ways to propose an id first. Users and groups share names, and the two id
 spaces are kept in step.
 */
module Sysusers {
  import opened UidRanges
  import opened Wrappers

  type Id = x: int | 0 <= x <= 0xffff_ffff

  /** The answer of the name service: an entry, nothing, or an error. */
  datatype Reply<T> = Found(entry: T) | Missing | Failed(errno: nat)

  datatype Nss = Nss(userByName: string -> Reply<Id>, userById: Id -> Reply<string>,
                     groupByName: string -> Reply<Id>, groupById: Id -> Reply<string>)

  datatype Owner = Owner(uid: Id, gid: Id)

  /** /etc/passwd and /etc/group, indexed by name and by id. */
  datatype Database = Database(uidOf: map<string, Id>, userOf: map<Id, string>,
                               gidOf: map<string, Id>, groupOf: map<Id, string>)

  datatype Kind = UserItem | GroupItem

  class Item {
    const kind: Kind
    const name: string
    const description: string
    const home: Option<string>
    var uidPath: Option<string>
    var gidPath: Option<string>
    var uid: Id
    var gid: Id
    var uidSet: bool
    var gidSet: bool
    var todoUser: bool
    var todoGroup: bool

    /** An item that a line of the configuration asks for. */
    constructor Line(kind: Kind, name: string, description: string, home: Option<string>, uid: Option<Id>,
                     gid: Option<Id>, uidPath: Option<string>, gidPath: Option<string>)
      ensures this.kind == kind && this.name == name && this.description == description && this.home == home
      ensures this.uidPath == uidPath && this.gidPath == gidPath && !todoUser && !todoGroup
      ensures uidSet == uid.Some? && gidSet == gid.Some? && (uidSet ==> Some(this.uid) == uid)
      ensures gidSet ==> Some(this.gid) == gid
    {
      this.kind, this.name, this.description, this.home := kind, name, description, home;
      this.uidPath, this.gidPath := uidPath, gidPath;
      this.uid, uidSet := if uid.Some? then uid.value else 0, uid.Some?;
      this.gid, gidSet := if gid.Some? then gid.value else 0, gid.Some?;
      todoUser, todoGroup := false, false;
    }

    /** An item that a line for members implies. */
    constructor (kind: Kind, name: string)
      ensures this.kind == kind && this.name == name && uidPath.None? && gidPath.None?
      ensures !uidSet && !gidSet && !todoUser && !todoGroup
    {
      this.kind, this.name, description, home := kind, name, "", None;
      uidPath, gidPath, uid, gid := None, None, 0, 0;
      uidSet, gidSet, todoUser, todoGroup := false, false, false, false;
    }
  }

  /** Whether an id may be given to a new user or group. */
  datatype Check = Free | Taken | Error(errno: nat)

  /** A search for a user id is on behalf of a name; group ids are free for all or for none. */
  datatype Query = ForUser(name: string) | ForGroup

  /** How adding a user or group ends. */
  datatype Status = Done | Failure(errno: nat) | NoFreeId | Hangs

  /** The last item of a pass is still being searched for. */
  predicate Stuck(log: seq<Status>) {
    log != [] && log[|log| - 1].Hangs?
  }

  datatype Search = Hit | Exhausted | Broken(errno: nat) | Diverges

  class Allocator {
    const db: Database
    const nss: Nss
    const root: bool
    const pool: seq<Range>
    const stat: string -> Option<Owner>
    var users: map<string, Item>
    var groups: map<string, Item>
    var todoUids: map<Id, Item>
    var todoGids: map<Id, Item>
    var searchUid: Id

    constructor (db: Database, nss: Nss, root: bool, pool: seq<Range>, stat: string -> Option<Owner>,
                 users: map<string, Item>, groups: map<string, Item>)
      ensures this.db == db && this.nss == nss && this.root == root && this.pool == pool && this.stat == stat
      ensures this.users == users && this.groups == groups
      ensures todoUids == map[] && todoGids == map[] && searchUid == UID_INVALID
    {
      this.db, this.nss, this.root, this.pool, this.stat := db, nss, root, pool, stat;
      this.users, this.groups := users, groups;
      todoUids, todoGids, searchUid := map[], map[], UID_INVALID;
    }

    // ---- which ids are free --------------------------------------------------------

    function UidIsOk(uid: Id, name: string): Check
      reads this`todoUids, this`todoGids
    {
      if uid in todoUids then Taken
      else if uid in todoGids && todoGids[uid].name != name then Taken
      else if uid in db.userOf then Taken
      else if uid in db.groupOf && db.groupOf[uid] != name then Taken
      else if root then Free
      else
        match nss.userById(uid)
        case Found(_) => Taken
        case Failed(e) => Error(e)
        case Missing =>
          match nss.groupById(uid)
          case Found(n) => if n != name then Taken else Free
          case Failed(e) => Error(e)
          case Missing => Free
    }

    function GidIsOk(gid: Id): Check
      reads this`todoUids, this`todoGids
    {
      if gid in todoGids then Taken
      else if gid in todoUids then Taken
      else if gid in db.groupOf then Taken
      else if gid in db.userOf then Taken
      else if root then Free
      else
        match nss.groupById(gid)
        case Found(_) => Taken
        case Failed(e) => Error(e)
        case Missing =>
          match nss.userById(gid)
          case Found(_) => Taken
          case Failed(e) => Error(e)
          case Missing => Free
    }

    function IsOk(q: Query, id: Id): Check
      reads this`todoUids, this`todoGids
    {
      match q
      case ForUser(name) => UidIsOk(id, name)
      case ForGroup => GidIsOk(id)
    }

    // ---- the search ----------------------------------------------------------------

    ghost predicate PoolOk()
      reads this`searchUid
    {
      Valid(pool) && (searchUid == UID_INVALID || Member(pool, searchUid))
    }

    /** All pool members with lo < m < hi are taken. */
    ghost predicate TakenBetween(q: Query, lo: int, hi: int)
      reads this`todoUids, this`todoGids
    {
      forall m: Id :: Member(pool, m) && lo < m < hi ==> IsOk(q, m) == Taken
    }

    /** Nothing usable was passed over on the way down from s to u. Below 0 the search starts
        over at the top. */
    ghost predicate Skipped(q: Query, s: Id, u: Id)
      reads this`todoUids, this`todoGids
    {
      if u < s then TakenBetween(q, u, s)
      else Member(pool, 0) && TakenBetween(q, -1, s) && TakenBetween(q, u, UID_INVALID)
    }

    /** The loop over the pool. It never ends when 0 belongs to the pool and every id is taken:
        the second time at 0 nothing has changed. */
    method SearchPool(q: Query) returns (o: Search)
      requires PoolOk()
      modifies this`searchUid
      ensures PoolOk()
      ensures o.Hit? ==> Member(pool, searchUid) && IsOk(q, searchUid) == Free && Skipped(q, old(searchUid), searchUid)
      ensures o.Broken? ==> IsOk(q, searchUid) == Error(o.errno) && Skipped(q, old(searchUid), searchUid)
      ensures o.Exhausted? <==> !Member(pool, 0) && TakenBetween(q, -1, old(searchUid))
      ensures o.Diverges? <==> Member(pool, 0) && TakenBetween(q, -1, UID_INVALID)
    {
      hide Valid, Member, IsOk;
      var wrapped := false;
      ghost var s := searchUid;
      while true
        invariant PoolOk()
        invariant !wrapped ==> searchUid <= s && TakenBetween(q, searchUid - 1, s)
        invariant wrapped ==> Member(pool, 0) && TakenBetween(q, -1, s) && TakenBetween(q, searchUid - 1, UID_INVALID)
        decreases !wrapped, searchUid
      {
        if searchUid == 0 {
          if wrapped {
            return Diverges;
          }
          wrapped := true;
        }
        var next := NextLower(pool, searchUid);
        if next.None? {
          return Exhausted;
        }
        searchUid := next.value;
        var c := IsOk(q, searchUid);
        if c.Error? {
          return Broken(c.errno);
        }
        if c.Free? {
          return Hit;
        }
      }
    }

    // ---- proposals -----------------------------------------------------------------

    function Usable(id: Option<Id>): (r: Option<Id>) {
      if id.Some? && id.value > 0 && Member(pool, id.value) then id else None
    }

    /** The group of the file that is to own the id, or of the file for the user id. */
    function FileGid(i: Item): (r: Option<Id>)
      reads i`uidPath, i`gidPath
    {
      if i.gidPath.Some? && stat(i.gidPath.value).Some? then Some(stat(i.gidPath.value).value.gid)
      else if i.uidPath.Some? && stat(i.uidPath.value).Some? then Some(stat(i.uidPath.value).value.gid)
      else None
    }

    function FileUid(i: Item): (r: Option<Id>)
      reads i`uidPath, i`gidPath
    {
      if i.uidPath.Some? && stat(i.uidPath.value).Some? then Some(stat(i.uidPath.value).value.uid)
      else if i.gidPath.Some? && stat(i.gidPath.value).Some? then Some(stat(i.gidPath.value).value.gid)
      else None
    }

    /** There is no such file. */
    ghost predicate Useless(path: Option<string>) {
      path.None? || stat(path.value).None?
    }

    /** The owner of the file for the user id is the user id, its group the group id unless there is a file
        of its own for that; the group of the latter serves as user id only for want of the former. */
    lemma FileOwners(i: Item, path: string, owner: Owner)
      requires stat(path) == Some(owner)
      ensures i.uidPath == Some(path) ==>
                FileUid(i) == Some(owner.uid) && (Useless(i.gidPath) ==> FileGid(i) == Some(owner.gid))
      ensures i.gidPath == Some(path) ==>
                FileGid(i) == Some(owner.gid) && (Useless(i.uidPath) ==> FileUid(i) == Some(owner.gid))
    {
    }

    /** read_id_from_file, for one of the two ids. */
    method ReadIdFromFile(i: Item, wantUid: bool) returns (id: Option<Id>)
      ensures id == if wantUid then FileUid(i) else FileGid(i)
      ensures Useless(i.uidPath) && Useless(i.gidPath) <==> id.None?
    {
      var uid: Option<Id>, gid: Option<Id> := None, None;
      if !wantUid && i.gidPath.Some? {
        var st := stat(i.gidPath.value);
        if st.Some? {
          gid := Some(st.value.gid);
        }
      }
      if (wantUid || gid.None?) && i.uidPath.Some? {
        var st := stat(i.uidPath.value);
        if st.Some? {
          uid := Some(st.value.uid);
          if !wantUid {
            gid := Some(st.value.gid);
          }
        }
      }
      if wantUid && uid.None? && i.gidPath.Some? {
        var st := stat(i.gidPath.value);
        if st.Some? {
          uid := Some(st.value.gid);
        }
      }
      id := if wantUid then uid else gid;
    }

    /** The first of two proposals, unless it is taken. */
    function Prefer(q: Query, first: Option<Id>, second: Option<Id>): (r: Option<Id>)
      reads this`todoUids, this`todoGids
    {
      if first.Some? && IsOk(q, first.value) != Taken then first else second
    }

    /** The proposal that decides: the suggested id, the user id, the owner of the file. */
    function GidProposal(i: Item): (r: Option<Id>)
      reads this`todoUids, this`todoGids, i
    {
      Prefer(ForGroup, if i.gidSet then Some(i.gid) else None,
             Prefer(ForGroup, if i.uidSet then Some(i.uid) else None,
                    Prefer(ForGroup, Usable(FileGid(i)), None)))
    }

    /** The proposal that decides: the suggested id, the owner of the file, the group id. */
    function UidProposal(i: Item): (r: Option<Id>)
      reads this`todoUids, this`todoGids, i
    {
      Prefer(ForUser(i.name), if i.uidSet then Some(i.uid) else None,
             Prefer(ForUser(i.name), Usable(FileUid(i)),
                    Prefer(ForUser(i.name), if i.gidSet then Some(i.gid) else None, None)))
    }

    /** The search decides when no proposal does. It went from s to t. */
    ghost predicate Searched(q: Query, s: Id, st: Status, t: Id)
      reads this`todoUids, this`todoGids
    {
      && (st.Done? ==> Member(pool, t) && Skipped(q, s, t))
      && (st.Failure? ==> IsOk(q, t) == Error(st.errno) && Skipped(q, s, t))
      && (st.NoFreeId? <==> !Member(pool, 0) && TakenBetween(q, -1, s))
      && (st.Hangs? <==> Member(pool, 0) && TakenBetween(q, -1, UID_INVALID))
    }

    /** An id that was chosen is free; a proposal that is not taken decides alone. */
    ghost predicate Chosen(q: Query, proposal: Option<Id>, s: Id, t: Id, st: Status, id: Id, isSet: bool)
      reads this`todoUids, this`todoGids
    {
      && (st.Done? ==> isSet && IsOk(q, id) == Free)
      && (proposal.Some? ==> t == s && st == match IsOk(q, proposal.value)
                                               case Error(e) => Failure(e)
                                               case _ => Done)
      && (proposal.Some? && st.Done? ==> id == proposal.value)
      && (proposal.None? ==> Searched(q, s, st, t) && (st.Done? ==> id == t))
    }

    method ChooseGid(i: Item) returns (st: Status)
      requires PoolOk()
      modifies this`searchUid, i`gid, i`gidSet
      ensures PoolOk() && (st.Hangs? ==> Member(pool, 0))
      ensures Chosen(ForGroup, old(GidProposal(i)), old(searchUid), searchUid, st, i.gid, i.gidSet)
    {
      hide Valid, Member, GidIsOk, UidIsOk, Skipped, TakenBetween, FileGid;
      if i.gidSet {
        var c := IsOk(ForGroup, i.gid);
        if c.Error? {
          return Failure(c.errno);
        }
        i.gidSet := c.Free?;
      }
      if !i.gidSet && i.uidSet {
        var c := IsOk(ForGroup, i.uid);
        if c.Error? {
          return Failure(c.errno);
        }
        if c.Free? {
          i.gid, i.gidSet := i.uid, true;
        }
      }
      if !i.gidSet {
        var f := ReadIdFromFile(i, false);
        var usable := false;
        if f.Some? && f.value > 0 {
          usable := Contains(pool, f.value);
        }
        if usable {
          var c := IsOk(ForGroup, f.value);
          if c.Error? {
            return Failure(c.errno);
          }
          if c.Free? {
            i.gid, i.gidSet := f.value, true;
          }
        }
      }
      if i.gidSet {
        return Done;
      }
      st := Search(ForGroup);
      if st.Done? {
        i.gidSet, i.gid := true, searchUid;
      }
    }

    method Search(q: Query) returns (st: Status)
      requires PoolOk()
      modifies this`searchUid
      ensures PoolOk() && Searched(q, old(searchUid), st, searchUid)
      ensures (st.Done? ==> IsOk(q, searchUid) == Free) && (st.Hangs? ==> Member(pool, 0))
    {
      hide Valid, Member, IsOk, Skipped, TakenBetween;
      var o := SearchPool(q);
      match o {
        case Hit => st := Done;
        case Exhausted => st := NoFreeId;
        case Broken(e) => st := Failure(e);
        case Diverges => st := Hangs;
      }
    }

    method ChooseUid(i: Item) returns (st: Status)
      requires PoolOk()
      modifies this`searchUid, i`uid, i`uidSet
      ensures PoolOk() && (st.Hangs? ==> Member(pool, 0))
      ensures Chosen(ForUser(i.name), old(UidProposal(i)), old(searchUid), searchUid, st, i.uid, i.uidSet)
    {
      hide Valid, Member, GidIsOk, UidIsOk, Skipped, TakenBetween, FileUid;
      if i.uidSet {
        var c := IsOk(ForUser(i.name), i.uid);
        if c.Error? {
          return Failure(c.errno);
        }
        i.uidSet := c.Free?;
      }
      if !i.uidSet {
        var f := ReadIdFromFile(i, true);
        var usable := false;
        if f.Some? && f.value > 0 {
          usable := Contains(pool, f.value);
        }
        if usable {
          var c := IsOk(ForUser(i.name), f.value);
          if c.Error? {
            return Failure(c.errno);
          }
          if c.Free? {
            i.uid, i.uidSet := f.value, true;
          }
        }
      }
      if !i.uidSet && i.gidSet {
        var c := IsOk(ForUser(i.name), i.gid);
        if c.Error? {
          return Failure(c.errno);
        }
        if c.Free? {
          i.uid, i.uidSet := i.gid, true;
        }
      }
      if i.uidSet {
        return Done;
      }
      st := Search(ForUser(i.name));
      if st.Done? {
        i.uidSet, i.uid := true, searchUid;
      }
    }

    // ---- the invariant -------------------------------------------------------------

    /** Every item is registered under its name, users and groups apart. */
    ghost predicate Named()
      reads this`users, this`groups
    {
      && (forall n <- users :: users[n].name == n && users[n].kind == UserItem)
      && (forall n <- groups :: groups[n].name == n && groups[n].kind == GroupItem)
    }

    /** The item that may create the group of its name: the user of that name, if there is one. */
    ghost predicate Creates(i: Item)
      reads this`users, this`groups
    {
      if i.name in users then users[i.name] == i else i.name in groups && groups[i.name] == i
    }

    /** No one outside this run knows the user id, and only a group of that name the group id. */
    ghost predicate UidUnused(uid: Id, name: string) {
      && uid !in db.userOf && (uid in db.groupOf ==> db.groupOf[uid] == name)
      && (!root ==> nss.userById(uid).Missing? && (nss.groupById(uid) == Found(name) || nss.groupById(uid).Missing?))
    }

    ghost predicate GidUnused(gid: Id) {
      && gid !in db.groupOf && gid !in db.userOf
      && (!root ==> nss.groupById(gid).Missing? && nss.userById(gid).Missing?)
    }

    /** The group that bears the name has this id: from the file, the name service or this run. */
    ghost predicate GroupIs(created: map<Id, Item>, name: string, gid: Id) {
      if name in db.gidOf then db.gidOf[name] == gid
      else (!root && nss.groupByName(name) == Found(gid)) || (gid in created && created[gid].name == name)
    }

    ghost predicate UserIs(created: map<Id, Item>, name: string, uid: Id) {
      if name in db.uidOf then db.uidOf[name] == uid
      else (!root && nss.userByName(name) == Found(uid)) || (uid in created && created[uid].name == name)
    }

    /** A name that the file and the name service do not know. */
    ghost predicate NewUserName(name: string) {
      name !in db.uidOf && (!root ==> nss.userByName(name).Missing?)
    }

    ghost predicate NewGroupName(name: string) {
      name !in db.gidOf && (!root ==> nss.groupByName(name).Missing?)
    }

    /** i is to be created as user uid, while the groups `created` are to be created. */
    ghost predicate UserEntry(created: map<Id, Item>, uid: Id, i: Item)
      reads this`users, this`groups, i`uid, i`gid
    {
      && Creates(i) && i.kind == UserItem && i.uid == uid
      && UidUnused(uid, i.name) && NewUserName(i.name) && GroupIs(created, i.name, i.gid)
      && (uid in created ==> created[uid].name == i.name)
    }

    ghost predicate GroupEntry(gid: Id, i: Item)
      reads this`users, this`groups, i`gid
    {
      Creates(i) && i.gid == gid && GidUnused(gid) && NewGroupName(i.name)
    }

    /** Exactly the items with the flag are on the list, each under its own id. */
    ghost predicate Listed(uids: map<Id, Item>, gids: map<Id, Item>, i: Item)
      reads i`uid, i`gid, i`todoUser, i`todoGroup
    {
      && (i.todoUser ==> i.uid in uids && uids[i.uid] == i)
      && (i.todoGroup ==> i.gid in gids && gids[i.gid] == i)
    }

    ghost predicate Inv()
      reads this, users.Values, groups.Values, todoUids.Values, todoGids.Values
    {
      && PoolOk() && Named()
      && (forall u <- todoUids :: todoUids[u].todoUser && UserEntry(todoGids, u, todoUids[u]))
      && (forall g <- todoGids :: todoGids[g].todoGroup && GroupEntry(g, todoGids[g]))
      && (forall j <- users.Values + groups.Values :: Listed(todoUids, todoGids, j))
    }

    // ---- adding --------------------------------------------------------------------

    /** A known name ends the matter, for good or with the error of the name service. */
    function KnownStatus<T>(inFile: bool, reply: Reply<T>): (st: Status)
      ensures !inFile && reply.Failed? <==> st.Failure?
    {
      if !inFile && reply.Failed? then Failure(reply.errno) else Done
    }

    /** What add_group does to the list: an existing group adds nothing, a new one itself. */
    ghost predicate GroupAdded(i: Item, st: Status, before: map<Id, Item>)
      reads this`todoGids, i`gid, i`gidSet, i`todoGroup
    {
      && (i.todoGroup <==> st.Done? && NewGroupName(i.name))
      && (if i.todoGroup then i.gid !in before && todoGids == before[i.gid := i] else todoGids == before)
      && (st.Done? ==> i.gidSet && GroupIs(todoGids, i.name, i.gid))
      && (!NewGroupName(i.name) ==> st == KnownStatus(i.name in db.gidOf, nss.groupByName(i.name)))
    }

    ghost predicate UserAdded(i: Item, st: Status, before: map<Id, Item>)
      reads this`todoUids, i`uid, i`uidSet, i`todoUser
    {
      && (i.todoUser <==> st.Done? && NewUserName(i.name))
      && (if i.todoUser then i.uid !in before && todoUids == before[i.uid := i] else todoUids == before)
      && (st.Done? ==> i.uidSet && UserIs(todoUids, i.name, i.uid))
      && (!NewUserName(i.name) ==> st == KnownStatus(i.name in db.uidOf, nss.userByName(i.name)))
    }

    /** A choice that cannot fail: the first proposal that counts is free, or there is none, the name
        service is not asked and the pool has a free id below s. */
    ghost predicate Sure(proposal: Option<Id>, s: Id)
      reads this`todoUids, this`todoGids
    {
      match proposal
      case Some(gid) => GidIsOk(gid) == Free
      case None => root && exists gid: Id :: gid < s && Member(pool, gid) && GidIsOk(gid) == Free
    }

    lemma SureIsDone(proposal: Option<Id>, s: Id, t: Id, st: Status, id: Id, isSet: bool)
      requires Sure(proposal, s) && Chosen(ForGroup, proposal, s, t, st, id, isSet)
      ensures st == Done
    {
      hide Member, UidIsOk;
      if proposal.None? {
        var gid: Id :| gid < s && Member(pool, gid) && GidIsOk(gid) == Free;
        assert IsOk(ForGroup, gid) == Free;
        assert IsOk(ForGroup, t) == GidIsOk(t) && !GidIsOk(t).Error?;
      }
    }

    ghost predicate SureGid(i: Item)
      reads this`todoUids, this`todoGids, this`searchUid, i
    {
      NewGroupName(i.name) && Sure(GidProposal(i), searchUid)
    }

    method SetGid(i: Item, gid: Id)
      requires Inv() && !i.todoGroup && !i.todoUser
      modifies i`gid, i`gidSet
      ensures Inv() && i.gidSet && i.gid == gid
    {
      hide Valid, Member, UserEntry, GroupEntry;
      i.gid, i.gidSet := gid, true;
    }

    method PickGid(i: Item) returns (st: Status)
      requires Inv() && !i.todoGroup && !i.todoUser
      modifies this`searchUid, i`gid, i`gidSet
      ensures Inv() && (st.Hangs? ==> Member(pool, 0))
      ensures Chosen(ForGroup, old(GidProposal(i)), old(searchUid), searchUid, st, i.gid, i.gidSet)
    {
      hide Valid, Member, UserEntry, GroupEntry, Chosen, GidProposal;
      st := ChooseGid(i);
    }

    lemma FreeGid(gid: Id)
      ensures GidIsOk(gid) == Free <==> gid !in todoGids && gid !in todoUids && GidUnused(gid)
    {
    }

    lemma FreeUid(uid: Id, name: string)
      ensures UidIsOk(uid, name) == Free <==>
                uid !in todoUids && (uid in todoGids ==> todoGids[uid].name == name) && UidUnused(uid, name)
    {
    }

    /** The error of the name service counts only for an id that this run and the files do not have. */
    lemma UidError(uid: Id, name: string, e: nat)
      ensures UidIsOk(uid, name) == Error(e) <==>
              && !root && uid !in todoUids && uid !in db.userOf
              && (uid in todoGids ==> todoGids[uid].name == name) && (uid in db.groupOf ==> db.groupOf[uid] == name)
              && (nss.userById(uid) == Failed(e) || (nss.userById(uid) == Missing && nss.groupById(uid) == Failed(e)))
    {
    }

    lemma GidError(gid: Id, e: nat)
      ensures GidIsOk(gid) == Error(e) <==>
              && !root && gid !in todoGids && gid !in todoUids && gid !in db.groupOf && gid !in db.userOf
              && (nss.groupById(gid) == Failed(e) || (nss.groupById(gid) == Missing && nss.userById(gid) == Failed(e)))
    {
    }

    lemma UserEntryKept(created: map<Id, Item>, u: Id, j: Item, gid: Id, i: Item)
      requires UserEntry(created, u, j) && gid !in created && u != gid
      ensures UserEntry(created[gid := i], u, j)
    {
    }

    lemma ListedKept(uids: map<Id, Item>, gids: map<Id, Item>, j: Item, id: Id, i: Item)
      requires Listed(uids, gids, j)
      ensures id !in gids ==> Listed(uids, gids[id := i], j)
      ensures id !in uids ==> Listed(uids[id := i], gids, j)
    {
    }

    method PutGroup(i: Item)
      requires Inv() && Creates(i) && !i.todoGroup && !i.todoUser && NewGroupName(i.name) && GidIsOk(i.gid) == Free
      modifies this`todoGids, i`todoGroup
      ensures Inv() && i.todoGroup && i.gid !in old(todoGids) && todoGids == old(todoGids)[i.gid := i]
    {
      hide PoolOk, UidUnused, GidUnused, NewUserName, NewGroupName, GidIsOk, UserEntry, Listed;
      FreeGid(i.gid);
      todoGids := todoGids[i.gid := i];
      i.todoGroup := true;
      forall u | u in todoUids
        ensures todoUids[u].todoUser && UserEntry(todoGids, u, todoUids[u])
      {
        UserEntryKept(old(todoGids), u, todoUids[u], i.gid, i);
      }
      forall j | j in users.Values + groups.Values
        ensures Listed(todoUids, todoGids, j)
      {
        if j != i {
          ListedKept(todoUids, old(todoGids), j, i.gid, i);
        } else {
          ListsItself(j);
        }
      }
    }

    lemma ListsItself(i: Item)
      requires i.todoUser ==> i.uid in todoUids && todoUids[i.uid] == i
      requires i.todoGroup ==> i.gid in todoGids && todoGids[i.gid] == i
      ensures Listed(todoUids, todoGids, i)
    {
    }

    method AddGroup(i: Item) returns (st: Status)
      requires Inv() && Creates(i) && !i.todoGroup && !i.todoUser
      modifies this`todoGids, this`searchUid, i`gid, i`gidSet, i`todoGroup
      ensures Inv() && GroupAdded(i, st, old(todoGids)) && (st.Hangs? ==> Member(pool, 0))
      ensures if NewGroupName(i.name) then
                var t, id, isSet := searchUid, i.gid, i.gidSet;
                old(Chosen(ForGroup, GidProposal(i), searchUid, t, st, id, isSet))
              else searchUid == old(searchUid)
      ensures old(SureGid(i)) ==> st == Done
    {
      hide Valid, Member, Searched, UidIsOk, GidIsOk, Inv, GidProposal, Sure;
      if i.name in db.gidOf {
        SetGid(i, db.gidOf[i.name]);
        return Done;
      }
      if !root {
        var g := nss.groupByName(i.name);
        if g.Found? {
          SetGid(i, g.entry);
          return Done;
        }
        if g.Failed? {
          return Failure(g.errno);
        }
      }
      ghost var proposal, from := GidProposal(i), searchUid;
      st := PickGid(i);
      if Sure(proposal, from) {
        SureIsDone(proposal, from, searchUid, st, i.gid, i.gidSet);
      }
      if st.Done? {
        assert IsOk(ForGroup, i.gid) == Free;
        PutGroup(i);
      }
    }

    method SetUid(i: Item, uid: Id)
      requires Inv() && !i.todoUser
      modifies i`uid, i`uidSet
      ensures Inv() && i.uidSet && i.uid == uid
    {
      hide Valid, Member, UserEntry, GroupEntry;
      i.uid, i.uidSet := uid, true;
    }

    method PickUid(i: Item) returns (st: Status)
      requires Inv() && !i.todoUser
      modifies this`searchUid, i`uid, i`uidSet
      ensures Inv() && (st.Hangs? ==> Member(pool, 0))
      ensures Chosen(ForUser(i.name), old(UidProposal(i)), old(searchUid), searchUid, st, i.uid, i.uidSet)
    {
      hide Valid, Member, UserEntry, GroupEntry, Chosen, UidProposal;
      st := ChooseUid(i);
    }

    method PutUser(i: Item)
      requires Inv() && Creates(i) && i.kind == UserItem && !i.todoUser && NewUserName(i.name)
      requires UidIsOk(i.uid, i.name) == Free && GroupIs(todoGids, i.name, i.gid)
      modifies this`todoUids, i`todoUser
      ensures Inv() && i.todoUser && i.uid !in old(todoUids) && todoUids == old(todoUids)[i.uid := i]
    {
      hide PoolOk, UidUnused, GidUnused, NewUserName, NewGroupName, UidIsOk, Listed, GroupEntry, GroupIs;
      FreeUid(i.uid, i.name);
      assert old(Listed(todoUids, todoGids, i)) by {
        assert i in users.Values;
      }
      ListsItsGroup(i);
      todoUids := todoUids[i.uid := i];
      i.todoUser := true;
      forall j | j in users.Values + groups.Values
        ensures Listed(todoUids, todoGids, j)
      {
        if j != i {
          ListedKept(old(todoUids), todoGids, j, i.uid, i);
        } else {
          ListsItself(j);
        }
      }
    }

    lemma ListsItsGroup(i: Item)
      requires Listed(todoUids, todoGids, i)
      ensures i.todoGroup ==> i.gid in todoGids && todoGids[i.gid] == i
    {
    }

    method AddUser(i: Item) returns (st: Status)
      requires Inv() && Creates(i) && i.kind == UserItem && !i.todoUser && GroupIs(todoGids, i.name, i.gid)
      modifies this`todoUids, this`searchUid, i`uid, i`uidSet, i`todoUser
      ensures Inv() && UserAdded(i, st, old(todoUids)) && (st.Hangs? ==> Member(pool, 0))
      ensures if NewUserName(i.name) then
                var t, id, isSet := searchUid, i.uid, i.uidSet;
                old(Chosen(ForUser(i.name), UidProposal(i), searchUid, t, st, id, isSet))
              else searchUid == old(searchUid)
    {
      hide Valid, Member, Searched, UidIsOk, GidIsOk, Inv, UidProposal, GroupIs;
      if i.name in db.uidOf {
        SetUid(i, db.uidOf[i.name]);
        return Done;
      }
      if !root {
        var p := nss.userByName(i.name);
        if p.Found? {
          SetUid(i, p.entry);
          return Done;
        }
        if p.Failed? {
          return Failure(p.errno);
        }
      }
      st := PickUid(i);
      if st.Done? {
        assert IsOk(ForUser(i.name), i.uid) == Free;
        PutUser(i);
      }
    }

    // ---- processing ----------------------------------------------------------------

    /** A user item gets its group, then its user id. A user that fails leaves its new group on the
        list. gst and mid are the status and the search position after the group. */
    method ProcessUser(i: Item) returns (st: Status, ghost gst: Status, ghost mid: Id)
      requires Inv() && Creates(i) && i.kind == UserItem && !i.todoGroup && !i.todoUser
      modifies this`todoUids, this`todoGids, this`searchUid
      modifies i`uid, i`gid, i`uidSet, i`gidSet, i`todoUser, i`todoGroup
      ensures Inv() && (st.Hangs? ==> Member(pool, 0))
      ensures GroupAdded(i, gst, old(todoGids))
      ensures if gst.Done? then UserAdded(i, st, old(todoUids))
              else st == gst && !i.todoUser && todoUids == old(todoUids)
      ensures if NewGroupName(i.name) then
                var id, isSet := i.gid, i.gidSet;
                old(Chosen(ForGroup, GidProposal(i), searchUid, mid, gst, id, isSet))
              else mid == old(searchUid)
      ensures st.Done? ==> GroupIs(todoGids, i.name, i.gid) && UserIs(todoUids, i.name, i.uid)
      ensures Extends(old(todoUids), todoUids) && Extends(old(todoGids), todoGids)
    {
      hide Inv, GroupIs, UserIs, Chosen;
      st := AddGroup(i);
      gst, mid := st, searchUid;
      if st.Done? {
        st := AddUser(i);
      }
    }

    /** A group item leaves the work to the user of the same name, if there is one. */
    method ProcessGroup(i: Item) returns (st: Status)
      requires Inv() && i.name in groups && groups[i.name] == i && !i.todoGroup && !i.todoUser
      requires UsersUntouched()
      modifies this`todoGids, this`searchUid, i`gid, i`gidSet, i`todoGroup
      modifies users.Values`gid, users.Values`gidSet, users.Values`gidPath
      ensures Inv() && Extends(old(todoGids), todoGids) && UsersUntouched()
      ensures i.name in users ==> todoGids == old(todoGids) && !i.todoGroup && searchUid == old(searchUid)
      ensures i.name in users && i.gidSet ==> users[i.name].gidSet && users[i.name].gid == i.gid
      ensures i.name in users && i.gidPath.Some? ==> users[i.name].gidPath == i.gidPath
      ensures if i.name in users then st == Done else GroupAdded(i, st, old(todoGids))
      ensures i.name !in users && st.Done? ==> GroupIs(todoGids, i.name, i.gid)
      ensures st.Hangs? ==> Member(pool, 0)
      ensures i.name !in users && old(SureGid(i)) ==> st == Done
    {
      hide Inv, GroupIs, UserIs, Chosen, SureGid;
      if i.name in users {
        var j := users[i.name];
        GroupIsNoUser(i);
        if i.gidSet {
          SetGid(j, i.gid);
        }
        if i.gidPath.Some? {
          SetGidPath(j, i.gidPath);
        }
        return Done;
      }
      GroupIsNoUser(i);
      st := AddGroup(i);
    }

    lemma GroupIsNoUser(i: Item)
      requires Inv() && i in groups.Values
      ensures i !in users.Values
    {
    }

    method SetGidPath(i: Item, path: Option<string>)
      requires Inv()
      modifies i`gidPath
      ensures Inv() && i.gidPath == path
    {
      hide Valid, Member, UserEntry, GroupEntry, Listed;
      i.gidPath := path;
    }

    ghost predicate Extends(before: map<Id, Item>, after: map<Id, Item>) {
      forall id <- before :: id in after && after[id] == before[id]
    }

    /** An iteration over a table visits every key once, in some order. */
    ghost predicate Enumerates(order: seq<string>, table: map<string, Item>) {
      && (forall k, l :: 0 <= k < l < |order| ==> order[k] != order[l])
      && (forall k :: 0 <= k < |order| ==> order[k] in table)
      && (forall n <- table :: n in order)
    }

    ghost predicate Untouched(i: Item)
      reads i`todoUser, i`todoGroup
    {
      !i.todoUser && !i.todoGroup
    }

    ghost predicate UsersUntouched()
      reads this`users, users.Values`todoUser, users.Values`todoGroup
    {
      forall n <- users :: Untouched(users[n])
    }

    /** The state in which processing starts. */
    ghost predicate Initial()
      reads this, users.Values, groups.Values
    {
      && Valid(pool) && searchUid == UID_INVALID && Named() && todoUids == map[] && todoGids == map[]
      && UsersUntouched()
      && (forall n <- groups :: Untouched(groups[n]))
    }

    lemma InitialInv()
      requires Initial()
      ensures Inv()
    {
    }

    /** Every group that the first pass is responsible for now exists, unless it failed; a group item is
        flagged exactly when it created its group. */
    ghost predicate GroupsDone(order: seq<string>, log: seq<Status>)
      requires |log| <= |order| && forall k :: 0 <= k < |order| ==> order[k] in groups
      reads this`users, this`groups, this`todoGids, groups.Values`gid, groups.Values`todoGroup
    {
      forall l :: 0 <= l < |log| ==>
        && (groups[order[l]].todoGroup <==> Created(order[l], log[l]))
        && (order[l] !in users && log[l].Done? ==> GroupIs(todoGids, order[l], groups[order[l]].gid))
    }

    /** A group item that no user item shares its name with has created a new group. */
    ghost predicate Created(name: string, st: Status)
      reads this`users
    {
      name !in users && st.Done? && NewGroupName(name)
    }

    ghost predicate UsersDone(order: seq<string>, log: seq<Status>)
      requires |log| <= |order| && forall k :: 0 <= k < |order| ==> order[k] in users
      reads this, users.Values
    {
      forall l :: 0 <= l < |log| && log[l].Done? ==>
                    GroupIs(todoGids, order[l], users[order[l]].gid) && UserIs(todoUids, order[l], users[order[l]].uid)
    }

    /** A pass over the items: all of them, or up to one whose search does not end. */
    ghost predicate Passed(order: seq<string>, log: seq<Status>) {
      && |log| <= |order| && (!Stuck(log) ==> |log| == |order|)
      && (forall l :: 0 <= l < |log| && log[l].Hangs? ==> l == |log| - 1)
      && (Stuck(log) ==> Member(pool, 0))
    }

    method ProcessGroups(order: seq<string>) returns (log: seq<Status>)
      requires Initial() && Enumerates(order, groups)
      modifies this`todoGids, this`searchUid, users.Values`gid, users.Values`gidSet, users.Values`gidPath
      modifies groups.Values`gid, groups.Values`gidSet, groups.Values`todoGroup
      ensures Inv() && Passed(order, log) && GroupsDone(order, log)
      ensures UsersUntouched()
      ensures old(FirstIsSure(order)) ==> log != [] && log[0] == Done
    {
      hide Inv, Extends, Valid, Member, UsersUntouched, GroupsDone, SureGid;
      log := [];
      InitialInv();
      NoGroupDone(order);
      while |log| < |order| && !Stuck(log)
        invariant |log| <= |order| && Inv() && GroupsDone(order, log)
        invariant forall l :: 0 <= l < |log| && log[l].Hangs? ==> l == |log| - 1 && Member(pool, 0)
        invariant UsersUntouched()
        invariant old(FirstIsSure(order)) ==> if log == [] then FirstIsSure(order) else log[0] == Done
        invariant forall l :: |log| <= l < |order| ==> Untouched(groups[order[l]])
      {
        var st := ProcessNextGroup(groups[order[|log|]], order, log);
        log := log + [st];
      }
    }

    /** The first group item gets what it proposes. */
    ghost predicate FirstIsSure(order: seq<string>)
      reads this, groups.Values
    {
      order != [] && order[0] in groups && groups[order[0]].name !in users && SureGid(groups[order[0]])
    }

    lemma NoGroupDone(order: seq<string>)
      requires forall k :: 0 <= k < |order| ==> order[k] in groups
      ensures GroupsDone(order, [])
    {
    }

    method ProcessNextGroup(i: Item, ghost order: seq<string>, ghost log: seq<Status>) returns (st: Status)
      requires Inv() && Enumerates(order, groups) && |log| < |order| && GroupsDone(order, log) && UsersUntouched()
      requires i == groups[order[|log|]] && Untouched(i)
      modifies this`todoGids, this`searchUid, users.Values`gid, users.Values`gidSet, users.Values`gidPath
      modifies i`gid, i`gidSet, i`todoGroup
      ensures Inv() && GroupsDone(order, log + [st]) && UsersUntouched() && (st.Hangs? ==> Member(pool, 0))
      ensures i.name !in users && old(SureGid(i)) ==> st == Done
    {
      hide Inv, GroupIs, Extends, Valid, Member, UsersUntouched, SureGid, NewGroupName;
      InvNamed();
      ghost var before := todoGids;
      st := ProcessGroup(i);
      forall l | 0 <= l < |log|
        ensures groups[order[l]].todoGroup <==> Created(order[l], log[l])
        ensures order[l] !in users && log[l].Done? ==> GroupIs(todoGids, order[l], groups[order[l]].gid)
      {
        GroupStays(before, todoGids, order[l], groups[order[l]].gid);
      }
    }

    lemma InvNamed()
      requires Inv()
      ensures Named()
    {
    }

    lemma GroupStays(before: map<Id, Item>, after: map<Id, Item>, name: string, gid: Id)
      requires Extends(before, after)
      ensures GroupIs(before, name, gid) ==> GroupIs(after, name, gid)
      ensures UserIs(before, name, gid) ==> UserIs(after, name, gid)
    {
    }

    method ProcessUsers(order: seq<string>) returns (log: seq<Status>)
      requires Inv() && Enumerates(order, users) && UsersUntouched()
      modifies this`todoUids, this`todoGids, this`searchUid, users.Values
      ensures Inv() && Passed(order, log) && UsersDone(order, log) && Extends(old(todoGids), todoGids)
    {
      hide Inv, Extends, Valid, Member, UsersDone;
      log := [];
      NoUserDone(order);
      ExtendsItself(todoGids);
      while |log| < |order| && !Stuck(log)
        invariant |log| <= |order| && Inv() && UsersDone(order, log) && Extends(old(todoGids), todoGids)
        invariant forall l :: 0 <= l < |log| && log[l].Hangs? ==> l == |log| - 1 && Member(pool, 0)
        invariant forall l :: |log| <= l < |order| ==> Untouched(users[order[l]])
      {
        InvNamed();
        ghost var gids := todoGids;
        var st := ProcessNextUser(users[order[|log|]], order, log);
        ExtendsTransitive(old(todoGids), gids, todoGids);
        log := log + [st];
      }
    }

    method ProcessNextUser(i: Item, ghost order: seq<string>, ghost log: seq<Status>) returns (st: Status)
      requires Inv() && Enumerates(order, users) && |log| < |order| && UsersDone(order, log)
      requires i == users[order[|log|]] && Untouched(i)
      modifies this`todoUids, this`todoGids, this`searchUid, i
      ensures Inv() && UsersDone(order, log + [st]) && Extends(old(todoGids), todoGids)
      ensures st.Hangs? ==> Member(pool, 0)
    {
      hide Inv, GroupIs, UserIs, Extends, Valid, Member, GroupAdded, UserAdded, Chosen, GidProposal, NewGroupName;
      InvNamed();
      ghost var gids, uids := todoGids, todoUids;
      ghost var gst, mid;
      st, gst, mid := ProcessUser(i);
      forall l | 0 <= l < |log|
        ensures log[l].Done? ==>
                  GroupIs(todoGids, order[l], users[order[l]].gid) && UserIs(todoUids, order[l], users[order[l]].uid)
      {
        GroupStays(gids, todoGids, order[l], users[order[l]].gid);
        GroupStays(uids, todoUids, order[l], users[order[l]].uid);
      }
    }

    lemma ExtendsItself(a: map<Id, Item>)
      ensures Extends(a, a)
    {
    }

    lemma ExtendsTransitive(a: map<Id, Item>, b: map<Id, Item>, c: map<Id, Item>)
      requires Extends(a, b) && Extends(b, c)
      ensures Extends(a, c)
    {
    }

    /** What sysusers promises about the ids it hands out. */
    ghost predicate Safe()
      reads this, todoUids.Values, todoGids.Values
    {
      && (forall u <- todoUids :: todoUids[u].uid == u && u !in db.userOf)
      && (forall g <- todoGids :: todoGids[g].gid == g && g !in db.groupOf && g !in db.userOf)
      && (forall u <- todoUids :: u in todoGids ==> todoGids[u].name == todoUids[u].name)
      && (forall u <- todoUids :: u in db.groupOf ==> db.groupOf[u] == todoUids[u].name)
      && (forall u <- todoUids :: GroupIs(todoGids, todoUids[u].name, todoUids[u].gid))
      && (forall u, v :: u in todoUids && v in todoUids && todoUids[u].name == todoUids[v].name ==> u == v)
      && (forall g, h :: g in todoGids && h in todoGids && todoGids[g].name == todoGids[h].name ==> g == h)
    }

    lemma InvSafe()
      requires Inv()
      ensures Safe()
    {
      hide Valid, Member, GroupIs, UidIsOk;
      forall g, h | g in todoGids && h in todoGids && todoGids[g].name == todoGids[h].name
        ensures g == h
      {
        assert GroupEntry(g, todoGids[g]) && GroupEntry(h, todoGids[h]);
      }
      forall u, v | u in todoUids && v in todoUids && todoUids[u].name == todoUids[v].name
        ensures u == v
      {
        assert UserEntry(todoGids, u, todoUids[u]) && UserEntry(todoGids, v, todoUids[v]);
      }
    }

    /** Both passes. The outcome of an item is ignored by the caller, so each log entry may be a
        failure; the ids that were handed out are safe all the same. */
    method Allocate(groupOrder: seq<string>, userOrder: seq<string>)
      returns (groupLog: seq<Status>, userLog: seq<Status>)
      requires Initial() && Enumerates(groupOrder, groups) && Enumerates(userOrder, users)
      modifies this`todoUids, this`todoGids, this`searchUid, users.Values, groups.Values
      ensures Inv() && Safe() && Passed(groupOrder, groupLog)
      ensures if Stuck(groupLog) then userLog == [] else Passed(userOrder, userLog)
      ensures GroupsDone(groupOrder, groupLog) && UsersDone(userOrder, userLog)
      ensures old(FirstIsSure(groupOrder)) ==> groupLog != [] && groupLog[0] == Done
    {
      hide Inv, GroupIs, FirstIsSure, NewGroupName, Initial, UsersUntouched, UsersDone, Safe, Extends;
      userLog := [];
      groupLog := ProcessGroups(groupOrder);
      if Stuck(groupLog) {
        InvSafe();
        NoUserDone(userOrder);
        return;
      }
      ghost var before := todoGids;
      GroupsAreNoUsers();
      userLog := ProcessUsers(userOrder);
      forall l | 0 <= l < |groupLog|
        ensures groups[groupOrder[l]].todoGroup <==> Created(groupOrder[l], groupLog[l])
        ensures groupOrder[l] !in users && groupLog[l].Done? ==>
                  GroupIs(todoGids, groupOrder[l], groups[groupOrder[l]].gid)
      {
        GroupStays(before, todoGids, groupOrder[l], groups[groupOrder[l]].gid);
      }
      InvSafe();
    }

    lemma NoUserDone(order: seq<string>)
      requires forall k :: 0 <= k < |order| ==> order[k] in users
      ensures UsersDone(order, [])
    {
    }

    lemma GroupsAreNoUsers()
      requires Inv()
      ensures users.Values !! groups.Values
    {
    }

    // ---- implicit items ------------------------------------------------------------

    function NamesOf(names: seq<string>): set<string> {
      set l | 0 <= l < |names| :: names[l]
    }

    ghost function MembersOf(members: map<string, seq<string>>, order: seq<string>): set<string>
      requires forall k :: 0 <= k < |order| ==> order[k] in members
    {
      set k, l | 0 <= k < |order| && 0 <= l < |members[order[k]]| :: members[order[k]][l]
    }

    lemma MembersOfNext(members: map<string, seq<string>>, order: seq<string>, k: nat)
      requires (forall k :: 0 <= k < |order| ==> order[k] in members) && k < |order|
      ensures MembersOf(members, order[..k + 1]) == MembersOf(members, order[..k]) + NamesOf(members[order[k]])
      ensures NamesOf(order[..k + 1]) == NamesOf(order[..k]) + {order[k]}
    {
    }

    /** The groups and members named by "m" lines get items of their own if they have none. */
    method AddImplicit(members: map<string, seq<string>>, order: seq<string>)
      requires Initial() && (forall k :: 0 <= k < |order| ==> order[k] in members)
      modifies this`users, this`groups
      ensures Initial() && Kept(old(users), users) && Kept(old(groups), groups)
      ensures groups.Keys == old(groups.Keys) + NamesOf(order)
      ensures users.Keys == old(users.Keys) + MembersOf(members, order)
      ensures forall n <- users :: n in old(users) || fresh(users[n])
      ensures forall n <- groups :: n in old(groups) || fresh(groups[n])
    {
      hide Valid, Member, Initial, NamesOf, MembersOf;
      var k := 0;
      assert NamesOf([]) == {} && MembersOf(members, []) == {} by {
        NoMembers(members);
      }
      assert order[..0] == [];
      while k < |order|
        invariant k <= |order| && Initial() && Kept(old(users), users) && Kept(old(groups), groups)
        invariant groups.Keys == old(groups.Keys) + NamesOf(order[..k])
        invariant users.Keys == old(users.Keys) + MembersOf(members, order[..k])
        invariant forall n <- users :: n in old(users) || fresh(users[n])
        invariant forall n <- groups :: n in old(groups) || fresh(groups[n])
      {
        AddImplicitGroup(order[k]);
        AddImplicitUsers(members[order[k]]);
        MembersOfNext(members, order, k);
        k := k + 1;
      }
      assert order[..k] == order;
    }

    lemma NoMembers(members: map<string, seq<string>>)
      ensures NamesOf([]) == {} && MembersOf(members, []) == {}
    {
    }

    ghost predicate Kept(before: map<string, Item>, after: map<string, Item>) {
      forall n <- before :: n in after && after[n] == before[n]
    }

    method AddImplicitGroup(name: string)
      requires Initial()
      modifies this`groups
      ensures Initial() && Kept(old(groups), groups) && groups.Keys == old(groups.Keys) + {name}
      ensures forall n <- groups :: n in old(groups) || fresh(groups[n])
    {
      hide Valid, Member;
      if name !in groups {
        var j := new Item(GroupItem, name);
        groups := groups[name := j];
      }
    }

    method AddImplicitUsers(names: seq<string>)
      requires Initial()
      modifies this`users
      ensures Initial() && Kept(old(users), users) && users.Keys == old(users.Keys) + NamesOf(names)
      ensures forall n <- users :: n in old(users) || fresh(users[n])
    {
      hide Valid, Member;
      for l := 0 to |names|
        invariant Initial() && Kept(old(users), users) && forall n <- users :: n in old(users) || fresh(users[n])
        invariant users.Keys == old(users.Keys) + set l' | 0 <= l' < l :: names[l']
      {
        if names[l] !in users {
          var j := new Item(UserItem, names[l]);
          users := users[names[l] := j];
        }
      }
    }
  }

  /** A pool of the id 0 alone, which is taken: the search for a group id does not end. */
  method HangingSearch(nss: Nss, stat: string -> Option<Owner>) returns (st: Status)
    ensures st == Hangs
  {
    hide Allocator.Inv, Allocator.GroupAdded, Allocator.Skipped, Allocator.UidIsOk;
    var i := new Item(GroupItem, "g");
    var db := Database(map["root" := 0], map[0 := "root"], map[], map[]);
    var a := new Allocator(db, nss, true, [Range(0, 1)], stat, map[], map["g" := i]);
    assert Member(a.pool, 0) && a.GidIsOk(0) == Taken;
    a.InitialInv();
    st := a.AddGroup(i);
  }
}
