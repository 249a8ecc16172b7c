/** Access grants (models/access_grants.py), the group membership under them (models/groups.py), and the
    shared-folder permissions computed from them (models/folders.py). */
module AccessGrants {
  import opened Basics

  datatype Grant = Grant(
    resourceType: string, resourceId: Id, principalType: string, principalId: Id, permission: string)

  /** What a conversion keeps of a grant. */
  datatype Triple = Triple(principalType: string, principalId: Id, permission: string)

  datatype Membership = Membership(rowId: Id, groupId: Id, userId: Id)

  const USER := "user"
  const GROUP := "group"
  const ANYONE := "*"

  // ----- the relation all queries decide -----

  /** `get_groups_by_member_id` joins memberships with the groups that exist. */
  function GroupsOf(groups: set<Id>, members: set<Membership>, user: Id): (r: set<Id>) {
    set m | m in members && m.userId == user && m.groupId in groups :: m.groupId
  }

  /** `get_group_user_ids_by_id` reads the memberships alone. */
  function MembersOf(members: set<Membership>, group: Id): (r: set<Id>) {
    set m | m in members && m.groupId == group :: m.userId
  }

  /** A membership refers to a group that exists (the foreign key of the table). */
  ghost predicate Referenced(groups: set<Id>, members: set<Membership>) {
    forall m :: m in members ==> m.groupId in groups
  }

  /** The conditions of `has_access`: public, direct, and, unless there are no groups, one of them. */
  predicate ForPrincipal(g: Grant, user: Id, groupIds: set<Id>) {
    || (g.principalType == USER && g.principalId == ANYONE)
    || (g.principalType == USER && g.principalId == user)
    || (groupIds != {} && g.principalType == GROUP && g.principalId in groupIds)
  }

  /** The conditions of the batch query, which lists them for itself. */
  function BatchConditions(g: Grant, user: Id, groupIds: set<Id>): (r: seq<bool>) {
    var conditions := [
      g.principalType == USER && g.principalId == ANYONE,
      g.principalType == USER && g.principalId == user];
    if groupIds != {} then conditions + [g.principalType == GROUP && g.principalId in groupIds] else conditions
  }

  predicate BatchCondition(g: Grant, user: Id, groupIds: set<Id>) {
    true in BatchConditions(g, user, groupIds)
  }

  /** The conditions of the shared-folder query. */
  predicate SharedCondition(g: Grant, user: Id, groupIds: set<Id>) {
    var shared :=
      (g.principalType == USER && g.principalId == ANYONE) || (g.principalType == USER && g.principalId == user);
    if groupIds != {} then shared || (g.principalType == GROUP && g.principalId in groupIds) else shared
  }

  predicate HasAccess(grants: set<Grant>, user: Id, resourceType: string, resourceId: Id, permission: string,
                      groupIds: set<Id>) {
    exists g :: g in grants && g.resourceType == resourceType && g.resourceId == resourceId
                && g.permission == permission && ForPrincipal(g, user, groupIds)
  }

  /** `get_accessible_resource_ids`: one query over all the ids. */
  function AccessibleIds(grants: set<Grant>, user: Id, resourceType: string, ids: seq<Id>, permission: string,
                         groupIds: set<Id>): (r: set<Id>) {
    if ids == [] then {}
    else set g | g in grants && g.resourceType == resourceType && g.resourceId in ids
                 && g.permission == permission && BatchCondition(g, user, groupIds) :: g.resourceId
  }

  lemma BatchConditionMeans(g: Grant, user: Id, groupIds: set<Id>)
    ensures BatchCondition(g, user, groupIds) <==> ForPrincipal(g, user, groupIds)
  {
    var conditions := BatchConditions(g, user, groupIds);
    assert conditions[0] in conditions && conditions[1] in conditions;
    assert groupIds != {} ==> conditions[2] in conditions;
  }

  lemma BatchAgrees(grants: set<Grant>, user: Id, resourceType: string, ids: seq<Id>, permission: string,
                    groupIds: set<Id>, id: Id)
    ensures id in AccessibleIds(grants, user, resourceType, ids, permission, groupIds) <==>
            id in ids && HasAccess(grants, user, resourceType, id, permission, groupIds)
  {
    forall g ensures BatchCondition(g, user, groupIds) <==> ForPrincipal(g, user, groupIds) {
      BatchConditionMeans(g, user, groupIds);
    }
    if id in ids && HasAccess(grants, user, resourceType, id, permission, groupIds) {
      var g :| g in grants && g.resourceType == resourceType && g.resourceId == id
               && g.permission == permission && ForPrincipal(g, user, groupIds);
      assert g.resourceId == id;
    }
  }

  datatype Document = Document(id: Id, userId: Id)

  predicate PublicGrant(grants: set<Grant>, resourceType: string, resourceId: Id, permission: string) {
    Grant(resourceType, resourceId, USER, ANYONE, permission) in grants
  }

  /** A grant to the caller or one of the groups; an empty user id or group list contributes no condition. */
  predicate OwnGrant(grants: set<Grant>, user: Id, groupIds: seq<Id>, resourceType: string, resourceId: Id,
                     permission: string) {
    || (user != "" && Grant(resourceType, resourceId, USER, user, permission) in grants)
    || (exists g :: g in groupIds && Grant(resourceType, resourceId, GROUP, g, permission) in grants)
  }

  /** `has_permission_filter`, one document at a time. */
  predicate FilterAccepts(grants: set<Grant>, doc: Document, user: Id, groupIds: seq<Id>, resourceType: string,
                          permission: string) {
    if groupIds == [] && user == "" then true
    else
      || PublicGrant(grants, resourceType, doc.id, permission)
      || OwnGrant(grants, user, groupIds, resourceType, doc.id, permission)
      || (user != "" && doc.userId == user)
  }

  lemma AccessByGrants(grants: set<Grant>, user: Id, groupIds: seq<Id>, resourceType: string, id: Id,
                       permission: string)
    requires user != ""
    ensures HasAccess(grants, user, resourceType, id, permission, Elems(groupIds)) <==>
            PublicGrant(grants, resourceType, id, permission) ||
                OwnGrant(grants, user, groupIds, resourceType, id, permission)
  {
    if HasAccess(grants, user, resourceType, id, permission, Elems(groupIds)) {
      var g :| g in grants && g.resourceType == resourceType && g.resourceId == id
               && g.permission == permission && ForPrincipal(g, user, Elems(groupIds));
      assert g == Grant(resourceType, id, g.principalType, g.principalId, permission);
    }
    if PublicGrant(grants, resourceType, id, permission) {
      assert ForPrincipal(Grant(resourceType, id, USER, ANYONE, permission), user, Elems(groupIds));
    }
    if OwnGrant(grants, user, groupIds, resourceType, id, permission) {
      if Grant(resourceType, id, USER, user, permission) in grants {
        assert ForPrincipal(Grant(resourceType, id, USER, user, permission), user, Elems(groupIds));
      } else {
        var g :| g in groupIds && Grant(resourceType, id, GROUP, g, permission) in grants;
        assert g in Elems(groupIds);
        assert ForPrincipal(Grant(resourceType, id, GROUP, g, permission), user, Elems(groupIds));
      }
    }
  }

  /** For a caller with an id the filter accepts exactly the documents owned or accessible. */
  lemma FilterAgrees(grants: set<Grant>, doc: Document, user: Id, groupIds: seq<Id>, resourceType: string,
                     permission: string)
    requires user != ""
    ensures FilterAccepts(grants, doc, user, groupIds, resourceType, permission) <==>
            doc.userId == user || HasAccess(grants, user, resourceType, doc.id, permission, Elems(groupIds))
  {
    AccessByGrants(grants, user, groupIds, resourceType, doc.id, permission);
  }

  /** Without a caller the filter accepts everything if no groups are given, and otherwise exactly what is public or
      granted to one of them. */
  lemma FilterWithoutCaller(grants: set<Grant>, doc: Document, groupIds: seq<Id>, resourceType: string,
                            permission: string)
    ensures FilterAccepts(grants, doc, "", groupIds, resourceType, permission) <==>
            || groupIds == []
            || exists g :: g in grants && g.resourceType == resourceType && g.resourceId == doc.id
                           && g.permission == permission
                           && ((g.principalType == "user" && g.principalId == "*")
                               || (g.principalType == "group" && g.principalId in groupIds))
  {
    forall g | g in grants
      ensures g == Grant(g.resourceType, g.resourceId, g.principalType, g.principalId, g.permission)
    {
    }
  }

  /** `_has_read_only_permission_filter`. */
  predicate ReadOnlyAccepts(grants: set<Grant>, doc: Document, user: Id, groupIds: seq<Id>, resourceType: string) {
    && OwnGrant(grants, user, groupIds, resourceType, doc.id, "read")
    && !OwnGrant(grants, user, groupIds, resourceType, doc.id, "write")
    && !PublicGrant(grants, resourceType, doc.id, "read")
    && (user != "" ==> doc.userId != user)
  }

  /** Without a public write grant the read-only filter accepts exactly the documents that are neither owned
      nor public and that can be read but not written. With one, every document it accepts can be written too. */
  lemma ReadOnlyMeans(grants: set<Grant>, doc: Document, user: Id, groupIds: seq<Id>, resourceType: string)
    requires user != ""
    ensures !PublicGrant(grants, resourceType, doc.id, "write") ==>
              (ReadOnlyAccepts(grants, doc, user, groupIds, resourceType) <==>
               && doc.userId != user && !PublicGrant(grants, resourceType, doc.id, "read")
               && HasAccess(grants, user, resourceType, doc.id, "read", Elems(groupIds))
               && !HasAccess(grants, user, resourceType, doc.id, "write", Elems(groupIds)))
    ensures ReadOnlyAccepts(grants, doc, user, groupIds, resourceType) ==>
              && HasAccess(grants, user, resourceType, doc.id, "read", Elems(groupIds)) && doc.userId != user
              && (HasAccess(grants, user, resourceType, doc.id, "write", Elems(groupIds)) <==>
                  PublicGrant(grants, resourceType, doc.id, "write"))
  {
    AccessByGrants(grants, user, groupIds, resourceType, doc.id, "read");
    AccessByGrants(grants, user, groupIds, resourceType, doc.id, "write");
  }

  /** One grant to read, and a public one to write: shown as read-only, and writable. */
  lemma ReadOnlyYetWritable(user: Id, owner: Id, id: Id, resourceType: string)
    returns (grants: set<Grant>, doc: Document)
    requires user != "" && user != ANYONE && owner != user
    ensures ReadOnlyAccepts(grants, doc, user, [], resourceType)
    ensures HasAccess(grants, user, resourceType, doc.id, "write", {})
  {
    var mine := Grant(resourceType, id, USER, user, "read");
    var all := Grant(resourceType, id, USER, ANYONE, "write");
    grants, doc := {mine, all}, Document(id, owner);
    assert "read"[0] != "write"[0];
    assert mine in grants && all in grants;
    assert ForPrincipal(all, user, {});
  }

  // ----- who has access -----

  function UsersNamed(gs: seq<Grant>, members: set<Membership>): (r: set<Id>) {
    if gs == [] then {}
    else
      UsersNamed(gs[..|gs| - 1], members) +
      var g := gs[|gs| - 1];
      if g.principalType == USER then {g.principalId}
      else if g.principalType == GROUP then MembersOf(members, g.principalId) else {}
  }

  lemma {:induction false} UsersNamedExact(gs: seq<Grant>, members: set<Membership>, u: Id)
    ensures u in UsersNamed(gs, members) <==>
            exists g :: g in gs && ((g.principalType == USER && g.principalId == u) ||
                                    (g.principalType == GROUP && u in MembersOf(members, g.principalId)))
  {
    if gs != [] {
      var rest, g := gs[..|gs| - 1], gs[|gs| - 1];
      assert gs == rest + [g];
      UsersNamedExact(rest, members, u);
      assert USER != GROUP;
    }
  }

  /** A public grant lists all users that are not pending; otherwise the named ones that exist are listed. */
  function UsersReturned(found: seq<Grant>, members: set<Membership>, roles: map<Id, string>): (r: set<Id>) {
    if exists g :: g in found && g.principalType == USER && g.principalId == ANYONE
    then set u | u in roles && roles[u] != "pending"
    else roles.Keys * UsersNamed(found, members)
  }

  /** `get_users_with_access`; `found` are the grants the query returns, `roles` the users that exist. */
  method UsersWithAccess(found: seq<Grant>, members: set<Membership>, roles: map<Id, string>) returns (r: set<Id>)
    ensures r == UsersReturned(found, members, roles)
  {
    var n := 0;
    while n < |found|
      invariant 0 <= n <= |found|
      invariant forall g :: g in found[..n] ==> !(g.principalType == USER && g.principalId == ANYONE)
    {
      if found[n].principalType == USER && found[n].principalId == ANYONE {
        assert found[n] in found;
        return set u | u in roles && roles[u] != "pending";
      }
      n := n + 1;
    }
    assert found[..n] == found;
    var ids := {};
    n := 0;
    while n < |found|
      invariant 0 <= n <= |found|
      invariant ids == UsersNamed(found[..n], members)
    {
      assert found[..n + 1][..n] == found[..n];
      if found[n].principalType == USER {
        ids := ids + {found[n].principalId};
      } else if found[n].principalType == GROUP {
        ids := ids + MembersOf(members, found[n].principalId);
      }
      n := n + 1;
    }
    assert found[..n] == found;
    r := roles.Keys * ids;
  }

  /** The rows the query for one resource and permission returns, in any order. */
  ghost predicate Found(grants: set<Grant>, resourceType: string, id: Id, permission: string, found: seq<Grant>) {
    forall g :: g in found <==>
      g in grants && g.resourceType == resourceType && g.resourceId == id && g.permission == permission
  }

  /** The reverse list holds an existing user exactly when that user has access, except that public access
      does not list pending users. */
  method ReverseAgrees(grants: set<Grant>, groups: set<Id>, members: set<Membership>, roles: map<Id, string>,
                       resourceType: string, id: Id, permission: string, found: seq<Grant>) returns (r: set<Id>)
    requires Referenced(groups, members) && Found(grants, resourceType, id, permission, found)
    ensures r <= roles.Keys
    ensures forall u :: u in roles ==>
              (u in r <==> HasAccess(grants, u, resourceType, id, permission, GroupsOf(groups, members, u))
                           && (roles[u] != "pending" || !PublicGrant(grants, resourceType, id, permission)))
  {
    r := UsersWithAccess(found, members, roles);
    forall u | u in roles
      ensures u in r <==> HasAccess(grants, u, resourceType, id, permission, GroupsOf(groups, members, u))
                          && (roles[u] != "pending" || !PublicGrant(grants, resourceType, id, permission))
    {
      ReverseAgreesFor(grants, groups, members, resourceType, id, permission, found, u);
    }
  }

  lemma ReverseAgreesFor(grants: set<Grant>, groups: set<Id>, members: set<Membership>,
                         resourceType: string, id: Id, permission: string, found: seq<Grant>, u: Id)
    requires Referenced(groups, members) && Found(grants, resourceType, id, permission, found)
    ensures (exists g :: g in found && g.principalType == USER && g.principalId == ANYONE) <==>
            PublicGrant(grants, resourceType, id, permission)
    ensures HasAccess(grants, u, resourceType, id, permission, GroupsOf(groups, members, u)) <==>
            PublicGrant(grants, resourceType, id, permission) || u in UsersNamed(found, members)
  {
    UsersNamedExact(found, members, u);
    var pub := Grant(resourceType, id, USER, ANYONE, permission);
    assert pub in grants ==> pub in found && ForPrincipal(pub, u, GroupsOf(groups, members, u));
    forall g ensures u in MembersOf(members, g) <==> g in GroupsOf(groups, members, u) {
      if u in MembersOf(members, g) {
        var m :| m in members && m.groupId == g && m.userId == u;
        assert m.groupId in groups;
      }
      if g in GroupsOf(groups, members, u) {
        var m :| m in members && m.userId == u && m.groupId == g;
        assert m.userId == u;
      }
    }
    if HasAccess(grants, u, resourceType, id, permission, GroupsOf(groups, members, u)) {
      var g :| g in grants && g.resourceType == resourceType && g.resourceId == id
               && g.permission == permission && ForPrincipal(g, u, GroupsOf(groups, members, u));
      assert g in found;
      assert g.principalId == ANYONE && g.principalType == USER ==> g == pub;
    }
    if u in UsersNamed(found, members) {
      var g :| g in found && ((g.principalType == USER && g.principalId == u) ||
                              (g.principalType == GROUP && u in MembersOf(members, g.principalId)));
      assert g in grants && ForPrincipal(g, u, GroupsOf(groups, members, u));
    }
  }

  /** A pending user is listed through a grant of one's own, and no longer once there is a public one as well. */
  lemma PendingListed(u: Id, id: Id, resourceType: string) returns (own: Grant, all: Grant)
    requires u != ANYONE
    ensures HasAccess({own}, u, resourceType, id, "read", {}) && u in UsersReturned([own], {}, map[u := "pending"])
    ensures HasAccess({own, all}, u, resourceType, id, "read", {}) &&
              u !in UsersReturned([own, all], {}, map[u := "pending"])
  {
    own, all := Grant(resourceType, id, USER, u, "read"), Grant(resourceType, id, USER, ANYONE, "read");
    assert ForPrincipal(own, u, {});
    assert own in {own} && own in {own, all};
    assert own in [own] && [own, all][1] == all && all in [own, all];
    UsersNamedExact([own], {}, u);
  }

  // ----- shared folders -----

  /** `get_shared_folder_ids_for_user`: the highest permission of each folder, whatever order the grants come in. */
  method SharedFolders(found: seq<Grant>) returns (perms: map<Id, string>)
    ensures forall id :: id in perms <==> exists g :: g in found && g.resourceId == id
    ensures forall id :: id in perms ==> exists g :: g in found && g.resourceId == id && g.permission == perms[id]
    ensures forall id :: id in perms ==>
              (perms[id] == "write" <==> exists g :: g in found && g.resourceId == id && g.permission == "write")
  {
    perms := map[];
    var n := 0;
    while n < |found|
      invariant 0 <= n <= |found|
      invariant forall id :: id in perms <==> exists g :: g in found[..n] && g.resourceId == id
      invariant forall id :: id in perms ==>
                  exists g :: g in found[..n] && g.resourceId == id && g.permission == perms[id]
      invariant forall id :: id in perms ==>
                  (perms[id] == "write" <==>
                   exists g :: g in found[..n] && g.resourceId == id && g.permission == "write")
    {
      var g := found[n];
      assert found[..n + 1] == found[..n] + [g];
      if !(g.resourceId in perms && perms[g.resourceId] == "write") {
        perms := perms[g.resourceId := g.permission];
      }
      n := n + 1;
    }
    assert found[..n] == found;
  }

  /** The rows the shared-folder query returns for a user, in any order. */
  ghost predicate FoundShared(grants: set<Grant>, user: Id, groupIds: set<Id>, found: seq<Grant>) {
    forall g :: g in found <==> g in grants && g.resourceType == "folder" && SharedCondition(g, user, groupIds)
  }

  /** A folder is shared for writing exactly when the user has write access, and is listed exactly when there is
      access of some kind. */
  method SharedFoldersAgree(grants: set<Grant>, user: Id, groupIds: set<Id>, found: seq<Grant>)
    returns (perms: map<Id, string>)
    requires FoundShared(grants, user, groupIds, found)
    ensures forall id :: (id in perms && perms[id] == "write") <==>
              HasAccess(grants, user, "folder", id, "write", groupIds)
    ensures forall id :: id in perms <==> exists p :: HasAccess(grants, user, "folder", id, p, groupIds)
  {
    perms := SharedFolders(found);
    forall id ensures (id in perms && perms[id] == "write") <==>
        HasAccess(grants, user, "folder", id, "write", groupIds) {
      SharedAccess(grants, user, groupIds, found, id, "write");
    }
    forall id ensures id in perms <==> exists p :: HasAccess(grants, user, "folder", id, p, groupIds) {
      if id in perms {
        SharedAccess(grants, user, groupIds, found, id, perms[id]);
      }
      if p :| HasAccess(grants, user, "folder", id, p, groupIds) {
        SharedAccess(grants, user, groupIds, found, id, p);
      }
    }
  }

  lemma SharedAccess(grants: set<Grant>, user: Id, groupIds: set<Id>, found: seq<Grant>, id: Id, p: string)
    requires FoundShared(grants, user, groupIds, found)
    ensures HasAccess(grants, user, "folder", id, p, groupIds) <==>
            exists g :: g in found && g.resourceId == id && g.permission == p
  {
  }

  // ----- group membership -----

  /** `sync_groups_by_group_names`: afterwards the user is in exactly the groups with one of the names. Rows of other
      users and rows that are still right are kept; a new row, with a new id, is made only where there was none. */
  method SyncGroups(groups: map<Id, string>, members: set<Membership>, user: Id, names: set<string>, uuid: Id -> Id)
    returns (r: set<Membership>)
    requires Referenced(groups.Keys, members)
    ensures GroupsOf(groups.Keys, r, user) == set g | g in groups && groups[g] in names
    ensures forall m: Membership :: m.userId != user ==> (m in r <==> m in members)
    ensures forall m :: m in members && m.userId == user ==> (m in r <==> groups[m.groupId] in names)
    ensures forall m :: m in r && m !in members ==>
              m == Membership(uuid(m.groupId), m.groupId, user) && m.groupId !in GroupsOf(groups.Keys, members, user)
    ensures Referenced(groups.Keys, r)
  {
    var target := set g | g in groups && groups[g] in names;
    var existing := GroupsOf(groups.Keys, members, user);
    var toAdd, toRemove := target - existing, existing - target;
    r := set m | m in members && !(m.userId == user && m.groupId in toRemove);
    ghost var kept := r;
    var todo := toAdd;
    while todo != {}
      invariant todo <= toAdd
      invariant r == kept + NewRows(toAdd - todo, user, uuid)
    {
      var g :| g in todo;
      assert toAdd - (todo - {g}) == (toAdd - todo) + {g};
      assert NewRows((toAdd - todo) + {g}, user, uuid) == NewRows(toAdd - todo, user, uuid) + {Membership(uuid(g),
          g, user)};
      r := r + {Membership(uuid(g), g, user)};
      todo := todo - {g};
    }
    assert toAdd - {} == toAdd;
    SyncedRows(groups.Keys, members, user, target, uuid, kept, r);
  }

  function NewRows(groupIds: set<Id>, user: Id, uuid: Id -> Id): (r: set<Membership>) {
    set g | g in groupIds :: Membership(uuid(g), g, user)
  }

  /** The rows kept and the rows made for missing groups put the user into exactly the target groups. */
  lemma SyncedRows(groups: set<Id>, members: set<Membership>, user: Id, target: set<Id>, uuid: Id -> Id,
                   kept: set<Membership>, r: set<Membership>)
    requires Referenced(groups, members) && target <= groups
    requires var existing := GroupsOf(groups, members, user);
             && kept == (set m | m in members && !(m.userId == user && m.groupId in existing - target))
             && r == kept + NewRows(target - existing, user, uuid)
    ensures GroupsOf(groups, r, user) == target && Referenced(groups, r)
    ensures forall m :: m in members && m.userId == user ==> (m in r <==> m.groupId in target)
    ensures forall m :: m in r && m !in members ==>
              m == Membership(uuid(m.groupId), m.groupId, user) && m.groupId !in GroupsOf(groups, members, user)
  {
    var existing := GroupsOf(groups, members, user);
    forall g ensures g in GroupsOf(groups, r, user) <==> g in target {
      if g in GroupsOf(groups, r, user) {
        var m :| m in r && m.userId == user && m.groupId == g;
        assert m in members ==> g in existing;
      }
      if g in target && g in existing {
        var m :| m in members && m.userId == user && m.groupId == g;
        assert m in r;
      } else if g in target {
        assert Membership(uuid(g), g, user) in r;
      }
    }
    forall m | m in members && m.userId == user ensures m in r <==> m.groupId in target {
      assert m.groupId in existing;
    }
  }
}
