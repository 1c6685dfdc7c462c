/**
  The four Discord API calls the role reconciler makes, as transitions of one
  guild's role list and membership table. Each call is appended to a log, and a
  fault schedule decides which calls the platform refuses (network, permission
  or rate-limit failures): the k-th call of a session is refused when
  `faults[k]` is true. A refused call changes nothing but the log.
 */
module Discord {
  import opened Wrappers

  type RoleId = nat
  type UserId = string

  /** A role record as the API returns it. */
  datatype Role = Role(id: RoleId, name: string, color: int, hoist: bool, permissions: int, mentionable: bool)

  datatype ApiError =
    | Refused      // any failure the platform reports for its own reasons
    | UnknownRole  // the role id names no role of the guild

  datatype Call =
    | ListRoles
    | CreateRole
    | EditRole(role: RoleId, name: string, color: int, hoist: bool, permissions: int, mentionable: bool)
    | AddMemberRole(user: UserId, role: RoleId)

  /**
    A session on one guild: its roles in listing order, the roles each member
    holds, the id the next created role gets, the record a created role starts
    as (its id aside), the fault schedule and the calls made so far.
   */
  datatype Api = Api(roles: seq<Role>, members: map<UserId, set<RoleId>>, nextId: RoleId, blank: Role,
                     faults: seq<bool>, log: seq<Call>)

  /** The session after a call, and what the call returned. */
  datatype Reply<T> = Reply(api: Api, result: Result<T, ApiError>)

  /** Whether the platform refuses the next call. */
  predicate Refuses(a: Api) {
    |a.log| < |a.faults| && a.faults[|a.log|]
  }

  /** No call among the next `n` is refused. */
  predicate Unrefused(a: Api, n: nat) {
    forall k :: |a.log| <= k < |a.log| + n && k < |a.faults| ==> !a.faults[k]
  }

  function RoleIds(roles: seq<Role>): set<RoleId> {
    set i | 0 <= i < |roles| :: roles[i].id
  }

  /** The roles `user` holds. */
  function Held(a: Api, user: UserId): set<RoleId> {
    if user in a.members then a.members[user] else {}
  }

  /** Role ids are unique and below `nextId`, and members hold only existing roles. */
  predicate Valid(a: Api) {
    && (forall i, j :: 0 <= i < j < |a.roles| ==> a.roles[i].id != a.roles[j].id)
    && (forall i :: 0 <= i < |a.roles| ==> a.roles[i].id < a.nextId)
    && (forall u :: u in a.members ==> a.members[u] <= RoleIds(a.roles))
  }

  /** Where the role with id `id` sits in the listing. */
  function Find(roles: seq<Role>, id: RoleId): (r: Option<nat>)
    ensures r.Some? ==> r.value < |roles| && roles[r.value].id == id
    ensures r.None? <==> id !in RoleIds(roles)
  {
    if roles == [] then None
    else if roles[0].id == id then Some(0)
    else
      assert forall i :: 1 <= i < |roles| ==> roles[i] == roles[1..][i - 1];
      match Find(roles[1..], id)
      case None => None
      case Some(i) => Some(i + 1)
  }

  /** With unique ids, the role found is the only one with that id. */
  lemma FindUnique(a: Api, id: RoleId, i: nat)
    requires Valid(a) && i < |a.roles| && a.roles[i].id == id
    ensures Find(a.roles, id) == Some(i)
  {
  }

  /** A role whose id is new is found where it was appended. */
  lemma {:induction false} FindAppended(roles: seq<Role>, x: Role)
    requires x.id !in RoleIds(roles)
    ensures Find(roles + [x], x.id) == Some(|roles|)
  {
    if roles != [] {
      assert (roles + [x])[1..] == roles[1..] + [x];
      assert forall i :: 0 <= i < |roles| - 1 ==> roles[1..][i] == roles[i + 1];
      FindAppended(roles[1..], x);
    }
  }

  /** `nextId` is not the id of any role. */
  lemma NextIdFresh(a: Api)
    requires Valid(a)
    ensures a.nextId !in RoleIds(a.roles)
  {
  }

  /** Append `c` to the log. */
  function Issue(a: Api, c: Call): Api {
    a.(log := a.log + [c])
  }

  /** `GuildRoles`: the guild's roles in listing order. */
  function GuildRoles(a: Api): (r: Reply<seq<Role>>)
    ensures r.api == Issue(a, ListRoles)
    ensures r.result.Success? <==> !Refuses(a)
    ensures r.result.Success? ==> r.result.value == a.roles
  {
    var b := Issue(a, ListRoles);
    if Refuses(a) then Reply(b, Failure(Refused)) else Reply(b, Success(a.roles))
  }

  /** `GuildRoleCreate`: a new role, listed last, with a fresh id and the
      platform's defaults. */
  function GuildRoleCreate(a: Api): (r: Reply<Role>)
    ensures r.api.log == a.log + [CreateRole]
    ensures r.api.members == a.members && r.api.blank == a.blank && r.api.faults == a.faults
    ensures r.result.Success? <==> !Refuses(a)
    ensures r.result.Failure? ==> r.result.error == Refused && r.api.roles == a.roles && r.api.nextId == a.nextId
    ensures r.result.Success? ==>
              && r.result.value == a.blank.(id := a.nextId)
              && r.api.roles == a.roles + [r.result.value]
              && r.api.nextId == a.nextId + 1
  {
    var b := Issue(a, CreateRole);
    if Refuses(a) then Reply(b, Failure(Refused))
    else
      var role := a.blank.(id := a.nextId);
      Reply(b.(roles := a.roles + [role], nextId := a.nextId + 1), Success(role))
  }

  /** `GuildRoleEdit`: overwrite every field of the role with id `id`. */
  function GuildRoleEdit(a: Api, id: RoleId, name: string, color: int, hoist: bool, permissions: int,
                         mentionable: bool): (r: Reply<Role>)
    ensures r.api.log == a.log + [EditRole(id, name, color, hoist, permissions, mentionable)]
    ensures r.api.members == a.members && r.api.nextId == a.nextId
    ensures r.api.blank == a.blank && r.api.faults == a.faults
    ensures r.result.Success? <==> !Refuses(a) && id in RoleIds(a.roles)
    ensures r.result.Failure? ==> r.api.roles == a.roles
    ensures r.result.Failure? ==> r.result.error == (if Refuses(a) then Refused else UnknownRole)
    ensures r.result.Success? ==>
              && r.result.value == Role(id, name, color, hoist, permissions, mentionable)
              && r.api.roles == a.roles[Find(a.roles, id).value := r.result.value]
  {
    var b := Issue(a, EditRole(id, name, color, hoist, permissions, mentionable));
    if Refuses(a) then Reply(b, Failure(Refused))
    else
      match Find(a.roles, id)
      case None => Reply(b, Failure(UnknownRole))
      case Some(i) =>
        var role := Role(id, name, color, hoist, permissions, mentionable);
        Reply(b.(roles := a.roles[i := role]), Success(role))
  }

  /** `GuildMemberRoleAdd`: give `user` the role; holding it already is fine. */
  function GuildMemberRoleAdd(a: Api, user: UserId, id: RoleId): (r: Reply<()>)
    ensures r.api.log == a.log + [AddMemberRole(user, id)]
    ensures r.api.roles == a.roles && r.api.nextId == a.nextId
    ensures r.api.blank == a.blank && r.api.faults == a.faults
    ensures r.result.Success? <==> !Refuses(a) && id in RoleIds(a.roles)
    ensures r.result.Failure? ==> r.api.members == a.members
    ensures r.result.Failure? ==> r.result.error == (if Refuses(a) then Refused else UnknownRole)
    ensures r.result.Success? ==> r.api.members == a.members[user := Held(a, user) + {id}]
  {
    var b := Issue(a, AddMemberRole(user, id));
    if Refuses(a) then Reply(b, Failure(Refused))
    else if id !in RoleIds(a.roles) then Reply(b, Failure(UnknownRole))
    else Reply(b.(members := a.members[user := Held(a, user) + {id}]), Success(()))
  }

  // ---------------------------------------------------------------------------
  // Every call keeps the guild consistent.

  lemma GuildRolesValid(a: Api)
    requires Valid(a)
    ensures Valid(GuildRoles(a).api)
  {
  }

  lemma GuildRoleCreateValid(a: Api)
    requires Valid(a)
    ensures Valid(GuildRoleCreate(a).api)
  {
    var r := GuildRoleCreate(a);
    if r.result.Success? {
      var roles := r.api.roles;
      assert forall i :: 0 <= i < |a.roles| ==> roles[i] == a.roles[i];
      assert RoleIds(a.roles) <= RoleIds(roles) by {
        forall x | x in RoleIds(a.roles) ensures x in RoleIds(roles) {
          var i :| 0 <= i < |a.roles| && a.roles[i].id == x;
          assert roles[i].id == x;
        }
      }
    }
  }

  /** An edit keeps every role's id, so the set of ids too. */
  lemma GuildRoleEditIds(a: Api, id: RoleId, name: string, color: int, hoist: bool, permissions: int,
                         mentionable: bool)
    ensures var b := GuildRoleEdit(a, id, name, color, hoist, permissions, mentionable).api;
            |b.roles| == |a.roles| && RoleIds(b.roles) == RoleIds(a.roles)
            && forall j :: 0 <= j < |a.roles| ==> b.roles[j].id == a.roles[j].id
  {
    var roles := GuildRoleEdit(a, id, name, color, hoist, permissions, mentionable).api.roles;
    assert forall j :: 0 <= j < |roles| ==> roles[j].id == a.roles[j].id;
    forall x | x in RoleIds(a.roles) ensures x in RoleIds(roles) {
      var j :| 0 <= j < |a.roles| && a.roles[j].id == x;
      assert roles[j].id == x;
    }
  }

  lemma GuildRoleEditValid(a: Api, id: RoleId, name: string, color: int, hoist: bool, permissions: int,
                           mentionable: bool)
    requires Valid(a)
    ensures Valid(GuildRoleEdit(a, id, name, color, hoist, permissions, mentionable).api)
  {
    GuildRoleEditIds(a, id, name, color, hoist, permissions, mentionable);
  }

  lemma GuildMemberRoleAddValid(a: Api, user: UserId, id: RoleId)
    requires Valid(a)
    ensures Valid(GuildMemberRoleAdd(a, user, id).api)
  {
  }
}
