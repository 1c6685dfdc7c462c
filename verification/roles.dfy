/**
  Keeping one role per user whose colour is the user's last request:
  `upsertUserRoleColor` lists the guild's roles, takes the last one named after
  the user's id, creates and renames one if there is none, then recolours it
  and gives it to the user.
 */
module Reconcile {
  import opened Wrappers
  import opened Colors
  import opened Discord

  // ---------------------------------------------------------------------------
  // Finding the user's role

  /** The index of the last role named `user`. */
  function LastMatch(roles: seq<Role>, user: UserId): (r: Option<nat>)
    ensures r.None? <==> forall j :: 0 <= j < |roles| ==> roles[j].name != user
    ensures r.Some? ==> r.value < |roles| && roles[r.value].name == user
    ensures r.Some? ==> forall j :: r.value < j < |roles| ==> roles[j].name != user
  {
    if roles == [] then None
    else if roles[|roles| - 1].name == user then Some(|roles| - 1)
    else
      var r := LastMatch(roles[..|roles| - 1], user);
      assert forall j :: 0 <= j < |roles| - 1 ==> roles[..|roles| - 1][j] == roles[j];
      r
  }

  /** The last match is the only index named `user` with no match after it. */
  lemma LastMatchIs(roles: seq<Role>, user: UserId, i: nat)
    requires i < |roles| && roles[i].name == user
    requires forall j :: i < j < |roles| ==> roles[j].name != user
    ensures LastMatch(roles, user) == Some(i)
  {
  }

  /** Replacing the last match by a role of the same name keeps it the last match. */
  lemma LastMatchUpdate(roles: seq<Role>, user: UserId, i: nat, x: Role)
    requires LastMatch(roles, user) == Some(i) && x.name == user
    ensures LastMatch(roles[i := x], user) == Some(i)
  {
    LastMatchIs(roles[i := x], user, i);
  }

  /** A role named `user` appended last is the last match. */
  lemma LastMatchAppend(roles: seq<Role>, user: UserId, x: Role)
    requires x.name == user
    ensures LastMatch(roles + [x], user) == Some(|roles|)
  {
  }

  /** The search loop of `upsertUserRoleColor`: every name match overwrites the
      one before it. */
  method FindUserRole(roles: seq<Role>, user: UserId) returns (found: Option<Role>)
    ensures found.None? <==> forall j :: 0 <= j < |roles| ==> roles[j].name != user
    ensures found.Some? ==> exists i :: 0 <= i < |roles| && found.value == roles[i] && roles[i].name == user
                                        && forall j :: i < j < |roles| ==> roles[j].name != user
    ensures found == (match LastMatch(roles, user) case None => None case Some(i) => Some(roles[i]))
  {
    found := None;
    var at := 0;
    for k := 0 to |roles|
      invariant found.None? <==> forall j :: 0 <= j < k ==> roles[j].name != user
      invariant found.Some? ==> at < k && found.value == roles[at] && roles[at].name == user
                                && forall j :: at < j < k ==> roles[j].name != user
    {
      if roles[k].name == user {
        found := Some(roles[k]);
        at := k;
      }
    }
  }

  /** How many roles are named `user`. */
  function CountNamed(roles: seq<Role>, user: UserId): nat {
    if roles == [] then 0
    else (if roles[0].name == user then 1 else 0) + CountNamed(roles[1..], user)
  }

  // ---------------------------------------------------------------------------
  // The three operations

  /** `createUserRole`: create a role, then rename it to the user's id keeping
      its default colour and flags. */
  function CreateUserRole(a: Api, user: UserId): (r: Reply<Role>)
    ensures r.result.Success? ==> r.result.value.name == user && r.result.value.id == a.nextId
  {
    var c := GuildRoleCreate(a);
    match c.result
    case Failure(e) => Reply(c.api, Failure(e))
    case Success(role) =>
      GuildRoleEdit(c.api, role.id, user, role.color, role.hoist, role.permissions, role.mentionable)
  }

  /** The edit `updateUserRoleColor` sends: the new colour, everything else as
      on the record it was given. */
  function Recolor(role: Role, c: Color): Call {
    EditRole(role.id, role.name, RGBToRoleColor(c), role.hoist, role.permissions, role.mentionable)
  }

  /** `updateUserRoleColor`: recolour the role, then add it to the user. The
      edit's error is overwritten by the member-add's. */
  function UpdateUserRoleColor(a: Api, user: UserId, role: Role, c: Color): (r: Reply<()>)
    ensures r.api.log == a.log + [Recolor(role, c), AddMemberRole(user, role.id)]
  {
    var e := GuildRoleEdit(a, role.id, role.name, RGBToRoleColor(c), role.hoist, role.permissions, role.mentionable);
    GuildMemberRoleAdd(e.api, user, role.id)
  }

  /** `upsertUserRoleColor`. */
  function UpsertUserRoleColor(a: Api, user: UserId, c: Color): (r: Reply<()>)
    ensures |r.api.log| > |a.log| && r.api.log[..|a.log|] == a.log && r.api.log[|a.log|] == ListRoles
  {
    var l := GuildRoles(a);
    match l.result
    case Failure(e) => Reply(l.api, Failure(e))
    case Success(roles) =>
      match LastMatch(roles, user)
      case Some(i) => UpdateUserRoleColor(l.api, user, roles[i], c)
      case None =>
        var cr := CreateUserRole(l.api, user);
        match cr.result
        case Failure(e) => Reply(cr.api, Failure(e))
        case Success(role) => UpdateUserRoleColor(cr.api, user, role, c)
  }
}
