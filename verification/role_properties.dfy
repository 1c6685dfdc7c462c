/**
  What `upsertUserRoleColor` and its two helpers do to a guild: which calls
  they make, in which order, what each error returns, which roles change and
  how, and that a second request for the same colour changes nothing.
 */
module RoleProperties {
  import opened Wrappers
  import opened Colors
  import opened Discord
  import opened Reconcile

  /** Whether the platform refuses the call `n` places after the next one. */
  predicate RefusesAt(a: Api, n: nat) {
    |a.log| + n < |a.faults| && a.faults[|a.log| + n]
  }

  /** The role a fresh create returns, and the same role after the rename. */
  function Fresh(a: Api): Role {
    a.blank.(id := a.nextId)
  }

  function Renamed(a: Api, user: UserId): Role {
    a.blank.(id := a.nextId, name := user)
  }

  // ---------------------------------------------------------------------------
  // createUserRole

  /** A refused create is returned as is, and no edit follows. */
  lemma CreateRefused(a: Api, user: UserId)
    requires Refuses(a)
    ensures CreateUserRole(a, user) == Reply(Issue(a, CreateRole), Failure(Refused))
  {
  }

  /** Otherwise the new role is renamed to the user's id; its colour, hoist,
      permissions and mentionable flag are the ones it was created with. */
  lemma CreateRenames(a: Api, user: UserId)
    requires !Refuses(a) && a.nextId !in RoleIds(a.roles)
    ensures var r := CreateUserRole(a, user);
            && r.api.log == a.log + [CreateRole, EditRole(a.nextId, user, a.blank.color, a.blank.hoist,
                                                          a.blank.permissions, a.blank.mentionable)]
            && r.api.members == a.members && r.api.nextId == a.nextId + 1
            && r.api.blank == a.blank && r.api.faults == a.faults
            && (RefusesAt(a, 1) ==> r.result == Failure(Refused) && r.api.roles == a.roles + [Fresh(a)])
            && (!RefusesAt(a, 1) ==> r.result == Success(Renamed(a, user)) && r.api.roles == a.roles + [Renamed(a, user)])
  {
    FindAppended(a.roles, Fresh(a));
    assert (a.roles + [Fresh(a)])[|a.roles| := Renamed(a, user)] == a.roles + [Renamed(a, user)];
  }

  /** Creating and renaming keeps the guild consistent. */
  lemma CreateUserRoleValid(a: Api, user: UserId)
    requires Valid(a)
    ensures Valid(CreateUserRole(a, user).api)
  {
    GuildRoleCreateValid(a);
    var c := GuildRoleCreate(a);
    if c.result.Success? {
      var role := c.result.value;
      GuildRoleEditValid(c.api, role.id, user, role.color, role.hoist, role.permissions, role.mentionable);
    }
  }

  // ---------------------------------------------------------------------------
  // updateUserRoleColor

  /** The outcome is the member-add's alone: whether the recolouring edit was
      refused makes no difference to it. */
  lemma UpdateOutcome(a: Api, user: UserId, role: Role, c: Color)
    ensures var r := UpdateUserRoleColor(a, user, role, c);
            && (r.result.Success? <==> !RefusesAt(a, 1) && role.id in RoleIds(a.roles))
            && (r.result.Failure? ==> r.result.error == if RefusesAt(a, 1) then Refused else UnknownRole)
  {
    GuildRoleEditIds(a, role.id, role.name, RGBToRoleColor(c), role.hoist, role.permissions, role.mentionable);
  }

  /** A refused recolouring still ends in success when the member-add goes through. */
  lemma UpdateEditErrorDiscarded(a: Api, user: UserId, role: Role, c: Color)
    requires Refuses(a) && !RefusesAt(a, 1) && role.id in RoleIds(a.roles)
    ensures GuildRoleEdit(a, role.id, role.name, RGBToRoleColor(c), role.hoist, role.permissions,
                          role.mentionable).result.Failure?
    ensures UpdateUserRoleColor(a, user, role, c).result == Success(())
  {
    UpdateOutcome(a, user, role, c);
  }

  /** The role is recoloured with the packed colour, its name, hoist,
      permissions and mentionable flag taken from the record given; then the
      user holds it. */
  lemma UpdateRecolors(a: Api, user: UserId, role: Role, c: Color, i: nat)
    requires Find(a.roles, role.id) == Some(i)
    ensures var r := UpdateUserRoleColor(a, user, role, c);
            && r.api.roles == (if Refuses(a) then a.roles else a.roles[i := role.(color := RGBToRoleColor(c))])
            && r.api.members == (if RefusesAt(a, 1) then a.members else a.members[user := Held(a, user) + {role.id}])
            && r.api.nextId == a.nextId && r.api.blank == a.blank && r.api.faults == a.faults
  {
    GuildRoleEditIds(a, role.id, role.name, RGBToRoleColor(c), role.hoist, role.permissions, role.mentionable);
    assert role.(color := RGBToRoleColor(c))
           == Role(role.id, role.name, RGBToRoleColor(c), role.hoist, role.permissions, role.mentionable);
  }

  // ---------------------------------------------------------------------------
  // upsertUserRoleColor

  /** A refused listing is returned as is, and no other call is made. */
  lemma UpsertListRefused(a: Api, user: UserId, c: Color)
    requires Refuses(a)
    ensures UpsertUserRoleColor(a, user, c) == Reply(Issue(a, ListRoles), Failure(Refused))
  {
  }

  /** With a role named after the user, the last such role is the one
      recoloured and added; nothing is created. */
  lemma UpsertFoundCalls(a: Api, user: UserId, c: Color, i: nat)
    requires !Refuses(a)
    requires i < |a.roles| && a.roles[i].name == user
    requires forall j :: i < j < |a.roles| ==> a.roles[j].name != user
    ensures var r := UpsertUserRoleColor(a, user, c);
            var t := a.roles[i];
            && r == UpdateUserRoleColor(Issue(a, ListRoles), user, t, c)
            && r.api.log == a.log + [ListRoles, Recolor(t, c), AddMemberRole(user, t.id)]
  {
    assert LastMatch(a.roles, user) == Some(i);
    var t := a.roles[i];
    assert a.log + [ListRoles] + [Recolor(t, c), AddMemberRole(user, t.id)]
           == a.log + [ListRoles, Recolor(t, c), AddMemberRole(user, t.id)];
  }

  /** What recolouring and adding the role found does to the guild. */
  lemma UpsertFoundState(a: Api, user: UserId, c: Color, i: nat)
    requires !Refuses(a)
    requires i < |a.roles| && a.roles[i].name == user && Find(a.roles, a.roles[i].id) == Some(i)
    requires forall j :: i < j < |a.roles| ==> a.roles[j].name != user
    ensures var r := UpsertUserRoleColor(a, user, c);
            var t := a.roles[i];
            && r.api.roles == (if RefusesAt(a, 1) then a.roles else a.roles[i := t.(color := RGBToRoleColor(c))])
            && r.api.members == (if RefusesAt(a, 2) then a.members else a.members[user := Held(a, user) + {t.id}])
            && r.api.nextId == a.nextId
            && r.result == (if RefusesAt(a, 2) then Failure(Refused) else Success(()))
  {
    UpsertFoundCalls(a, user, c, i);
    var l := Issue(a, ListRoles);
    UpdateRecolors(l, user, a.roles[i], c, i);
    UpdateOutcome(l, user, a.roles[i], c);
    assert a.roles[i].id in RoleIds(a.roles);
  }

  /** With no role named after the user and a refused create, the error is
      returned after the create call. */
  lemma UpsertCreateRefused(a: Api, user: UserId, c: Color)
    requires !Refuses(a) && RefusesAt(a, 1)
    requires forall j :: 0 <= j < |a.roles| ==> a.roles[j].name != user
    ensures var r := UpsertUserRoleColor(a, user, c);
            && r.api == a.(log := a.log + [ListRoles, CreateRole])
            && r.result == Failure(Refused)
  {
    var l := GuildRoles(a);
    assert Refuses(l.api);
    CreateRefused(l.api, user);
    assert a.log + [ListRoles] + [CreateRole] == a.log + [ListRoles, CreateRole];
  }

  /** With no role named after the user and a refused rename, the error is
      returned and the unnamed role stays behind. */
  lemma UpsertRenameRefused(a: Api, user: UserId, c: Color)
    requires a.nextId !in RoleIds(a.roles) && !Refuses(a) && !RefusesAt(a, 1) && RefusesAt(a, 2)
    requires forall j :: 0 <= j < |a.roles| ==> a.roles[j].name != user
    ensures var r := UpsertUserRoleColor(a, user, c);
            && r.api.log == a.log + [ListRoles, CreateRole, EditRole(a.nextId, user, a.blank.color, a.blank.hoist,
                                                                     a.blank.permissions, a.blank.mentionable)]
            && r.api.roles == a.roles + [Fresh(a)]
            && r.api.members == a.members
            && r.result == Failure(Refused)
  {
    var l := GuildRoles(a);
    CreateRenames(l.api, user);
  }

  /** With no role named after the user and create and rename going through,
      the renamed role is the one recoloured and added. */
  lemma UpsertViaCreate(a: Api, user: UserId, c: Color)
    requires a.nextId !in RoleIds(a.roles) && !Refuses(a) && !RefusesAt(a, 1) && !RefusesAt(a, 2)
    requires forall j :: 0 <= j < |a.roles| ==> a.roles[j].name != user
    ensures var cr := CreateUserRole(Issue(a, ListRoles), user);
            && cr.api.roles == a.roles + [Renamed(a, user)]
            && Find(cr.api.roles, a.nextId) == Some(|a.roles|)
            && cr.api.log == a.log + [ListRoles, CreateRole, EditRole(a.nextId, user, a.blank.color, a.blank.hoist,
                                                                      a.blank.permissions, a.blank.mentionable)]
            && cr.api.members == a.members && cr.api.nextId == a.nextId + 1
            && UpsertUserRoleColor(a, user, c) == UpdateUserRoleColor(cr.api, user, Renamed(a, user), c)
  {
    var l := GuildRoles(a);
    CreateRenames(l.api, user);
    FindAppended(a.roles, Renamed(a, user));
    assert a.log + [ListRoles] + [CreateRole, EditRole(a.nextId, user, a.blank.color, a.blank.hoist,
                                                       a.blank.permissions, a.blank.mentionable)]
           == a.log + [ListRoles, CreateRole, EditRole(a.nextId, user, a.blank.color, a.blank.hoist,
                                                       a.blank.permissions, a.blank.mentionable)];
  }

  /** With no role named after the user, a role is created, renamed to the
      user's id, recoloured and added, in that order. */
  lemma UpsertCreatedCalls(a: Api, user: UserId, c: Color)
    requires a.nextId !in RoleIds(a.roles) && !Refuses(a) && !RefusesAt(a, 1) && !RefusesAt(a, 2)
    requires forall j :: 0 <= j < |a.roles| ==> a.roles[j].name != user
    ensures var r := UpsertUserRoleColor(a, user, c);
            && r.api.log == a.log + [ListRoles, CreateRole,
                                     EditRole(a.nextId, user, a.blank.color, a.blank.hoist,
                                              a.blank.permissions, a.blank.mentionable),
                                     Recolor(Renamed(a, user), c), AddMemberRole(user, a.nextId)]
            && r.api.nextId == a.nextId + 1
  {
    UpsertViaCreate(a, user, c);
    var cr := CreateUserRole(Issue(a, ListRoles), user);
    var t := Renamed(a, user);
    UpdateRecolors(cr.api, user, t, c, |a.roles|);
    var e := EditRole(a.nextId, user, a.blank.color, a.blank.hoist, a.blank.permissions, a.blank.mentionable);
    assert a.log + [ListRoles, CreateRole, e] + [Recolor(t, c), AddMemberRole(user, a.nextId)]
           == a.log + [ListRoles, CreateRole, e, Recolor(t, c), AddMemberRole(user, a.nextId)];
  }

  /** The role created ends up named after the user with the packed colour. */
  lemma UpsertCreatedRoles(a: Api, user: UserId, c: Color)
    requires a.nextId !in RoleIds(a.roles) && !Refuses(a) && !RefusesAt(a, 1) && !RefusesAt(a, 2)
    requires forall j :: 0 <= j < |a.roles| ==> a.roles[j].name != user
    ensures var t := Renamed(a, user);
            UpsertUserRoleColor(a, user, c).api.roles
            == a.roles + [if RefusesAt(a, 3) then t else t.(color := RGBToRoleColor(c))]
  {
    UpsertViaCreate(a, user, c);
    var cr := CreateUserRole(Issue(a, ListRoles), user);
    var t := Renamed(a, user);
    var n := |a.roles|;
    assert cr.api.roles[n] == t;
    UpdateRecolors(cr.api, user, t, c, n);
    assert (a.roles + [t])[n := t.(color := RGBToRoleColor(c))] == a.roles + [t.(color := RGBToRoleColor(c))];
  }

  /** The user ends up holding the role created, unless the member-add is refused. */
  lemma UpsertCreatedMember(a: Api, user: UserId, c: Color)
    requires a.nextId !in RoleIds(a.roles) && !Refuses(a) && !RefusesAt(a, 1) && !RefusesAt(a, 2)
    requires forall j :: 0 <= j < |a.roles| ==> a.roles[j].name != user
    ensures var r := UpsertUserRoleColor(a, user, c);
            && r.api.members == (if RefusesAt(a, 4) then a.members else a.members[user := Held(a, user) + {a.nextId}])
            && r.result == (if RefusesAt(a, 4) then Failure(Refused) else Success(()))
  {
    UpsertViaCreate(a, user, c);
    var cr := CreateUserRole(Issue(a, ListRoles), user);
    var t := Renamed(a, user);
    var n := |a.roles|;
    assert cr.api.roles[n] == t;
    UpdateRecolors(cr.api, user, t, c, n);
    UpdateOutcome(cr.api, user, t, c);
    assert t.id in RoleIds(cr.api.roles);
    assert Held(cr.api, user) == Held(a, user);
  }

  /** A role is created exactly when the listing succeeded and no role is named
      after the user. */
  lemma UpsertCreatesOnlyWhenNone(a: Api, user: UserId, c: Color)
    requires Valid(a)
    ensures var r := UpsertUserRoleColor(a, user, c);
            CreateRole in r.api.log[|a.log|..]
            <==> !Refuses(a) && forall j :: 0 <= j < |a.roles| ==> a.roles[j].name != user
  {
    var r := UpsertUserRoleColor(a, user, c);
    NextIdFresh(a);
    if Refuses(a) {
      UpsertListRefused(a, user, c);
      assert r.api.log[|a.log|..] == [ListRoles];
    } else if LastMatch(a.roles, user).Some? {
      var i := LastMatch(a.roles, user).value;
      UpsertFoundCalls(a, user, c, i);
      assert r.api.log[|a.log|..] == [ListRoles, Recolor(a.roles[i], c), AddMemberRole(user, a.roles[i].id)];
    } else if RefusesAt(a, 1) {
      UpsertCreateRefused(a, user, c);
      assert r.api.log[|a.log|..][1] == CreateRole;
    } else if RefusesAt(a, 2) {
      UpsertRenameRefused(a, user, c);
      assert r.api.log[|a.log|..][1] == CreateRole;
    } else {
      UpsertCreatedCalls(a, user, c);
      assert r.api.log[|a.log|..][1] == CreateRole;
    }
  }

  // ---------------------------------------------------------------------------
  // The guild after an upsert

  /** Recolouring and adding keeps the guild consistent. */
  lemma UpdateValid(a: Api, user: UserId, role: Role, c: Color)
    requires Valid(a)
    ensures Valid(UpdateUserRoleColor(a, user, role, c).api)
  {
    GuildRoleEditValid(a, role.id, role.name, RGBToRoleColor(c), role.hoist, role.permissions, role.mentionable);
    var e := GuildRoleEdit(a, role.id, role.name, RGBToRoleColor(c), role.hoist, role.permissions, role.mentionable);
    GuildMemberRoleAddValid(e.api, user, role.id);
  }

  /** An upsert keeps role ids unique and memberships pointing at existing roles. */
  lemma UpsertValid(a: Api, user: UserId, c: Color)
    requires Valid(a)
    ensures Valid(UpsertUserRoleColor(a, user, c).api)
  {
    var l := Issue(a, ListRoles);
    GuildRolesValid(a);
    if !Refuses(a) {
      match LastMatch(a.roles, user)
      case Some(i) =>
        UpdateValid(l, user, a.roles[i], c);
      case None =>
        CreateUserRoleValid(l, user);
        var cr := CreateUserRole(l, user);
        if cr.result.Success? {
          UpdateValid(cr.api, user, cr.result.value, c);
        }
    }
  }

  /** Roles not named after the user are left alone; a role named after the
      user changes in its colour at most; at most one role is added. */
  predicate OnlyRecolored(before: seq<Role>, after: seq<Role>, user: UserId, c: Color) {
    && |before| <= |after| <= |before| + 1
    && (forall j :: 0 <= j < |before| && before[j].name != user ==> after[j] == before[j])
    && (forall j :: 0 <= j < |before| && before[j].name == user ==>
          after[j] in {before[j], before[j].(color := RGBToRoleColor(c))})
  }

  /** No member other than `user` gains or loses a role. */
  ghost predicate OthersKeepRoles(before: Api, after: Api, user: UserId) {
    forall u :: u != user ==> Held(after, u) == Held(before, u)
  }

  lemma Unchanged(roles: seq<Role>, user: UserId, c: Color)
    ensures OnlyRecolored(roles, roles, user, c)
  {
  }

  lemma RecolorOne(roles: seq<Role>, user: UserId, c: Color, i: nat)
    requires i < |roles| && roles[i].name == user
    ensures OnlyRecolored(roles, roles[i := roles[i].(color := RGBToRoleColor(c))], user, c)
  {
  }

  lemma AppendOne(roles: seq<Role>, user: UserId, c: Color, x: Role)
    ensures OnlyRecolored(roles, roles + [x], user, c)
  {
    assert forall j :: 0 <= j < |roles| ==> (roles + [x])[j] == roles[j];
  }

  lemma AddForUser(a: Api, b: Api, user: UserId, id: RoleId)
    requires b.members == a.members || b.members == a.members[user := Held(a, user) + {id}]
    ensures OthersKeepRoles(a, b, user)
  {
  }

  /** The changes the found path makes touch only the user's role. */
  lemma FoundEffects(a: Api, b: Api, user: UserId, c: Color, i: nat, refusedEdit: bool, refusedAdd: bool)
    requires i < |a.roles| && a.roles[i].name == user
    requires b.roles == (if refusedEdit then a.roles else a.roles[i := a.roles[i].(color := RGBToRoleColor(c))])
    requires b.members == (if refusedAdd then a.members else a.members[user := Held(a, user) + {a.roles[i].id}])
    ensures OnlyRecolored(a.roles, b.roles, user, c) && OthersKeepRoles(a, b, user)
  {
    Unchanged(a.roles, user, c);
    RecolorOne(a.roles, user, c, i);
    AddForUser(a, b, user, a.roles[i].id);
  }

  lemma TouchesFound(a: Api, user: UserId, c: Color, i: nat)
    requires !Refuses(a) && LastMatch(a.roles, user) == Some(i) && Find(a.roles, a.roles[i].id) == Some(i)
    ensures var r := UpsertUserRoleColor(a, user, c);
            OnlyRecolored(a.roles, r.api.roles, user, c) && OthersKeepRoles(a, r.api, user)
  {
    UpsertFoundState(a, user, c, i);
    FoundEffects(a, UpsertUserRoleColor(a, user, c).api, user, c, i, RefusesAt(a, 1), RefusesAt(a, 2));
  }

  lemma TouchesCreated(a: Api, user: UserId, c: Color)
    requires a.nextId !in RoleIds(a.roles) && !Refuses(a) && LastMatch(a.roles, user).None?
    ensures var r := UpsertUserRoleColor(a, user, c);
            OnlyRecolored(a.roles, r.api.roles, user, c) && OthersKeepRoles(a, r.api, user)
  {
    var r := UpsertUserRoleColor(a, user, c);
    if RefusesAt(a, 1) {
      UpsertCreateRefused(a, user, c);
      Unchanged(a.roles, user, c);
      AddForUser(a, r.api, user, a.nextId);
    } else if RefusesAt(a, 2) {
      UpsertRenameRefused(a, user, c);
      AppendOne(a.roles, user, c, Fresh(a));
      AddForUser(a, r.api, user, a.nextId);
    } else {
      UpsertCreatedRoles(a, user, c);
      UpsertCreatedMember(a, user, c);
      AppendOne(a.roles, user, c, r.api.roles[|a.roles|]);
      AddForUser(a, r.api, user, a.nextId);
    }
  }

  /** What an upsert changes: only the user's role and the user's memberships. */
  lemma UpsertTouchesOnlyTheUsersRole(a: Api, user: UserId, c: Color)
    requires Valid(a)
    ensures var r := UpsertUserRoleColor(a, user, c);
            OnlyRecolored(a.roles, r.api.roles, user, c) && OthersKeepRoles(a, r.api, user)
  {
    if Refuses(a) {
      UpsertListRefused(a, user, c);
      Unchanged(a.roles, user, c);
    } else if LastMatch(a.roles, user).Some? {
      var i := LastMatch(a.roles, user).value;
      FindUnique(a, a.roles[i].id, i);
      TouchesFound(a, user, c, i);
    } else {
      NextIdFresh(a);
      TouchesCreated(a, user, c);
    }
  }

  lemma {:induction false} CountNamedNone(roles: seq<Role>, user: UserId)
    ensures CountNamed(roles, user) == 0 <==> forall j :: 0 <= j < |roles| ==> roles[j].name != user
  {
    if roles != [] {
      CountNamedNone(roles[1..], user);
      assert forall j :: 1 <= j < |roles| ==> roles[1..][j - 1] == roles[j];
    }
  }

  /** Replacing a role by one of the same name keeps the count. */
  lemma {:induction false} CountNamedUpdate(roles: seq<Role>, user: UserId, i: nat, x: Role)
    requires i < |roles| && roles[i].name == x.name
    ensures CountNamed(roles[i := x], user) == CountNamed(roles, user)
  {
    if i > 0 {
      CountNamedUpdate(roles[1..], user, i - 1, x);
      assert roles[i := x][1..] == roles[1..][i - 1 := x];
    } else {
      assert roles[i := x][1..] == roles[1..];
    }
  }

  /** Appending a role named `user` adds one. */
  lemma {:induction false} CountNamedAppend(roles: seq<Role>, user: UserId, x: Role)
    ensures CountNamed(roles + [x], user) == CountNamed(roles, user) + (if x.name == user then 1 else 0)
  {
    if roles != [] {
      CountNamedAppend(roles[1..], user, x);
      assert (roles + [x])[1..] == roles[1..] + [x];
    }
  }

  /** The number of roles named after the user after an upsert that nothing
      refused: one if there were none, unchanged otherwise. */
  function AfterCount(n: nat): nat {
    if n == 0 then 1 else n
  }

  /** The last role named after the user has colour `c` and the user holds it. */
  predicate HasColor(a: Api, user: UserId, c: Color) {
    match LastMatch(a.roles, user)
    case None => false
    case Some(i) => a.roles[i].color == RGBToRoleColor(c) && a.roles[i].id in Held(a, user)
  }

  /** What an upsert that nothing refused leaves behind. */
  predicate Established(a: Api, r: Reply<()>, user: UserId, c: Color) {
    && r.result == Success(())
    && HasColor(r.api, user, c)
    && CountNamed(r.api.roles, user) == AfterCount(CountNamed(a.roles, user))
  }

  lemma FirstFive(a: Api)
    requires Unrefused(a, 5)
    ensures !Refuses(a) && !RefusesAt(a, 1) && !RefusesAt(a, 2) && !RefusesAt(a, 3) && !RefusesAt(a, 4)
  {
    var n := |a.log|;
    assert n <= n + 1 < n + 5 && n <= n + 2 < n + 5 && n <= n + 3 < n + 5 && n <= n + 4 < n + 5;
  }

  lemma EstablishesFound(a: Api, user: UserId, c: Color, i: nat)
    requires !Refuses(a) && !RefusesAt(a, 1) && !RefusesAt(a, 2)
    requires LastMatch(a.roles, user) == Some(i) && Find(a.roles, a.roles[i].id) == Some(i)
    ensures Established(a, UpsertUserRoleColor(a, user, c), user, c)
  {
    var r := UpsertUserRoleColor(a, user, c);
    UpsertFoundState(a, user, c, i);
    var t := a.roles[i].(color := RGBToRoleColor(c));
    CountNamedUpdate(a.roles, user, i, t);
    CountNamedNone(a.roles, user);
    LastMatchUpdate(a.roles, user, i, t);
    assert r.api.roles == a.roles[i := t];
  }

  lemma EstablishesCreated(a: Api, user: UserId, c: Color)
    requires a.nextId !in RoleIds(a.roles)
    requires !Refuses(a) && !RefusesAt(a, 1) && !RefusesAt(a, 2) && !RefusesAt(a, 3) && !RefusesAt(a, 4)
    requires LastMatch(a.roles, user).None?
    ensures Established(a, UpsertUserRoleColor(a, user, c), user, c)
  {
    var r := UpsertUserRoleColor(a, user, c);
    UpsertCreatedRoles(a, user, c);
    UpsertCreatedMember(a, user, c);
    var t := Renamed(a, user).(color := RGBToRoleColor(c));
    CountNamedAppend(a.roles, user, t);
    CountNamedNone(a.roles, user);
    LastMatchAppend(a.roles, user, t);
    assert r.api.roles == a.roles + [t];
  }

  /** When no call is refused, the upsert succeeds, the last role named after
      the user has the packed colour and is held by the user, and a role is
      added only if there was none. */
  lemma UpsertEstablishes(a: Api, user: UserId, c: Color)
    requires Valid(a) && Unrefused(a, 5)
    ensures Established(a, UpsertUserRoleColor(a, user, c), user, c)
    ensures Valid(UpsertUserRoleColor(a, user, c).api)
  {
    FirstFive(a);
    UpsertValid(a, user, c);
    match LastMatch(a.roles, user)
    case Some(i) =>
      FindUnique(a, a.roles[i].id, i);
      EstablishesFound(a, user, c, i);
    case None =>
      NextIdFresh(a);
      EstablishesCreated(a, user, c);
  }

  /** Asking again for the colour a user already has changes no role and no
      membership. */
  lemma RecolorSame(b: Api, user: UserId, c: Color, i: nat)
    requires i < |b.roles| && b.roles[i].color == RGBToRoleColor(c) && b.roles[i].id in Held(b, user)
    ensures b.roles[i := b.roles[i].(color := RGBToRoleColor(c))] == b.roles
    ensures b.members[user := Held(b, user) + {b.roles[i].id}] == b.members
  {
    assert b.roles[i].(color := RGBToRoleColor(c)) == b.roles[i];
    assert user in b.members;
    assert Held(b, user) + {b.roles[i].id} == b.members[user];
    var m := b.members[user := b.members[user]];
    assert forall u :: u in m <==> u in b.members;
    assert forall u :: u in m ==> m[u] == b.members[u];
  }

  lemma NoopFound(b: Api, user: UserId, c: Color, i: nat)
    requires !Refuses(b) && !RefusesAt(b, 1) && !RefusesAt(b, 2)
    requires LastMatch(b.roles, user) == Some(i) && Find(b.roles, b.roles[i].id) == Some(i)
    requires b.roles[i].color == RGBToRoleColor(c) && b.roles[i].id in Held(b, user)
    ensures var r := UpsertUserRoleColor(b, user, c);
            && r.result == Success(())
            && r.api.roles == b.roles
            && r.api.members == b.members
  {
    UpsertFoundState(b, user, c, i);
    RecolorSame(b, user, c, i);
  }

  lemma UpsertNoop(b: Api, user: UserId, c: Color)
    requires Valid(b) && Unrefused(b, 3) && HasColor(b, user, c)
    ensures var r := UpsertUserRoleColor(b, user, c);
            && r.result == Success(())
            && r.api.roles == b.roles
            && r.api.members == b.members
  {
    var i := LastMatch(b.roles, user).value;
    FindUnique(b, b.roles[i].id, i);
    var n := |b.log|;
    assert n <= n + 1 < n + 3 && n <= n + 2 < n + 3;
    NoopFound(b, user, c, i);
  }

  /** A second request for the same colour, with nothing refused, leaves the
      roles and memberships as the first one left them. */
  lemma UpsertIdempotent(a: Api, user: UserId, c: Color)
    requires Valid(a) && Unrefused(a, 5)
    requires Unrefused(UpsertUserRoleColor(a, user, c).api, 3)
    ensures var b := UpsertUserRoleColor(a, user, c).api;
            var r := UpsertUserRoleColor(b, user, c);
            && r.result == Success(())
            && r.api.roles == b.roles
            && r.api.members == b.members
  {
    UpsertEstablishes(a, user, c);
    UpsertNoop(UpsertUserRoleColor(a, user, c).api, user, c);
  }
}
