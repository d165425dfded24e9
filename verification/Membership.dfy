/** Who belongs to which workspace, in which role, and which workspace is current
    (services/account_service.py, models/account.py). */
module Membership {
  import opened Results

  const OWNER := "owner"
  const ADMIN := "admin"
  const ACTIVE_INTERVAL := 10 * 60  // seconds

  datatype Action = Add | Remove | Update

  datatype Status = Pending | Active | Banned

  datatype MembershipError =
    | TenantHasOwner | CannotOperateSelf | NoPermission | MemberNotInTenant | RoleAlreadyAssigned
    | RowMissing | NotLinked | AlreadyInTenant | RegisterFailed | AccountBanned

  /** The unique key of a row of tenant_account_joins. */
  datatype Key = Key(tenant: nat, account: nat)

  datatype Join = Join(id: nat, role: string, current: bool)

  type Joins = map<Key, Join>

  /** The rows an operation leaves behind, and whether it raised. */
  datatype Outcome = Outcome(joins: Joins, result: Result<(), MembershipError>)

  predicate Owns(joins: Joins, key: Key) {
    key in joins && joins[key].role == OWNER
  }

  predicate HasOwner(joins: Joins, tenant: nat) {
    exists key :: key in joins && key.tenant == tenant && Owns(joins, key)
  }

  predicate IsCurrent(joins: Joins, key: Key) {
    key in joins && joins[key].current
  }

  ghost predicate OneOwner(joins: Joins) {
    forall k, l :: Owns(joins, k) && Owns(joins, l) && k.tenant == l.tenant ==> k == l
  }

  ghost predicate OneCurrent(joins: Joins) {
    forall k, l :: IsCurrent(joins, k) && IsCurrent(joins, l) && k.account == l.account ==> k == l
  }

  ghost predicate UniqueIds(joins: Joins) {
    forall k, l :: k in joins && l in joins && joins[k].id == joins[l].id ==> k == l
  }

  /** The row of this account with the least id. */
  predicate IsFirst(joins: Joins, account: nat, key: Key) {
    && key in joins && key.account == account
    && forall k :: k in joins && k.account == account ==> joins[key].id <= joins[k].id
  }

  // ---- What each operation does to the rows ----

  function CheckPermission(joins: Joins, tenant: nat, operator: nat, member: Option<nat>, action: Action): Result<(), MembershipError> {
    var key := Key(tenant, operator);
    if member == Some(operator) then Err(CannotOperateSelf)
    else if key !in joins || !(joins[key].role == OWNER || (action == Add && joins[key].role == ADMIN)) then Err(NoPermission)
    else Ok(())
  }

  function WithMember(joins: Joins, tenant: nat, account: nat, role: string, id: nat): Result<Joins, MembershipError> {
    var key := Key(tenant, account);
    if role == OWNER && HasOwner(joins, tenant) then Err(TenantHasOwner)
    else if key in joins then Ok(joins[key := joins[key].(role := role)])
    else Ok(joins[key := Join(id, role, false)])
  }

  function Removed(joins: Joins, tenant: nat, account: nat, operator: nat): Outcome {
    var key := Key(tenant, account);
    if operator == account then Outcome(joins, Err(CannotOperateSelf))
    else if key !in joins then Outcome(joins, Err(MemberNotInTenant))
    else Outcome(joins - {key}, Ok(()))
  }

  /** A transfer takes the ownership from the operator, the only owner there can be. */
  function RoleUpdated(joins: Joins, tenant: nat, member: nat, role: string, operator: nat): Outcome {
    var key, own := Key(tenant, member), Key(tenant, operator);
    var permission := CheckPermission(joins, tenant, operator, Some(member), Update);
    if permission.Err? then Outcome(joins, permission)
    else if key !in joins then Outcome(joins, Err(RowMissing))
    else if joins[key].role == role then Outcome(joins, Err(RoleAlreadyAssigned))
    else
      var demoted := if role == OWNER then joins[own := joins[own].(role := ADMIN)] else joins;
      Outcome(demoted[key := joins[key].(role := role)], Ok(()))
  }

  function Switched(joins: Joins, account: nat, tenant: nat, normal: bool): Outcome {
    if !normal || Key(tenant, account) !in joins then Outcome(joins, Err(NotLinked))
    else
      Outcome(map k | k in joins :: if k.account == account then joins[k].(current := k.tenant == tenant) else joins[k],
              Ok(()))
  }

  /** An account without a current workspace gets its first one. */
  ghost function Loaded(joins: Joins, account: nat): Joins {
    if (exists k :: IsCurrent(joins, k) && k.account == account) || !(exists k :: IsFirst(joins, account, k)) then joins
    else
      var k :| IsFirst(joins, account, k);
      joins[k := joins[k].(current := true)]
  }

  /** The invitation of an address nobody registered: an account, perhaps with a workspace of
      its own, which joins the tenant and switches to it. */
  function InvitedNew(joins: Joins, tenant: nat, normal: bool, inviter: nat, role: string,
                      account: nat, own: Option<nat>, id: nat, ownId: nat): Outcome {
    var permission := CheckPermission(joins, tenant, inviter, None, Add);
    if permission.Err? then Outcome(joins, permission)
    else
      var registered := if own.Some? then WithMember(joins, own.value, account, OWNER, ownId) else Ok(joins);
      if registered.Err? then Outcome(joins, Err(RegisterFailed))
      else match WithMember(registered.value, tenant, account, role, id)
        case Err(e) => Outcome(registered.value, Err(e))
        case Ok(joined) => Switched(joined, account, tenant, normal)
  }

  /** An account that is not pending is added, and the call raises all the same. */
  function InvitedKnown(joins: Joins, tenant: nat, inviter: nat, role: string, account: nat, pending: bool, id: nat): Outcome {
    var permission := CheckPermission(joins, tenant, inviter, Some(account), Add);
    if permission.Err? then Outcome(joins, permission)
    else
      var joined := if Key(tenant, account) in joins then Ok(joins) else WithMember(joins, tenant, account, role, id);
      match joined
      case Err(e) => Outcome(joins, Err(e))
      case Ok(j) => Outcome(j, if pending then Ok(()) else Err(AlreadyInTenant))
  }

  // ---- The service ----

  class TenantService {
    var joins: Joins
    var tenants: map<nat, bool>  // whether its status is normal
    var accounts: map<nat, Status>
    var lastActive: map<nat, int>  // of each account, in seconds
    var emails: map<string, nat>

    ghost predicate Valid()
      reads this
    {
      && OneOwner(joins) && OneCurrent(joins) && UniqueIds(joins)
      && (forall k :: k in joins ==> k.tenant in tenants && k.account in accounts)
      && (forall e :: e in emails ==> emails[e] in accounts) && lastActive.Keys == accounts.Keys
    }

    predicate FreshId(id: nat)
      reads this`joins
    {
      forall k :: k in joins ==> joins[k].id != id
    }

    constructor ()
      ensures Valid() && joins == map[] && accounts == map[] && tenants == map[]
    {
      joins, tenants, accounts, lastActive, emails := map[], map[], map[], map[], map[];
    }

    method CreateTenantMember(tenant: nat, account: nat, role: string, id: nat) returns (r: Result<(), MembershipError>)
      requires Valid() && tenant in tenants && account in accounts && FreshId(id)
      modifies this`joins
      ensures Valid()
      ensures var w := WithMember(old(joins), tenant, account, role, id);
              match w case Ok(j) => r == Ok(()) && joins == j case Err(e) => r == Err(e) && joins == old(joins)
    {
      MemberKeeps(joins, tenant, account, role, id);
      if role == OWNER {
        if HasOwner(joins, tenant) {
          return Err(TenantHasOwner);
        }
      }
      var key := Key(tenant, account);
      if key in joins {
        joins := joins[key := joins[key].(role := role)];
      } else {
        joins := joins[key := Join(id, role, false)];
      }
      return Ok(());
    }

    method CheckMemberPermission(tenant: nat, operator: nat, member: Option<nat>, action: Action)
      returns (r: Result<(), MembershipError>)
      ensures r == CheckPermission(joins, tenant, operator, member, action)
    {
      var perms := match action
        case Add => {OWNER, ADMIN}
        case Remove => {OWNER}
        case Update => {OWNER};
      if member.Some? && operator == member.value {
        return Err(CannotOperateSelf);
      }
      var key := Key(tenant, operator);
      if key !in joins || joins[key].role !in perms {
        return Err(NoPermission);
      }
      return Ok(());
    }

    method RemoveMemberFromTenant(tenant: nat, account: nat, operator: nat) returns (r: Result<(), MembershipError>)
      requires Valid()
      modifies this`joins
      ensures Valid()
      ensures Outcome(joins, r) == Removed(old(joins), tenant, account, operator)
    {
      if operator == account {
        var permission := CheckMemberPermission(tenant, operator, Some(account), Remove);
        if permission.Err? {
          return permission;
        }
      }
      var key := Key(tenant, account);
      if key !in joins {
        return Err(MemberNotInTenant);
      }
      joins := joins - {key};
      return Ok(());
    }

    /** The owner looked up to be demoted is the operator. */
    method UpdateMemberRole(tenant: nat, member: nat, role: string, operator: nat) returns (r: Result<(), MembershipError>)
      requires Valid()
      modifies this`joins
      ensures Valid()
      ensures Outcome(joins, r) == RoleUpdated(old(joins), tenant, member, role, operator)
    {
      RoleUpdateKeeps(joins, tenant, member, role, operator);
      SameIds(joins, RoleUpdated(joins, tenant, member, role, operator).joins);
      OnlyOwner(joins);
      hide OneOwner;
      hide OneCurrent;
      hide UniqueIds;
      var permission := CheckMemberPermission(tenant, operator, Some(member), Update);
      if permission.Err? {
        return permission;
      }
      var key := Key(tenant, member);
      if key !in joins {
        return Err(RowMissing);
      }
      if joins[key].role == role {
        return Err(RoleAlreadyAssigned);
      }
      if role == OWNER {
        assert Owns(joins, Key(tenant, operator));
        var owner :| owner in joins && owner.tenant == tenant && Owns(joins, owner);
        assert owner == Key(tenant, operator);
        joins := joins[owner := joins[owner].(role := ADMIN)];
      }
      joins := joins[key := joins[key].(role := role)];
      return Ok(());
    }

    method SwitchTenant(account: nat, tenant: nat) returns (r: Result<(), MembershipError>)
      requires Valid()
      modifies this`joins
      ensures Valid()
      ensures Outcome(joins, r) == Switched(old(joins), account, tenant, tenant in tenants && tenants[tenant])
    {
      hide OneOwner;
      hide OneCurrent;
      hide UniqueIds;
      SwitchKeeps(joins, account, tenant, tenant in tenants && tenants[tenant]);
      var key := Key(tenant, account);
      if key !in joins || tenant !in tenants || !tenants[tenant] {
        return Err(NotLinked);
      }
      joins := map k | k in joins ::
        if k.account == account && k.tenant != tenant then joins[k].(current := false) else joins[k];
      joins := joins[key := joins[key].(current := true)];
      assert joins == Switched(old(joins), account, tenant, true).joins;
      return Ok(());
    }

    /** Returns the workspace the account works in, None when it has no account or workspace. */
    method LoadUser(account: nat, now: int) returns (r: Result<Option<nat>, MembershipError>)
      requires Valid()
      modifies this`joins, this`lastActive
      ensures Valid()
      ensures r.Err? <==> account in accounts && accounts[account] == Banned
      ensures joins == if account in accounts && accounts[account] != Banned then Loaded(old(joins), account) else old(joins)
      ensures r.Ok? && r.value.Some? ==> IsCurrent(joins, Key(r.value.value, account))
      ensures r == Ok(None) ==> forall k :: k in joins ==> k.account != account
      ensures lastActive == if r.Ok? && r.value.Some? && now - old(lastActive)[account] > ACTIVE_INTERVAL
                            then old(lastActive)[account := now] else old(lastActive)
    {
      hide OneOwner;
      hide OneCurrent;
      hide UniqueIds;
      LoadKeeps(joins, account);
      if account !in accounts {
        return Ok(None);
      }
      if accounts[account] == Banned {
        return Err(AccountBanned);
      }
      if exists k :: k in joins && IsCurrent(joins, k) && k.account == account {
        var k :| k in joins && IsCurrent(joins, k) && k.account == account;
        Touch(account, now);
        return Ok(Some(k.tenant));
      }
      if !(exists k :: k in joins && k.account == account) {
        assert Loaded(joins, account) == joins;
        return Ok(None);
      }
      FirstExists(joins, account);
      FirstIsUnique(joins, account);
      var k :| k in joins && IsFirst(joins, account, k);
      assert Loaded(joins, account) == joins[k := joins[k].(current := true)];
      joins := joins[k := joins[k].(current := true)];
      Touch(account, now);
      return Ok(Some(k.tenant));
    }

    /** The time of the last activity is refreshed when it is more than ten minutes old. */
    method Touch(account: nat, now: int)
      requires account in lastActive
      modifies this`lastActive
      ensures lastActive == if now - old(lastActive)[account] > ACTIVE_INTERVAL
                            then old(lastActive)[account := now] else old(lastActive)
    {
      if now - lastActive[account] > ACTIVE_INTERVAL {
        lastActive := lastActive[account := now];
      }
    }

    method InviteNewMember(tenant: nat, email: string, role: string, inviter: nat, allowWorkspace: bool, now: int,
                           freshAccount: nat, freshTenant: nat, id: nat, ownId: nat)
      returns (r: Result<(), MembershipError>)
      requires Valid() && tenant in tenants && freshAccount !in accounts && freshTenant !in tenants
      requires FreshId(id) && FreshId(ownId) && id != ownId
      modifies this
      ensures Valid()
      ensures email in old(emails) ==>
        var account := old(emails)[email];
        Outcome(joins, r) == InvitedKnown(old(joins), tenant, inviter, role, account, old(accounts)[account] == Pending, id)
      ensures email !in old(emails) ==>
        Outcome(joins, r) == InvitedNew(old(joins), tenant, old(tenants)[tenant], inviter, role, freshAccount,
                                        if allowWorkspace then Some(freshTenant) else None, id, ownId)
      ensures email !in old(emails) && r.Ok? ==> email in emails && emails[email] == freshAccount && accounts[freshAccount] == Pending
    {
      if email !in emails {
        var permission := CheckMemberPermission(tenant, inviter, None, Add);
        if permission.Err? {
          return permission;
        }
        accounts, lastActive := accounts[freshAccount := Pending], lastActive[freshAccount := now];
        emails := emails[email := freshAccount];
        if allowWorkspace {
          tenants := tenants[freshTenant := true];
          var registered := CreateTenantMember(freshTenant, freshAccount, OWNER, ownId);
          if registered.Err? {
            return Err(RegisterFailed);
          }
        }
        var joined := CreateTenantMember(tenant, freshAccount, role, id);
        if joined.Err? {
          return joined;
        }
        r := SwitchTenant(freshAccount, tenant);
      } else {
        var account := emails[email];
        var permission := CheckMemberPermission(tenant, inviter, Some(account), Add);
        if permission.Err? {
          return permission;
        }
        if Key(tenant, account) !in joins {
          var joined := CreateTenantMember(tenant, account, role, id);
          if joined.Err? {
            return joined;
          }
        }
        if accounts[account] != Pending {
          return Err(AlreadyInTenant);
        }
        return Ok(());
      }
    }
  }

  // ---- Lookups ----

  /** Some row of an account that has one carries the least id. */
  lemma {:induction false} FirstExists(joins: Joins, account: nat)
    requires exists k :: k in joins && k.account == account
    ensures exists k :: IsFirst(joins, account, k)
    decreases |joins|
  {
    var k :| k in joins && k.account == account;
    var rest := joins - {k};
    if exists l :: l in rest && l.account == account {
      FirstExists(rest, account);
      var l :| IsFirst(rest, account, l);
      assert IsFirst(joins, account, if joins[k].id <= joins[l].id then k else l);
    } else {
      assert forall l :: l in joins && l.account == account ==> l == k || l in rest;
      assert IsFirst(joins, account, k);
    }
  }

  lemma FirstIsUnique(joins: Joins, account: nat)
    requires UniqueIds(joins)
    ensures forall k, l :: IsFirst(joins, account, k) && IsFirst(joins, account, l) ==> k == l
  {
  }

  lemma OnlyOwner(joins: Joins)
    requires OneOwner(joins)
    ensures forall k, l :: Owns(joins, k) && Owns(joins, l) && k.tenant == l.tenant ==> k == l
  {
  }

  // ---- The invariants, one operation at a time ----

  lemma MemberKeeps(joins: Joins, tenant: nat, account: nat, role: string, id: nat)
    requires OneOwner(joins) && OneCurrent(joins)
    ensures var w := WithMember(joins, tenant, account, role, id); w.Ok? ==> OneOwner(w.value) && OneCurrent(w.value)
  {
    var w := WithMember(joins, tenant, account, role, id);
    if w.Ok? {
      var key := Key(tenant, account);
      forall k, l | Owns(w.value, k) && Owns(w.value, l) && k.tenant == l.tenant
        ensures k == l
      {
        assert k != key ==> Owns(joins, k);
        assert l != key ==> Owns(joins, l);
      }
      assert forall k :: IsCurrent(w.value, k) ==> IsCurrent(joins, k);
    }
  }

  lemma RoleUpdateKeeps(joins: Joins, tenant: nat, member: nat, role: string, operator: nat)
    requires OneOwner(joins) && OneCurrent(joins)
    ensures var o := RoleUpdated(joins, tenant, member, role, operator); OneOwner(o.joins) && OneCurrent(o.joins)
  {
    var o := RoleUpdated(joins, tenant, member, role, operator);
    var key, own := Key(tenant, member), Key(tenant, operator);
    if o.result.Ok? {
      assert Owns(joins, own);
      forall k | Owns(o.joins, k) && k.tenant == tenant
        ensures k == if role == OWNER then key else own
      {
        assert k != key && k != own ==> Owns(joins, k);
      }
      assert forall k :: Owns(o.joins, k) && k.tenant != tenant ==> Owns(joins, k);
      assert forall k :: IsCurrent(o.joins, k) ==> IsCurrent(joins, k);
    }
  }

  lemma SwitchKeeps(joins: Joins, account: nat, tenant: nat, normal: bool)
    requires OneOwner(joins) && OneCurrent(joins)
    ensures var o := Switched(joins, account, tenant, normal);
            OneOwner(o.joins) && OneCurrent(o.joins) && (UniqueIds(joins) ==> UniqueIds(o.joins))
  {
    var o := Switched(joins, account, tenant, normal);
    if o.result.Ok? {
      assert forall k :: Owns(o.joins, k) ==> Owns(joins, k);
      assert forall k :: IsCurrent(o.joins, k) && k.account == account ==> k == Key(tenant, account);
      assert forall k :: IsCurrent(o.joins, k) && k.account != account ==> IsCurrent(joins, k);
      SameIds(joins, o.joins);
    }
  }

  lemma LoadKeeps(joins: Joins, account: nat)
    requires OneOwner(joins) && OneCurrent(joins)
    ensures var j := Loaded(joins, account);
            OneOwner(j) && OneCurrent(j) && (UniqueIds(joins) ==> UniqueIds(j)) && j.Keys == joins.Keys
  {
    var j := Loaded(joins, account);
    assert forall k :: Owns(j, k) ==> Owns(joins, k);
    forall k, l | IsCurrent(j, k) && IsCurrent(j, l) && k.account == l.account
      ensures k == l
    {
      if k.account != account {
        assert IsCurrent(joins, k) && IsCurrent(joins, l);
      }
    }
    SameIds(joins, j);
  }

  lemma SameIds(joins: Joins, after: Joins)
    requires forall k :: k in after ==> k in joins && after[k].id == joins[k].id
    ensures UniqueIds(joins) ==> UniqueIds(after)
  {
  }

  // ---- Whole runs ----

  datatype Operation =
    | CreateMember(tenant: nat, account: nat, role: string, id: nat)
    | RemoveMember(tenant: nat, account: nat, operator: nat)
    | UpdateRole(tenant: nat, account: nat, role: string, operator: nat)
    | Switch(tenant: nat, account: nat, normal: bool)
    | Load(account: nat)
    | InviteNew(tenant: nat, account: nat, role: string, inviter: nat, normal: bool, own: Option<nat>, id: nat, ownId: nat)
    | InviteKnown(tenant: nat, account: nat, role: string, inviter: nat, pending: bool, id: nat)

  ghost function Apply(joins: Joins, op: Operation): Joins {
    match op
    case CreateMember(t, a, role, id) =>
      var w := WithMember(joins, t, a, role, id);
      if w.Ok? then w.value else joins
    case RemoveMember(t, a, operator) => Removed(joins, t, a, operator).joins
    case UpdateRole(t, a, role, operator) => RoleUpdated(joins, t, a, role, operator).joins
    case Switch(t, a, normal) => Switched(joins, a, t, normal).joins
    case Load(a) => Loaded(joins, a)
    case InviteNew(t, a, role, inviter, normal, own, id, ownId) =>
      InvitedNew(joins, t, normal, inviter, role, a, own, id, ownId).joins
    case InviteKnown(t, a, role, inviter, pending, id) => InvitedKnown(joins, t, inviter, role, a, pending, id).joins
  }

  ghost function Run(joins: Joins, ops: seq<Operation>): Joins
    decreases |ops|
  {
    if ops == [] then joins else Run(Apply(joins, ops[0]), ops[1..])
  }

  lemma StepKeeps(joins: Joins, op: Operation)
    requires OneOwner(joins) && OneCurrent(joins)
    ensures OneOwner(Apply(joins, op)) && OneCurrent(Apply(joins, op))
  {
    match op
    case CreateMember(t, a, role, id) => MemberKeeps(joins, t, a, role, id);
    case RemoveMember(t, a, operator) =>
      assert forall k :: Owns(Apply(joins, op), k) ==> Owns(joins, k);
      assert forall k :: IsCurrent(Apply(joins, op), k) ==> IsCurrent(joins, k);
    case UpdateRole(t, a, role, operator) => RoleUpdateKeeps(joins, t, a, role, operator);
    case Switch(t, a, normal) => SwitchKeeps(joins, a, t, normal);
    case Load(a) => LoadKeeps(joins, a);
    case InviteNew(t, a, role, inviter, normal, own, id, ownId) =>
      var registered := if own.Some? then WithMember(joins, own.value, a, OWNER, ownId) else Ok(joins);
      if own.Some? {
        MemberKeeps(joins, own.value, a, OWNER, ownId);
      }
      if registered.Ok? {
        MemberKeeps(registered.value, t, a, role, id);
        var joined := WithMember(registered.value, t, a, role, id);
        if joined.Ok? {
          SwitchKeeps(joined.value, a, t, normal);
        }
      }
    case InviteKnown(t, a, role, inviter, pending, id) => MemberKeeps(joins, t, a, role, id);
  }

  /** In every reachable state each tenant has at most one owner and each account at most one
      current workspace. */
  lemma {:induction false} RunKeepsInvariants(joins: Joins, ops: seq<Operation>)
    requires OneOwner(joins) && OneCurrent(joins)
    ensures OneOwner(Run(joins, ops)) && OneCurrent(Run(joins, ops))
    decreases |ops|
  {
    if ops != [] {
      StepKeeps(joins, ops[0]);
      RunKeepsInvariants(Apply(joins, ops[0]), ops[1..]);
    }
  }

  // ---- What the operations do, row by row ----

  lemma PermissionExactly(joins: Joins, tenant: nat, operator: nat, member: Option<nat>, action: Action)
    ensures var r, key := CheckPermission(joins, tenant, operator, member, action), Key(tenant, operator);
            && (r == Err(CannotOperateSelf) <==> member == Some(operator))
            && (r.Ok? <==> member != Some(operator) && key in joins
                           && (joins[key].role == "owner" || (action == Add && joins[key].role == "admin")))
            && (r.Err? ==> r.error == CannotOperateSelf || r.error == NoPermission)
  {
  }

  /** A member is written unless a second owner is asked for: an existing row gets the role, a new
      one has it and is not current. */
  lemma MemberWrittenExactly(joins: Joins, tenant: nat, account: nat, role: string, id: nat)
    ensures var w, key := WithMember(joins, tenant, account, role, id), Key(tenant, account);
            && (w.Err? <==> role == "owner" && exists k :: k in joins && k.tenant == tenant && joins[k].role == "owner")
            && (w.Ok? ==>
                  && w.value.Keys == joins.Keys + {key}
                  && w.value[key] == (if key in joins then Join(joins[key].id, role, joins[key].current) else Join(id, role, false))
                  && forall k :: k in joins && k != key ==> w.value[k] == joins[k])
  {
  }

  /** Anyone but the member removes the member's row, and no other. */
  lemma RemovedExactly(joins: Joins, tenant: nat, account: nat, operator: nat)
    ensures var o, key := Removed(joins, tenant, account, operator), Key(tenant, account);
            && (o.result.Ok? <==> operator != account && key in joins)
            && o.joins.Keys == (if o.result.Ok? then joins.Keys - {key} else joins.Keys)
            && forall k :: k in o.joins ==> o.joins[k] == joins[k]
  {
  }

  /** The owner gives another member another role than "owner"; nothing else changes. */
  lemma RoleChangedExactly(joins: Joins, tenant: nat, member: nat, role: string, operator: nat)
    requires role != "owner"
    ensures var o, key, own := RoleUpdated(joins, tenant, member, role, operator), Key(tenant, member), Key(tenant, operator);
            && (o.result.Ok? <==>
                  && member != operator && own in joins && joins[own].role == "owner"
                  && key in joins && joins[key].role != role)
            && o.joins.Keys == joins.Keys
            && forall k :: k in joins ==>
                 o.joins[k] == if o.result.Ok? && k == key then Join(joins[k].id, role, joins[k].current) else joins[k]
  {
  }

  /** A switch to a normal tenant of the account makes its row the account's one current row. */
  lemma SwitchedExactly(joins: Joins, account: nat, tenant: nat, normal: bool)
    ensures var o := Switched(joins, account, tenant, normal);
            && (o.result.Ok? <==> normal && Key(tenant, account) in joins)
            && o.joins.Keys == joins.Keys
            && forall k :: k in joins ==>
                 o.joins[k] == if o.result.Ok? && k.account == account then Join(joins[k].id, joins[k].role, k.tenant == tenant)
                               else joins[k]
  {
  }

  /** Loading an account without a current row makes the one with the least id current. */
  lemma LoadedIsFirst(joins: Joins, account: nat)
    ensures var after := Loaded(joins, account);
            && after.Keys == joins.Keys
            && forall k :: k in joins && after[k] != joins[k] ==>
                 && k.account == account && after[k] == Join(joins[k].id, joins[k].role, true)
                 && forall l :: l in joins && l.account == account ==> !joins[l].current && joins[k].id <= joins[l].id
  {
    if exists k :: IsCurrent(joins, k) && k.account == account {
      assert Loaded(joins, account) == joins;
    } else if exists k :: IsFirst(joins, account, k) {
      var k :| IsFirst(joins, account, k) && Loaded(joins, account) == joins[k := joins[k].(current := true)];
      assert forall l :: l in joins && l.account == account ==> !IsCurrent(joins, l);
    }
  }

  /** An invited new account has the role asked for, in the tenant that is now its current one, and
      owns the workspace made for it; no row there was has changed. */
  lemma InvitedNewExactly(joins: Joins, tenant: nat, normal: bool, inviter: nat, role: string,
                          account: nat, own: Option<nat>, id: nat, ownId: nat)
    requires (forall k :: k in joins ==> k.account != account) && own != Some(tenant)
    requires own.Some? ==> forall k :: k in joins ==> k.tenant != own.value
    ensures var o, key := InvitedNew(joins, tenant, normal, inviter, role, account, own, id, ownId), Key(tenant, account);
            && (o.result.Ok? <==>
                  && normal && Key(tenant, inviter) in joins && joins[Key(tenant, inviter)].role in {"owner", "admin"}
                  && (role == "owner" ==> forall k :: k in joins && k.tenant == tenant ==> joins[k].role != "owner"))
            && (o.result.Ok? ==>
                  && o.joins.Keys == joins.Keys + {key} + (if own.Some? then {Key(own.value, account)} else {})
                  && o.joins[key] == Join(id, role, true)
                  && (own.Some? ==> o.joins[Key(own.value, account)] == Join(ownId, "owner", false)))
            && forall k :: k in joins ==> k in o.joins && o.joins[k] == joins[k]
  {
    PermissionExactly(joins, tenant, inviter, None, Add);
    hide CheckPermission;
    var registered := if own.Some? then WithMember(joins, own.value, account, OWNER, ownId) else Ok(joins);
    if own.Some? {
      MemberWrittenExactly(joins, own.value, account, OWNER, ownId);
    }
    assert registered.Ok?;
    MemberWrittenExactly(registered.value, tenant, account, role, id);
    var joined := WithMember(registered.value, tenant, account, role, id);
    assert forall k :: k in registered.value && k.tenant == tenant ==> k in joins;
    if joined.Ok? {
      SwitchedExactly(joined.value, account, tenant, normal);
    }
    hide WithMember;
    hide Switched;
  }

  /** An invited known account is added if it was no member, also when the call raises because it is
      not pending. */
  lemma InvitedKnownExactly(joins: Joins, tenant: nat, inviter: nat, role: string, account: nat, pending: bool, id: nat)
    ensures var o, key, host := InvitedKnown(joins, tenant, inviter, role, account, pending, id), Key(tenant, account), Key(tenant, inviter);
            var may := inviter != account && host in joins && joins[host].role in {"owner", "admin"};
            var second := role == "owner" && exists k :: k in joins && k.tenant == tenant && joins[k].role == "owner";
            && (o.result.Ok? <==> may && (key in joins || !second) && pending)
            && (if may && key !in joins && !second then o.joins == joins[key := Join(id, role, false)] else o.joins == joins)
            && (may && (key in joins || !second) && !pending ==> o.result == Err(AlreadyInTenant))
  {
    PermissionExactly(joins, tenant, inviter, Some(account), Add);
    MemberWrittenExactly(joins, tenant, account, role, id);
  }

  // ---- Roles ----

  /** A transfer succeeds exactly for the owner acting on another member; it makes the operator
      an admin and the target the owner, and touches nothing else. */
  lemma TransferSwapsExactly(joins: Joins, tenant: nat, member: nat, operator: nat)
    requires OneOwner(joins)
    ensures var o := RoleUpdated(joins, tenant, member, OWNER, operator);
            var key, own := Key(tenant, member), Key(tenant, operator);
            && (o.result.Ok? <==> own in joins && joins[own].role == "owner" && key in joins && member != operator)
            && (o.result.Ok? ==>
                  && o.joins.Keys == joins.Keys
                  && o.joins[own].role == "admin" && o.joins[key].role == "owner"
                  && (forall k :: k in joins && k != own && k != key ==> o.joins[k] == joins[k])
                  && (forall k :: k in joins ==> o.joins[k].(role := joins[k].role) == joins[k]))
            && (o.result.Err? ==> o.joins == joins)
  {
    assert Owns(joins, Key(tenant, member)) && Owns(joins, Key(tenant, operator)) ==> member == operator;
  }

  /** Handing the ownership back restores every row but the other member's former role. */
  lemma TransferBack(joins: Joins, tenant: nat, member: nat, operator: nat)
    requires OneOwner(joins) && RoleUpdated(joins, tenant, member, OWNER, operator).result.Ok?
    ensures var there := RoleUpdated(joins, tenant, member, OWNER, operator).joins;
            var key := Key(tenant, member);
            RoleUpdated(there, tenant, operator, OWNER, member)
              == Outcome(joins[key := joins[key].(role := ADMIN)], Ok(()))
  {
    var there := RoleUpdated(joins, tenant, member, OWNER, operator).joins;
    var key, own := Key(tenant, member), Key(tenant, operator);
    assert Owns(joins, own) && joins[own].(role := ADMIN).(role := OWNER) == joins[own];
    var back := RoleUpdated(there, tenant, operator, OWNER, member);
    assert back.result.Ok?;
    assert back.joins == joins[key := joins[key].(role := ADMIN)];
  }

  /** Changing a role leaves every tenant with an owner exactly when it had one. */
  lemma UpdateKeepsOwnership(joins: Joins, tenant: nat, member: nat, role: string, operator: nat, t: nat)
    requires OneOwner(joins)
    ensures HasOwner(RoleUpdated(joins, tenant, member, role, operator).joins, t) <==> HasOwner(joins, t)
  {
    var o := RoleUpdated(joins, tenant, member, role, operator);
    var key, own := Key(tenant, member), Key(tenant, operator);
    if o.result.Ok? {
      assert Owns(joins, own) && HasOwner(joins, tenant);
      assert Owns(o.joins, if role == OWNER then key else own);
      assert HasOwner(o.joins, tenant);
      if t != tenant {
        assert forall k: Key :: k.tenant == t ==> (Owns(o.joins, k) <==> Owns(joins, k));
      }
    }
  }

  /** The two ways an operation takes a tenant's owner away: removal, for which the operator
      needs no role and no membership, and creating the member anew in a lower role. */
  predicate DropsOwner(joins: Joins, op: Operation, t: nat) {
    || (op.RemoveMember? && op.tenant == t && op.operator != op.account && Owns(joins, Key(t, op.account)))
    || (op.CreateMember? && op.tenant == t && op.role != OWNER && Owns(joins, Key(t, op.account)))
  }

  /** A tenant loses its owner exactly by one of these; no transfer, role change, switch, log-in
      or invitation does it. */
  lemma OwnerLostExactly(joins: Joins, op: Operation, t: nat)
    requires OneOwner(joins) && HasOwner(joins, t)
    requires op.InviteNew? ==> forall k :: k in joins ==> k.account != op.account
    ensures HasOwner(Apply(joins, op), t) <==> !DropsOwner(joins, op, t)
  {
    var owner :| owner in joins && owner.tenant == t && Owns(joins, owner);
    var after := Apply(joins, op);
    if op.UpdateRole? {
      UpdateKeepsOwnership(joins, op.tenant, op.account, op.role, op.operator, t);
    } else if DropsOwner(joins, op, t) {
      forall k | k in after && k.tenant == t
        ensures !Owns(after, k)
      {
        assert k != owner ==> !Owns(joins, k);
      }
    } else {
      assert Owns(after, owner);
    }
  }

  // ---- The current workspace ----

  predicate HasCurrent(joins: Joins, account: nat) {
    exists k :: k in joins && IsCurrent(joins, k) && k.account == account
  }

  /** After loading, an account has a current workspace exactly when it has any. */
  lemma LoadedHasCurrentExactly(joins: Joins, account: nat)
    ensures HasCurrent(Loaded(joins, account), account) <==> exists k :: k in joins && k.account == account
  {
    if exists k :: k in joins && k.account == account {
      FirstExists(joins, account);
      if exists k :: IsCurrent(joins, k) && k.account == account {
        var k :| IsCurrent(joins, k) && k.account == account;
        assert IsCurrent(Loaded(joins, account), k);
      } else {
        var k :| IsFirst(joins, account, k) && Loaded(joins, account) == joins[k := joins[k].(current := true)];
        assert IsCurrent(Loaded(joins, account), k);
      }
    } else {
      assert Loaded(joins, account) == joins;
    }
  }

  /** An account loses its current workspace exactly by being removed from it. */
  lemma CurrentLostExactly(joins: Joins, op: Operation, account: nat)
    requires OneCurrent(joins) && HasCurrent(joins, account)
    ensures HasCurrent(Apply(joins, op), account) <==>
            !(op.RemoveMember? && op.account == account && op.operator != account && IsCurrent(joins, Key(op.tenant, account)))
  {
    var c :| c in joins && IsCurrent(joins, c) && c.account == account;
    var after := Apply(joins, op);
    if op.RemoveMember? {
      if op.operator != op.account {
        assert forall k :: IsCurrent(after, k) ==> IsCurrent(joins, k) && k != Key(op.tenant, op.account);
        assert c != Key(op.tenant, op.account) ==> IsCurrent(after, c);
      }
    } else {
      hide OneCurrent;
      if (op.Switch? || op.InviteNew?) && op.account == account {
        assert IsCurrent(after, Key(op.tenant, account)) || IsCurrent(after, c);
      } else {
        assert IsCurrent(after, c);
      }
    }
  }
}
