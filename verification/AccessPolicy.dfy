/**
 * Resource access: the bulk query against the pointwise check.
 *
 * The pointwise check looks rows up one after another; the bulk query joins all
 * tables at once and correlates the policy scope with the member's role. Both are
 * modelled over the same tables, and shown to grant the same resources to members
 * of the organization. Only the check asks for that membership.
 */
module AccessPolicy {
  import opened Wrappers

  const ACTIVE := "active"
  const SERVICE_ADMIN := "service_admin"
  const GLOBAL := "__global__"
  const RESOURCE_ROLES := {"observer", "release_operator", "incident_operator", "cluster_steward"}

  datatype User = User(userId: string, role: string, status: string)
  datatype OrganizationMember = OrganizationMember(organizationId: string, userId: string, status: string)
  datatype GroupMember = GroupMember(groupId: string, userId: string, status: string)
  datatype Assignment = Assignment(
    assignmentId: string, organizationId: string, groupId: string, resourceType: string, resourceId: string, status: string)
  datatype MemberRole = MemberRole(assignmentId: string, userId: string, role: string, status: string)
  datatype RolePermission = RolePermission(
    organizationId: string, resourceType: string, role: string, permission: string, status: string)

  datatype Tables = Tables(
    users: seq<User>, organizationMembers: seq<OrganizationMember>, groupMembers: seq<GroupMember>,
    assignments: seq<Assignment>, memberRoles: seq<MemberRole>, rolePermissions: seq<RolePermission>)

  predicate SameResource(a: Assignment, b: Assignment) {
    a.organizationId == b.organizationId && a.resourceType == b.resourceType && a.resourceId == b.resourceId
  }

  /** The unique constraints the check relies on. */
  predicate UniqueRows(t: Tables) {
    && (forall a, b :: a in t.assignments && b in t.assignments && SameResource(a, b) ==> a == b)
    && (forall m, n :: m in t.memberRoles && n in t.memberRoles && m.assignmentId == n.assignmentId && m.userId == n.userId ==> m == n)
  }

  /** The unique constraints and the role vocabulary of member roles. */
  predicate Consistent(t: Tables) {
    UniqueRows(t) && forall m :: m in t.memberRoles ==> m.role in RESOURCE_ROLES
  }

  /** The row that a `limit 1` query returns. */
  function First<T>(rows: seq<T>, wanted: T -> bool): (r: Option<T>)
    ensures r.Some? ==> r.value in rows && wanted(r.value)
    ensures r.None? ==> forall x :: x in rows ==> !wanted(x)
  {
    if rows == [] then None
    else if wanted(rows[0]) then Some(rows[0])
    else First(rows[1..], wanted)
  }

  // ----- The pointwise check -----

  predicate IsServiceAdmin(t: Tables, userId: string) {
    First(t.users, (u: User) => u.userId == userId && u.role == SERVICE_ADMIN && u.status == ACTIVE).Some?
  }

  predicate IsOrganizationMember(t: Tables, organizationId: string, userId: string) {
    First(t.organizationMembers,
          (m: OrganizationMember) => m.organizationId == organizationId && m.userId == userId && m.status == ACTIVE).Some?
  }

  function FindAssignment(t: Tables, organizationId: string, resourceType: string, resourceId: string): Option<Assignment> {
    First(t.assignments, (a: Assignment) =>
      a.organizationId == organizationId && a.resourceType == resourceType && a.resourceId == resourceId && a.status == ACTIVE)
  }

  predicate IsGroupMember(t: Tables, groupId: string, userId: string) {
    First(t.groupMembers, (m: GroupMember) => m.groupId == groupId && m.userId == userId && m.status == ACTIVE).Some?
  }

  function FindMemberRole(t: Tables, assignmentId: string, userId: string): Option<MemberRole> {
    First(t.memberRoles, (m: MemberRole) => m.assignmentId == assignmentId && m.userId == userId && m.status == ACTIVE)
  }

  /** `get_role_permissions`: any row in the organization's scope, even a disabled one, hides the global policy. */
  function RolePermissions(t: Tables, resourceType: string, role: string, organizationId: string): set<string> {
    var own := if organizationId == "" then GLOBAL else organizationId;
    var scoped := First(t.rolePermissions, (p: RolePermission) =>
      p.organizationId == own && p.resourceType == resourceType && p.role == role);
    var scope := if scoped.Some? then own else GLOBAL;
    set p | p in t.rolePermissions && p.organizationId == scope && p.resourceType == resourceType && p.role == role && p.status == ACTIVE
      :: p.permission
  }

  /** `can_access` for a valid permission; `None` is the error for a role outside the vocabulary. */
  function CanAccess(t: Tables, userId: string, organizationId: string, resourceType: string, resourceId: string, permission: string): Option<bool> {
    if IsServiceAdmin(t, userId) then Some(true)
    else if !IsOrganizationMember(t, organizationId, userId) then Some(false)
    else
      var assignment := FindAssignment(t, organizationId, resourceType, resourceId);
      if assignment.None? || !IsGroupMember(t, assignment.value.groupId, userId) then Some(false)
      else
        var memberRole := FindMemberRole(t, assignment.value.assignmentId, userId);
        if memberRole.None? then Some(false)
        else if memberRole.value.role !in RESOURCE_ROLES then None
        else Some(permission in RolePermissions(t, resourceType, memberRole.value.role, organizationId))
  }

  // ----- Who is granted what, row by row -----

  /** The policy rows that decide for a role: those of the organization if it has any for the role, even disabled ones. */
  ghost predicate Decides(t: Tables, organizationId: string, p: RolePermission) {
    var own := if organizationId == "" then "__global__" else organizationId;
    || p.organizationId == own
    || (p.organizationId == "__global__" &&
        forall q :: q in t.rolePermissions && q.resourceType == p.resourceType && q.role == p.role ==> q.organizationId != own)
  }

  /** The user is an active service administrator. */
  ghost predicate HasAdminRow(t: Tables, userId: string) {
    exists u :: u in t.users && u.userId == userId && u.role == "service_admin" && u.status == "active"
  }

  /** The user is an active member of the organization. */
  ghost predicate HasMemberRow(t: Tables, organizationId: string, userId: string) {
    exists m :: m in t.organizationMembers && m.organizationId == organizationId && m.userId == userId && m.status == "active"
  }

  /** Active rows that lead from the resource over its group to a role of the user. */
  ghost predicate LeadsToRole(
    t: Tables, userId: string, organizationId: string, resourceType: string, resourceId: string, role: string,
    a: Assignment, g: GroupMember, m: MemberRole)
  {
    && a in t.assignments && g in t.groupMembers && m in t.memberRoles
    && a.organizationId == organizationId && a.resourceType == resourceType && a.resourceId == resourceId
    && g.groupId == a.groupId && m.assignmentId == a.assignmentId && g.userId == m.userId == userId && m.role == role
    && a.status == g.status == m.status == "active"
  }

  ghost predicate HasRole(t: Tables, userId: string, organizationId: string, resourceType: string, resourceId: string, role: string) {
    exists a, g, m :: LeadsToRole(t, userId, organizationId, resourceType, resourceId, role, a, g, m)
  }

  /** An active policy row that decides for the role grants the permission. */
  ghost predicate HasPolicy(t: Tables, organizationId: string, resourceType: string, role: string, permission: string) {
    exists p :: p in t.rolePermissions && Decides(t, organizationId, p)
                && p.resourceType == resourceType && p.role == role && p.permission == permission && p.status == "active"
  }

  lemma {:induction false} PermissionIffPolicy(t: Tables, organizationId: string, resourceType: string, role: string, permission: string)
    ensures permission in RolePermissions(t, resourceType, role, organizationId) <==>
            HasPolicy(t, organizationId, resourceType, role, permission)
  {
    var own := if organizationId == "" then GLOBAL else organizationId;
    if permission in RolePermissions(t, resourceType, role, organizationId) {
      var p :| p in t.rolePermissions && p.resourceType == resourceType && p.role == role && p.permission == permission
               && p.status == ACTIVE && (p.organizationId == own || p.organizationId == GLOBAL)
               && Decides(t, organizationId, p);
    }
    if HasPolicy(t, organizationId, resourceType, role, permission) {
      var p :| p in t.rolePermissions && Decides(t, organizationId, p)
               && p.resourceType == resourceType && p.role == role && p.permission == permission && p.status == ACTIVE;
      if p.organizationId != own {
        assert First(t.rolePermissions, (q: RolePermission) =>
          q.organizationId == own && q.resourceType == resourceType && q.role == role).None?;
      }
    }
  }

  /** The role that the lookups of the check find. */
  predicate FindsRole(t: Tables, userId: string, organizationId: string, resourceType: string, resourceId: string, role: string) {
    var a := FindAssignment(t, organizationId, resourceType, resourceId);
    && a.Some? && IsGroupMember(t, a.value.groupId, userId)
    && FindMemberRole(t, a.value.assignmentId, userId).Some? && FindMemberRole(t, a.value.assignmentId, userId).value.role == role
  }

  lemma {:induction false} RoleIsFound(t: Tables, userId: string, organizationId: string, resourceType: string, resourceId: string, role: string)
    requires UniqueRows(t) && HasRole(t, userId, organizationId, resourceType, resourceId, role)
    ensures FindsRole(t, userId, organizationId, resourceType, resourceId, role)
  {
    var a, g, m :| LeadsToRole(t, userId, organizationId, resourceType, resourceId, role, a, g, m);
    assert FindAssignment(t, organizationId, resourceType, resourceId) == Some(a);
    assert IsGroupMember(t, a.groupId, userId);
    assert FindMemberRole(t, a.assignmentId, userId) == Some(m);
  }

  lemma {:induction false} FoundIsRole(t: Tables, userId: string, organizationId: string, resourceType: string, resourceId: string, role: string)
    requires FindsRole(t, userId, organizationId, resourceType, resourceId, role)
    ensures HasRole(t, userId, organizationId, resourceType, resourceId, role)
  {
    var a := FindAssignment(t, organizationId, resourceType, resourceId).value;
    var m := FindMemberRole(t, a.assignmentId, userId).value;
    var g := First(t.groupMembers, (g: GroupMember) => g.groupId == a.groupId && g.userId == userId && g.status == ACTIVE).value;
    assert LeadsToRole(t, userId, organizationId, resourceType, resourceId, role, a, g, m);
  }

  /**
   * On a consistent table the check grants a permission exactly to active service
   * administrators, and to active members of the organization with an active role on
   * the resource for which an active policy row that decides grants the permission.
   */
  lemma GrantedIff(t: Tables, userId: string, organizationId: string, resourceType: string, resourceId: string, permission: string)
    requires Consistent(t)
    ensures CanAccess(t, userId, organizationId, resourceType, resourceId, permission).Some?
    ensures CanAccess(t, userId, organizationId, resourceType, resourceId, permission).value <==>
      || HasAdminRow(t, userId)
      || (HasMemberRow(t, organizationId, userId) && exists role ::
            && HasRole(t, userId, organizationId, resourceType, resourceId, role)
            && HasPolicy(t, organizationId, resourceType, role, permission))
  {
    forall role
      ensures HasPolicy(t, organizationId, resourceType, role, permission) <==>
              permission in RolePermissions(t, resourceType, role, organizationId)
    {
      PermissionIffPolicy(t, organizationId, resourceType, role, permission);
    }
    forall role
      ensures HasRole(t, userId, organizationId, resourceType, resourceId, role) <==>
              FindsRole(t, userId, organizationId, resourceType, resourceId, role)
    {
      if HasRole(t, userId, organizationId, resourceType, resourceId, role) {
        RoleIsFound(t, userId, organizationId, resourceType, resourceId, role);
      }
      if FindsRole(t, userId, organizationId, resourceType, resourceId, role) {
        FoundIsRole(t, userId, organizationId, resourceType, resourceId, role);
      }
    }
    AdminIff(t, userId);
    MemberIff(t, organizationId, userId);
  }

  /** The check fails exactly on a role outside the vocabulary, of a member who is no service administrator. */
  lemma ErrorIff(t: Tables, userId: string, organizationId: string, resourceType: string, resourceId: string, permission: string)
    requires UniqueRows(t)
    ensures CanAccess(t, userId, organizationId, resourceType, resourceId, permission).None? <==>
      && !HasAdminRow(t, userId) && HasMemberRow(t, organizationId, userId)
      && exists role :: HasRole(t, userId, organizationId, resourceType, resourceId, role)
                        && role !in {"observer", "release_operator", "incident_operator", "cluster_steward"}
  {
    AdminIff(t, userId);
    MemberIff(t, organizationId, userId);
    if role :| HasRole(t, userId, organizationId, resourceType, resourceId, role) && role !in RESOURCE_ROLES {
      RoleIsFound(t, userId, organizationId, resourceType, resourceId, role);
    }
    if CanAccess(t, userId, organizationId, resourceType, resourceId, permission).None? {
      var a := FindAssignment(t, organizationId, resourceType, resourceId).value;
      var role := FindMemberRole(t, a.assignmentId, userId).value.role;
      FoundIsRole(t, userId, organizationId, resourceType, resourceId, role);
    }
  }

  lemma AdminIff(t: Tables, userId: string)
    ensures IsServiceAdmin(t, userId) <==> HasAdminRow(t, userId)
  {
  }

  lemma MemberIff(t: Tables, organizationId: string, userId: string)
    ensures IsOrganizationMember(t, organizationId, userId) <==> HasMemberRow(t, organizationId, userId)
  {
  }

  /** An active service administrator is granted everything, on every table. */
  lemma AdminIsGranted(t: Tables, u: User, organizationId: string, resourceType: string, resourceId: string, permission: string)
    requires u in t.users && u.role == "service_admin" && u.status == "active"
    ensures CanAccess(t, u.userId, organizationId, resourceType, resourceId, permission) == Some(true)
  {
    assert HasAdminRow(t, u.userId);
    AdminIff(t, u.userId);
  }

  /** Service administrators that are not active are not exempt: they need the membership and a role like everyone. */
  lemma DisabledAdminIsChecked(t: Tables, userId: string, organizationId: string, resourceType: string, resourceId: string, permission: string)
    requires Consistent(t) && forall u :: u in t.users && u.userId == userId ==> u.status != "active"
    requires !HasMemberRow(t, organizationId, userId) || forall role :: !HasRole(t, userId, organizationId, resourceType, resourceId, role)
    ensures CanAccess(t, userId, organizationId, resourceType, resourceId, permission) == Some(false)
  {
    GrantedIff(t, userId, organizationId, resourceType, resourceId, permission);
  }

  // ----- The bulk query -----

  /** The `case` expression that chooses the policy scope for a member role. */
  ghost predicate InPolicyScope(t: Tables, organizationId: string, resourceType: string, role: string, scope: string) {
    if exists p :: p in t.rolePermissions && p.organizationId == organizationId && p.resourceType == resourceType && p.role == role
    then scope == organizationId else scope == GLOBAL
  }

  /** The join conditions on one row of each table. */
  ghost predicate Joins(
    t: Tables, userId: string, organizationId: string, resourceType: string, permission: string,
    a: Assignment, g: GroupMember, m: MemberRole, p: RolePermission)
  {
    && a in t.assignments && g in t.groupMembers && m in t.memberRoles && p in t.rolePermissions
    && a.organizationId == organizationId && a.resourceType == resourceType && a.status == ACTIVE
    && g.groupId == a.groupId && g.userId == userId && g.status == ACTIVE
    && m.assignmentId == a.assignmentId && m.userId == userId && m.status == ACTIVE
    && InPolicyScope(t, organizationId, resourceType, m.role, p.organizationId)
    && p.resourceType == resourceType && p.role == m.role && p.permission == permission && p.status == ACTIVE
  }

  /** `resourceId` is in the result of the bulk query. */
  ghost predicate Selected(t: Tables, userId: string, organizationId: string, resourceType: string, permission: string, resourceId: string) {
    exists a, g, m, p :: Joins(t, userId, organizationId, resourceType, permission, a, g, m, p) && a.resourceId == resourceId
  }

  /** `accessible_resource_ids` of a user who is not a service administrator. */
  ghost function AccessibleResourceIds(t: Tables, userId: string, organizationId: string, resourceType: string, permission: string): set<string> {
    set a | a in t.assignments && Selected(t, userId, organizationId, resourceType, permission, a.resourceId) :: a.resourceId
  }

  // ----- Agreement -----

  /** The set of permissions and the correlated scope say the same for a non-empty organization id. */
  lemma {:induction false} PermissionsAreScopedPolicy(t: Tables, organizationId: string, resourceType: string, role: string, permission: string)
    requires organizationId != ""
    ensures permission in RolePermissions(t, resourceType, role, organizationId) <==>
      exists p :: p in t.rolePermissions && InPolicyScope(t, organizationId, resourceType, role, p.organizationId)
                  && p.resourceType == resourceType && p.role == role && p.permission == permission && p.status == ACTIVE
  {
  }

  lemma GrantedIsSelected(t: Tables, userId: string, organizationId: string, resourceType: string, resourceId: string, permission: string)
    requires organizationId != "" && !IsServiceAdmin(t, userId)
    requires CanAccess(t, userId, organizationId, resourceType, resourceId, permission) == Some(true)
    ensures Selected(t, userId, organizationId, resourceType, permission, resourceId)
  {
    var a := FindAssignment(t, organizationId, resourceType, resourceId).value;
    var m := FindMemberRole(t, a.assignmentId, userId).value;
    var g := First(t.groupMembers, (g: GroupMember) => g.groupId == a.groupId && g.userId == userId && g.status == ACTIVE).value;
    PermissionsAreScopedPolicy(t, organizationId, resourceType, m.role, permission);
    var p :| p in t.rolePermissions && InPolicyScope(t, organizationId, resourceType, m.role, p.organizationId)
             && p.resourceType == resourceType && p.role == m.role && p.permission == permission && p.status == ACTIVE;
    assert Joins(t, userId, organizationId, resourceType, permission, a, g, m, p);
  }

  lemma {:induction false} SelectedIsGranted(t: Tables, userId: string, organizationId: string, resourceType: string, resourceId: string, permission: string)
    requires Consistent(t) && organizationId != "" && !IsServiceAdmin(t, userId) && IsOrganizationMember(t, organizationId, userId)
    requires Selected(t, userId, organizationId, resourceType, permission, resourceId)
    ensures CanAccess(t, userId, organizationId, resourceType, resourceId, permission) == Some(true)
  {
    var a, g, m, p :| Joins(t, userId, organizationId, resourceType, permission, a, g, m, p) && a.resourceId == resourceId;
    assert FindAssignment(t, organizationId, resourceType, resourceId) == Some(a);
    assert IsGroupMember(t, a.groupId, userId);
    assert FindMemberRole(t, a.assignmentId, userId) == Some(m);
    PermissionsAreScopedPolicy(t, organizationId, resourceType, m.role, permission);
  }

  /**
   * For everyone but service administrators and every non-empty organization id:
   * the check grants a resource exactly when the user is an active member of the
   * organization and the bulk query returns the resource.
   */
  lemma BulkAgreesWithPointwise(t: Tables, userId: string, organizationId: string, resourceType: string, resourceId: string, permission: string)
    requires Consistent(t) && organizationId != "" && !IsServiceAdmin(t, userId)
    ensures CanAccess(t, userId, organizationId, resourceType, resourceId, permission).Some?
    ensures CanAccess(t, userId, organizationId, resourceType, resourceId, permission).value <==>
      IsOrganizationMember(t, organizationId, userId)
      && resourceId in AccessibleResourceIds(t, userId, organizationId, resourceType, permission)
  {
    if CanAccess(t, userId, organizationId, resourceType, resourceId, permission) == Some(true) {
      GrantedIsSelected(t, userId, organizationId, resourceType, resourceId, permission);
      SelectedHasAssignment(t, userId, organizationId, resourceType, resourceId, permission);
    }
    if IsOrganizationMember(t, organizationId, userId)
      && resourceId in AccessibleResourceIds(t, userId, organizationId, resourceType, permission)
    {
      SelectedIsGranted(t, userId, organizationId, resourceType, resourceId, permission);
    }
  }

  lemma SelectedHasAssignment(t: Tables, userId: string, organizationId: string, resourceType: string, resourceId: string, permission: string)
    requires Selected(t, userId, organizationId, resourceType, permission, resourceId)
    ensures resourceId in AccessibleResourceIds(t, userId, organizationId, resourceType, permission)
  {
    var a, g, m, p :| Joins(t, userId, organizationId, resourceType, permission, a, g, m, p) && a.resourceId == resourceId;
    assert a in t.assignments;
  }

  // ----- When the two agree -----

  /** The check and the bulk query name the same resources. */
  ghost predicate Agree(t: Tables, userId: string, organizationId: string, resourceType: string, permission: string) {
    forall resourceId ::
      CanAccess(t, userId, organizationId, resourceType, resourceId, permission) == Some(true) <==>
      resourceId in AccessibleResourceIds(t, userId, organizationId, resourceType, permission)
  }

  /** The bulk query never reads organization members: it agrees for members, and where it returns nothing. */
  lemma AgreeIffMember(t: Tables, userId: string, organizationId: string, resourceType: string, permission: string)
    requires Consistent(t) && organizationId != "" && !IsServiceAdmin(t, userId)
    ensures Agree(t, userId, organizationId, resourceType, permission) <==>
      || IsOrganizationMember(t, organizationId, userId)
      || AccessibleResourceIds(t, userId, organizationId, resourceType, permission) == {}
  {
    forall resourceId
      ensures CanAccess(t, userId, organizationId, resourceType, resourceId, permission) == Some(true) <==>
        IsOrganizationMember(t, organizationId, userId)
        && resourceId in AccessibleResourceIds(t, userId, organizationId, resourceType, permission)
    {
      BulkAgreesWithPointwise(t, userId, organizationId, resourceType, resourceId, permission);
    }
    if AccessibleResourceIds(t, userId, organizationId, resourceType, permission) != {} {
      var resourceId :| resourceId in AccessibleResourceIds(t, userId, organizationId, resourceType, permission);
    }
  }

  /** The rows that give the user "u" the permission "p" on the resource "r", except the organization membership. */
  function Grants(organizationId: string, members: seq<OrganizationMember>, policies: seq<RolePermission>): Tables {
    Tables([], members, [GroupMember("g", "u", ACTIVE)], [Assignment("a", organizationId, "g", "k", "r", ACTIVE)],
           [MemberRole("a", "u", "observer", ACTIVE)], policies)
  }

  lemma GrantsIsConsistent(organizationId: string, members: seq<OrganizationMember>, policies: seq<RolePermission>)
    ensures Consistent(Grants(organizationId, members, policies))
    ensures !IsServiceAdmin(Grants(organizationId, members, policies), "u")
  {
    assert "observer" in RESOURCE_ROLES;
  }

  /** A user of a group who is no member of the organization is refused by the check and served by the query. */
  lemma NonMemberIsSelected(organizationId: string) returns (t: Tables)
    ensures Consistent(t) && !IsServiceAdmin(t, "u") && !IsOrganizationMember(t, organizationId, "u")
    ensures CanAccess(t, "u", organizationId, "k", "r", "p") == Some(false)
    ensures "r" in AccessibleResourceIds(t, "u", organizationId, "k", "p")
  {
    var shared := RolePermission(GLOBAL, "k", "observer", "p", ACTIVE);
    t := Grants(organizationId, [], [shared]);
    GrantsIsConsistent(organizationId, [], [shared]);
    assert t.assignments[0] in t.assignments && t.groupMembers[0] in t.groupMembers;
    assert t.memberRoles[0] in t.memberRoles && t.rolePermissions[0] in t.rolePermissions;
    assert forall p :: p in t.rolePermissions ==> p == shared;
    assert Joins(t, "u", organizationId, "k", "p", t.assignments[0], t.groupMembers[0], t.memberRoles[0], shared);
    SelectedHasAssignment(t, "u", organizationId, "k", "r", "p");
  }

  // ----- Why the organization id must not be empty -----

  /** With an empty organization id a disabled row of that id hides the global policy from the query only. */
  lemma EmptyOrganizationDisagrees() returns (t: Tables)
    ensures Consistent(t) && !IsServiceAdmin(t, "u") && IsOrganizationMember(t, "", "u")
    ensures CanAccess(t, "u", "", "k", "r", "p") == Some(true)
    ensures "r" !in AccessibleResourceIds(t, "u", "", "k", "p")
  {
    var hidden := RolePermission("", "k", "observer", "p", "disabled");
    var shared := RolePermission(GLOBAL, "k", "observer", "p", ACTIVE);
    var member := OrganizationMember("", "u", ACTIVE);
    t := Grants("", [member], [hidden, shared]);
    GrantsIsConsistent("", [member], [hidden, shared]);
    assert member in t.organizationMembers && t.groupMembers[0] in t.groupMembers;
    assert t.assignments[0] in t.assignments && t.memberRoles[0] in t.memberRoles;
    assert hidden in t.rolePermissions && shared in t.rolePermissions;
    assert "observer" in RESOURCE_ROLES;
    assert shared.permission in RolePermissions(t, "k", "observer", "");
    assert FindAssignment(t, "", "k", "r") == Some(t.assignments[0]);
    assert FindMemberRole(t, "a", "u") == Some(t.memberRoles[0]);
    assert forall p :: p in t.rolePermissions ==> p == hidden || p == shared;
  }

  /** On every consistent table the two agree for exactly the members and those for whom the query returns nothing. */
  ghost predicate MembershipDecides(organizationId: string) {
    forall t, userId, resourceType, permission :: Consistent(t) && !IsServiceAdmin(t, userId) ==>
      (Agree(t, userId, organizationId, resourceType, permission) <==>
        || IsOrganizationMember(t, organizationId, userId)
        || AccessibleResourceIds(t, userId, organizationId, resourceType, permission) == {})
  }

  lemma MembershipDecidesIffOrganizationNamed(organizationId: string)
    ensures MembershipDecides(organizationId) <==> organizationId != ""
  {
    if organizationId == "" {
      var t := EmptyOrganizationDisagrees();
      assert !Agree(t, "u", "", "k", "p");
    } else {
      forall t, userId, resourceType, permission | Consistent(t) && !IsServiceAdmin(t, userId)
        ensures Agree(t, userId, organizationId, resourceType, permission) <==>
          || IsOrganizationMember(t, organizationId, userId)
          || AccessibleResourceIds(t, userId, organizationId, resourceType, permission) == {}
      {
        AgreeIffMember(t, userId, organizationId, resourceType, permission);
      }
    }
  }
}
