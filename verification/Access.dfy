/** Roles and capabilities of pkg/auth: what a snapshot of an actor may do. */
module Access {
  import opened Wrappers
  import opened Bytes

  datatype Action = Read | Create | Edit | Publish | Delete | ManageMembers | ProjectCreate

  datatype Subject = ProjectSubject | FieldSubject | ModelSubject | CollectionSubject | CommentSubject | OrgSubject | DerivativeSubject

  /** A capability such as `field.edit`. */
  datatype Capability = Capability(subject: Subject, action: Action)

  /** Scope types are strings; only two of them are known. */
  datatype Resource = Resource(scope: Bytes, id: Bytes, org: Bytes, public: bool)

  datatype EntityContext = EntityContext(createdBy: Bytes, draft: bool)

  /** Roles by the keys `project:ID` and `org:ID`; an absent key reads as the empty role. */
  datatype Snapshot = Snapshot(actor: Bytes, anonymous: bool, superAdmin: bool, roles: map<Bytes, Bytes>, owned: set<Bytes>)

  function RoleAt(s: Snapshot, key: Bytes): Bytes {
    if key in s.roles then s.roles[key] else ""
  }

  function ProjectKey(id: Bytes): Bytes { "project:" + id }

  function OrgKey(id: Bytes): Bytes { "org:" + id }

  // ---------------------------------------------------------------- the tables

  function ProjectRank(role: Bytes): nat {
    if role == "owner" then 4 else if role == "maintainer" then 3
    else if role == "contributor" then 2 else if role == "viewer" then 1 else 0
  }

  function OrgRank(role: Bytes): nat {
    if role == "owner" then 3 else if role == "admin" then 2 else if role == "member" then 1 else 0
  }

  predicate IsContent(s: Subject) {
    s.FieldSubject? || s.ModelSubject? || s.CollectionSubject?
  }

  predicate ProjectGrants(role: Bytes, cap: Capability) {
    var content, a := IsContent(cap.subject), cap.action;
    if role == "owner" then
      (cap.subject.ProjectSubject? && (a.Read? || a.Edit? || a.Delete? || a.ManageMembers?))
      || (content && (a.Read? || a.Create? || a.Edit? || a.Publish? || a.Delete?))
      || (cap.subject.CommentSubject? && a.Create?)
    else if role == "maintainer" then
      (cap.subject.ProjectSubject? && (a.Read? || a.Edit?))
      || (content && (a.Read? || a.Create? || a.Edit? || a.Publish? || a.Delete?))
      || (cap.subject.CommentSubject? && a.Create?)
    else if role == "contributor" then
      (cap.subject.ProjectSubject? && a.Read?) || (content && (a.Read? || a.Create?))
      || (cap.subject.CommentSubject? && a.Create?)
    else role == "viewer" && (cap.subject.ProjectSubject? || content) && a.Read?
  }

  predicate OrgGrants(role: Bytes, cap: Capability) {
    var a := cap.action;
    cap.subject.OrgSubject? &&
    if role == "owner" then a.Read? || a.Edit? || a.ManageMembers? || a.ProjectCreate? || a.Delete?
    else if role == "admin" then a.Read? || a.Edit? || a.ManageMembers? || a.ProjectCreate?
    else role == "member" && a.Read?
  }

  predicate Grants(scope: Bytes, role: Bytes, cap: Capability) {
    if scope == "project" then ProjectGrants(role, cap)
    else if scope == "org" then OrgGrants(role, cap)
    else false
  }

  /** What a creator may do to an own draft. */
  predicate OwnerSelf(cap: Capability) {
    IsContent(cap.subject) && (cap.action.Edit? || cap.action.Delete?)
  }

  // ---------------------------------------------------------------- resolution

  function PickHigher(a: Bytes, b: Bytes): Bytes {
    if ProjectRank(a) >= ProjectRank(b) then a else b
  }

  function Inherited(s: Snapshot, r: Resource): Bytes {
    if r.org == "" then ""
    else
      var role := RoleAt(s, OrgKey(r.org));
      if role == "owner" || role == "admin" then "owner"
      else if role == "member" && r.public then "viewer"
      else ""
  }

  function EffectiveRole(snap: Option<Snapshot>, r: Resource): Bytes {
    match snap
    case None => if !r.public then "" else if r.scope == "project" then "viewer" else if r.scope == "org" then "member" else ""
    case Some(s) =>
      if s.superAdmin then "owner"
      else if r.scope == "project" then
        if r.id in s.owned then "owner"
        else
          var winner := PickHigher(Inherited(s, r), RoleAt(s, ProjectKey(r.id)));
          if winner != "" then winner else if r.public then "viewer" else ""
      else if r.scope == "org" then
        var role := RoleAt(s, OrgKey(r.id));
        if role != "" then role else if r.public then "member" else ""
      else ""
  }

  predicate Can(snap: Option<Snapshot>, cap: Capability, r: Resource, entity: Option<EntityContext>) {
    (snap.Some? && snap.value.superAdmin) ||
    var role := EffectiveRole(snap, r);
    Grants(r.scope, role, cap)
    || (entity.Some? && snap.Some? && snap.value.actor != ""
        && entity.value.createdBy == snap.value.actor && entity.value.draft
        && Grants(r.scope, role, Capability(ProjectSubject, Read)) && OwnerSelf(cap))
  }

  predicate IsProjectMember(snap: Option<Snapshot>, r: Resource) {
    snap.Some? && !snap.value.anonymous &&
    var s := snap.value;
    s.superAdmin ||
    (r.scope == "project" &&
     (r.id in s.owned || RoleAt(s, ProjectKey(r.id)) != "" || (r.org != "" && RoleAt(s, OrgKey(r.org)) != "")))
  }

  // ---------------------------------------------------------------- more rights

  /** Every role is one of those the tables know. */
  predicate Recognised(s: Snapshot) {
    forall key | key in s.roles ::
      if "project:" <= key then ProjectRank(s.roles[key]) > 0 else OrgRank(s.roles[key]) > 0
  }

  /** The same actor, with the same or higher roles, and the same or more ownership. */
  predicate AtLeast(t: Snapshot, s: Snapshot) {
    && t.actor == s.actor && t.anonymous == s.anonymous && (s.superAdmin ==> t.superAdmin) && s.owned <= t.owned
    && forall key | key in s.roles :: key in t.roles &&
         if "project:" <= key then ProjectRank(s.roles[key]) <= ProjectRank(t.roles[key])
         else OrgRank(s.roles[key]) <= OrgRank(t.roles[key])
  }

  lemma Keys(id: Bytes)
    ensures "project:" <= ProjectKey(id) && !("project:" <= OrgKey(id))
  {
    assert OrgKey(id)[0] == 'o';
  }

  /** A project role of higher rank grants no less. */
  lemma ProjectRanksGrant(a: Bytes, b: Bytes, cap: Capability)
    requires ProjectRank(a) <= ProjectRank(b) && ProjectGrants(a, cap)
    ensures ProjectGrants(b, cap)
  {
  }

  lemma OrgRanksGrant(a: Bytes, b: Bytes, cap: Capability)
    requires OrgRank(a) <= OrgRank(b) && OrgGrants(a, cap)
    ensures OrgGrants(b, cap)
  {
  }

  /** A role only ever rises in rank, read as the empty role where it was absent. */
  lemma RoleRises(s: Snapshot, t: Snapshot, id: Bytes)
    requires AtLeast(t, s)
    ensures ProjectRank(RoleAt(s, ProjectKey(id))) <= ProjectRank(RoleAt(t, ProjectKey(id)))
    ensures OrgRank(RoleAt(s, OrgKey(id))) <= OrgRank(RoleAt(t, OrgKey(id)))
  {
    hide ProjectKey, OrgKey, ProjectRank, OrgRank;
    Keys(id);
    EmptyRank();
  }

  lemma EmptyRank()
    ensures ProjectRank("") == 0 && OrgRank("") == 0
  {
  }

  lemma InheritedRises(s: Snapshot, t: Snapshot, r: Resource)
    requires AtLeast(t, s)
    ensures ProjectRank(Inherited(s, r)) <= ProjectRank(Inherited(t, r))
    ensures Inherited(s, r) == "" || ProjectRank(Inherited(s, r)) > 0
    ensures Inherited(t, r) == "" || ProjectRank(Inherited(t, r)) > 0
  {
    hide AtLeast, RoleAt;
    RoleRises(s, t, r.org);
  }

  /** On a project an unknown role does no harm: it never wins, and reading what is public
      stays. */
  lemma ProjectRoleRises(s: Snapshot, t: Snapshot, r: Resource)
    requires AtLeast(t, s) && !t.superAdmin && r.scope == "project"
    ensures ProjectRank(EffectiveRole(Some(s), r)) <= ProjectRank(EffectiveRole(Some(t), r))
  {
    hide RoleAt, Inherited;
    EmptyRank();
    RoleRises(s, t, r.id);
    InheritedRises(s, t, r);
  }

  /** On a public organisation a role the tables do not know takes the place of the reading
      every stranger has. */
  predicate LosesPublicReading(s: Snapshot, t: Snapshot, r: Resource) {
    && !t.superAdmin && r.scope == "org" && r.public
    && RoleAt(s, OrgKey(r.id)) == "" && RoleAt(t, OrgKey(r.id)) != "" && OrgRank(RoleAt(t, OrgKey(r.id))) == 0
  }

  lemma OrgRoleRises(s: Snapshot, t: Snapshot, r: Resource)
    requires AtLeast(t, s) && !t.superAdmin && r.scope == "org" && !LosesPublicReading(s, t, r)
    ensures OrgRank(EffectiveRole(Some(s), r)) <= OrgRank(EffectiveRole(Some(t), r))
  {
    hide RoleAt, AtLeast;
    EmptyRank();
    MoreIsSuper(s, t);
    RoleRises(s, t, r.id);
  }

  lemma EffectiveRises(s: Snapshot, t: Snapshot, r: Resource, cap: Capability)
    requires AtLeast(t, s) && !t.superAdmin && !LosesPublicReading(s, t, r)
    requires Grants(r.scope, EffectiveRole(Some(s), r), cap)
    ensures Grants(r.scope, EffectiveRole(Some(t), r), cap)
  {
    hide EffectiveRole, ProjectGrants, OrgGrants, LosesPublicReading, AtLeast;
    var a, b := EffectiveRole(Some(s), r), EffectiveRole(Some(t), r);
    if r.scope == "project" {
      ProjectRoleRises(s, t, r);
      ProjectRanksGrant(a, b, cap);
    } else if r.scope == "org" {
      OrgRoleRises(s, t, r);
      OrgRanksGrant(a, b, cap);
    }
  }

  lemma KeepsCapability(s: Snapshot, t: Snapshot, cap: Capability, r: Resource, entity: Option<EntityContext>)
    requires AtLeast(t, s) && !LosesPublicReading(s, t, r) && Can(Some(s), cap, r, entity)
    ensures Can(Some(t), cap, r, entity)
  {
    hide EffectiveRole, Grants, OwnerSelf, LosesPublicReading;
    if !t.superAdmin {
      var role := EffectiveRole(Some(s), r);
      if Grants(r.scope, role, cap) {
        EffectiveRises(s, t, r, cap);
      } else {
        EffectiveRises(s, t, r, Capability(ProjectSubject, Read));
      }
    }
  }

  lemma LosesReading(s: Snapshot, t: Snapshot, r: Resource)
    requires AtLeast(t, s) && LosesPublicReading(s, t, r)
    ensures Can(Some(s), Capability(OrgSubject, Read), r, None) && !Can(Some(t), Capability(OrgSubject, Read), r, None)
  {
    hide AtLeast, RoleAt;
    MoreIsSuper(s, t);
  }

  lemma MoreIsSuper(s: Snapshot, t: Snapshot)
    requires AtLeast(t, s)
    ensures s.superAdmin ==> t.superAdmin
  {
  }

  /** For any roles at all: raising roles, adding owned projects or making the actor
      super-admin takes no capability away on a resource, through the creator-of-draft rule or
      otherwise, exactly unless the resource is a public organisation and the new role on it
      is one the tables do not know. */
  lemma MonotoneIff(s: Snapshot, t: Snapshot, r: Resource)
    requires AtLeast(t, s)
    ensures (forall cap, entity :: Can(Some(s), cap, r, entity) ==> Can(Some(t), cap, r, entity)) <==> !LosesPublicReading(s, t, r)
  {
    hide Can, LosesPublicReading, AtLeast;
    if LosesPublicReading(s, t, r) {
      LosesReading(s, t, r);
    } else {
      forall cap, entity | Can(Some(s), cap, r, entity) ensures Can(Some(t), cap, r, entity) {
        KeepsCapability(s, t, cap, r, entity);
      }
    }
  }

  /** In particular among recognised roles nothing is ever taken away, on any resource. */
  lemma Monotone(s: Snapshot, t: Snapshot, cap: Capability, r: Resource, entity: Option<EntityContext>)
    requires Recognised(t) && AtLeast(t, s) && Can(Some(s), cap, r, entity)
    ensures Can(Some(t), cap, r, entity)
  {
    hide Can, AtLeast;
    Keys(r.id);
    MonotoneIff(s, t, r);
  }

  /** An instance in which something is. */
  lemma UnknownRoleTakesAway()
    ensures var s := Snapshot("u", false, false, map[], {});
            var t := s.(roles := map[OrgKey("o") := "guest"]);
            var r := Resource("org", "o", "", true);
            AtLeast(t, s) && exists cap, entity :: Can(Some(s), cap, r, entity) && !Can(Some(t), cap, r, entity)
  {
    hide Can;
    var s := Snapshot("u", false, false, map[], {});
    var t := Snapshot("u", false, false, map[OrgKey("o") := "guest"], {});
    assert "guest" != "owner" && "guest" != "admin" && "guest" != "member" by { assert "guest"[0] == 'g'; }
    MonotoneIff(s, t, Resource("org", "o", "", true));
  }

  /** Whoever is signed in and may edit a project is a member of it. */
  lemma EditorsAreMembers(snap: Option<Snapshot>, r: Resource, entity: Option<EntityContext>)
    requires snap.Some? && !snap.value.anonymous && Can(snap, Capability(ProjectSubject, Edit), r, entity)
    ensures IsProjectMember(snap, r)
  {
    hide ProjectKey, OrgKey;
    if !snap.value.superAdmin {
      EditRoles(EffectiveRole(snap, r), r.scope);
    }
  }

  lemma EditRoles(role: Bytes, scope: Bytes)
    ensures Grants(scope, role, Capability(ProjectSubject, Edit)) <==> scope == "project" && ProjectRank(role) >= 3
  {
  }

  // ---------------------------------------------------------------- the role as a maximum

  function Max(a: nat, b: nat): nat { if a >= b then a else b }

  /** The rank that ownership, the organisation and membership give on a project, apart from
      its being public. */
  function RankGiven(s: Snapshot, r: Resource): nat {
    if s.superAdmin || r.id in s.owned || (r.org != "" && OrgRank(RoleAt(s, OrgKey(r.org))) >= 2) then 4
    else ProjectRank(RoleAt(s, ProjectKey(r.id)))
  }

  /** On a project the effective role is the highest of what is given and, if it is public,
      reading; a member of the organisation has no more than that. */
  lemma EffectiveRank(s: Snapshot, r: Resource)
    requires r.scope == "project"
    ensures ProjectRank(EffectiveRole(Some(s), r)) == Max(RankGiven(s, r), if r.public then 1 else 0)
  {
    hide RoleAt;
    EmptyRank();
    RankAtMost(RoleAt(s, ProjectKey(r.id)));
  }

  lemma RankAtMost(role: Bytes)
    ensures ProjectRank(role) <= 4
  {
  }

  /** What may be done on a project, by rank, and by the creator of a draft who can read it. */
  lemma CanOnProject(s: Snapshot, cap: Capability, r: Resource, entity: Option<EntityContext>)
    requires r.scope == "project" && !s.superAdmin
    ensures var rank := Max(RankGiven(s, r), if r.public then 1 else 0);
            Can(Some(s), cap, r, entity) <==>
              (NeededRank(cap).Some? && rank >= NeededRank(cap).value)
              || (rank >= 1 && (cap.subject.FieldSubject? || cap.subject.ModelSubject? || cap.subject.CollectionSubject?)
                  && (cap.action.Edit? || cap.action.Delete?) && s.actor != "" && entity.Some? && entity.value.createdBy == s.actor && entity.value.draft)
  {
    hide EffectiveRole, RankGiven;
    EffectiveRank(s, r);
    GrantsByRank(EffectiveRole(Some(s), r), cap);
    GrantsByRank(EffectiveRole(Some(s), r), Capability(ProjectSubject, Read));
  }

  /** The lowest rank that has a capability on projects, if any has. */
  function NeededRank(cap: Capability): Option<nat> {
    match cap.subject
    case ProjectSubject =>
      (match cap.action case Read => Some(1) case Edit => Some(3) case Delete => Some(4) case ManageMembers => Some(4) case _ => None)
    case CommentSubject => if cap.action.Create? then Some(2) else None
    case OrgSubject => None
    case DerivativeSubject => None
    case _ =>
      (match cap.action case Read => Some(1) case Create => Some(2) case Edit => Some(3) case Publish => Some(3) case Delete => Some(3) case _ => None)
  }

  lemma GrantsByRank(role: Bytes, cap: Capability)
    ensures Grants("project", role, cap) <==> NeededRank(cap).Some? && ProjectRank(role) >= NeededRank(cap).value
  {
  }

  // ---------------------------------------------------------------- organisations, strangers, members

  /** The lowest rank that has a capability on organisations, if any has. */
  function NeededOrgRank(cap: Capability): Option<nat> {
    if !cap.subject.OrgSubject? then None
    else
      match cap.action
      case Read => Some(1)
      case Edit => Some(2)
      case ManageMembers => Some(2)
      case ProjectCreate => Some(2)
      case Delete => Some(3)
      case _ => None
  }

  /** The rank on an organisation: that of the role, or reading where it is public and there is
      no role. */
  function RankOnOrg(s: Snapshot, r: Resource): nat {
    var key := "org:" + r.id;
    if key in s.roles && s.roles[key] != "" then OrgRank(s.roles[key]) else if r.public then 1 else 0
  }

  /** What may be done on an organisation, by rank alone: the creator of a draft has no more. */
  lemma CanOnOrg(s: Snapshot, cap: Capability, r: Resource, entity: Option<EntityContext>)
    requires r.scope == "org" && !s.superAdmin
    ensures Can(Some(s), cap, r, entity) <==> NeededOrgRank(cap).Some? && RankOnOrg(s, r) >= NeededOrgRank(cap).value
  {
    hide OrgRank;
    var role := EffectiveRole(Some(s), r);
    GrantsByOrgRank(role, cap);
    GrantsByOrgRank(role, Capability(ProjectSubject, Read));
    MemberRank();
  }

  lemma GrantsByOrgRank(role: Bytes, cap: Capability)
    ensures Grants("org", role, cap) <==> NeededOrgRank(cap).Some? && OrgRank(role) >= NeededOrgRank(cap).value
  {
  }

  lemma MemberRank()
    ensures OrgRank("member") == 1 && OrgRank("") == 0
  {
  }

  /** The ranks by the names of the roles. */
  lemma RoleNames(role: Bytes)
    ensures ProjectRank("owner") == 4 && ProjectRank("maintainer") == 3 && ProjectRank("contributor") == 2 && ProjectRank("viewer") == 1
    ensures OrgRank("owner") == 3 && OrgRank("admin") == 2 && OrgRank("member") == 1
    ensures role !in {"owner", "maintainer", "contributor", "viewer"} ==> ProjectRank(role) == 0
    ensures role !in {"owner", "admin", "member"} ==> OrgRank(role) == 0
  {
  }

  /** Without a snapshot exactly what is public can be read: projects with their content, and
      organisations. */
  lemma StrangersRead(cap: Capability, r: Resource, entity: Option<EntityContext>)
    ensures Can(None, cap, r, entity) <==>
            r.public && cap.action.Read? &&
            if r.scope == "project" then
              cap.subject.ProjectSubject? || cap.subject.FieldSubject? || cap.subject.ModelSubject? || cap.subject.CollectionSubject?
            else r.scope == "org" && cap.subject.OrgSubject?
  {
    if r.scope == "project" {
      GrantsByRank(EffectiveRole(None, r), cap);
    } else if r.scope == "org" {
      GrantsByOrgRank(EffectiveRole(None, r), cap);
    }
    RoleNames("");
  }

  /** A super-admin may do everything, and on what is neither a project nor an organisation
      nobody else may do anything. */
  lemma OnlySuperElsewhere(s: Snapshot, cap: Capability, r: Resource, entity: Option<EntityContext>)
    ensures s.superAdmin ==> Can(Some(s), cap, r, entity)
    ensures r.scope != "project" && r.scope != "org" ==> (Can(Some(s), cap, r, entity) <==> s.superAdmin)
  {
  }

  /** Being public makes nobody a member: it takes ownership, or some role on the project or
      on its organisation. */
  lemma MemberIff(s: Snapshot, r: Resource)
    requires r.scope == "project" && !s.superAdmin
    ensures IsProjectMember(Some(s), r) <==>
            !s.anonymous &&
            (r.id in s.owned
             || ("project:" + r.id in s.roles && s.roles["project:" + r.id] != "")
             || (r.org != "" && "org:" + r.org in s.roles && s.roles["org:" + r.org] != ""))
    ensures !IsProjectMember(None, r)
  {
  }
}
