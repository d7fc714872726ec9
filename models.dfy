/** The schema of the project-management data layer: projects, the login
    credentials stored for each project, and the membership of users in
    projects with a role.  Besides the records themselves this module states
    what the schema declares about them: the length bound of every character
    column, the uniqueness of project names and of (project, user) pairs,
    referential integrity, the role choices with their default, and what
    deleting a project or a user does to the rows that refer to it. */
module Models {
  import opened Wrappers

  /** Primary keys.  A user id is whatever integer a client sends, so it may
      be negative; the other keys are allocated by the store. */
  type UserId = int
  type ProjectId = nat
  type CredentialId = nat
  type MemberId = nat

  // Column bounds declared by the schema.
  const ProjectNameMaxLength: nat := 100
  const SystemUrlMaxLength: nat := 255
  const UsernameMaxLength: nat := 100
  const PasswordMaxLength: nat := 255
  const UserRoleMaxLength: nat := 50
  const RoleMaxLength: nat := 20

  /** The three membership roles; a member added without a role is a plain member. */
  datatype Role = Owner | Admin | Member

  const DefaultRole: Role := Member

  /** The values the role column may hold. */
  const RoleChoices: set<string> := {"owner", "admin", "member"}

  /** The value stored in the role column for a role. */
  function RoleValue(r: Role): (s: string)
    ensures s in RoleChoices
    ensures |s| <= RoleMaxLength
  {
    match r
    case Owner => "owner"
    case Admin => "admin"
    case Member => "member"
  }

  /** Reads a role column value back; anything outside the choices is refused. */
  function ParseRole(s: string): (r: Option<Role>)
    ensures r.Some? <==> s in RoleChoices
    ensures r.Some? ==> RoleValue(r.value) == s
  {
    if s == "owner" then Some(Owner)
    else if s == "admin" then Some(Admin)
    else if s == "member" then Some(Member)
    else None
  }

  lemma RoleValueRoundTrip(r: Role)
    ensures ParseRole(RoleValue(r)) == Some(r)
  {
  }

  /** A project.  `creator` is None once the creating user is deleted. */
  datatype Project = Project(name: string, description: string, creator: Option<UserId>)

  /** One login profile of the system under test, owned by `project`. */
  datatype Credential = Credential(
    project: ProjectId,
    systemUrl: string,
    username: string,
    password: string,
    userRole: string)

  /** The role of `user` within `project`. */
  datatype Membership = Membership(project: ProjectId, user: UserId, role: Role)

  /** All tables the data layer owns, with the next key each one allocates.
      `users` stands for the user table of the accounts subsystem; only the
      ids matter here. */
  datatype Tables = Tables(
    projects: map<ProjectId, Project>,
    credentials: map<CredentialId, Credential>,
    members: map<MemberId, Membership>,
    users: set<UserId>,
    nextProjectId: ProjectId,
    nextCredentialId: CredentialId,
    nextMemberId: MemberId)

  predicate CredentialWithinBounds(c: Credential) {
    && |c.systemUrl| <= SystemUrlMaxLength
    && |c.username| <= UsernameMaxLength
    && |c.password| <= PasswordMaxLength
    && |c.userRole| <= UserRoleMaxLength
  }

  /** Some project is called `name`. */
  predicate NameTaken(projects: map<ProjectId, Project>, name: string) {
    exists pid :: pid in projects && projects[pid].name == name
  }

  /** No two projects share a name. */
  predicate UniqueNames(projects: map<ProjectId, Project>) {
    forall p, q :: p in projects && q in projects && projects[p].name == projects[q].name ==> p == q
  }

  /** `user` already holds a role in `project`. */
  predicate MemberOf(members: map<MemberId, Membership>, project: ProjectId, user: UserId) {
    exists mid :: mid in members && members[mid].project == project && members[mid].user == user
  }

  /** At most one membership per (project, user) pair. */
  predicate UniquePairs(members: map<MemberId, Membership>) {
    forall m, n ::
      (m in members && n in members && members[m].project == members[n].project
       && members[m].user == members[n].user) ==> m == n
  }

  predicate ProjectsValid(t: Tables) {
    && UniqueNames(t.projects)
    && forall pid :: pid in t.projects ==>
         && pid < t.nextProjectId
         && |t.projects[pid].name| <= ProjectNameMaxLength
         && (t.projects[pid].creator.Some? ==> t.projects[pid].creator.value in t.users)
  }

  predicate CredentialsValid(t: Tables) {
    forall cid :: cid in t.credentials ==>
      && cid < t.nextCredentialId
      && t.credentials[cid].project in t.projects
      && CredentialWithinBounds(t.credentials[cid])
  }

  predicate MembersValid(t: Tables) {
    && UniquePairs(t.members)
    && forall mid :: mid in t.members ==>
         && mid < t.nextMemberId
         && t.members[mid].project in t.projects
         && t.members[mid].user in t.users
  }

  /** The invariant of the whole store: every row within its column bounds,
      unique names and pairs, every reference pointing at an existing row,
      and every key below the next one to be allocated. */
  predicate Consistent(t: Tables) {
    ProjectsValid(t) && CredentialsValid(t) && MembersValid(t)
  }

  /** The credentials that belong to project `pid`. */
  function CredentialsOf(credentials: map<CredentialId, Credential>, pid: ProjectId): (m: map<CredentialId, Credential>)
    ensures forall cid :: cid in m <==> cid in credentials && credentials[cid].project == pid
    ensures forall cid :: cid in m ==> m[cid] == credentials[cid]
  {
    map cid | cid in credentials && credentials[cid].project == pid :: credentials[cid]
  }

  /** The credentials left once those of project `pid` are deleted. */
  function WithoutCredentialsOf(credentials: map<CredentialId, Credential>, pid: ProjectId): (m: map<CredentialId, Credential>)
    ensures forall cid :: cid in m <==> cid in credentials && credentials[cid].project != pid
    ensures forall cid :: cid in m ==> m[cid] == credentials[cid]
  {
    map cid | cid in credentials && credentials[cid].project != pid :: credentials[cid]
  }

  /** The display string of a credential: the project name, then its role
      label, or its username when the label is empty. */
  function CredentialLabel(projectName: string, c: Credential): (s: string)
    ensures |s| >= |projectName| + 3
    ensures s[..|projectName|] == projectName && s[|projectName|..|projectName| + 3] == " - "
    ensures c.userRole != "" ==> s[|projectName| + 3..] == c.userRole
    ensures c.userRole == "" ==> s[|projectName| + 3..] == c.username
  {
    projectName + " - " + (if c.userRole != "" then c.userRole else c.username)
  }

  /** Deleting project `pid`: its credentials and its memberships go with it
      (both foreign keys cascade); nothing else changes. */
  function DeleteProjectCascade(t: Tables, pid: ProjectId): (r: Tables)
    ensures pid !in r.projects
    ensures forall p :: p != pid ==> (p in r.projects <==> p in t.projects)
    ensures forall p :: p in r.projects ==> r.projects[p] == t.projects[p]
    ensures forall cid :: cid in r.credentials <==> cid in t.credentials && t.credentials[cid].project != pid
    ensures forall cid :: cid in r.credentials ==> r.credentials[cid] == t.credentials[cid]
    ensures forall mid :: mid in r.members <==> mid in t.members && t.members[mid].project != pid
    ensures forall mid :: mid in r.members ==> r.members[mid] == t.members[mid]
    ensures r.users == t.users
    ensures r.nextProjectId == t.nextProjectId && r.nextCredentialId == t.nextCredentialId
    ensures r.nextMemberId == t.nextMemberId
  {
    t.(projects := t.projects - {pid},
       credentials := WithoutCredentialsOf(t.credentials, pid),
       members := map mid | mid in t.members && t.members[mid].project != pid :: t.members[mid])
  }

  lemma DeleteProjectKeepsConsistency(t: Tables, pid: ProjectId)
    requires Consistent(t)
    ensures Consistent(DeleteProjectCascade(t, pid))
  {
  }

  /** Deleting user `u`: the memberships of `u` are deleted (cascade) and the
      projects `u` created lose their creator (set null); the projects
      themselves and all credentials survive. */
  function DeleteUserCascade(t: Tables, u: UserId): (r: Tables)
    ensures r.users == t.users - {u}
    ensures r.projects.Keys == t.projects.Keys
    ensures forall p :: p in r.projects ==>
      && r.projects[p].name == t.projects[p].name
      && r.projects[p].description == t.projects[p].description
      && r.projects[p].creator == (if t.projects[p].creator == Some(u) then None else t.projects[p].creator)
    ensures r.credentials == t.credentials
    ensures forall mid :: mid in r.members <==> mid in t.members && t.members[mid].user != u
    ensures forall mid :: mid in r.members ==> r.members[mid] == t.members[mid]
    ensures r.nextProjectId == t.nextProjectId && r.nextCredentialId == t.nextCredentialId
    ensures r.nextMemberId == t.nextMemberId
  {
    t.(users := t.users - {u},
       projects := map p | p in t.projects ::
         if t.projects[p].creator == Some(u) then t.projects[p].(creator := None) else t.projects[p],
       members := map mid | mid in t.members && t.members[mid].user != u :: t.members[mid])
  }

  lemma DeleteUserKeepsConsistency(t: Tables, u: UserId)
    requires Consistent(t)
    ensures Consistent(DeleteUserCascade(t, u))
  {
  }
}
