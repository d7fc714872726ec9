/** The write side of the REST serializers: the payloads a client sends,
    the validation each payload goes through against the current tables, and
    the tables that a successful project create, project update or member
    insert leaves behind.  The store methods that perform these writes step
    by step are in module Store and are proved to produce exactly these
    tables. */
module Serializers {
  import opened Wrappers
  import opened Models

  /** The character fields of a credential, in the order they are validated. */
  datatype CredentialField = SystemUrl | Username | Password | UserRole

  /** Every way a write can be refused. */
  datatype ValidationError =
    | NameTooLong
    | DuplicateName
    | CredentialFieldTooLong(index: nat, field: CredentialField)
    | UnknownUser
    | InvalidRole
    | DuplicateMembership

  /** One nested credential of a project payload; every field may be absent. */
  datatype CredentialInput = CredentialInput(
    systemUrl: Option<string>,
    username: Option<string>,
    password: Option<string>,
    userRole: Option<string>)

  /** Payload of a project create: the name is required. */
  datatype ProjectCreateInput = ProjectCreateInput(
    name: string,
    description: Option<string>,
    credentials: Option<seq<CredentialInput>>)

  /** Payload of a project update: every field may be absent. */
  datatype ProjectUpdateInput = ProjectUpdateInput(
    name: Option<string>,
    description: Option<string>,
    credentials: Option<seq<CredentialInput>>)

  /** What a reader is sent for a credential: everything but the password. */
  datatype CredentialView = CredentialView(
    id: CredentialId,
    systemUrl: string,
    username: string,
    userRole: string)

  // ---------------------------------------------------------------------
  // Credentials

  /** The row a nested credential becomes; an absent field is stored empty. */
  function CredentialRecord(pid: ProjectId, input: CredentialInput): Credential {
    Credential(pid, input.systemUrl.GetOr(""), input.username.GetOr(""),
               input.password.GetOr(""), input.userRole.GetOr(""))
  }

  function FieldValue(input: CredentialInput, f: CredentialField): string {
    match f
    case SystemUrl => input.systemUrl.GetOr("")
    case Username => input.username.GetOr("")
    case Password => input.password.GetOr("")
    case UserRole => input.userRole.GetOr("")
  }

  function FieldBound(f: CredentialField): nat {
    match f
    case SystemUrl => SystemUrlMaxLength
    case Username => UsernameMaxLength
    case Password => PasswordMaxLength
    case UserRole => UserRoleMaxLength
  }

  /** The first field of a nested credential that is longer than its column
      allows, password included. */
  function CredentialFieldError(input: CredentialInput): (r: Option<CredentialField>)
    ensures forall pid: ProjectId :: r.None? <==> CredentialWithinBounds(CredentialRecord(pid, input))
    ensures r.Some? ==> |FieldValue(input, r.value)| > FieldBound(r.value)
  {
    if |input.systemUrl.GetOr("")| > SystemUrlMaxLength then Some(SystemUrl)
    else if |input.username.GetOr("")| > UsernameMaxLength then Some(Username)
    else if |input.password.GetOr("")| > PasswordMaxLength then Some(Password)
    else if |input.userRole.GetOr("")| > UserRoleMaxLength then Some(UserRole)
    else None
  }

  /** The credential serializer as written: `password` is redeclared without
      a length bound, so only the other three fields are checked. */
  function CredentialFieldErrorAsWritten(input: CredentialInput): (r: Option<CredentialField>)
    ensures r != Some(Password)
    ensures r.None? <==>
      && |input.systemUrl.GetOr("")| <= SystemUrlMaxLength
      && |input.username.GetOr("")| <= UsernameMaxLength
      && |input.userRole.GetOr("")| <= UserRoleMaxLength
  {
    if |input.systemUrl.GetOr("")| > SystemUrlMaxLength then Some(SystemUrl)
    else if |input.username.GetOr("")| > UsernameMaxLength then Some(Username)
    else if |input.userRole.GetOr("")| > UserRoleMaxLength then Some(UserRole)
    else None
  }

  /** A password one character longer than its column. */
  const LongPasswordInput: CredentialInput :=
    CredentialInput(None, None, Some(seq(PasswordMaxLength + 1, _ => 'x')), None)

  /** As written, a credential with an over-long password passes the
      serializer, and the row it becomes breaks the column bound. */
  lemma LongPasswordPassesAsWritten()
    ensures CredentialFieldErrorAsWritten(LongPasswordInput).None?
    ensures !CredentialWithinBounds(CredentialRecord(0, LongPasswordInput))
  {
  }

  /** With the bound checked, the same credential is refused for its password. */
  lemma LongPasswordRefused()
    ensures CredentialFieldError(LongPasswordInput) == Some(Password)
  {
  }

  /** Validates a nested credential list; reports the first credential that
      fails, with its position. */
  function ValidateCredentials(inputs: seq<CredentialInput>): (r: Option<ValidationError>)
    ensures r.None? <==> forall i :: 0 <= i < |inputs| ==> CredentialFieldError(inputs[i]).None?
    ensures r.Some? ==>
      && r.value.CredentialFieldTooLong?
      && r.value.index < |inputs|
      && CredentialFieldError(inputs[r.value.index]) == Some(r.value.field)
      && forall i :: 0 <= i < r.value.index ==> CredentialFieldError(inputs[i]).None?
    decreases |inputs|
  {
    if |inputs| == 0 then None
    else
      var earlier := ValidateCredentials(inputs[..|inputs| - 1]);
      if earlier.Some? then earlier
      else match CredentialFieldError(inputs[|inputs| - 1])
        case Some(f) => Some(CredentialFieldTooLong(|inputs| - 1, f))
        case None => None
  }

  /** What a reader is sent for credential `cid`. */
  function Represent(cid: CredentialId, c: Credential): CredentialView {
    CredentialView(cid, c.systemUrl, c.username, c.userRole)
  }

  /** The password is write-only: no reader can tell two passwords apart. */
  lemma PasswordWriteOnly(cid: CredentialId, c: Credential, password: string)
    ensures Represent(cid, c.(password := password)) == Represent(cid, c)
  {
  }

  /** The password a client sends is the one stored. */
  lemma PasswordStored(pid: ProjectId, input: CredentialInput)
    ensures input.password.Some? ==> CredentialRecord(pid, input).password == input.password.value
    ensures input.password.None? ==> CredentialRecord(pid, input).password == ""
  {
  }

  // ---------------------------------------------------------------------
  // Project name

  /** The name-uniqueness check.  On create (`instance` None) a name used by
      any project is refused; on update the instance's own current name is
      always accepted, and any other name already in use is refused. */
  function ValidateName(projects: map<ProjectId, Project>, instance: Option<ProjectId>, value: string)
    : (r: Result<string, ValidationError>)
    requires instance.Some? ==> instance.value in projects
    ensures r.Success? ==> r.value == value
    ensures r.Failure? ==> r.error == DuplicateName
    ensures instance.None? ==> (r.Success? <==> !NameTaken(projects, value))
    ensures instance.Some? ==>
      (r.Success? <==> (projects[instance.value].name == value || !NameTaken(projects, value)))
  {
    if instance.None? && NameTaken(projects, value) then Failure(DuplicateName)
    else if instance.Some? && projects[instance.value].name != value && NameTaken(projects, value) then
      Failure(DuplicateName)
    else Success(value)
  }

  /** Renaming a project to the name another project holds is refused. */
  lemma RenameToOtherProjectsNameRefused(projects: map<ProjectId, Project>, instance: ProjectId, other: ProjectId)
    requires UniqueNames(projects)
    requires instance in projects && other in projects && instance != other
    ensures ValidateName(projects, Some(instance), projects[other].name) == Failure(DuplicateName)
  {
  }

  /** The name field: first its column bound, then uniqueness. */
  function NameError(projects: map<ProjectId, Project>, instance: Option<ProjectId>, value: string)
    : (r: Option<ValidationError>)
    requires instance.Some? ==> instance.value in projects
    ensures r.None? <==> |value| <= ProjectNameMaxLength && ValidateName(projects, instance, value).Success?
    ensures |value| > ProjectNameMaxLength ==> r == Some(NameTooLong)
  {
    if |value| > ProjectNameMaxLength then Some(NameTooLong)
    else match ValidateName(projects, instance, value)
      case Failure(e) => Some(e)
      case Success(_) => None
  }

  // ---------------------------------------------------------------------
  // Project create and update

  /** Validation of a create payload, name first, then the credentials. */
  function CreateError(t: Tables, input: ProjectCreateInput): (r: Option<ValidationError>)
    ensures r.None? <==>
      && |input.name| <= ProjectNameMaxLength
      && !NameTaken(t.projects, input.name)
      && (input.credentials.Some? ==>
            forall i :: 0 <= i < |input.credentials.value| ==> CredentialFieldError(input.credentials.value[i]).None?)
    ensures NameTaken(t.projects, input.name) ==> r.Some? && r.value in {NameTooLong, DuplicateName}
  {
    var nameError := NameError(t.projects, None, input.name);
    if nameError.Some? then nameError
    else if input.credentials.Some? then ValidateCredentials(input.credentials.value)
    else None
  }

  /** Validation of an update payload: the name is checked only when sent. */
  function UpdateError(t: Tables, pid: ProjectId, input: ProjectUpdateInput): (r: Option<ValidationError>)
    requires pid in t.projects
    ensures r.None? <==>
      && (input.name.Some? ==>
            && |input.name.value| <= ProjectNameMaxLength
            && (t.projects[pid].name == input.name.value || !NameTaken(t.projects, input.name.value)))
      && (input.credentials.Some? ==>
            forall i :: 0 <= i < |input.credentials.value| ==> CredentialFieldError(input.credentials.value[i]).None?)
  {
    var nameError := if input.name.Some? then NameError(t.projects, Some(pid), input.name.value) else None;
    if nameError.Some? then nameError
    else if input.credentials.Some? then ValidateCredentials(input.credentials.value)
    else None
  }

  /** The credentials created, one at a time, from `inputs` for project `pid`,
      the i-th taking key `firstId + i`. */
  function Bind(pid: ProjectId, inputs: seq<CredentialInput>, firstId: CredentialId)
    : (m: map<CredentialId, Credential>)
    ensures forall cid :: cid in m <==> firstId <= cid < firstId + |inputs|
    ensures forall cid :: cid in m ==> m[cid] == CredentialRecord(pid, inputs[cid - firstId])
    decreases |inputs|
  {
    if |inputs| == 0 then map[]
    else Bind(pid, inputs[..|inputs| - 1], firstId)[firstId + |inputs| - 1 := CredentialRecord(pid, inputs[|inputs| - 1])]
  }

  /** The tables after a successful create by `creator`. */
  function Created(t: Tables, input: ProjectCreateInput, creator: Option<UserId>): Tables {
    var pid := t.nextProjectId;
    var creds := input.credentials.GetOr([]);
    t.(projects := t.projects[pid := Project(input.name, input.description.GetOr(""), creator)],
       credentials := t.credentials + Bind(pid, creds, t.nextCredentialId),
       nextProjectId := pid + 1,
       nextCredentialId := t.nextCredentialId + |creds|)
  }

  /** The tables after a successful update of project `pid`. */
  function Updated(t: Tables, pid: ProjectId, input: ProjectUpdateInput): Tables
    requires pid in t.projects
  {
    var p := t.projects[pid];
    var renamed := t.(projects := t.projects[pid := p.(name := input.name.GetOr(p.name),
                                                        description := input.description.GetOr(p.description))]);
    match input.credentials
    case None => renamed
    case Some(creds) =>
      renamed.(credentials := WithoutCredentialsOf(t.credentials, pid) + Bind(pid, creds, t.nextCredentialId),
               nextCredentialId := t.nextCredentialId + |creds|)
  }

  // ---------------------------------------------------------------------
  // Members

  /** The user id must name an existing user. */
  function ValidateUserId(users: set<UserId>, userId: int): (r: Result<UserId, ValidationError>)
    ensures r.Success? <==> userId in users
    ensures r.Success? ==> r.value == userId
    ensures r.Failure? ==> r.error == UnknownUser
  {
    if userId in users then Success(userId) else Failure(UnknownUser)
  }

  /** The role field: one of the choices, or the default when absent. */
  function ValidateRole(role: Option<string>): (r: Result<Role, ValidationError>)
    ensures role.None? ==> r == Success(DefaultRole)
    ensures role.Some? ==> (r.Success? <==> role.value in RoleChoices)
    ensures role.Some? && r.Success? ==> RoleValue(r.value) == role.value
    ensures r.Failure? ==> r.error == InvalidRole
  {
    match role
    case None => Success(DefaultRole)
    case Some(s) =>
      match ParseRole(s)
      case Some(parsed) => Success(parsed)
      case None => Failure(InvalidRole)
  }

  /** The user must not already be a member of the project acted on. */
  function ValidateMembership(members: map<MemberId, Membership>, project: ProjectId, userId: UserId)
    : (r: Result<UserId, ValidationError>)
    ensures r.Success? <==> !MemberOf(members, project, userId)
    ensures r.Success? ==> r.value == userId
    ensures r.Failure? ==> r.error == DuplicateMembership
  {
    if MemberOf(members, project, userId) then Failure(DuplicateMembership) else Success(userId)
  }

  /** The whole member-create validation: the fields in order (user id, then
      role), then the (project, user) check against the context project. */
  function ValidateMemberCreate(t: Tables, project: ProjectId, userId: int, role: Option<string>)
    : (r: Result<Membership, ValidationError>)
    ensures userId !in t.users ==> r == Failure(UnknownUser)
    ensures userId in t.users && ValidateRole(role).Failure? ==> r == Failure(InvalidRole)
    ensures userId in t.users && ValidateRole(role).Success? && MemberOf(t.members, project, userId) ==>
      r == Failure(DuplicateMembership)
    ensures r.Success? <==>
      userId in t.users && (role.Some? ==> role.value in RoleChoices) && !MemberOf(t.members, project, userId)
    ensures r.Success? ==>
      && r.value.project == project && r.value.user == userId
      && (role.None? ==> r.value.role == DefaultRole)
      && (role.Some? ==> RoleValue(r.value.role) == role.value)
  {
    match ValidateUserId(t.users, userId)
    case Failure(e) => Failure(e)
    case Success(user) =>
      match ValidateRole(role)
      case Failure(e) => Failure(e)
      case Success(parsed) =>
        match ValidateMembership(t.members, project, user)
        case Failure(e) => Failure(e)
        case Success(_) => Success(Membership(project, user, parsed))
  }

  /** The tables after membership `m` is inserted. */
  function WithMember(t: Tables, m: Membership): Tables {
    t.(members := t.members[t.nextMemberId := m], nextMemberId := t.nextMemberId + 1)
  }

  // ---------------------------------------------------------------------
  // What a successful write does to the tables

  /** A create adds exactly one project, with the sent name, the sent
      description (empty when absent) and the creator; its credentials are
      exactly the sent list, one per element in order, and none when the list
      is absent.  Every other project and all memberships are untouched. */
  lemma CreateEffect(t: Tables, input: ProjectCreateInput, creator: Option<UserId>)
    requires Consistent(t)
    ensures var r, pid := Created(t, input, creator), t.nextProjectId;
      && pid !in t.projects
      && r.projects.Keys == t.projects.Keys + {pid}
      && r.projects[pid] == Project(input.name, input.description.GetOr(""), creator)
      && (forall p :: p in t.projects ==> r.projects[p] == t.projects[p])
      && CredentialsOf(r.credentials, pid) == Bind(pid, input.credentials.GetOr([]), t.nextCredentialId)
      && (input.credentials.None? ==> CredentialsOf(r.credentials, pid) == map[])
      && (forall q :: q != pid ==> CredentialsOf(r.credentials, q) == CredentialsOf(t.credentials, q))
      && r.members == t.members && r.users == t.users
  {
    var r, pid := Created(t, input, creator), t.nextProjectId;
    var added := Bind(pid, input.credentials.GetOr([]), t.nextCredentialId);
    assert CredentialsOf(r.credentials, pid) == added by {
      forall cid | cid in added ensures cid !in t.credentials { }
    }
    forall q | q != pid
      ensures CredentialsOf(r.credentials, q) == CredentialsOf(t.credentials, q)
    {
    }
  }

  /** A create that passed validation keeps the store consistent. */
  lemma CreateKeepsConsistency(t: Tables, input: ProjectCreateInput, creator: Option<UserId>)
    requires Consistent(t)
    requires CreateError(t, input).None?
    requires creator.Some? ==> creator.value in t.users
    ensures Consistent(Created(t, input, creator))
  {
    var r, pid := Created(t, input, creator), t.nextProjectId;
    var creds := input.credentials.GetOr([]);
    forall cid | cid in r.credentials
      ensures cid < r.nextCredentialId && r.credentials[cid].project in r.projects
      ensures CredentialWithinBounds(r.credentials[cid])
    {
      if cid !in t.credentials {
        assert CredentialFieldError(creds[cid - t.nextCredentialId]).None?;
      }
    }
  }

  /** Once a project is created, a second create with the same name is
      refused as a duplicate. */
  lemma SecondCreateWithSameNameRefused(t: Tables, first: ProjectCreateInput, creator: Option<UserId>,
                                        second: ProjectCreateInput)
    requires CreateError(t, first).None?
    requires second.name == first.name
    ensures CreateError(Created(t, first, creator), second) == Some(DuplicateName)
  {
    var r := Created(t, first, creator);
    assert r.projects[t.nextProjectId].name == second.name;
  }

  /** An update sets the name and description that were sent and keeps the
      others; other projects and the memberships never change. */
  lemma UpdateFieldsEffect(t: Tables, pid: ProjectId, input: ProjectUpdateInput)
    requires pid in t.projects
    ensures var r := Updated(t, pid, input);
      && r.projects.Keys == t.projects.Keys
      && r.projects[pid].name == input.name.GetOr(t.projects[pid].name)
      && r.projects[pid].description == input.description.GetOr(t.projects[pid].description)
      && r.projects[pid].creator == t.projects[pid].creator
      && (forall p :: p in t.projects && p != pid ==> r.projects[p] == t.projects[p])
      && r.members == t.members && r.users == t.users
  {
  }

  /** When an update sends a credential list, even an empty one, the
      project's credentials become exactly that list; when it sends none they
      are untouched.  Credentials of other projects never change. */
  lemma UpdateCredentialsEffect(t: Tables, pid: ProjectId, input: ProjectUpdateInput)
    requires CredentialsValid(t)
    requires pid in t.projects
    ensures var r := Updated(t, pid, input);
      && (input.credentials.None? ==> r.credentials == t.credentials)
      && (input.credentials.Some? ==>
            CredentialsOf(r.credentials, pid) == Bind(pid, input.credentials.value, t.nextCredentialId))
      && (forall q :: q != pid ==> CredentialsOf(r.credentials, q) == CredentialsOf(t.credentials, q))
  {
    if input.credentials.Some? {
      assert Updated(t, pid, input).credentials
        == WithoutCredentialsOf(t.credentials, pid) + Bind(pid, input.credentials.value, t.nextCredentialId);
      ReplaceCredentials(t.credentials, pid, Bind(pid, input.credentials.value, t.nextCredentialId));
    }
  }

  /** Deleting the credentials of `pid` and adding `added`, all fresh and all
      bound to `pid`, leaves `pid` with exactly `added` and every other
      project with what it had. */
  lemma ReplaceCredentials(credentials: map<CredentialId, Credential>, pid: ProjectId,
                           added: map<CredentialId, Credential>)
    requires forall cid :: cid in added ==> cid !in credentials && added[cid].project == pid
    ensures CredentialsOf(WithoutCredentialsOf(credentials, pid) + added, pid) == added
    ensures forall q :: q != pid ==>
      CredentialsOf(WithoutCredentialsOf(credentials, pid) + added, q) == CredentialsOf(credentials, q)
  {
    var r := WithoutCredentialsOf(credentials, pid) + added;
    forall q | q != pid
      ensures CredentialsOf(r, q) == CredentialsOf(credentials, q)
    {
    }
  }

  /** An update that passed validation keeps the store consistent. */
  lemma UpdateKeepsConsistency(t: Tables, pid: ProjectId, input: ProjectUpdateInput)
    requires Consistent(t)
    requires pid in t.projects
    requires UpdateError(t, pid, input).None?
    ensures Consistent(Updated(t, pid, input))
  {
    var r := Updated(t, pid, input);
    if input.credentials.Some? {
      var creds := input.credentials.value;
      forall cid | cid in r.credentials
        ensures cid < r.nextCredentialId && r.credentials[cid].project in r.projects
        ensures CredentialWithinBounds(r.credentials[cid])
      {
        if cid !in t.credentials {
          assert CredentialFieldError(creds[cid - t.nextCredentialId]).None?;
        }
      }
    }
    if input.name.Some? && input.name.value != t.projects[pid].name {
      assert !NameTaken(t.projects, input.name.value);
    }
  }

  /** A member insert that passed validation adds exactly one membership,
      for the context project, the user and the role, and changes nothing else. */
  lemma MemberInsertEffect(t: Tables, project: ProjectId, userId: int, role: Option<string>, m: Membership)
    requires MembersValid(t)
    requires ValidateMemberCreate(t, project, userId, role) == Success(m)
    ensures var r := WithMember(t, m);
      && t.nextMemberId !in t.members
      && r.members.Keys == t.members.Keys + {t.nextMemberId}
      && r.members[t.nextMemberId] == m
      && (forall mid :: mid in t.members ==> r.members[mid] == t.members[mid])
      && |r.members| == |t.members| + 1
      && MemberOf(r.members, project, userId)
      && r.projects == t.projects && r.credentials == t.credentials && r.users == t.users
  {
    var r := WithMember(t, m);
    assert r.members.Keys == t.members.Keys + {t.nextMemberId};
    assert MemberOf(r.members, project, userId) by {
      assert r.members[t.nextMemberId] == m;
    }
  }

  /** A member insert that passed validation keeps the store consistent: the
      pair stays unique and both references point at existing rows. */
  lemma MemberInsertKeepsConsistency(t: Tables, project: ProjectId, userId: int, role: Option<string>, m: Membership)
    requires Consistent(t)
    requires project in t.projects
    requires ValidateMemberCreate(t, project, userId, role) == Success(m)
    ensures Consistent(WithMember(t, m))
  {
    assert !MemberOf(t.members, project, userId);
  }
}
