/** The store the serializers write through.  Its tables are fields that the
    write operations change in place, as rows are created and deleted one at
    a time; each operation is proved to leave exactly the tables described
    in module Serializers (or, for deletes, in module Models), so the store
    invariant `Consistent` holds after every operation, and a write refused
    by validation leaves every table as it was. */
module Store {
  import opened Wrappers
  import opened Models
  import opened Serializers

  class ProjectStore {
    var projects: map<ProjectId, Project>
    var credentials: map<CredentialId, Credential>
    var members: map<MemberId, Membership>
    var users: set<UserId>
    var nextProjectId: ProjectId
    var nextCredentialId: CredentialId
    var nextMemberId: MemberId

    /** The tables as a value. */
    function State(): Tables
      reads this
    {
      Tables(projects, credentials, members, users, nextProjectId, nextCredentialId, nextMemberId)
    }

    ghost predicate Valid()
      reads this
    {
      Consistent(State())
    }

    /** An empty store next to the user table `existingUsers`. */
    constructor (existingUsers: set<UserId>)
      ensures Valid()
      ensures State() == Tables(map[], map[], map[], existingUsers, 0, 0, 0)
    {
      projects, credentials, members := map[], map[], map[];
      users := existingUsers;
      nextProjectId, nextCredentialId, nextMemberId := 0, 0, 0;
    }

    /** Creates one credential row per element of `inputs`, in order, all
        bound to project `pid`. */
    method InsertCredentials(pid: ProjectId, inputs: seq<CredentialInput>)
      modifies this
      ensures credentials == old(credentials) + Bind(pid, inputs, old(nextCredentialId))
      ensures nextCredentialId == old(nextCredentialId) + |inputs|
      ensures projects == old(projects) && members == old(members) && users == old(users)
      ensures nextProjectId == old(nextProjectId) && nextMemberId == old(nextMemberId)
    {
      var i := 0;
      while i < |inputs|
        invariant 0 <= i <= |inputs|
        invariant credentials == old(credentials) + Bind(pid, inputs[..i], old(nextCredentialId))
        invariant nextCredentialId == old(nextCredentialId) + i
        modifies this`credentials, this`nextCredentialId
      {
        BindStep(old(credentials), pid, inputs, old(nextCredentialId), i);
        credentials := credentials[nextCredentialId := CredentialRecord(pid, inputs[i])];
        nextCredentialId := nextCredentialId + 1;
        i := i + 1;
      }
      assert inputs[..|inputs|] == inputs;
    }

    /** Project create: the payload is validated against the current tables;
        on success the project is created, then each nested credential. */
    method CreateProject(input: ProjectCreateInput, creator: Option<UserId>)
      returns (r: Result<ProjectId, ValidationError>)
      requires Valid()
      requires creator.Some? ==> creator.value in users
      modifies this
      ensures Valid()
      ensures r.Failure? <==> CreateError(old(State()), input).Some?
      ensures r.Failure? ==> r.error == CreateError(old(State()), input).value && State() == old(State())
      ensures r.Success? ==> r.value == old(nextProjectId) && State() == Created(old(State()), input, creator)
    {
      var error := CreateError(State(), input);
      if error.Some? {
        return Failure(error.value);
      }
      ghost var before := State();
      var pid := nextProjectId;
      projects := projects[pid := Project(input.name, input.description.GetOr(""), creator)];
      nextProjectId := pid + 1;
      InsertCredentials(pid, input.credentials.GetOr([]));
      CreateKeepsConsistency(before, input, creator);
      r := Success(pid);
    }

    /** Project update of the existing project `pid`: absent name and
        description keep their values; a sent credential list replaces all
        of the project's credentials, an absent one leaves them alone. */
    method UpdateProject(pid: ProjectId, input: ProjectUpdateInput)
      returns (r: Result<ProjectId, ValidationError>)
      requires Valid()
      requires pid in projects
      modifies this
      ensures Valid()
      ensures r.Failure? <==> UpdateError(old(State()), pid, input).Some?
      ensures r.Failure? ==> r.error == UpdateError(old(State()), pid, input).value && State() == old(State())
      ensures r.Success? ==> r.value == pid && State() == Updated(old(State()), pid, input)
    {
      var error := UpdateError(State(), pid, input);
      if error.Some? {
        return Failure(error.value);
      }
      ghost var before := State();
      UpdateKeepsConsistency(before, pid, input);
      var p := projects[pid];
      projects := projects[pid := p.(name := input.name.GetOr(p.name),
                                     description := input.description.GetOr(p.description))];
      if input.credentials.Some? {
        credentials := WithoutCredentialsOf(credentials, pid);
        InsertCredentials(pid, input.credentials.value);
      }
      assert State() == Updated(before, pid, input);
      r := Success(pid);
    }

    /** Member create for the context project `project`: the user must exist,
        the role must be a choice (member when absent), and the pair must be
        new; on success exactly one membership is inserted. */
    method CreateMember(project: ProjectId, userId: int, role: Option<string>)
      returns (r: Result<MemberId, ValidationError>)
      requires Valid()
      requires project in projects
      modifies this
      ensures Valid()
      ensures r.Failure? <==> ValidateMemberCreate(old(State()), project, userId, role).Failure?
      ensures r.Failure? ==>
        r.error == ValidateMemberCreate(old(State()), project, userId, role).error && State() == old(State())
      ensures r.Success? ==>
        && r.value == old(nextMemberId)
        && State() == WithMember(old(State()), ValidateMemberCreate(old(State()), project, userId, role).value)
    {
      var checked := ValidateMemberCreate(State(), project, userId, role);
      if checked.Failure? {
        return Failure(checked.error);
      }
      MemberInsertKeepsConsistency(State(), project, userId, role, checked.value);
      var mid := nextMemberId;
      members := members[mid := checked.value];
      nextMemberId := mid + 1;
      r := Success(mid);
    }

    /** Deletes project `pid` together with its credentials and memberships. */
    method DeleteProject(pid: ProjectId)
      requires Valid()
      modifies this
      ensures Valid()
      ensures State() == DeleteProjectCascade(old(State()), pid)
    {
      DeleteProjectKeepsConsistency(State(), pid);
      credentials := WithoutCredentialsOf(credentials, pid);
      members := map mid | mid in members && members[mid].project != pid :: members[mid];
      projects := projects - {pid};
    }

    /** Deletes user `u`: their memberships go, the projects they created
        keep existing with no creator. */
    method DeleteUser(u: UserId)
      requires Valid()
      modifies this
      ensures Valid()
      ensures State() == DeleteUserCascade(old(State()), u)
    {
      DeleteUserKeepsConsistency(State(), u);
      members := map mid | mid in members && members[mid].user != u :: members[mid];
      projects := map p | p in projects ::
        if projects[p].creator == Some(u) then projects[p].(creator := None) else projects[p];
      users := users - {u};
    }
  }

  /** One more turn of the credential loop: the rows created so far, plus the
      row for element `i`, are the rows created from the first `i + 1`. */
  lemma BindStep(base: map<CredentialId, Credential>, pid: ProjectId, inputs: seq<CredentialInput>,
                  firstId: CredentialId, i: nat)
    requires i < |inputs|
    ensures base + Bind(pid, inputs[..i + 1], firstId)
      == (base + Bind(pid, inputs[..i], firstId))[firstId + i := CredentialRecord(pid, inputs[i])]
  {
    assert inputs[..i + 1][..i] == inputs[..i];
  }
}
