# Project data layer of a test-management application

This project models the project-management data layer of a test-management
web application. It covers three tables and the serializers that write them:

- **projects**: a unique name of at most 100 characters, a description, and a creator that may be null;
- **project credentials**: login profiles for the system under test, owned by a project;
- **project members**: a role (owner, admin or member) held by a user in a project, unique per (project, user).

Module layout:

- `models.dfy`, module `Models`: the schema. It has the records, each column's length bound, the role choices and their default, and the store invariant `Consistent`. The invariant covers unique names, unique (project, user) pairs, referential integrity and key allocation. The module also has the credential display string and what each foreign key's delete rule does: `DeleteProjectCascade` and `DeleteUserCascade`.
- `serializers.dfy`, module `Serializers`: the write side of the REST serializers. It has the payloads and every validation step with its error. It also has the tables a successful project create, project update or member insert leaves behind (`Created`, `Updated`, `WithMember`), with lemmas saying what changed, what did not, and that `Consistent` is kept.
- `store.dfy`, module `Store`: class `ProjectStore` holds the tables as fields that its methods update in place. A project create adds the project and then inserts the nested credentials one at a time in a loop. An update deletes the project's credentials and re-inserts them in the same loop. There is also a member insert and the two deletes. Each method is proved to produce exactly the tables of the matching specification function, to keep `Consistent`, and to leave the store unchanged when validation refuses the write.
- `wrappers.dfy`, module `Wrappers`: `Option` and `Result`.

Where a model column bound is enforced, the model treats it as a validation error. That error stands for the length validator that the serializer framework derives from the column's `max_length`. The user table of the accounts subsystem is reduced to a set of user ids. The requesting user, who becomes a project's creator, is a parameter.

## Model

| member | source | states |
|---|---|---|
| Models.RoleValue | WHartTest_Django/projects/models.py:61-65 | every stored role value is one of owner/admin/member and fits the 20-character column |
| Models.ParseRole | WHartTest_Django/projects/models.py:79-84 | a role value is accepted exactly when it is one of the three choices, and it reads back to the same stored value |
| Models.RoleValueRoundTrip | WHartTest_Django/projects/models.py:61-65 | parsing the stored value of a role gives back that role |
| Models.CredentialLabel | WHartTest_Django/projects/models.py:53-54 | the display string is the project name, " - ", then the role label when it is non-empty and the username otherwise |
| Models.DeleteProjectCascade | WHartTest_Django/projects/models.py:36-72 | deleting a project removes exactly the credentials and memberships that reference it; all other rows, the users and the key counters are unchanged |
| Models.DeleteProjectKeepsConsistency | WHartTest_Django/projects/models.py:36-41 | the cascade leaves no dangling credential or membership, so the store invariant still holds |
| Models.DeleteUserCascade | WHartTest_Django/projects/models.py:73-78 | deleting a user removes exactly that user's memberships and sets creator to null on the projects they created; every project survives with its name and description, and credentials are untouched |
| Models.DeleteUserKeepsConsistency | WHartTest_Django/projects/models.py:12-18 | after a user is deleted, no project's creator and no membership refers to that user, so the store invariant still holds |
| Serializers.CredentialFieldError | WHartTest_Django/projects/models.py:42-45 | a nested credential passes exactly when the row it becomes respects all four column bounds (url 255, username 100, password 255, role 50); a reported field really exceeds its bound |
| Serializers.CredentialFieldErrorAsWritten | WHartTest_Django/projects/serializers.py:9 | as written, only url, username and role are bounded; the password is never reported |
| Serializers.LongPasswordPassesAsWritten | WHartTest_Django/projects/serializers.py:9 | as written, a 256-character password passes validation and yields a row whose password breaks the column bound |
| Serializers.LongPasswordRefused | WHartTest_Django/projects/models.py:44 | with the password bound checked, that credential is refused for its password |
| Serializers.ValidateCredentials | WHartTest_Django/projects/serializers.py:35 | a credential list passes exactly when every element passes; otherwise the first failing element is reported with its position and field |
| Serializers.PasswordWriteOnly | WHartTest_Django/projects/serializers.py:9-13 | a credential's representation to readers does not depend on its password |
| Serializers.PasswordStored | WHartTest_Django/projects/serializers.py:9 | the password sent is the password stored, and an absent password is stored empty |
| Serializers.ValidateName | WHartTest_Django/projects/serializers.py:42-48 | on create, a name is accepted exactly when no project has it; on update, exactly when it is the instance's own current name or no project has it; an accepted name is returned unchanged |
| Serializers.RenameToOtherProjectsNameRefused | WHartTest_Django/projects/serializers.py:46-47 | with unique names, renaming a project to another project's name is refused as a duplicate |
| Serializers.NameError | WHartTest_Django/projects/models.py:10 | a name passes exactly when it has at most 100 characters and passes the uniqueness check |
| Serializers.CreateError | WHartTest_Django/projects/serializers.py:44-45 | a create payload passes exactly when its name is within bounds and unused and every nested credential passes; a used name is always refused |
| Serializers.UpdateError | WHartTest_Django/projects/serializers.py:46-47 | an update payload passes exactly when a sent name is within bounds and either unchanged or unused, and every sent credential passes |
| Serializers.Bind | WHartTest_Django/projects/serializers.py:53-54 | the loop creates one credential per list element, the i-th with the i-th key after the first, bound to the project, with the element's fields |
| Serializers.CreateEffect | WHartTest_Django/projects/serializers.py:50-55 | a create adds one new project with the sent name, the sent description (empty when absent) and the creator; its credentials are exactly the sent list in order, none when the list is absent; other projects' credentials and all memberships are untouched |
| Serializers.CreateKeepsConsistency | WHartTest_Django/projects/serializers.py:50-55 | a validated create keeps names unique, within 100 characters, and all references valid |
| Serializers.SecondCreateWithSameNameRefused | WHartTest_Django/projects/serializers.py:44-45 | after a project is created, a second create with the same name is refused as a duplicate |
| Serializers.UpdateFieldsEffect | WHartTest_Django/projects/serializers.py:60-62 | an update sets a sent name or description and keeps an absent one; creator, other projects and memberships are unchanged |
| Serializers.UpdateCredentialsEffect | WHartTest_Django/projects/serializers.py:64-67 | with a credential list, even an empty one, the project's credentials become exactly that list; without one, all credentials are unchanged; other projects' credentials never change |
| Serializers.ReplaceCredentials | WHartTest_Django/projects/serializers.py:65-67 | deleting a project's credentials and adding fresh ones for it leaves the project with exactly the fresh ones and every other project with what it had |
| Serializers.UpdateKeepsConsistency | WHartTest_Django/projects/serializers.py:57-69 | a validated update keeps the store invariant, in particular name uniqueness |
| Serializers.ValidateUserId | WHartTest_Django/projects/serializers.py:88-94 | a user id passes exactly when that user exists, and is otherwise refused as an unknown user |
| Serializers.ValidateRole | WHartTest_Django/projects/models.py:79-84 | an absent role becomes member; a sent role passes exactly when it is a choice and keeps its value |
| Serializers.ValidateMembership | WHartTest_Django/projects/serializers.py:96-104 | the pair check passes exactly when the user is not yet a member of the context project, and is otherwise refused as a duplicate membership |
| Serializers.ValidateMemberCreate | WHartTest_Django/projects/serializers.py:80-104 | an unknown user is refused first, then an invalid role, then an existing pair; otherwise the membership binds the context project, the user and the role (member by default) |
| Serializers.MemberInsertEffect | WHartTest_Django/projects/serializers.py:106-110 | a validated insert adds exactly one membership under a fresh key; existing memberships, projects, credentials and users are unchanged |
| Serializers.MemberInsertKeepsConsistency | WHartTest_Django/projects/models.py:90 | after a validated insert, every (project, user) pair still occurs at most once and both references exist |
| Store.BindStep | WHartTest_Django/projects/serializers.py:53-54 | one more turn of the credential loop adds the row for the next element under the next key, giving the rows created from one more element of the list |
| Store.ProjectStore.InsertCredentials | WHartTest_Django/projects/serializers.py:53-54 | the loop leaves the credential table extended by exactly `Bind` of the list and changes no other table |
| Store.ProjectStore.CreateProject | WHartTest_Django/projects/serializers.py:50-55 | refused exactly when `CreateError` reports, and then the store is unchanged; otherwise the store becomes `Created` of the old one, stays consistent, and the new key is returned |
| Store.ProjectStore.UpdateProject | WHartTest_Django/projects/serializers.py:57-69 | refused exactly when `UpdateError` reports, and then the store is unchanged; otherwise the store becomes `Updated` of the old one and stays consistent |
| Store.ProjectStore.CreateMember | WHartTest_Django/projects/serializers.py:106-110 | refused exactly when `ValidateMemberCreate` fails, and then the store is unchanged; otherwise exactly the validated membership is inserted and the store stays consistent |
| Store.ProjectStore.DeleteProject | WHartTest_Django/projects/models.py:36-41 | the store becomes `DeleteProjectCascade` of the old one and stays consistent |
| Store.ProjectStore.DeleteUser | WHartTest_Django/projects/models.py:12-18 | the store becomes `DeleteUserCascade` of the old one and stays consistent |

## Findings

| source | as written | input that shows it | evidently intended | confidence | as-written member | corrected member |
|---|---|---|---|---|---|---|
| WHartTest_Django/projects/serializers.py:9 | `password` is redeclared on the credential serializer without `max_length`, which drops the length check the framework would otherwise derive from the 255-character column (models.py:44); an over-long password reaches the database | a nested credential whose password has 256 characters | refuse passwords over 255 characters with a validation error, as the other credential fields are | medium; not executed | Serializers.CredentialFieldErrorAsWritten (shown by Serializers.LongPasswordPassesAsWritten) | Serializers.CredentialFieldError (shown by Serializers.LongPasswordRefused; used by the rest of the model) |

## Left out

- Timestamps (`created_at`, `updated_at`, `joined_at`) and the `ordering` of each table: they depend on the clock and on query order. Credential "order" is captured by key order: the i-th list element gets the i-th new key.
- The read-side representations: nested creator and user details, and the member list of the detail view. The user subsystem is not part of this model. Of the read side, only the credential representation is modelled, to show the password is write-only.
- `Project.__str__`, which returns the name, and `ProjectMember.__str__`, which needs the user's username and the translated role label. Translation and the user record are not part of this model.
- URL format validation of `system_url`, blank-name refusal and whitespace trimming of character fields: these belong to the serializer framework's field machinery.
- On a full (non-partial) update, the framework requires `name`. The model treats every update as partial, which is what `update` itself handles.
- ValidateMemberCreate: the framework reports the errors of all fields of a payload together. The model reports only the first, in declared field order: user id before role, and then the pair check. CreateError and UpdateError likewise report the first failing field, and ValidateCredentials the first failing credential.
- Concurrency: two updates that replace the same project's credentials at once race, and the last writer wins. Transactions are not modelled either. Each store method is one atomic step.
- Persistence-engine behaviour, such as database-level errors, is not modelled. The store is an in-memory set of tables.
- Adding users, and the accounts subsystem in general: the store starts from a given set of user ids, and users only leave it through DeleteUser.
- `deploy-scripts/build-github.js`: it only starts a documentation build process.
