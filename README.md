# project_manager: accounts, projects and tasks, in Dafny

A model of the request handlers of the `project_manager` Django/DRF service
and of the store of users, projects and tasks they read and update.

- **Accounts.** A signup issues a confirmation code, valid until the next
  signup for that pair. Only its hash is stored, and the code goes out by
  mail. A token request trades a username and that code for an access token.
- **Profile.** A user reads and edits their own profile under `/users/me`,
  but cannot change their own role there.
- **Projects and tasks.** Projects are created with the requester as author.
  Tasks are created under a project with the requester as author and that
  project as parent. They are then edited through a viewset that lists
  only PATCH, OPTIONS and HEAD behind two permission classes.
- **Deletes.** Deleting a user or a project follows the `on_delete` rules of
  the foreign keys.

Files:

- `wrappers.dfy`: `Option` and `Result`.
- `query.dfy`: the query shapes the handlers use on a table:
  - `Filter` (a `.filter()`), `IndexWhere` (a `.get()` or `.exists()`) and
    `ReplaceWhere` (an UPDATE by primary key);
  - the `UniqueBy` constraint, with lemmas showing which of these operations
    keep it.
- `models.dfy` (`projects/models.py`): the data of the store.
  - The closed `Role`, `Status` and `Priority` enumerations, with their stored
    values and defaults, and `is_admin` / `is_moderator`.
  - The three row types and the store `Db`. A table is a sequence of rows in
    primary-key order, next to the next value of its id sequence.
  - The integrity invariant `Valid`: unique ids, unique `username` and
    `email`, and no dangling foreign key.
  - The `on_delete` rules, as `DeleteUser` and `DeleteProject`.
- `serializers.dfy` (`api/serializers.py`): for each serializer, which keys
  it checks and with which bounds, and which columns a create or a partial
  update writes. The reserved name `me` is checked here.
- `views.dfy` (`api/views.py`):
  - each handler as a function from the store and the request to the new store
    and the response;
  - the lemmas about those functions;
  - the class `Store`. It holds the three tables as fields, and its methods
    perform the same handlers, and the two deletes, step by step, in place.

The model reads the code against Django 2.2 with the JWT authenticator of
`rest_framework_simplejwt` as the default authentication class; no source file
pins a release. Two things depend on that choice:

- `first_name` is 30 characters wide. It became 150 only in Django 3.1.
- `make_password` accepts the `uuid.UUID` object that views.py:42-43 passes.
  From Django 3.1 on it raises `TypeError` for anything but `str` or
  `bytes`, so every signup would end in 500 after `get_or_create`.

The handlers follow DRF's order:

1. Authentication. A bad token, or a token for a deleted user, gets 401.
   This applies to signup and the token request too (`SignUpView`,
   `GetTokenView`): `AllowAny` calls off only the permission check.
2. The permission classes, all of which must allow. A refusal gets 401 when
   anonymous and 403 otherwise.
3. The method check (405).
4. The handler itself.

Some behaviours of the code that the model keeps, and the lemmas that state
them:

- **Signup** rejects an invalid payload with 400 and changes nothing. It lets
  the request through anyway when a row already holds exactly the submitted
  (username, email) pair, and then reuses that row (`SignupOutcome`).
  - Either way the stored hash is overwritten before the mail is sent. A
    failed delivery therefore answers 500 with the new hash already saved.
    Making the request atomic would need a transaction setting, which is not
    part of this model.
- **Token request** (`GetToken`) checks the payload before any lookup. It
  answers 404 for an unknown username and 400 for a code that does not match
  the stored hash.
- **`/users/me` PATCH** with an invalid payload does not answer 400. It falls
  through to a 200 with the unchanged profile (`MeInvalidPatch`).
- **HEAD on a task** gets 405. `TaskViewSet.http_method_names` lists HEAD,
  but the viewset has no retrieve action for HEAD to borrow
  (`TaskDetailMethods`).
- **A token whose user has since been deleted** is refused like any rejected
  token, with 401 (`Views.Authenticate`).
- **Deleting a user** removes the user's projects. Through `Task.project`
  CASCADE, this also removes every task under those projects, including
  tasks other users wrote, so not only the tasks the user authored go
  (`Models.DeleteUserTasks`).

## Model

| member | source | states |
|---|---|---|
| Models.ParseRole | project_manager/projects/models.py:7-11 | a stored role value names exactly one of `user`, `moderator`, `admin`, and every other string is refused |
| Models.ParseRoleValue | project_manager/projects/models.py:7-11 | every role survives the round trip through its stored value |
| Models.ParseStatus | project_manager/projects/models.py:64-75 | status choices are exactly `todo`, `in_progress`, `done` |
| Models.ParseStatusValue | project_manager/projects/models.py:64-75 | every status survives the round trip through its stored value |
| Models.ParsePriority | project_manager/projects/models.py:77-88 | priority choices are exactly 1, 2, 3 |
| Models.ParsePriorityValue | project_manager/projects/models.py:77-88 | every priority survives the round trip through its stored value |
| Models.Defaults | project_manager/projects/models.py:90-104 | the defaults are stored as `todo` and `2`; the role default is stored as `user` (line 26) |
| Models.RolePredicates | project_manager/projects/models.py:36-42 | `is_admin` holds iff the stored role is `admin`; `is_moderator` holds iff it is `moderator`; no user is both |
| Models.NewUser | project_manager/api/views.py:38-41 | `get_or_create` inserts the pair, with role `user` (not admin, not moderator) and the other columns blank |
| Models.Unassign | project_manager/projects/models.py:108-111 | `SET_NULL`: only an assignee equal to the deleted user is cleared, and nothing else in the task changes |
| Models.DeleteUser | project_manager/projects/models.py:48-50 | the user row and exactly the user's projects go; no surviving task is authored by or assigned to the user; the id sequences are kept |
| Models.DeleteUserTasks | project_manager/projects/models.py:97-111 | a task survives, unassigned from the user, iff neither it nor its project was authored by the user; no other task appears |
| Models.DeleteUserValid | project_manager/projects/models.py:105-111 | after a user is deleted, no row refers to it and the invariant still holds |
| Models.DeleteProject | project_manager/projects/models.py:97-99 | the project and exactly the tasks under it go; users and the other rows are kept |
| Models.DeleteProjectValid | project_manager/projects/models.py:97-99 | after a project is deleted, no task refers to it and the invariant still holds |
| Serializers.ReservedSpellings | project_manager/api/serializers.py:10-15 | the names whose lower-case form is `me` are exactly `me`, `Me`, `mE`, `ME` |
| Serializers.ValidateUsername | project_manager/api/serializers.py:10-15 | rejects exactly the four spellings of `me`, with the reserved-name error; every other value passes unchanged |
| Serializers.Taken | project_manager/projects/models.py:13-17 | the unique validator fails iff another row already holds the value |
| Serializers.SignupValid | project_manager/api/serializers.py:5-15 | a signup payload is valid iff both keys are present, non-blank, within 150 (username) and 254 (email) characters, the username is not reserved, and no row has either value |
| Serializers.TokenErrors | project_manager/api/serializers.py:35-37 | the token payload is valid iff both keys are present and non-blank, the username has at most 256 characters and the code at most 512 |
| Serializers.ProfilePatchUnique | project_manager/api/serializers.py:18-31 | a valid profile patch submits no username or email held by another row |
| Serializers.ProfileAcceptance | project_manager/api/serializers.py:18-31 | a partial profile update is accepted exactly when no key is null, a given username or email is non-blank, at most 150 or 254 characters and held by no other row, a given first name is at most 30 and a given last name at most 150 characters |
| Serializers.MyselfErrors | project_manager/api/serializers.py:26-32 | `UserMyselfSerializer` judges the data as if it had no `role` key |
| Serializers.ApplyMyselfPatch | project_manager/api/serializers.py:26-32 | the update writes the submitted profile keys and keeps id, role and stored hash |
| Serializers.ApplyUserPatch | project_manager/api/serializers.py:18-23 | `UserSerializer` writes the same keys, plus a valid `role` |
| Serializers.MyselfIsUserWithoutRole | project_manager/api/serializers.py:26-32 | `/users/me` behaves as `UserSerializer` with the `role` key dropped, so the role never changes |
| Serializers.UserSerializerWritesRole | project_manager/api/serializers.py:18-23 | through `UserSerializer`, each of the three role values is accepted and written |
| Serializers.NewProject | project_manager/api/serializers.py:40-48 | a created project takes name and description from the data, its id and timestamps from the database, and its author from the view |
| Serializers.ApplyProjectPatch | project_manager/api/serializers.py:40-48 | a project update writes name and description; id, author and `created_at` are kept |
| Serializers.ProjectIgnoresReadOnly | project_manager/api/serializers.py:41-48 | the client's `id`, `author`, `created_at` and `updated_at` change neither the errors nor the row |
| Serializers.AssigneeProblem | project_manager/api/serializers.py:53-55 | `assignee` may be missing, null or `""` (which a related field reads as null), and otherwise must be the username of an existing row |
| Serializers.ProjectAcceptance | project_manager/api/serializers.py:40-48 | `ProjectSerializer` accepts exactly the payloads whose `name` is present (unless partial), not null, non-blank and at most 255 characters, and whose `description` is not null |
| Serializers.TaskAcceptance | project_manager/api/serializers.py:51-66 | `TaskSerializer` accepts exactly the payloads whose `title` is present (unless partial), not null, non-blank and at most 255 characters; whose `description` is not null; whose `status` and `priority` are missing or one of their choices; and whose `assignee` is missing, null, `""` or an existing username |
| Serializers.TaskValidAssignee | project_manager/api/serializers.py:53-55 | a valid task payload has a valid assignee, status and priority |
| Serializers.ResolveAssignee | project_manager/api/serializers.py:53-55 | a valid assignee becomes the id of the row with that username; null or `""` clears it; a missing key keeps the current value |
| Serializers.NewTask | project_manager/api/serializers.py:58-66 | a created task takes its id, project, author and both timestamps from the server side, whatever the payload says; a missing status or priority defaults to `todo` and medium; a missing, null or `""` assignee leaves the task unassigned |
| Serializers.NewTaskWrites | project_manager/api/serializers.py:58-66 | from an accepted create payload the title is the submitted one, the description the submitted one or blank, a submitted status, priority and due date are stored as given, a missing due date is none, and a non-empty assignee is the id of the user row with that username |
| Serializers.ApplyTaskPatch | project_manager/api/serializers.py:64-66 | a partial update keeps id, project, author and `created_at` and stamps `updated_at`; every writable key that is missing keeps its column, and a null or `""` assignee clears the assignment |
| Serializers.ApplyTaskPatchWrites | project_manager/api/serializers.py:64-66 | from an accepted partial payload every given key is written as given: title, description, status, priority, the due date or its null, and a non-empty assignee as the id of the user row with that username |
| Serializers.TaskIgnoresReadOnly | project_manager/api/serializers.py:64-66 | the client's `id`, `project`, `author` and timestamps change neither the errors nor the row |
| Views.SignupAuthenticates | project_manager/api/views.py:25-29 | signup answers 401, changing nothing, exactly when the authenticator rejects the request's token; anonymous and valid-token requests get `Signup` |
| Views.TokenAuthenticates | project_manager/api/views.py:56-60 | the token request answers 401 exactly when the authenticator rejects the request's token; otherwise it is `GetToken` |
| Views.PairInDb | project_manager/api/views.py:32-35 | the pair check holds iff both keys are given and one row has both values |
| Views.SignupOutcome | project_manager/api/views.py:29-53 | 400 and an unchanged store iff the payload is invalid and the pair is new; otherwise the pair's row holds the hash of the fresh code, no other row changes, a row is added, and `nextUser` moves on by one, iff the pair is new, the other id sequences are kept, and a 200 body holds only the submitted username and email |
| Views.SignupKeepsUsernames | project_manager/api/views.py:38-44 | signup keeps usernames unique |
| Views.SignupKeepsValid | project_manager/api/views.py:37-44 | signup keeps the store's invariant, email uniqueness included |
| Views.ReservedNameRefused | project_manager/api/views.py:37 | any spelling of `me` is refused unless a row already holds exactly that pair |
| Views.SignupResend | project_manager/api/views.py:38-41 | after one signup, a second one with the same pair goes through and adds no row |
| Views.GetToken | project_manager/api/views.py:60-76 | 400 iff the payload is invalid, before any lookup; 404 iff it is valid and no row has the username; 400 only when the stored hash rejects the code; 200 only with a token for a row whose hash accepts it |
| Views.TokenForUser | project_manager/api/views.py:63-75 | for an existing user and a valid payload, the answer is a token for that user if its hash accepts the code, and 400 otherwise |
| Views.SignupThenToken | project_manager/api/views.py:42-75 | right after a signup issues a code, the token request with that username and code gets 200 and a token for the pair's row |
| Views.RotatedCodeRefused | project_manager/api/views.py:42-72 | after a signup, any other code for that username is refused with 400 |
| Views.MeInvalidPatch | project_manager/api/views.py:91-100 | an invalid PATCH on `/users/me` changes nothing and answers 200 with the current profile |
| Views.MeAccepted | project_manager/api/views.py:91-98 | an allowed, valid PATCH on `/users/me` saves the requester's patched row and answers 200 with it |
| Views.MeReads | project_manager/api/views.py:99-100 | an allowed GET or HEAD on `/users/me` changes nothing and answers 200 with the requester's profile |
| Views.MeWrites | project_manager/api/views.py:89-100 | `/users/me` writes nothing, or, on a PATCH that `IsAdminOrMe` allows and the serializer accepts, writes the row of the token's own user patched through `UserMyselfSerializer` |
| Views.SaveProfile | project_manager/api/views.py:96-98 | saving a valid profile patch changes only that row, keeps its role, id and hash, and keeps the invariant |
| Views.MeKeepsRoles | project_manager/api/views.py:91-98 | no request to `/users/me` changes any role, id or stored hash, adds or removes a row, or touches projects and tasks; the invariant holds |
| Views.CreateProjectOutcome | project_manager/api/views.py:108-109 | a created project has the requester as author and the next id, and is the only row added; anonymous gets 401; a refusal changes nothing |
| Views.CreateProjectAccepted | project_manager/api/views.py:103-109 | an existing requester gets 201 exactly when the payload is valid, and 400 exactly when it is not |
| Views.CreateProjectKeepsValid | project_manager/api/views.py:108-109 | project creation keeps the invariant |
| Views.CreateTaskOutcome | project_manager/api/views.py:121-125 | a created task has the requester as author and the URL's project as parent, whatever the payload says; its references exist; it is the only row added |
| Views.CreateTaskCreates | project_manager/api/views.py:121-125 | an authenticated requester naming an existing project with a valid payload gets 201 with the new task, which is appended with the next id while that id sequence advances by one |
| Views.CreateTaskRefused | project_manager/api/views.py:112-126 | a refused task creation changes nothing; 404 iff an authenticated requester names a missing project |
| Views.CreateTaskAccepted | project_manager/api/views.py:121-125 | for an existing requester and project, 201 exactly when the payload is valid and 400 exactly when it is not |
| Views.CreateTaskKeepsValid | project_manager/api/views.py:122-124 | task creation keeps the invariant |
| Views.TaskDetailGate | project_manager/api/views.py:129-136 | only a PATCH can succeed or change the store, and only for an authenticated user whom both permission classes allow, on the request and on the task |
| Views.TaskDetailMethods | project_manager/api/views.py:136 | methods other than PATCH change nothing; OPTIONS gets 401, 403 or the metadata; every other method, HEAD and GET included, gets 401, 403 or 405; an unsafe method sent without credentials gets 401 |
| Views.TaskPatchOutcome | project_manager/api/views.py:129-131 | a successful PATCH replaces exactly the task with that id by its partial update, keeping its project, author and `created_at`; a refused one changes nothing |
| Views.TaskPatchAccepted | project_manager/api/views.py:129-136 | a PATCH by an existing user on an existing task that both permission classes allow gets 200 exactly when the payload is valid, with that task's partial update, and 400 exactly when it is not |
| Views.TaskPatchKeepsValid | project_manager/api/views.py:129-131 | a task PATCH keeps the invariant |
| Views.Store.ServeSignup | project_manager/api/views.py:25-53 | the in-place signup leaves exactly the store and response of `SignUpView` |
| Views.Store.SignupPost | project_manager/api/views.py:29-53 | once authentication has let the request through, the in-place signup leaves exactly the store and response of `Signup` |
| Views.Store.GetOrCreate | project_manager/api/views.py:38-41 | `get_or_create` returns the position of the row with exactly this (username, email) pair, appending a new row with the next id only when there is none, and touches no other table |
| Views.Store.ServeMe | project_manager/api/views.py:89-100 | the in-place `/users/me` leaves exactly the store and response of `Me` |
| Views.Store.ServeCreateProject | project_manager/api/views.py:108-109 | the in-place project creation leaves exactly the store and response of `CreateProject` |
| Views.Store.ServeCreateTask | project_manager/api/views.py:121-126 | the in-place task creation leaves exactly the store and response of `CreateTask` |
| Views.Store.CreateTaskPost | project_manager/api/views.py:113-126 | once the requester is authenticated, the in-place project lookup, validation and save leave exactly the store and response of `CreateTask` |
| Views.Store.ServeTaskDetail | project_manager/api/views.py:129-136 | the in-place task request leaves exactly the store and response of `TaskDetail` |
| Views.Store.DeleteUser | project_manager/projects/models.py:105-111 | the in-place user deletion, one table at a time, leaves exactly the store of `Models.DeleteUser` |
| Views.Store.DeleteProject | project_manager/projects/models.py:97-99 | the in-place project deletion, tasks first, leaves exactly the store of `Models.DeleteProject` |

## Left out

- Mail delivery (`send_mail`) is reduced to one input flag: delivered, or failed with the request aborted.
- Password hashing, `uuid4` and JWT signing are parameters:
  - `Hasher` stands for `make_password` / `check_password`. `Sound` ("a code verifies against its own hash") and `Binding` ("a hash verifies no other code") are the assumptions the round-trip and rotation lemmas take.
  - The issued code is an input; `IsUuidText` only fixes its textual shape.
  - `mint` stands for `RefreshToken.for_user`.
- Token expiry and signature checks are reduced to the `Credential` input: no header, a rejected token, or a token carrying a user id.
- `IsAdminOrMe` and `IsAuthorOrReadOnly`: api/permissions.py is not part of this model. Their checks are uninterpreted parameters, combined by AND with `IsAuthenticatedOrReadOnly`.
- Clock readings (`auto_now`, `auto_now_add`) are a `now` parameter.
- The following are not modelled:
  - pagination, search, `order_by`, and the GET listing of a project's tasks;
  - `UserViewSet`'s generic list, retrieve, update and destroy endpoints. Only their serializer (`UserErrors`, `ApplyUserPatch`) and the delete rules are modelled;
  - the rendering of a 400 body beyond the list of (key, problem) pairs.
- CharField whitespace trimming, the username character-set validator and e-mail syntax validation are not modelled. The model compares submitted strings as given.
- `str.lower` is modelled on ASCII letters only. No other character lowercases to `m` or `e`, so the reserved-name check is unaffected.
- Django releases other than 2.2 are not modelled. In particular, the `TypeError` path that `make_password` takes from Django 3.1 on is not modelled.
- Views.Store: the methods do not carry `Valid()` in their contracts. Each is stated as exactly the transition of the function it is named after, and that function's lemma proves `Valid()` is kept: `SignupKeepsValid`, `MeKeepsRoles`, `CreateProjectKeepsValid`, `CreateTaskKeepsValid`, `TaskPatchKeepsValid`, `Models.DeleteUserValid` and `Models.DeleteProjectValid`.
- Races between concurrent requests on the unique columns are not modelled. The store is used one request at a time.
- Each request key is modelled with one JSON type (text, integer or date), but DRF coerces more. A `ChoiceField` compares `str(data)`, so `"priority": "2"` is accepted, and a `CharField` turns a number into text. These coercions are not modelled. Neither is the 500 that views.py:113 raises for a non-numeric project id in `/projects/{pk}/tasks/`: the model's project id is already a number.
