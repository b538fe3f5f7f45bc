/**
 * The serializers of the API (api/serializers.py): which keys of the request
 * data each one validates, which columns a create or a partial update may
 * write, and which are read-only and ignored whatever the client sends.
 */
module Serializers {
  import opened Wrappers
  import opened Query
  import opened Models

  /** One key of the request data: missing, JSON null, or a value. */
  datatype Field<T> = Absent | Null | Given(value: T)

  /** The reason a field is rejected; the 400 body lists one per failing key. */
  datatype Problem =
    | Required
    | NotNull
    | Blank
    | TooLong(maxLength: nat)
    | InvalidChoice
    | NotUnique
    | ReservedName
    | NoSuchObject

  datatype FieldError = FieldError(field: string, problem: Problem)

  function Report(field: string, p: Option<Problem>): (r: seq<FieldError>)
    ensures r == [] <==> p.None?
  {
    if p.Some? then [FieldError(field, p.value)] else []
  }

  /** The value a partial update writes: the submitted one, or the current one when the key is missing. */
  function Pick<T>(f: Field<T>, current: T): T {
    if f.Given? then f.value else current
  }

  // ------------------------------------------------ reserved username

  /** `str.lower` on one character (ASCII letters; other characters are left as they are). */
  function LowerChar(c: char): (r: char)
    ensures 'A' <= c <= 'Z' ==> r as int == c as int + 32
    ensures !('A' <= c <= 'Z') ==> r == c
  {
    if 'A' <= c <= 'Z' then (c as int + 32) as char else c
  }

  function Lower(s: string): (r: string)
    ensures |r| == |s|
    ensures forall i :: 0 <= i < |s| ==> r[i] == LowerChar(s[i])
  {
    seq(|s|, i requires 0 <= i < |s| => LowerChar(s[i]))
  }

  /** The names whose lower-case form is "me": exactly its four spellings. */
  lemma ReservedSpellings(value: string)
    ensures Lower(value) == "me" <==> value in {"me", "Me", "mE", "ME"}
  {
    if Lower(value) == "me" {
      assert |value| == 2;
      assert value[0] == 'm' || value[0] == 'M' by { assert LowerChar(value[0]) == 'm'; }
      assert value[1] == 'e' || value[1] == 'E' by { assert LowerChar(value[1]) == 'e'; }
      assert value == [value[0], value[1]];
    }
    if value in {"me", "Me", "mE", "ME"} {
      assert Lower(value) == [LowerChar(value[0]), LowerChar(value[1])];
    }
  }

  /**
   * `AuthSerializer.validate_username`: "me" in any letter case is reserved
   * for the `/users/me` alias; every other value passes unchanged.
   */
  function ValidateUsername(value: string): (r: Result<string, Problem>)
    ensures r.Ok? <==> value !in {"me", "Me", "mE", "ME"}
    ensures r.Ok? ==> r.value == value
    ensures r.Err? ==> r.error == ReservedName
  {
    ReservedSpellings(value);
    if Lower(value) == "me" then Err(ReservedName) else Ok(value)
  }

  // ------------------------------------------------------ field checks

  /**
   * What a DRF `CharField` checks on one key, in its order: presence when
   * required, null, blank, then the maximum length.
   */
  function CheckText(f: Field<string>, required: bool, allowBlank: bool, maxLength: Option<nat>): (r: Option<Problem>)
    ensures r.None? <==>
      match f
      case Absent => !required
      case Null => false
      case Given(s) => (s != "" || allowBlank) && (maxLength.Some? ==> |s| <= maxLength.value)
  {
    match f
    case Absent => if required then Some(Required) else None
    case Null => Some(NotNull)
    case Given(s) =>
      if s == "" && !allowBlank then Some(Blank)
      else if maxLength.Some? && |s| > maxLength.value then Some(TooLong(maxLength.value))
      else None
  }

  /**
   * `AbstractUser` column widths as of Django 2.2 (`first_name` became 150
   * wide only in Django 3.1), and the `EmailField` default width.
   */
  const UsernameMaxLength: nat := 150
  const FirstNameMaxLength: nat := 30
  const LastNameMaxLength: nat := 150
  const EmailMaxLength: nat := 254

  /** A `UniqueValidator`: some row other than `except` already holds the value in that column. */
  function Taken(users: seq<User>, key: User -> string, value: string, except: Option<UserId>): (r: bool)
    ensures r <==> exists u :: u in users && key(u) == value && Some(u.id) != except
  {
    var i := IndexWhere(users, (u: User) => key(u) == value && Some(u.id) != except);
    if i.Some? then
      assert users[i.value] in users;
      true
    else
      assert forall u :: u in users ==> !(key(u) == value && Some(u.id) != except) by {
        forall u | u in users ensures !(key(u) == value && Some(u.id) != except) {
          var j :| 0 <= j < |users| && users[j] == u;
        }
      }
      false
  }

  /** A text key checked by `CheckText` and then against a unique column. */
  function UniqueText(users: seq<User>, key: User -> string, f: Field<string>, required: bool,
                      maxLength: nat, except: Option<UserId>): Option<Problem>
  {
    var p := CheckText(f, required, false, Some(maxLength));
    if p.Some? then p
    else if f.Given? && Taken(users, key, f.value, except) then Some(NotUnique)
    else None
  }

  // ------------------------------------------------------- AuthSerializer

  /**
   * `AuthSerializer` on a signup: `email` and `username` are required,
   * non-blank, within their widths and not yet used by any row; the username
   * must also pass `validate_username`, which runs only after the field's
   * own checks have passed.
   */
  function SignupErrors(users: seq<User>, username: Field<string>, email: Field<string>): seq<FieldError> {
    var emailProblem := UniqueText(users, EmailOf, email, true, EmailMaxLength, None);
    var nameProblem :=
      match UniqueText(users, UsernameOf, username, true, UsernameMaxLength, None)
      case Some(p) => Some(p)
      case None =>
        match ValidateUsername(username.value)
        case Err(e) => Some(e)
        case Ok(_) => None;
    Report("email", emailProblem) + Report("username", nameProblem)
  }

  /** When a signup payload is valid. */
  lemma SignupValid(users: seq<User>, username: Field<string>, email: Field<string>)
    ensures SignupErrors(users, username, email) == [] <==>
      && username.Given? && email.Given?
      && 0 < |username.value| <= UsernameMaxLength
      && 0 < |email.value| <= EmailMaxLength
      && username.value !in {"me", "Me", "mE", "ME"}
      && (forall u :: u in users ==> u.username != username.value && u.email != email.value)
  {
  }

  // --------------------------------------------------- GetTokenSerializer

  const TokenUsernameMaxLength: nat := 256
  const CodeMaxLength: nat := 512

  /** `GetTokenSerializer`: both keys required, non-blank and within 256 and 512 characters. */
  function TokenErrors(username: Field<string>, code: Field<string>): (r: seq<FieldError>)
    ensures r == [] <==>
      && username.Given? && 0 < |username.value| <= TokenUsernameMaxLength
      && code.Given? && 0 < |code.value| <= CodeMaxLength
  {
    Report("username", CheckText(username, true, false, Some(TokenUsernameMaxLength))) +
    Report("confirmation_code", CheckText(code, true, false, Some(CodeMaxLength)))
  }

  // ------------------------------------ UserSerializer / UserMyselfSerializer

  /** The profile keys of a PATCH on a user; `role` is what the two user serializers disagree on. */
  datatype UserPatch = UserPatch(
    username: Field<string>,
    email: Field<string>,
    firstName: Field<string>,
    lastName: Field<string>,
    bio: Field<string>,
    role: Field<string>)

  /**
   * The checks of a partial update of row `self` on the keys both user
   * serializers write: nothing is required, `username` and `email` must not
   * be blank and must stay unique among the other rows. Neither serializer
   * declares `validate_username`, so the reserved name is not checked here.
   */
  function ProfileErrors(users: seq<User>, self: User, p: UserPatch): seq<FieldError> {
    Report("username", UniqueText(users, UsernameOf, p.username, false, UsernameMaxLength, Some(self.id))) +
    Report("email", UniqueText(users, EmailOf, p.email, false, EmailMaxLength, Some(self.id))) +
    Report("first_name", CheckText(p.firstName, false, true, Some(FirstNameMaxLength))) +
    Report("last_name", CheckText(p.lastName, false, true, Some(LastNameMaxLength))) +
    Report("bio", CheckText(p.bio, false, true, None))
  }

  /** A valid profile patch keeps `username` and `email` unique. */
  lemma ProfilePatchUnique(users: seq<User>, self: User, p: UserPatch)
    requires ProfileErrors(users, self, p) == []
    ensures forall u :: u in users && u.id != self.id ==>
      u.username != Pick(p.username, self.username) || !p.username.Given?
    ensures forall u :: u in users && u.id != self.id ==>
      u.email != Pick(p.email, self.email) || !p.email.Given?
  {
    var r1 := Report("username", UniqueText(users, UsernameOf, p.username, false, UsernameMaxLength, Some(self.id)));
    var r2 := Report("email", UniqueText(users, EmailOf, p.email, false, EmailMaxLength, Some(self.id)));
    assert r1 == [] && r2 == [] by {
      assert |ProfileErrors(users, self, p)| >= |r1| + |r2|;
    }
  }

  /** When a profile patch of row `self` is valid. */
  lemma ProfileAcceptance(users: seq<User>, self: User, p: UserPatch)
    ensures ProfileErrors(users, self, p) == [] <==>
      && !p.username.Null?
      && (p.username.Given? ==>
            && 0 < |p.username.value| <= UsernameMaxLength
            && forall u :: u in users && u.id != self.id ==> u.username != p.username.value)
      && !p.email.Null?
      && (p.email.Given? ==>
            && 0 < |p.email.value| <= EmailMaxLength
            && forall u :: u in users && u.id != self.id ==> u.email != p.email.value)
      && !p.firstName.Null? && (p.firstName.Given? ==> |p.firstName.value| <= FirstNameMaxLength)
      && !p.lastName.Null? && (p.lastName.Given? ==> |p.lastName.value| <= LastNameMaxLength)
      && !p.bio.Null?
  {
  }

  /** `UserMyselfSerializer` (`/users/me`): `role` is read-only and is dropped from the data. */
  function MyselfErrors(users: seq<User>, self: User, p: UserPatch): (r: seq<FieldError>)
    ensures r == ProfileErrors(users, self, p.(role := Absent))
  {
    ProfileErrors(users, self, p)
  }

  /** `UserSerializer`: the same keys, with `role` writable and checked against its choices. */
  function UserErrors(users: seq<User>, self: User, p: UserPatch): seq<FieldError> {
    var roleProblem :=
      match p.role
      case Absent => None
      case Null => Some(NotNull)
      case Given(s) => if ParseRole(s).Some? then None else Some(InvalidChoice);
    ProfileErrors(users, self, p) + Report("role", roleProblem)
  }

  /** The row after a `UserMyselfSerializer` partial update. */
  function ApplyMyselfPatch(u: User, p: UserPatch): (r: User)
    ensures r.id == u.id && r.role == u.role && r.confirmationCode == u.confirmationCode
    ensures r.username == Pick(p.username, u.username) && r.email == Pick(p.email, u.email)
    ensures r.firstName == Pick(p.firstName, u.firstName) && r.lastName == Pick(p.lastName, u.lastName)
    ensures r.bio == Pick(p.bio, u.bio)
  {
    u.(username := Pick(p.username, u.username),
       email := Pick(p.email, u.email),
       firstName := Pick(p.firstName, u.firstName),
       lastName := Pick(p.lastName, u.lastName),
       bio := Pick(p.bio, u.bio))
  }

  /** The row after a `UserSerializer` partial update: as above, and a valid `role` is written. */
  function ApplyUserPatch(u: User, p: UserPatch): (r: User)
    ensures r.role == (if p.role.Given? && ParseRole(p.role.value).Some? then ParseRole(p.role.value).value else u.role)
    ensures r == ApplyMyselfPatch(u, p).(role := r.role)
  {
    var m := ApplyMyselfPatch(u, p);
    if p.role.Given? && ParseRole(p.role.value).Some? then m.(role := ParseRole(p.role.value).value) else m
  }

  /** `/users/me` cannot change the role whatever the data says: its update is `UserSerializer`'s without the `role` key. */
  lemma MyselfIsUserWithoutRole(users: seq<User>, u: User, p: UserPatch)
    ensures ApplyMyselfPatch(u, p) == ApplyUserPatch(u, p.(role := Absent))
    ensures ApplyMyselfPatch(u, p).role == u.role
    ensures MyselfErrors(users, u, p) == UserErrors(users, u, p.(role := Absent))
  {
    assert Report("role", None) == [];
  }

  /** Through `UserSerializer` any of the three role values is accepted and written. */
  lemma UserSerializerWritesRole(users: seq<User>, u: User, p: UserPatch, role: Role)
    requires p.role == Given(RoleValue(role))
    ensures UserErrors(users, u, p) == ProfileErrors(users, u, p)
    ensures ApplyUserPatch(u, p).role == role
  {
    ParseRoleValue(role);
    assert Report("role", None) == [];
  }

  // ---------------------------------------------------- ProjectSerializer

  /** The data of a project request, read-only keys included so that ignoring them can be stated. */
  datatype ProjectPayload = ProjectPayload(
    id: Field<int>,
    name: Field<string>,
    description: Field<string>,
    author: Field<string>,
    createdAt: Field<Stamp>,
    updatedAt: Field<Stamp>)

  const ProjectNameMaxLength: nat := 255

  /** `ProjectSerializer`: only `name` (required on create) and `description` are checked. */
  function ProjectErrors(p: ProjectPayload, partial: bool): seq<FieldError> {
    Report("name", CheckText(p.name, !partial, false, Some(ProjectNameMaxLength))) +
    Report("description", CheckText(p.description, false, true, None))
  }

  /**
   * Exactly the payloads `ProjectSerializer` accepts: `name` present unless the
   * update is partial, never null, and when given non-blank and at most 255
   * characters; `description` anything but null.
   */
  lemma ProjectAcceptance(p: ProjectPayload, partial: bool)
    ensures ProjectErrors(p, partial) == [] <==>
      && (p.name.Absent? ==> partial)
      && !p.name.Null?
      && (p.name.Given? ==> 0 < |p.name.value| <= ProjectNameMaxLength)
      && !p.description.Null?
  {
  }

  /** The row `serializer.save(author=...)` inserts: id and timestamps from the database, author from the view. */
  function NewProject(id: ProjectId, author: UserId, p: ProjectPayload, now: Stamp): (r: Project)
    ensures r.id == id && r.author == author && r.createdAt == now && r.updatedAt == now
    ensures r.name == Pick(p.name, "") && r.description == Pick(p.description, "")
  {
    Project(id, Pick(p.name, ""), Pick(p.description, ""), author, now, now)
  }

  /** A partial update writes `name` and `description`; `updated_at` is the clock's. */
  function ApplyProjectPatch(pr: Project, p: ProjectPayload, now: Stamp): (r: Project)
    ensures r.id == pr.id && r.author == pr.author && r.createdAt == pr.createdAt && r.updatedAt == now
    ensures r.name == Pick(p.name, pr.name) && r.description == Pick(p.description, pr.description)
  {
    pr.(name := Pick(p.name, pr.name), description := Pick(p.description, pr.description), updatedAt := now)
  }

  /** `id`, `author`, `created_at`, `updated_at` are read-only: what the client puts there changes nothing. */
  lemma ProjectIgnoresReadOnly(p: ProjectPayload, q: ProjectPayload, pr: Project, id: ProjectId,
                               author: UserId, now: Stamp, partial: bool)
    requires p.name == q.name && p.description == q.description
    ensures ProjectErrors(p, partial) == ProjectErrors(q, partial)
    ensures NewProject(id, author, p, now) == NewProject(id, author, q, now)
    ensures ApplyProjectPatch(pr, p, now) == ApplyProjectPatch(pr, q, now)
  {
  }

  // ------------------------------------------------------- TaskSerializer

  /** The data of a task request, read-only keys included. */
  datatype TaskPayload = TaskPayload(
    id: Field<int>,
    project: Field<int>,
    title: Field<string>,
    description: Field<string>,
    status: Field<string>,
    priority: Field<int>,
    author: Field<string>,
    assignee: Field<string>,
    dueDate: Field<Date>,
    createdAt: Field<Stamp>,
    updatedAt: Field<Stamp>)

  const TaskTitleMaxLength: nat := 255

  /**
   * A related field reads an empty string as null before validating it, so
   * `""` for `assignee` means the same as `null`.
   */
  predicate NullRelation(f: Field<string>) {
    f.Null? || (f.Given? && f.value == "")
  }

  /**
   * The `assignee` slug field (`allow_null=True, required=False`): it may be
   * missing, null or empty; a value must be the username of an existing row.
   */
  function AssigneeProblem(users: seq<User>, f: Field<string>): (r: Option<Problem>)
    ensures r.None? <==> f.Absent? || NullRelation(f) || exists u :: u in users && u.username == f.value
  {
    if f.Given? && f.value != "" && !Taken(users, UsernameOf, f.value, None) then Some(NoSuchObject) else None
  }

  /** `status` and `priority` have model defaults, so they may be missing; a value must be one of the choices. */
  function StatusProblem(f: Field<string>): Option<Problem> {
    match f
    case Absent => None
    case Null => Some(NotNull)
    case Given(s) => if ParseStatus(s).Some? then None else Some(InvalidChoice)
  }

  function PriorityProblem(f: Field<int>): Option<Problem> {
    match f
    case Absent => None
    case Null => Some(NotNull)
    case Given(n) => if ParsePriority(n).Some? then None else Some(InvalidChoice)
  }

  /** `TaskSerializer`: the six writable keys; `title` is required on create. */
  function TaskErrors(users: seq<User>, p: TaskPayload, partial: bool): seq<FieldError> {
    Report("title", CheckText(p.title, !partial, false, Some(TaskTitleMaxLength))) +
    Report("description", CheckText(p.description, false, true, None)) +
    Report("status", StatusProblem(p.status)) +
    Report("priority", PriorityProblem(p.priority)) +
    Report("assignee", AssigneeProblem(users, p.assignee))
  }

  lemma TaskValidAssignee(users: seq<User>, p: TaskPayload, partial: bool)
    requires TaskErrors(users, p, partial) == []
    ensures AssigneeProblem(users, p.assignee).None?
    ensures StatusProblem(p.status).None? && PriorityProblem(p.priority).None?
  {
    var parts := [Report("title", CheckText(p.title, !partial, false, Some(TaskTitleMaxLength))),
                  Report("description", CheckText(p.description, false, true, None)),
                  Report("status", StatusProblem(p.status)),
                  Report("priority", PriorityProblem(p.priority)),
                  Report("assignee", AssigneeProblem(users, p.assignee))];
    assert |TaskErrors(users, p, partial)| == |parts[0]| + |parts[1]| + |parts[2]| + |parts[3]| + |parts[4]|;
  }

  /**
   * Exactly the payloads `TaskSerializer` accepts: `title` present unless the
   * update is partial, never null, and when given non-blank and at most 255
   * characters; `description` anything but null; `status` and `priority`
   * missing or one of their choices; `assignee` missing, null, `""` or the
   * username of an existing row.
   */
  lemma TaskAcceptance(users: seq<User>, p: TaskPayload, partial: bool)
    ensures TaskErrors(users, p, partial) == [] <==>
      && (p.title.Absent? ==> partial)
      && !p.title.Null?
      && (p.title.Given? ==> 0 < |p.title.value| <= TaskTitleMaxLength)
      && !p.description.Null?
      && (p.status.Absent? || (p.status.Given? && ParseStatus(p.status.value).Some?))
      && (p.priority.Absent? || (p.priority.Given? && ParsePriority(p.priority.value).Some?))
      && (p.assignee.Absent? || NullRelation(p.assignee) ||
          exists u :: u in users && u.username == p.assignee.value)
  {
    var parts := [Report("title", CheckText(p.title, !partial, false, Some(TaskTitleMaxLength))),
                  Report("description", CheckText(p.description, false, true, None)),
                  Report("status", StatusProblem(p.status)),
                  Report("priority", PriorityProblem(p.priority)),
                  Report("assignee", AssigneeProblem(users, p.assignee))];
    assert TaskErrors(users, p, partial) == parts[0] + parts[1] + parts[2] + parts[3] + parts[4];
  }

  /** The user a valid `assignee` key names, nobody for null or `""`, or `current` when the key is missing. */
  function ResolveAssignee(users: seq<User>, f: Field<string>, current: Option<UserId>): (r: Option<UserId>)
    ensures f.Absent? ==> r == current
    ensures NullRelation(f) ==> r.None?
    ensures f.Given? && f.value != "" && AssigneeProblem(users, f).None? ==>
      r.Some? && exists u :: u in users && u.username == f.value && u.id == r.value
  {
    match f
    case Absent => current
    case Null => None
    case Given(name) =>
      if name == "" then None
      else match IndexWhere(users, (u: User) => u.username == name)
      case Some(i) => assert users[i] in users; Some(users[i].id)
      case None => current
  }

  function PickStatus(f: Field<string>, current: Status): Status {
    if f.Given? && ParseStatus(f.value).Some? then ParseStatus(f.value).value else current
  }

  function PickPriority(f: Field<int>, current: Priority): Priority {
    if f.Given? && ParsePriority(f.value).Some? then ParsePriority(f.value).value else current
  }

  function PickDate(f: Field<Date>, current: Option<Date>): Option<Date> {
    match f
    case Absent => current
    case Null => None
    case Given(d) => Some(d)
  }

  /**
   * The row `serializer.save(author=..., project=...)` inserts: the writable
   * keys from the data, the model defaults for what is missing, and `id`,
   * `project`, `author` and the timestamps from the view and the database.
   */
  function NewTask(id: TaskId, project: ProjectId, author: UserId, users: seq<User>,
                   p: TaskPayload, now: Stamp): (r: Task)
    ensures r.id == id && r.project == project && r.author == author
    ensures r.createdAt == now && r.updatedAt == now
    ensures p.status.Absent? ==> r.status == DefaultStatus
    ensures p.priority.Absent? ==> r.priority == DefaultPriority
    ensures (p.assignee.Absent? || NullRelation(p.assignee)) ==> r.assignee.None?
  {
    Task(id, project, Pick(p.title, ""), Pick(p.description, ""),
         PickStatus(p.status, DefaultStatus), PickPriority(p.priority, DefaultPriority),
         author, ResolveAssignee(users, p.assignee, None), PickDate(p.dueDate, None), now, now)
  }

  /**
   * A partial update (`PATCH /tasks/{id}`) writes only title, description,
   * status, priority, assignee and due date; `id`, `project`, `author` and
   * `created_at` keep their values and `updated_at` is the clock's.
   */
  function ApplyTaskPatch(users: seq<User>, t: Task, p: TaskPayload, now: Stamp): (r: Task)
    ensures r.id == t.id && r.project == t.project && r.author == t.author
    ensures r.createdAt == t.createdAt && r.updatedAt == now
    ensures p.title.Absent? ==> r.title == t.title
    ensures p.description.Absent? ==> r.description == t.description
    ensures p.status.Absent? ==> r.status == t.status
    ensures p.priority.Absent? ==> r.priority == t.priority
    ensures p.assignee.Absent? ==> r.assignee == t.assignee
    ensures NullRelation(p.assignee) ==> r.assignee.None?
    ensures p.dueDate.Absent? ==> r.dueDate == t.dueDate
  {
    t.(title := Pick(p.title, t.title),
       description := Pick(p.description, t.description),
       status := PickStatus(p.status, t.status),
       priority := PickPriority(p.priority, t.priority),
       assignee := ResolveAssignee(users, p.assignee, t.assignee),
       dueDate := PickDate(p.dueDate, t.dueDate),
       updatedAt := now)
  }

  /**
   * What a create writes from an accepted payload: the submitted title and
   * description, the submitted status, priority and due date, and the row
   * the submitted assignee names (none for null or `""`).
   */
  lemma NewTaskWrites(id: TaskId, project: ProjectId, author: UserId, users: seq<User>,
                      p: TaskPayload, now: Stamp)
    requires TaskErrors(users, p, false) == []
    ensures var r := NewTask(id, project, author, users, p, now);
      && p.title.Given? && r.title == p.title.value
      && r.description == Pick(p.description, "")
      && (p.status.Given? ==> StatusValue(r.status) == p.status.value)
      && (p.priority.Given? ==> PriorityValue(r.priority) == p.priority.value)
      && (p.assignee.Given? && p.assignee.value != "" ==>
            r.assignee.Some? && exists u :: u in users && u.username == p.assignee.value && u.id == r.assignee.value)
      && (p.dueDate.Given? ==> r.dueDate == Some(p.dueDate.value))
      && (!p.dueDate.Given? ==> r.dueDate.None?)
  {
    TaskAcceptance(users, p, false);
  }

  /**
   * What a partial update writes from an accepted payload: every key that is
   * given, as given (the assignee as the row it names, none for null or `""`,
   * the due date or its null).
   */
  lemma ApplyTaskPatchWrites(users: seq<User>, t: Task, p: TaskPayload, now: Stamp)
    requires TaskErrors(users, p, true) == []
    ensures var r := ApplyTaskPatch(users, t, p, now);
      && r.title == Pick(p.title, t.title)
      && r.description == Pick(p.description, t.description)
      && (p.status.Given? ==> StatusValue(r.status) == p.status.value)
      && (p.priority.Given? ==> PriorityValue(r.priority) == p.priority.value)
      && (p.assignee.Given? && p.assignee.value != "" ==>
            r.assignee.Some? && exists u :: u in users && u.username == p.assignee.value && u.id == r.assignee.value)
      && (p.dueDate.Given? ==> r.dueDate == Some(p.dueDate.value))
      && (p.dueDate.Null? ==> r.dueDate.None?)
  {
    TaskAcceptance(users, p, true);
  }

  /** `id`, `project`, `author` and the timestamps are read-only: the client's values change nothing. */
  lemma TaskIgnoresReadOnly(users: seq<User>, p: TaskPayload, q: TaskPayload, t: Task,
                            id: TaskId, project: ProjectId, author: UserId, now: Stamp, partial: bool)
    requires p.title == q.title && p.description == q.description && p.status == q.status
    requires p.priority == q.priority && p.assignee == q.assignee && p.dueDate == q.dueDate
    ensures TaskErrors(users, p, partial) == TaskErrors(users, q, partial)
    ensures NewTask(id, project, author, users, p, now) == NewTask(id, project, author, users, q, now)
    ensures ApplyTaskPatch(users, t, p, now) == ApplyTaskPatch(users, t, q, now)
  {
  }
}
