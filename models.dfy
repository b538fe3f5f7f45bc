/**
 * The data model of the project tracker (projects/models.py): the closed
 * enumerations for role, status and priority with their defaults, the user,
 * project and task rows, the store that holds the three tables, its
 * integrity invariant (unique keys, no dangling foreign key) and the
 * `on_delete` rules of the foreign keys.
 */
module Models {
  import opened Wrappers
  import opened Query

  type UserId = nat
  type ProjectId = nat
  type TaskId = nat
  /** A reading of the database clock (`auto_now`, `auto_now_add`). */
  type Stamp = nat
  /** A calendar date (`DateField`), as a day number. */
  type Date = nat

  // ---------------------------------------------------------------- roles

  /** `User.ROLE_CHOISES`: the three roles a user can hold. */
  datatype Role = UserRole | Moderator | Admin

  /** The value stored in the `role` column. */
  function RoleValue(r: Role): string {
    match r
    case UserRole => "user"
    case Moderator => "moderator"
    case Admin => "admin"
  }

  /** The `choices` check on `role`: a stored value names exactly one role. */
  function ParseRole(s: string): (r: Option<Role>)
    ensures r.Some? ==> RoleValue(r.value) == s
    ensures r.None? <==> forall role: Role :: RoleValue(role) != s
  {
    if s == "user" then Some(UserRole)
    else if s == "moderator" then Some(Moderator)
    else if s == "admin" then Some(Admin)
    else None
  }

  lemma ParseRoleValue(role: Role)
    ensures ParseRole(RoleValue(role)) == Some(role)
  {
  }

  /** `default='user'`. */
  const DefaultRole: Role := UserRole

  // --------------------------------------------------------- task status

  /** `Task.StatusEnum`. */
  datatype Status = Todo | InProgress | Done

  function StatusValue(s: Status): string {
    match s
    case Todo => "todo"
    case InProgress => "in_progress"
    case Done => "done"
  }

  function ParseStatus(s: string): (r: Option<Status>)
    ensures r.Some? ==> StatusValue(r.value) == s
    ensures r.None? <==> forall st: Status :: StatusValue(st) != s
  {
    if s == "todo" then Some(Todo)
    else if s == "in_progress" then Some(InProgress)
    else if s == "done" then Some(Done)
    else None
  }

  lemma ParseStatusValue(st: Status)
    ensures ParseStatus(StatusValue(st)) == Some(st)
  {
  }

  /** `default=StatusEnum.TODO.value`. */
  const DefaultStatus: Status := Todo

  // ------------------------------------------------------- task priority

  /** `Task.Priority`. */
  datatype Priority = Low | Medium | High

  function PriorityValue(p: Priority): int {
    match p
    case Low => 1
    case Medium => 2
    case High => 3
  }

  function ParsePriority(n: int): (r: Option<Priority>)
    ensures r.Some? ==> PriorityValue(r.value) == n
    ensures r.None? <==> forall p: Priority :: PriorityValue(p) != n
  {
    if n == 1 then Some(Low)
    else if n == 2 then Some(Medium)
    else if n == 3 then Some(High)
    else None
  }

  lemma ParsePriorityValue(p: Priority)
    ensures ParsePriority(PriorityValue(p)) == Some(p)
  {
  }

  /** `default=Priority.MEDIUM.value`. */
  const DefaultPriority: Priority := Medium

  /** The three stored defaults are the source's literals. */
  lemma Defaults()
    ensures RoleValue(DefaultRole) == "user"
    ensures StatusValue(DefaultStatus) == "todo"
    ensures PriorityValue(DefaultPriority) == 2
  {
  }

  // ---------------------------------------------------------------- rows

  /**
   * A user row. `confirmationCode` holds the encoded hash of the last code
   * issued, or the empty string (`blank=True`) before the first signup.
   */
  datatype User = User(
    id: UserId,
    username: string,
    email: string,
    firstName: string,
    lastName: string,
    bio: string,
    role: Role,
    confirmationCode: string)

  /** `is_admin`: the role is `admin`. */
  predicate IsAdmin(u: User) {
    u.role == Admin
  }

  /** `is_moderator`: the role is `moderator`. */
  predicate IsModerator(u: User) {
    u.role == Moderator
  }

  /** Both properties compare the stored string, and no user has both. */
  lemma RolePredicates(u: User)
    ensures IsAdmin(u) <==> RoleValue(u.role) == "admin"
    ensures IsModerator(u) <==> RoleValue(u.role) == "moderator"
    ensures !(IsAdmin(u) && IsModerator(u))
  {
  }

  /** The row `get_or_create(username=..., email=...)` inserts: every other column at its default. */
  function NewUser(id: UserId, username: string, email: string): (u: User)
    ensures u.id == id && u.username == username && u.email == email
    ensures u.role == DefaultRole && !IsAdmin(u) && !IsModerator(u)
    ensures u.confirmationCode == "" && u.firstName == "" && u.lastName == "" && u.bio == ""
  {
    User(id, username, email, "", "", "", DefaultRole, "")
  }

  datatype Project = Project(
    id: ProjectId,
    name: string,
    description: string,
    author: UserId,
    createdAt: Stamp,
    updatedAt: Stamp)

  datatype Task = Task(
    id: TaskId,
    project: ProjectId,
    title: string,
    description: string,
    status: Status,
    priority: Priority,
    author: UserId,
    assignee: Option<UserId>,
    dueDate: Option<Date>,
    createdAt: Stamp,
    updatedAt: Stamp)

  // Column projections, used as keys of the unique constraints.
  function UserKey(u: User): UserId { u.id }
  function UsernameOf(u: User): string { u.username }
  function EmailOf(u: User): string { u.email }
  function ProjectKey(p: Project): ProjectId { p.id }
  function TaskKey(t: Task): TaskId { t.id }

  /**
   * The three tables, and the next value of each table's id sequence
   * (`AutoField` never hands out an id twice).
   */
  datatype Db = Db(
    users: seq<User>,
    projects: seq<Project>,
    tasks: seq<Task>,
    nextUser: nat,
    nextProject: nat,
    nextTask: nat)

  ghost predicate HasUser(users: seq<User>, id: UserId) {
    exists u :: u in users && u.id == id
  }

  ghost predicate HasProject(projects: seq<Project>, id: ProjectId) {
    exists p :: p in projects && p.id == id
  }

  /**
   * The database invariant: primary keys, `username` and `email`
   * (`unique=True`) are unique, ids lie below their sequence, and every
   * foreign key names an existing row (`assignee` may be null).
   */
  ghost predicate Valid(db: Db) {
    && UniqueBy(db.users, UserKey)
    && UniqueBy(db.users, UsernameOf)
    && UniqueBy(db.users, EmailOf)
    && UniqueBy(db.projects, ProjectKey)
    && UniqueBy(db.tasks, TaskKey)
    && (forall u :: u in db.users ==> u.id < db.nextUser)
    && (forall p :: p in db.projects ==> p.id < db.nextProject)
    && (forall t :: t in db.tasks ==> t.id < db.nextTask)
    && (forall p :: p in db.projects ==> HasUser(db.users, p.author))
    && (forall t :: t in db.tasks ==> TaskRefsOk(db, t))
  }

  ghost predicate TaskRefsOk(db: Db, t: Task) {
    && HasProject(db.projects, t.project)
    && HasUser(db.users, t.author)
    && (t.assignee.Some? ==> HasUser(db.users, t.assignee.value))
  }

  /**
   * Replacing the user table keeps the invariant when the new table keeps
   * its three unique columns, draws ids from the same sequence and still
   * has every id the old one had.
   */
  lemma UsersReplacedValid(db: Db, users: seq<User>)
    requires Valid(db)
    requires UniqueBy(users, UserKey) && UniqueBy(users, UsernameOf) && UniqueBy(users, EmailOf)
    requires forall u :: u in users ==> u.id < db.nextUser
    requires forall id :: HasUser(db.users, id) ==> HasUser(users, id)
    ensures Valid(db.(users := users))
  {
    var r := db.(users := users);
    forall t | t in db.tasks ensures TaskRefsOk(r, t) {
      assert TaskRefsOk(db, t);
    }
  }

  lemma EmptyDbValid()
    ensures Valid(Db([], [], [], 0, 0, 0))
  {
  }

  // ------------------------------------------------------- delete rules

  /** `on_delete=SET_NULL` on `assignee`: the task no longer names `uid`. */
  function Unassign(t: Task, uid: UserId): (r: Task)
    ensures r.assignee == (if t.assignee == Some(uid) then None else t.assignee)
    ensures r == t.(assignee := r.assignee)
  {
    if t.assignee == Some(uid) then t.(assignee := None) else t
  }

  function UnassignAll(ts: seq<Task>, uid: UserId): (r: seq<Task>)
    ensures |r| == |ts|
    ensures forall i :: 0 <= i < |ts| ==> r[i] == Unassign(ts[i], uid)
    ensures forall x :: x in r ==> exists t :: t in ts && x == Unassign(t, uid)
  {
    seq(|ts|, i requires 0 <= i < |ts| => Unassign(ts[i], uid))
  }

  /** The ids of the projects `uid` authored: these go with the user (`CASCADE`). */
  function ProjectsOf(projects: seq<Project>, uid: UserId): (r: set<ProjectId>)
    ensures forall id :: id in r <==> exists p :: p in projects && p.author == uid && p.id == id
  {
    set p | p in projects && p.author == uid :: p.id
  }

  /**
   * Deleting a user, with Django's collector: the user's projects go
   * (`Project.author` CASCADE), and with them their tasks (`Task.project`
   * CASCADE); the tasks the user authored go (`Task.author` CASCADE); the
   * surviving tasks assigned to the user are unassigned (`SET_NULL`).
   */
  function DeleteUser(db: Db, uid: UserId): (r: Db)
    ensures forall u :: u in r.users <==> u in db.users && u.id != uid
    ensures forall p :: p in r.projects <==> p in db.projects && p.author != uid
    ensures forall t :: t in r.tasks ==> t.author != uid && t.assignee != Some(uid)
    ensures r.nextUser == db.nextUser && r.nextProject == db.nextProject && r.nextTask == db.nextTask
  {
    var gone := ProjectsOf(db.projects, uid);
    var kept := Filter(db.tasks, (t: Task) => t.author != uid && t.project !in gone);
    Db(Filter(db.users, (u: User) => u.id != uid),
       Filter(db.projects, (p: Project) => p.author != uid),
       UnassignAll(kept, uid),
       db.nextUser, db.nextProject, db.nextTask)
  }

  /**
   * Exactly which tasks survive a user's deletion: a task survives, unassigned
   * from the user, iff neither it nor its project was authored by the user;
   * nothing else appears.
   */
  lemma {:induction false} DeleteUserTasks(db: Db, uid: UserId)
    requires UniqueBy(db.tasks, TaskKey)
    ensures forall t :: t in db.tasks ==>
      (Unassign(t, uid) in DeleteUser(db, uid).tasks <==>
        t.author != uid && t.project !in ProjectsOf(db.projects, uid))
    ensures forall t' :: t' in DeleteUser(db, uid).tasks ==>
      exists t :: t in db.tasks && t.author != uid && t.project !in ProjectsOf(db.projects, uid) &&
        t' == Unassign(t, uid)
  {
    var gone := ProjectsOf(db.projects, uid);
    var keep := (t: Task) => t.author != uid && t.project !in gone;
    var kept := Filter(db.tasks, keep);
    var r := DeleteUser(db, uid).tasks;
    assert r == UnassignAll(kept, uid);
    forall t | t in db.tasks
      ensures Unassign(t, uid) in r <==> keep(t)
    {
      if keep(t) {
        assert t in kept;
        var i :| 0 <= i < |kept| && kept[i] == t;
        assert r[i] == Unassign(t, uid);
      }
      if Unassign(t, uid) in r {
        var i :| 0 <= i < |r| && r[i] == Unassign(t, uid);
        assert kept[i] in db.tasks && keep(kept[i]);
        assert Unassign(kept[i], uid).id == kept[i].id && Unassign(t, uid).id == t.id;
        UniqueIdIn(db.tasks, kept[i], t);
      }
    }
    forall t' | t' in r
      ensures exists t :: t in db.tasks && keep(t) && t' == Unassign(t, uid)
    {
      var i :| 0 <= i < |r| && r[i] == t';
      assert kept[i] in kept;
    }
  }

  /** Two rows of the task table with the same id are the same row. */
  lemma UniqueIdIn(ts: seq<Task>, a: Task, b: Task)
    requires UniqueBy(ts, TaskKey) && a in ts && b in ts && a.id == b.id
    ensures a == b
  {
    var i :| 0 <= i < |ts| && ts[i] == a;
    var j :| 0 <= j < |ts| && ts[j] == b;
    assert TaskKey(ts[i]) == TaskKey(ts[j]);
  }

  /** After a user is deleted no row refers to it, and the invariant still holds. */
  lemma {:induction false} DeleteUserValid(db: Db, uid: UserId)
    requires Valid(db)
    ensures Valid(DeleteUser(db, uid))
    ensures !HasUser(DeleteUser(db, uid).users, uid)
  {
    var r := DeleteUser(db, uid);
    FilterUnique(db.users, (u: User) => u.id != uid, UserKey);
    FilterUnique(db.users, (u: User) => u.id != uid, UsernameOf);
    FilterUnique(db.users, (u: User) => u.id != uid, EmailOf);
    FilterUnique(db.projects, (p: Project) => p.author != uid, ProjectKey);
    DeleteUserTaskKeys(db, uid);
    DeleteUserTaskRefs(db, uid);
    forall p | p in r.projects
      ensures HasUser(r.users, p.author)
    {
      var u :| u in db.users && u.id == p.author;
      assert u in r.users;
    }
  }

  /** The surviving tasks keep distinct ids. */
  lemma DeleteUserTaskKeys(db: Db, uid: UserId)
    requires UniqueBy(db.tasks, TaskKey)
    ensures UniqueBy(DeleteUser(db, uid).tasks, TaskKey)
  {
    var r := DeleteUser(db, uid);
    var gone := ProjectsOf(db.projects, uid);
    var keep := (t: Task) => t.author != uid && t.project !in gone;
    var kept := Filter(db.tasks, keep);
    FilterUnique(db.tasks, keep, TaskKey);
    assert r.tasks == UnassignAll(kept, uid);
    forall i, j | 0 <= i < |r.tasks| && 0 <= j < |r.tasks| && i != j
      ensures TaskKey(r.tasks[i]) != TaskKey(r.tasks[j])
    {
      assert TaskKey(kept[i]) != TaskKey(kept[j]);
    }
  }

  /** Every surviving task still names an existing project, author and (if any) assignee. */
  lemma DeleteUserTaskRefs(db: Db, uid: UserId)
    requires Valid(db)
    ensures forall t :: t in DeleteUser(db, uid).tasks ==> TaskRefsOk(DeleteUser(db, uid), t) && t.id < db.nextTask
  {
    var r := DeleteUser(db, uid);
    var gone := ProjectsOf(db.projects, uid);
    var keep := (t: Task) => t.author != uid && t.project !in gone;
    var kept := Filter(db.tasks, keep);
    assert r.tasks == UnassignAll(kept, uid);
    forall t' | t' in r.tasks
      ensures TaskRefsOk(r, t') && t'.id < db.nextTask
    {
      var i :| 0 <= i < |r.tasks| && r.tasks[i] == t';
      var t := kept[i];
      assert t in kept;
      assert t in db.tasks && keep(t);
      var p :| p in db.projects && p.id == t.project;
      assert p in r.projects;
      var a :| a in db.users && a.id == t.author;
      assert a in r.users;
      if t'.assignee.Some? {
        var b :| b in db.users && b.id == t'.assignee.value;
        assert b in r.users;
      }
    }
  }

  /** Deleting a project: the project and exactly the tasks under it (`Task.project` CASCADE). */
  function DeleteProject(db: Db, pid: ProjectId): (r: Db)
    ensures r.users == db.users
    ensures forall p :: p in r.projects <==> p in db.projects && p.id != pid
    ensures forall t :: t in r.tasks <==> t in db.tasks && t.project != pid
    ensures r.nextUser == db.nextUser && r.nextProject == db.nextProject && r.nextTask == db.nextTask
  {
    Db(db.users,
       Filter(db.projects, (p: Project) => p.id != pid),
       Filter(db.tasks, (t: Task) => t.project != pid),
       db.nextUser, db.nextProject, db.nextTask)
  }

  lemma {:induction false} DeleteProjectValid(db: Db, pid: ProjectId)
    requires Valid(db)
    ensures Valid(DeleteProject(db, pid))
    ensures !HasProject(DeleteProject(db, pid).projects, pid)
  {
    var r := DeleteProject(db, pid);
    FilterUnique(db.projects, (p: Project) => p.id != pid, ProjectKey);
    FilterUnique(db.tasks, (t: Task) => t.project != pid, TaskKey);
    forall t | t in r.tasks
      ensures TaskRefsOk(r, t)
    {
      var p :| p in db.projects && p.id == t.project;
      assert p in r.projects;
    }
  }
}
