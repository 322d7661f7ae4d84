/**
 * The rows of the admin's organisation tables (admin/core/models.py) and the
 * rules the model classes enforce on them: a department tree at most two
 * levels deep whose children share their parent's project and never change
 * parent; project memberships obeying rule P1 (a role held in a project
 * either at project level or per department, never both); the overdue and
 * warning flags of a task; and how a user is labelled.
 *
 * Database ids are positive, so a foreign key is "set" exactly when it is
 * `Some`, which is how the source's truthiness tests read here.
 */
module OrgModels {
  import opened Wrappers
  import opened Text
  import opened Dates

  // ---------------------------------------------------------------- rows

  /** A core_department row; `project` and `parent` are nullable foreign keys. */
  datatype Department = Department(project: Option<int>, name: string, parent: Option<int>, leadRole: Option<int>)

  /** A core_projectmember row; `department` None is the project-level ("general") row. */
  datatype ProjectMember = ProjectMember(user: int, project: int, role: int, department: Option<int>)

  /** A core_departmentmember row. */
  datatype DepartmentMember = DepartmentMember(department: int, user: int, role: int, orderIndex: nat,
                                               isLead: bool, isTech: bool)

  /** Every id is positive and every parent is a stored department created before its child. */
  predicate ParentsBelow(deps: map<int, Department>) {
    forall id {:trigger deps[id]} :: id in deps ==> 0 < id && (deps[id].parent.Some? ==>
      deps[id].parent.value in deps && deps[id].parent.value < id)
  }

  // ---------------------------------------------------------------- levels

  /** `Department.get_level` as a definition: 1 for a root, one more than the parent otherwise. */
  function Level(deps: map<int, Department>, id: int): (n: nat)
    requires ParentsBelow(deps) && id in deps
    ensures n >= 1
    ensures n == 1 <==> deps[id].parent.None?
    decreases id
  {
    match deps[id].parent
    case None => 1
    case Some(p) => 1 + Level(deps, p)
  }

  /** Levels only depend on the chain of parents above a department. */
  lemma {:induction false} LevelFrame(deps: map<int, Department>, deps': map<int, Department>, id: int)
    requires ParentsBelow(deps) && ParentsBelow(deps') && id in deps
    requires forall x :: x in deps && x <= id ==> x in deps' && deps'[x].parent == deps[x].parent
    ensures Level(deps', id) == Level(deps, id)
    decreases id
  {
    if deps[id].parent.Some? {
      LevelFrame(deps, deps', deps[id].parent.value);
    }
  }

  // ---------------------------------------------------------------- Department.clean / save

  datatype DepartmentError =
    | DoesNotExist          // the parent or the stored row being edited is not in the table
    | ThirdLevel            // the parent itself has a parent
    | ParentWithoutProject  // clean: a child of a department without a project
    | RootWithoutProject    // clean: a root without a project
    | ParentChanged         // clean: a stored department's parent may not change
    | ParentMissingProject  // save: a child without a project under a parent without one
    | ProjectMismatch       // save: a child's project differs from its parent's

  /**
   * `Department.clean` on the instance `d` whose primary key is `pk`: the
   * instance as it stands afterwards (a child takes its parent's project),
   * or the validation error raised.
   */
  function CleanDepartment(deps: map<int, Department>, pk: Option<int>, d: Department): (r: Result<Department, DepartmentError>)
    // the checks in the order the source makes them
    ensures d.parent.Some? && d.parent.value !in deps ==> r == Err(DoesNotExist)
    ensures d.parent.Some? && d.parent.value in deps && deps[d.parent.value].parent.Some? ==> r == Err(ThirdLevel)
    ensures d.parent.Some? && d.parent.value in deps && deps[d.parent.value].parent.None? && deps[d.parent.value].project.None? ==>
      r == Err(ParentWithoutProject)
    ensures d.parent.None? && d.project.None? ==> r == Err(RootWithoutProject)
    ensures pk.Some? && pk.value in deps && deps[pk.value].parent != d.parent ==> r.Err?
    // what an accepted instance looks like
    ensures r.Ok? ==> r.value == d.(project := r.value.project) && r.value.project.Some?
    ensures r.Ok? && d.parent.Some? ==>
      && d.parent.value in deps && deps[d.parent.value].parent.None?
      && r.value.project == deps[d.parent.value].project
    ensures r.Ok? && d.parent.None? ==> r.value == d
    ensures r.Ok? && pk.Some? ==> pk.value in deps && deps[pk.value].parent == d.parent
  {
    var adjusted :=
      if d.parent.None? then
        if d.project.None? then Err(RootWithoutProject) else Ok(d)
      else if d.parent.value !in deps then Err(DoesNotExist)
      else
        var parent := deps[d.parent.value];
        if parent.parent.Some? then Err(ThirdLevel)
        else if parent.project.None? then Err(ParentWithoutProject)
        else Ok(d.(project := parent.project));
    if adjusted.Err? then adjusted
    else if pk.None? then adjusted
    else if pk.value !in deps then Err(DoesNotExist)
    else if deps[pk.value].parent != d.parent then Err(ParentChanged)
    else adjusted
  }

  /**
   * The project rules `Department.save` applies before `full_clean`: a child
   * without a project inherits its parent's, and a child with a different
   * project is refused.
   */
  function InheritProject(deps: map<int, Department>, d: Department): (r: Result<Department, DepartmentError>)
    ensures d.parent.Some? && d.parent.value !in deps ==> r == Err(DoesNotExist)
    ensures r.Ok? ==> r.value == d.(project := r.value.project)
    ensures r.Ok? && d.parent.Some? ==> r.value.project.Some? && r.value.project == deps[d.parent.value].project
    ensures r.Ok? && d.parent.None? ==> r.value == d
    ensures d.parent.Some? && d.parent.value in deps && d.project.Some? && deps[d.parent.value].project != d.project ==>
      r == Err(ProjectMismatch)
    ensures d.parent.Some? && d.parent.value in deps && d.project.None? && deps[d.parent.value].project.None? ==>
      r == Err(ParentMissingProject)
  {
    if d.parent.None? then Ok(d)
    else if d.parent.value !in deps then Err(DoesNotExist)
    else
      var parent := deps[d.parent.value];
      var withProject :=
        if d.project.Some? then Ok(d)
        else if parent.project.Some? then Ok(d.(project := parent.project))
        else Err(ParentMissingProject);
      if withProject.Err? then withProject
      else if withProject.value.project != parent.project then Err(ProjectMismatch)
      else withProject
  }

  /** `Department.save` up to the write: the project rules, then `full_clean` (which runs `clean`). */
  function PrepareDepartment(deps: map<int, Department>, pk: Option<int>, d: Department): (r: Result<Department, DepartmentError>)
    ensures r.Ok? ==> r.value == d.(project := r.value.project) && r.value.project.Some?
    ensures r.Ok? && d.parent.Some? ==>
      && d.parent.value in deps && deps[d.parent.value].parent.None?
      && r.value.project == deps[d.parent.value].project
    ensures d.parent.Some? && d.parent.value in deps && deps[d.parent.value].parent.Some? ==> r.Err?
    ensures d.parent.None? && d.project.None? ==> r == Err(RootWithoutProject)
    ensures d.parent.Some? && d.parent.value in deps && d.project.Some? && deps[d.parent.value].project != d.project ==>
      r == Err(ProjectMismatch)
    ensures pk.Some? && pk.value in deps && deps[pk.value].parent != d.parent ==> r.Err?
    ensures r.Ok? && pk.Some? ==> pk.value in deps
  {
    match InheritProject(deps, d)
    case Err(e) => Err(e)
    case Ok(inherited) => CleanDepartment(deps, pk, inherited)
  }

  /** A department that passes `save` sits at level 1 or 2, and so do all others stored beside it. */
  lemma SavedLevelAtMostTwo(deps: map<int, Department>, pk: Option<int>, d: Department, id: int)
    requires ParentsBelow(deps) && PrepareDepartment(deps, pk, d).Ok?
    requires pk.Some? ==> id == pk.value
    requires pk.None? ==> 0 < id && id !in deps && forall x :: x in deps ==> x < id
    ensures var deps' := deps[id := PrepareDepartment(deps, pk, d).value];
      ParentsBelow(deps') && Level(deps', id) <= 2
  {
    var r := PrepareDepartment(deps, pk, d).value;
    var deps' := deps[id := r];
    match r.parent
    case None =>
    case Some(p) =>
      assert p < id by {
        if pk.Some? { assert deps[id].parent == Some(p); }
      }
      assert forall x :: x in deps && x <= p ==> x in deps' && deps'[x].parent == deps[x].parent;
      LevelFrame(deps, deps', p);
  }

  // ---------------------------------------------------------------- rule P1

  /** Rows about the same (project, user, role). */
  predicate SameKey(a: ProjectMember, b: ProjectMember) {
    a.project == b.project && a.user == b.user && a.role == b.role
  }

  /** The two unique constraints of core_projectmember. */
  predicate UniqueMembers(pms: map<int, ProjectMember>) {
    forall a, b :: a in pms && b in pms && a != b && SameKey(pms[a], pms[b]) ==>
      pms[a].department != pms[b].department
  }

  /** Rule P1: a general row never coexists with a department row of the same key. */
  predicate P1(pms: map<int, ProjectMember>) {
    forall a, b :: a in pms && b in pms && SameKey(pms[a], pms[b]) && pms[a].department.None? ==>
      pms[b].department.None?
  }

  datatype MemberError =
    | AssignedInDepartments  // a general row while department rows exist
    | DuplicateInDepartment  // the same key in the same department
    | DuplicateInProject     // a second general row
    | IntegrityError         // a unique constraint refused the write

  /** `base`: the other rows with the key of `m` (`exclude(pk=None)` excludes nothing). */
  predicate Other(pms: map<int, ProjectMember>, pk: Option<int>, m: ProjectMember, id: int) {
    id in pms && (pk.None? || id != pk.value) && SameKey(pms[id], m)
  }

  /** `ProjectMember.clean`: None when the instance is accepted. */
  function CleanMember(pms: map<int, ProjectMember>, pk: Option<int>, m: ProjectMember): (r: Option<MemberError>)
    ensures m.department.None? ==>
      (r == Some(AssignedInDepartments) <==> exists id :: id in pms && Other(pms, pk, m, id) && pms[id].department.Some?)
    ensures r.None? <==> forall id :: Other(pms, pk, m, id) ==>
      (if m.department.None? then false else pms[id].department != m.department)
  {
    if m.department.None? && exists id :: id in pms && Other(pms, pk, m, id) && pms[id].department.Some? then
      Some(AssignedInDepartments)
    else if m.department.Some? then
      if exists id :: id in pms && Other(pms, pk, m, id) && pms[id].department == m.department then Some(DuplicateInDepartment)
      else None
    else if exists id :: id in pms && Other(pms, pk, m, id) && pms[id].department.None? then Some(DuplicateInProject)
    else None
  }

  /** `filter(project=…, user=…, role=…, department__isnull=True).delete()`. */
  function DeleteGeneral(pms: map<int, ProjectMember>, project: int, user: int, role: int): (r: map<int, ProjectMember>)
    ensures forall id :: id in r <==> (id in pms &&
      !(pms[id].project == project && pms[id].user == user && pms[id].role == role && pms[id].department.None?))
    ensures forall id :: id in r ==> r[id] == pms[id]
  {
    map id | id in pms && !(pms[id].project == project && pms[id].user == user && pms[id].role == role && pms[id].department.None?)
      :: pms[id]
  }

  /**
   * `ProjectMember.save` in its transaction: the row is written under `id`,
   * the unique constraints are checked, and a department row then removes
   * the general row of its key.
   */
  function SaveMember(pms: map<int, ProjectMember>, id: int, m: ProjectMember): (r: Result<map<int, ProjectMember>, MemberError>)
    requires UniqueMembers(pms)
    ensures r.Ok? ==> UniqueMembers(r.value)
    ensures r.Ok? ==> id in r.value && r.value[id] == m
    ensures r.Ok? && m.department.Some? ==>
      forall x :: x in r.value && SameKey(r.value[x], m) ==> r.value[x].department.Some?
    ensures r.Ok? ==> forall x :: x in pms && x != id && !SameKey(pms[x], m) ==> x in r.value && r.value[x] == pms[x]
    ensures r.Ok? ==> forall x :: x in r.value ==> x == id || (x in pms && r.value[x] == pms[x])
    ensures r.Err? <==> exists x :: x in pms && x != id && SameKey(pms[x], m) && pms[x].department == m.department
  {
    var written := pms[id := m];
    if exists x :: x in pms && x != id && SameKey(pms[x], m) && pms[x].department == m.department then Err(IntegrityError)
    else if m.department.Some? then Ok(DeleteGeneral(written, m.project, m.user, m.role))
    else Ok(written)
  }

  /** A row accepted by `clean` and then saved keeps rule P1. */
  lemma CleanThenSaveKeepsP1(pms: map<int, ProjectMember>, pk: Option<int>, id: int, m: ProjectMember)
    requires UniqueMembers(pms) && P1(pms)
    requires pk.Some? ==> id == pk.value
    requires pk.None? ==> id !in pms
    requires CleanMember(pms, pk, m).None?
    ensures SaveMember(pms, id, m).Ok? && P1(SaveMember(pms, id, m).value)
  {
    forall x | x in pms && x != id && SameKey(pms[x], m)
      ensures m.department.Some? && pms[x].department != m.department
    {
      assert Other(pms, pk, m, x);
    }
    var r := SaveMember(pms, id, m);
    var t := r.value;
    assert forall x :: x in t && SameKey(t[x], m) && m.department.Some? ==> t[x].department.Some?;
  }

  // ---------------------------------------------------------------- Task flags

  /** What `is_overdue` and `is_warning` read of a task. */
  datatype Task = Task(deadline: Option<Date>, status: string)

  const Done := "DONE"

  /** `Task.is_overdue` with today's date passed in. */
  function IsOverdue(t: Task, today: Date): (r: bool)
    ensures r ==> t.deadline.Some? && t.status != Done
  {
    t.deadline.Some? && Before(t.deadline.value, today) && t.status != Done
  }

  /** `Task.is_warning`: due by tomorrow, not done and not already overdue. */
  function IsWarning(t: Task, today: Date): (r: bool)
    requires ValidDate(today) && today != LastDate
    ensures r ==> t.deadline.Some? && t.status != Done && !IsOverdue(t, today)
  {
    t.deadline.Some? && !Before(NextDay(today), t.deadline.value) && t.status != Done && !IsOverdue(t, today)
  }

  /** The two flags exclude each other, and neither is raised without a deadline or once done. */
  lemma FlagsExclusive(t: Task, today: Date)
    requires ValidDate(today) && today != LastDate
    ensures IsWarning(t, today) ==> !IsOverdue(t, today)
    ensures t.deadline.None? || t.status == Done ==> !IsWarning(t, today) && !IsOverdue(t, today)
  {
  }

  lemma BeforeCases(a: Date, b: Date)
    ensures Before(a, b) || a == b || Before(b, a)
  {
  }

  /** A task that is not done warns exactly when it is due today or tomorrow. */
  lemma WarningWindow(t: Task, today: Date)
    requires ValidDate(today) && today != LastDate && t.deadline.Some? && ValidDate(t.deadline.value)
    ensures IsWarning(t, today) <==> t.status != Done && (t.deadline.value == today || t.deadline.value == NextDay(today))
    ensures IsOverdue(t, today) <==> t.status != Done && Before(t.deadline.value, today)
  {
    var d, tomorrow := t.deadline.value, NextDay(today);
    NextDayIsImmediate(today, d);
    BeforeCases(d, today);
    BeforeCases(d, tomorrow);
  }

  // ---------------------------------------------------------------- User labels

  /** What `User.__str__` reads of a user. */
  datatype User = User(telegramId: int, username: string, firstName: string, lastName: string)

  /** `" ".join(p for p in [first, last] if p).strip()`. */
  function FullName(u: User): (r: string)
    ensures r == [] || (!IsSpace(r[0]) && !IsSpace(r[|r| - 1]))
    ensures |r| <= |u.firstName| + |u.lastName| + 1
    ensures u.firstName == "" && u.lastName == "" ==> r == ""
  {
    var parts := (if u.firstName != "" then [u.firstName] else []) + (if u.lastName != "" then [u.lastName] else []);
    var j := Join(" ", parts);
    assert |j| <= |u.firstName| + |u.lastName| + 1 by {
      if u.firstName != "" && u.lastName != "" {
        assert parts == [u.firstName, u.lastName] && parts[1..] == [u.lastName];
        assert Join(" ", [u.lastName]) == u.lastName;
        assert j == u.firstName + " " + u.lastName;
      } else if parts != [] {
        assert |parts| == 1 && j == parts[0];
      }
    }
    Strip(j)
  }

  /** `User.__str__`. */
  function UserLabel(u: User): (r: string)
    ensures r != []
    ensures u.username != "" ==> |u.username| <= |r| && r[..|u.username|] == u.username
    ensures u.username == "" && FullName(u) == "" ==> r == "id:" + IntToString(u.telegramId)
  {
    var full := FullName(u);
    if u.username != "" && full != "" then u.username + " (" + full + ")"
    else if u.username != "" then u.username
    else if full != "" then "(" + full + ")"
    else "id:" + IntToString(u.telegramId)
  }

  /** Blank first and last names count as no name: such a user is labelled by username or id. */
  lemma BlankNamesIgnored(u: User)
    requires AllSpace(u.firstName) && AllSpace(u.lastName)
    ensures FullName(u) == ""
    ensures UserLabel(u) == if u.username != "" then u.username else "id:" + IntToString(u.telegramId)
  {
    var parts := (if u.firstName != "" then [u.firstName] else []) + (if u.lastName != "" then [u.lastName] else []);
    var j := Join(" ", parts);
    assert AllSpace(j) by {
      if u.firstName != "" && u.lastName != "" {
        assert parts[1..] == [u.lastName];
        assert Join(" ", [u.lastName]) == u.lastName;
        assert j == u.firstName + " " + u.lastName;
        forall i | 0 <= i < |j| ensures IsSpace(j[i]) {
          if i < |u.firstName| { assert j[i] == u.firstName[i]; }
          else if i > |u.firstName| { assert j[i] == u.lastName[i - |u.firstName| - 1]; }
        }
      }
    }
    StripOfBlanks(j);
  }

  lemma StripOfBlanks(s: string)
    requires AllSpace(s)
    ensures Strip(s) == ""
  {
    StripIgnoresPadding(s, "", "");
    assert s + "" + "" == s;
    StripKeepsTrimmed("");
  }
}
