/**
 * The decisions the department admin makes around its change form
 * (admin/core/admin.py): which fields the form shows and which of them are
 * read-only, the initial data and the save of an added department, which
 * inlines a stored department gets, where sub-departments may be added, and
 * which membership rows the project page's inline lists.
 *
 * The change view's object is `None` on the add view and the stored
 * department otherwise. The `?parent=<id>` query parameter is `Some(id)`
 * when it is present and non-empty, `None` otherwise.
 */
module DepartmentAdmin {
  import opened Wrappers
  import opened OrgModels
  import opened Store

  // ---------------------------------------------------------------- the form's fields

  /** The names the form layout uses; `ParentDisplay` is the parent's name as text. */
  datatype Field = ProjectField | NameField | ParentField | LeadRoleField | ParentDisplay

  /** `DepartmentAdmin.get_fields`: the base fields, plus the parent's name when there is a parent. */
  function GetFields(obj: Option<Department>, parentParam: Option<int>): (fields: seq<Field>)
    ensures fields == [ProjectField, NameField, LeadRoleField] || fields == [ProjectField, NameField, LeadRoleField, ParentDisplay]
    ensures ParentDisplay in fields <==> (if obj.None? then parentParam.Some? else obj.value.parent.Some?)
    ensures ParentField !in fields
  {
    if obj.None? && parentParam.None? then [ProjectField, NameField, LeadRoleField]
    else if obj.None? then [ProjectField, NameField, LeadRoleField, ParentDisplay]
    else if obj.value.parent.Some? then [ProjectField, NameField, LeadRoleField, ParentDisplay]
    else [ProjectField, NameField, LeadRoleField]
  }

  /**
   * `DepartmentAdmin.get_readonly_fields`: nothing on the plain add view;
   * the project and the parent when a department is edited or a child added.
   */
  function GetReadonlyFields(obj: Option<Department>, parentParam: Option<int>): (ro: seq<Field>)
    ensures ro == [] || ro == [ProjectField, ParentField, ParentDisplay]
    ensures ro != [] <==> obj.Some? || parentParam.Some?
  {
    if obj.Some? || parentParam.Some? then [ProjectField, ParentField, ParentDisplay] else []
  }

  /** The fields of `fields` that are not in `ro`, in order. */
  function Without(fields: seq<Field>, ro: seq<Field>): (r: seq<Field>)
    ensures forall f :: f in r <==> f in fields && f !in ro
  {
    if fields == [] then []
    else (if fields[0] in ro then [] else [fields[0]]) + Without(fields[1..], ro)
  }

  /** The fields the user can type into. */
  function EditableFields(obj: Option<Department>, parentParam: Option<int>): (r: seq<Field>)
    ensures forall f :: f in r <==> f in GetFields(obj, parentParam) && f !in GetReadonlyFields(obj, parentParam)
  {
    Without(GetFields(obj, parentParam), GetReadonlyFields(obj, parentParam))
  }

  /**
   * The parent's name is shown only as text: whenever the layout holds it,
   * it is read-only (a layout name that is not a model field must be).
   */
  lemma ParentDisplayIsReadonly(obj: Option<Department>, parentParam: Option<int>)
    ensures ParentDisplay in GetFields(obj, parentParam) ==> ParentDisplay in GetReadonlyFields(obj, parentParam)
  {
  }

  /**
   * Only the plain add view lets the user pick a project; no view lets the
   * user pick a parent, and the name and lead role are always editable.
   */
  lemma EditableByMode(obj: Option<Department>, parentParam: Option<int>)
    ensures EditableFields(obj, parentParam) ==
      if obj.None? && parentParam.None? then [ProjectField, NameField, LeadRoleField]
      else [NameField, LeadRoleField]
  {
    if obj.None? && parentParam.None? {
      EditableOnPlainAdd();
    } else {
      EditableWhenLocked(GetFields(obj, parentParam));
    }
  }

  /** On the plain add view nothing is read-only. */
  lemma EditableOnPlainAdd()
    ensures Without([ProjectField, NameField, LeadRoleField], []) == [ProjectField, NameField, LeadRoleField]
  {
    assert Without([LeadRoleField], []) == [LeadRoleField];
    assert Without([NameField, LeadRoleField], []) == [NameField, LeadRoleField];
  }

  /** Otherwise the project and the parent's name drop out of either layout. */
  lemma EditableWhenLocked(fields: seq<Field>)
    requires fields == [ProjectField, NameField, LeadRoleField] || fields == [ProjectField, NameField, LeadRoleField, ParentDisplay]
    ensures Without(fields, [ProjectField, ParentField, ParentDisplay]) == [NameField, LeadRoleField]
  {
    var ro := [ProjectField, ParentField, ParentDisplay];
    assert Without([ParentDisplay], ro) == [];
    assert Without([LeadRoleField], ro) == [LeadRoleField];
    assert Without([LeadRoleField, ParentDisplay], ro) == [LeadRoleField];
    assert Without(fields[1..], ro) == [NameField, LeadRoleField];
  }

  // ---------------------------------------------------------------- adding a department

  /** The initial values the add form shows. */
  datatype Initial = Initial(parent: Option<int>, project: Option<int>)

  /**
   * `DepartmentAdmin.get_changeform_initial_data`: with `?parent=<id>` of a
   * stored department, that department and its project; an unknown id is
   * ignored.
   */
  function ChangeformInitialData(deps: map<int, Department>, parentParam: Option<int>): (init: Initial)
    ensures init.parent.Some? <==> parentParam.Some? && parentParam.value in deps
    ensures init.parent.Some? ==> init.parent == parentParam && init.project == deps[parentParam.value].project
    ensures init.parent.None? ==> init.project.None?
  {
    if parentParam.Some? && parentParam.value in deps then Initial(parentParam, deps[parentParam.value].project)
    else Initial(None, None)
  }

  /**
   * The instance the effective `DepartmentAdmin.save_model` hands to
   * `Department.save`: on add with `?parent`, the parent is fetched (an
   * unknown id raises) and fixes the parent and the project; on add without
   * it, the parent is cleared; an edit is saved as the form left it.
   */
  function SaveModelInstance(deps: map<int, Department>, change: bool, d: Department, parentParam: Option<int>)
    : (r: Result<Department, DepartmentError>)
    ensures change ==> r == Ok(d)
    ensures !change && parentParam.None? ==> r == Ok(d.(parent := None))
    ensures !change && parentParam.Some? ==>
      (r.Ok? <==> parentParam.value in deps) &&
      (r.Err? ==> r.error == DoesNotExist)
    ensures r.Ok? ==> r.value.name == d.name && r.value.leadRole == d.leadRole
  {
    if change then Ok(d)
    else if parentParam.None? then Ok(d.(parent := None))
    else if parentParam.value !in deps then Err(DoesNotExist)
    else Ok(d.(parent := parentParam, project := deps[parentParam.value].project))
  }

  /** An added child is saved under the parent and in the project that the add form showed. */
  lemma SavedAsInitial(deps: map<int, Department>, d: Department, parentParam: Option<int>)
    requires SaveModelInstance(deps, false, d, parentParam).Ok?
    ensures var init := ChangeformInitialData(deps, parentParam);
      var saved := SaveModelInstance(deps, false, d, parentParam).value;
      init.parent.Some? ==> saved.parent == init.parent && saved.project == init.project
  {
  }

  /** Adding without `?parent` stores a root; it succeeds exactly when a project was chosen. */
  lemma AddRootOutcome(deps: map<int, Department>, d: Department)
    ensures var inst := SaveModelInstance(deps, false, d, None).value;
      var r := PrepareDepartment(deps, None, inst);
      (r.Ok? <==> d.project.Some?) && (r.Ok? ==> r.value == d.(parent := None))
  {
  }

  /**
   * Adding with `?parent=p` succeeds exactly when `p` is a stored root with a
   * project, and stores a child of `p` in `p`'s project.
   */
  lemma AddChildOutcome(deps: map<int, Department>, d: Department, p: int)
    ensures var inst := SaveModelInstance(deps, false, d, Some(p));
      var ok := inst.Ok? && PrepareDepartment(deps, None, inst.value).Ok?;
      (ok <==> p in deps && deps[p].parent.None? && deps[p].project.Some?) &&
      (ok ==> PrepareDepartment(deps, None, inst.value).value == d.(parent := Some(p), project := deps[p].project))
  {
    var inst := SaveModelInstance(deps, false, d, Some(p));
    if p in deps {
      var child := d.(parent := Some(p), project := deps[p].project);
      assert inst == Ok(child);
      if deps[p].project.None? {
        assert InheritProject(deps, child) == Err(ParentMissingProject);
      }
    }
  }

  /** The effective `DepartmentAdmin.save_model`; `pk` is the edited department's id, None on add. */
  method SaveModel(db: Database, pk: Option<int>, d: Department, parentParam: Option<int>)
    returns (r: Result<int, DepartmentError>)
    requires db.Valid()
    modifies db
    ensures db.Valid()
    ensures var inst := SaveModelInstance(old(db.departments), pk.Some?, d, parentParam);
      && (inst.Err? ==> r == Err(inst.error) && db.departments == old(db.departments))
      && (inst.Ok? ==> (r.Ok? <==> PrepareDepartment(old(db.departments), pk, inst.value).Ok?))
      && (inst.Ok? && r.Ok? ==>
            db.departments == old(db.departments)[r.value := PrepareDepartment(old(db.departments), pk, inst.value).value])
      && (inst.Ok? && r.Err? ==> db.departments == old(db.departments))
    ensures db.staff == old(db.staff) && db.members == old(db.members) && db.groups == old(db.groups)
  {
    var inst := SaveModelInstance(db.departments, pk.Some?, d, parentParam);
    if inst.Err? {
      return Err(inst.error);
    }
    r := db.SaveDepartment(pk, inst.value);
  }

  // ---------------------------------------------------------------- inlines

  /** The inline tables a department's page can carry. */
  datatype Inline = ChildDepartments | AllMembers | DepartmentMembers

  /**
   * `DepartmentAdmin.get_inline_instances`: none on add; the sub-department
   * table and the read-only summary for a root or a department with
   * children; the editable staff table for a leaf.
   */
  function InlineInstances(deps: map<int, Department>, obj: Option<int>): (r: seq<Inline>)
    requires obj.Some? ==> obj.value in deps
    ensures obj.None? <==> r == []
    ensures obj.Some? ==> r == [ChildDepartments, AllMembers] || r == [DepartmentMembers]
    ensures obj.Some? ==>
      (r == [DepartmentMembers] <==> deps[obj.value].parent.Some? && ChildrenOf(deps, obj.value) == {})
  {
    if obj.None? then []
    else if deps[obj.value].parent.None? || ChildrenOf(deps, obj.value) != {} then [ChildDepartments, AllMembers]
    else [DepartmentMembers]
  }

  /** In a two-level tree the inlines follow the level: roots get the tables, children the staff. */
  lemma InlinesByLevel(deps: map<int, Department>, id: int)
    requires ParentsBelow(deps) && TwoLevels(deps) && id in deps
    ensures InlineInstances(deps, Some(id)) ==
      if Level(deps, id) == 1 then [ChildDepartments, AllMembers] else [DepartmentMembers]
  {
    if deps[id].parent.Some? {
      assert forall c :: c in deps && deps[c].parent == Some(id) ==> deps[id].parent.None?;
      assert ChildrenOf(deps, id) == {};
    }
  }

  /** `ChildDepartmentInline.has_add_permission`: only a stored root takes new children. */
  function HasAddPermission(obj: Option<Department>): (allowed: bool)
    ensures allowed ==> obj.Some?
  {
    obj.Some? && obj.value.parent.None?
  }

  /** The `can_add_child` flag `DepartmentAdmin.changeform_view` gives its template. */
  function CanAddChild(obj: Option<Department>): (can: bool)
    ensures obj.None? ==> !can
  {
    if obj.Some? then obj.value.parent.None? else false
  }

  /**
   * The page's "add child" button and the inline's add permission agree,
   * and wherever adding is allowed the sub-department table is shown.
   */
  lemma AddChildOnlyOnRoots(deps: map<int, Department>, id: int)
    requires ParentsBelow(deps) && id in deps
    ensures HasAddPermission(Some(deps[id])) == CanAddChild(Some(deps[id])) == (Level(deps, id) == 1)
    ensures HasAddPermission(Some(deps[id])) ==> InlineInstances(deps, Some(id)) == [ChildDepartments, AllMembers]
    ensures !HasAddPermission(None) && !CanAddChild(None)
  {
  }

  /**
   * A row added in the sub-department table: `ChildDepartmentForm.clean`
   * copies the parent's project, and the inline's key sets the parent.
   */
  function ChildFormInstance(deps: map<int, Department>, parent: int, name: string, leadRole: Option<int>): (d: Department)
    requires parent in deps
    ensures d.parent == Some(parent) && d.project == deps[parent].project
    ensures d.name == name && d.leadRole == leadRole
  {
    Department(deps[parent].project, name, Some(parent), leadRole)
  }

  /** Under a root with a project the added child saves as a level-2 department; under a child it is refused. */
  lemma ChildFormOutcome(deps: map<int, Department>, parent: int, name: string, leadRole: Option<int>)
    requires parent in deps
    ensures var r := PrepareDepartment(deps, None, ChildFormInstance(deps, parent, name, leadRole));
      (r.Ok? <==> deps[parent].parent.None? && deps[parent].project.Some?) &&
      (r.Ok? ==> r.value == ChildFormInstance(deps, parent, name, leadRole))
  {
    var d := ChildFormInstance(deps, parent, name, leadRole);
    if deps[parent].project.None? {
      assert InheritProject(deps, d) == Err(ParentMissingProject);
    }
  }

  /** Saving a new row of the sub-department table (`save_new`, then `Department.save`). */
  method AddChildRow(db: Database, parent: int, name: string, leadRole: Option<int>) returns (r: Result<int, DepartmentError>)
    requires db.Valid() && parent in db.departments
    modifies db
    ensures db.Valid()
    ensures r.Ok? <==> old(db.departments)[parent].parent.None? && old(db.departments)[parent].project.Some?
    ensures r.Ok? ==> r.value == old(db.nextId) && r.value !in old(db.departments)
    ensures r.Ok? ==> db.departments == old(db.departments)[r.value := ChildFormInstance(old(db.departments), parent, name, leadRole)]
    ensures r.Ok? ==> Level(db.departments, r.value) == 2
    ensures r.Err? ==> db.departments == old(db.departments)
    ensures db.staff == old(db.staff) && db.members == old(db.members) && db.groups == old(db.groups)
  {
    var d := ChildFormInstance(db.departments, parent, name, leadRole);
    ChildFormOutcome(db.departments, parent, name, leadRole);
    r := db.SaveDepartment(None, d);
    if r.Ok? {
      assert db.departments[r.value].parent == Some(parent);
      assert Level(db.departments, parent) == 1;
    }
  }

  // ---------------------------------------------------------------- the project's membership inline

  /** Some department row has the key of `m` (the `has_children` annotation). */
  predicate HasDepartmentRow(pms: map<int, ProjectMember>, m: ProjectMember) {
    exists y :: y in pms && SameKey(pms[y], m) && pms[y].department.Some?
  }

  /**
   * `ProjectMemberInline.get_queryset` on the project's page: every
   * department row, and a general row only while no department row of its
   * key exists.
   */
  function InlineRows(pms: map<int, ProjectMember>, project: int): (rows: set<int>)
    ensures forall x :: x in rows ==> x in pms && pms[x].project == project
  {
    set x | x in pms && pms[x].project == project && (pms[x].department.Some? || !HasDepartmentRow(pms, pms[x]))
  }

  /** Every department row of the project is listed; a general row is listed iff its key has no department row. */
  lemma InlineRowsShown(pms: map<int, ProjectMember>, project: int, x: int)
    requires x in pms && pms[x].project == project
    ensures pms[x].department.Some? ==> x in InlineRows(pms, project)
    ensures pms[x].department.None? ==> (x in InlineRows(pms, project) <==> !HasDepartmentRow(pms, pms[x]))
  {
  }

  /** Under rule P1 the filter hides nothing: the inline lists every row of the project. */
  lemma P1ShowsEveryRow(pms: map<int, ProjectMember>, project: int)
    requires P1(pms)
    ensures InlineRows(pms, project) == set x | x in pms && pms[x].project == project
  {
    forall x | x in pms && pms[x].project == project && pms[x].department.None?
      ensures !HasDepartmentRow(pms, pms[x])
    {
      forall y | y in pms && SameKey(pms[y], pms[x]) ensures pms[y].department.None? {
        assert SameKey(pms[x], pms[y]);
      }
    }
  }
}
