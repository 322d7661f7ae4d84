/**
 * The read-only summary table a parent department's page shows
 * (`AllMembersInline.get_formset`, admin/core/admin.py): a breadth-first walk
 * collects the department and all departments below it, then the staff rows
 * of those departments are folded into one row per user with the roles the
 * user holds anywhere in the subtree and the top-level sub-departments the
 * user works in.
 */
module AllMembers {
  import opened Wrappers
  import opened Text
  import opened OrgModels
  import opened Ordering
  import opened Store
  import opened MemberSummary

  /**
   * The walk of `get_formset`: `ids` starts with the department and grows by
   * one layer of children per round until a round finds none; `parentOf`
   * and `nameOf` record the parent and the name of every department found.
   * The model lists each layer in id order; the source's query lists it by
   * name, and only the set of ids is used afterwards.
   */
  method CollectSubtree(deps: map<int, Department>, root: int) returns (ids: seq<int>, parentOf: map<int, int>, nameOf: map<int, string>)
    requires ParentsBelow(deps) && root in deps
    ensures |ids| > 0 && ids[0] == root
    ensures forall x :: x in ids <==> x in Subtree(deps, root)
    ensures Distinct(ids)
    ensures Recorded(deps, root, Subtree(deps, root), parentOf, nameOf)
  {
    ids, parentOf, nameOf := [root], map[], map[root := deps[root].name];
    var q := [root];
    ghost var k: nat := 0;
    while q != []
      invariant forall x :: x in q <==> x in Layer(deps, root, k)
      invariant forall x :: x in ids <==> x in UpTo(deps, root, k)
      invariant |ids| > 0 && ids[0] == root && Distinct(ids)
      invariant UpTo(deps, root, k) <= deps.Keys
      invariant Recorded(deps, root, UpTo(deps, root, k), parentOf, nameOf)
      decreases |deps.Keys - UpTo(deps, root, k)|
    {
      var found := ChildrenOfAny(deps, q);
      NextLayer(deps, root, k, q);
      if found == {} {
        ClosedAt(deps, root, k + 1, k);
        break;
      }
      LayerIsNew(deps, root, k);
      var rows := SortedIds(found);
      AppendDistinct(ids, rows);
      RecordedGrow(deps, root, UpTo(deps, root, k), found, parentOf, nameOf);
      ghost var before := deps.Keys - UpTo(deps, root, k);
      ids := ids + rows;
      parentOf := parentOf + map c | c in found :: deps[c].parent.value;
      nameOf := nameOf + map c | c in found :: deps[c].name;
      q := rows;
      k := k + 1;
      assert deps.Keys - UpTo(deps, root, k) < before by {
        var c :| c in found;
        assert c in before;
      }
      SubsetSmaller(deps.Keys - UpTo(deps, root, k), before);
    }
    if q == [] {
      ClosedAt(deps, root, k, k);
    }
  }

  /**
   * `first_child_of_parent`: climb the recorded parents from `dept` until
   * the department itself; the last node before it, or None when `dept` is
   * the department itself.
   */
  method FirstChildOfParent(ghost deps: map<int, Department>, parentOf: map<int, int>, root: int, dept: int)
    returns (child: Option<int>)
    requires ParentsBelow(deps) && dept in Subtree(deps, root)
    requires parentOf.Keys == Subtree(deps, root) - {root}
    requires forall x :: x in parentOf ==> x in deps && deps[x].parent == Some(parentOf[x])
    ensures dept == root ==> child.None?
    ensures dept != root ==> child == Some(ChildOnPath(deps, dept, root))
  {
    var node: Option<int> := Some(dept);
    child := None;
    while node.Some? && node.value != root
      invariant node.Some? && node.value in Subtree(deps, root)
      invariant dept == root ==> node == Some(root) && child.None?
      invariant dept != root && node.value != root ==> ChildOnPath(deps, node.value, root) == ChildOnPath(deps, dept, root)
      invariant dept != root && node.value == root ==> child == Some(ChildOnPath(deps, dept, root))
      decreases node.value
    {
      child := node;
      node := if node.value in parentOf then Some(parentOf[node.value]) else None;
    }
  }

  /**
   * One round of the loop of `get_formset` on the staff row `m`: record it as
   * its user's first row unless one is known, add its role name, and, for a
   * row below the department itself, the name of the sub-department it lies
   * under (via `first_child_of_parent`; a name missing from `nameOf` would be
   * shown as the id).
   */
  method TakeRow(ghost deps: map<int, Department>, staff: map<int, DepartmentMember>, roleNames: map<int, string>,
                 root: int, parentOf: map<int, int>, nameOf: map<int, string>, ghost seen: set<int>, m: int,
                 firstPk: map<int, int>, roles: map<int, set<string>>, subs: map<int, set<string>>)
    returns (firstPk': map<int, int>, roles': map<int, set<string>>, subs': map<int, set<string>>)
    requires ParentsBelow(deps) && RolesKnown(staff, roleNames) && root in deps
    requires Recorded(deps, root, Subtree(deps, root), parentOf, nameOf)
    requires seen <= SummaryRows(deps, staff, root) && m in SummaryRows(deps, staff, root)
    requires forall x :: x in seen && staff[x].user == staff[m].user ==> x <= m
    requires Folded(deps, staff, roleNames, root, seen, firstPk, roles, subs)
    ensures Folded(deps, staff, roleNames, root, seen + {m}, firstPk', roles', subs')
  {
    var u := staff[m].user;
    FirstRowsStep(staff, seen, m, firstPk);
    RolesStep(staff, roleNames, seen, m, roles);
    firstPk' := if u in firstPk then firstPk else firstPk[u := m];
    roles' := roles[u := (if u in roles then roles[u] else {}) + {roleNames[staff[m].role]}];
    subs' := subs;
    var d := staff[m].department;
    if d != root {
      var child := FirstChildOfParent(deps, parentOf, root, d);
      var c := child.value;
      var name := if c in nameOf then nameOf[c] else IntToString(c);
      assert name == deps[ChildOnPath(deps, d, root)].name;
      SubsStep(deps, staff, root, seen, m, subs);
      subs' := subs[u := (if u in subs then subs[u] else {}) + {name}];
    } else {
      SubsSkip(deps, staff, root, seen, m, subs);
    }
  }

  /**
   * The loop of `get_formset` over the staff rows `members`, which list each
   * user's rows by ascending id; the results cover all of them.
   */
  method FoldRows(ghost deps: map<int, Department>, staff: map<int, DepartmentMember>, roleNames: map<int, string>,
                  root: int, parentOf: map<int, int>, nameOf: map<int, string>, members: seq<int>, ghost all: set<int>)
    returns (firstPk: map<int, int>, roles: map<int, set<string>>, subs: map<int, set<string>>)
    requires ParentsBelow(deps) && RolesKnown(staff, roleNames) && root in deps
    requires Recorded(deps, root, Subtree(deps, root), parentOf, nameOf)
    requires all <= SummaryRows(deps, staff, root)
    requires forall x :: x in members <==> x in all
    requires forall k :: 0 <= k < |members| ==> members[k] in staff
    requires IdsAscendPerUser(staff, members)
    ensures Folded(deps, staff, roleNames, root, all, firstPk, roles, subs)
  {
    firstPk, roles, subs := map[], map[], map[];
    ghost var seen: set<int> := {};
    for i := 0 to |members|
      invariant forall x :: x in seen <==> x in members[..i]
      invariant seen <= all
      invariant Folded(deps, staff, roleNames, root, seen, firstPk, roles, subs)
    {
      FirstIsSmallest(staff, members, i);
      firstPk, roles, subs := TakeRow(deps, staff, roleNames, root, parentOf, nameOf, seen, members[i], firstPk, roles, subs);
      PrefixExtend(members, i);
      seen := seen + {members[i]};
    }
    AllSeen(members, seen, all);
  }

  /**
   * The staff rows of the subtree listed `ids` in (user, id) order, folded
   * into per-user results that cover every row of the summary.
   */
  method FoldMembers(ghost deps: map<int, Department>, staff: map<int, DepartmentMember>, roleNames: map<int, string>,
                     root: int, ids: seq<int>, parentOf: map<int, int>, nameOf: map<int, string>)
    returns (firstPk: map<int, int>, roles: map<int, set<string>>, subs: map<int, set<string>>)
    requires ParentsBelow(deps) && RolesKnown(staff, roleNames) && root in deps
    requires forall x :: x in ids <==> x in Subtree(deps, root)
    requires Recorded(deps, root, Subtree(deps, root), parentOf, nameOf)
    ensures Folded(deps, staff, roleNames, root, SummaryRows(deps, staff, root), firstPk, roles, subs)
  {
    var rank := UserRank(staff);
    var rows := set x | x in staff && staff[x].department in ids;
    ghost var all := SummaryRows(deps, staff, root);
    assert rows == all;
    var members := SortedBy(rows, rank);
    SortedByAscending(rows, rank);
    UserOrderAscendsPerUser(staff, members);
    firstPk, roles, subs := FoldRows(deps, staff, roleNames, root, parentOf, nameOf, members, all);
  }

  /**
   * The summary inline of a department page. `get_formset` remembers the
   * two computed columns per user; the cells of a row are read from them.
   */
  class AllMembersInline {
    var rolesByUser: map<int, string>
    var subsByUser: map<int, string>

    constructor ()
      ensures rolesByUser == map[] && subsByUser == map[]
    {
      rolesByUser, subsByUser := map[], map[];
    }

    /** `roles_joined`: the roles column of a row of user `u`. */
    function RolesJoined(u: int): string
      reads this
    {
      if u in rolesByUser then rolesByUser[u] else "—"
    }

    /** `subdeps_joined`: the sub-departments column of a row of user `u`. */
    function SubsJoined(u: int): string
      reads this
    {
      if u in subsByUser then subsByUser[u] else "—"
    }

    /**
     * `get_formset`: no rows for an unsaved department; otherwise the first
     * staff row of every user of the subtree, and per user the sorted, joined
     * role names and sub-department names of all the user's rows there.
     */
    method GetFormset(deps: map<int, Department>, staff: map<int, DepartmentMember>, roleNames: map<int, string>,
                      obj: Option<int>) returns (rows: set<int>)
      requires ParentsBelow(deps) && RolesKnown(staff, roleNames)
      requires obj.Some? ==> obj.value in deps
      modifies this
      ensures obj.None? ==> rows == {} && unchanged(this)
      ensures obj.Some? ==> forall x :: x in rows <==> IsFirstRow(staff, SummaryRows(deps, staff, obj.value), x)
      ensures obj.Some? ==> forall u :: RolesJoined(u) == JoinedOrDash(RolesIn(staff, roleNames, SummaryRows(deps, staff, obj.value), u))
      ensures obj.Some? ==> forall u :: SubsJoined(u) == JoinedOrDash(SubsIn(deps, staff, obj.value, SummaryRows(deps, staff, obj.value), u))
    {
      if obj.None? {
        return {};
      }
      var root := obj.value;
      var ids, parentOf, nameOf := CollectSubtree(deps, root);
      var firstPk, roles, subs := FoldMembers(deps, staff, roleNames, root, ids, parentOf, nameOf);
      ghost var all := SummaryRows(deps, staff, root);
      rolesByUser := map u | u in roles :: JoinedOrDash(roles[u]);
      subsByUser := map u | u in subs :: JoinedOrDash(subs[u]);
      rows := FirstPks(firstPk);
      FirstRowsAreFirst(staff, all, firstPk);
    }
  }
}
