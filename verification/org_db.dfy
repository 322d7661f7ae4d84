/**
 * The admin's organisation tables as one object whose fields the ORM calls
 * update: departments, department staff (core_departmentmember), project
 * memberships (core_projectmember) and the project each Telegram group is
 * attached to. Each method is one of the model or admin operations that
 * write these tables.
 *
 * Rows get ids from `nextId`, which stands for the database sequences: a
 * new row's id is larger than every id in use. A transaction that fails
 * restores the tables it had written; the sequence is not rolled back.
 */
module Store {
  import opened Wrappers
  import opened OrgModels
  import opened Ordering

  // ---------------------------------------------------------------- queries

  /** `Department.objects.filter(parent=d)`. */
  function ChildrenOf(deps: map<int, Department>, d: int): (r: set<int>)
    ensures forall c {:trigger c in r} :: c in r <==> c in deps && deps[c].parent == Some(d)
  {
    set c | c in deps && deps[c].parent == Some(d)
  }

  /** No department sits below a department that has a parent. */
  predicate TwoLevels(deps: map<int, Department>) {
    forall a, b :: a in deps && b in deps && deps[a].parent == Some(b) ==> deps[b].parent.None?
  }

  /** With two levels, every level is 1 or 2. */
  lemma TwoLevelsBoundLevel(deps: map<int, Department>, id: int)
    requires ParentsBelow(deps) && TwoLevels(deps) && id in deps
    ensures Level(deps, id) <= 2
  {
  }

  /** The one unique constraint of core_departmentmember: (department, user). */
  predicate UniqueStaff(dms: map<int, DepartmentMember>) {
    forall a, b :: a in dms && b in dms && a != b ==>
      dms[a].department != dms[b].department || dms[a].user != dms[b].user
  }

  /** `dep.members.all()`. */
  function StaffOf(dms: map<int, DepartmentMember>, d: int): (r: set<int>)
    ensures forall x {:trigger x in r} :: x in r <==> x in dms && dms[x].department == d
  {
    set x | x in dms && dms[x].department == d
  }

  /** The `order_index` of every staff row. */
  function OrderRank(dms: map<int, DepartmentMember>): (rank: map<int, int>)
    ensures rank.Keys == dms.Keys
    ensures forall x :: x in dms ==> rank[x] == dms[x].orderIndex
  {
    map x | x in dms :: dms[x].orderIndex
  }

  /** `dep.members.all().order_by("order_index", "id")`. */
  function Roster(dms: map<int, DepartmentMember>, d: int): (r: seq<int>)
    ensures |r| == |StaffOf(dms, d)|
    ensures forall x :: x in r <==> x in dms && dms[x].department == d
  {
    SortedBy(StaffOf(dms, d), OrderRank(dms))
  }

  /** Whether `user` is on the staff of department `d`. */
  predicate HasStaff(dms: map<int, DepartmentMember>, d: int, user: int) {
    exists x :: x in dms && dms[x].department == d && dms[x].user == user
  }

  /** The department row `dst` of `n` copies `src` of `o` into `project` under `parent`. */
  predicate NodeCopied(o: map<int, Department>, n: map<int, Department>, src: int, dst: int, project: int, parent: Option<int>) {
    src in o && dst in n && n[dst] == Department(Some(project), o[src].name, parent, o[src].leadRole)
  }

  /** The roster of `dst` in `nd` repeats the roster of `src` in `od` row by row, in the same order. */
  predicate RosterCopied(od: map<int, DepartmentMember>, nd: map<int, DepartmentMember>, src: int, dst: int) {
    var from, to := Roster(od, src), Roster(nd, dst);
    |to| == |from| && forall k :: 0 <= k < |from| ==> nd[to[k]] == od[from[k]].(department := dst)
  }

  /** `dst` is a childless copy of `src`, staff included. */
  predicate LeafCopied(o: map<int, Department>, od: map<int, DepartmentMember>, n: map<int, Department>,
                       nd: map<int, DepartmentMember>, src: int, dst: int, project: int, parent: Option<int>) {
    NodeCopied(o, n, src, dst, project, parent) && RosterCopied(od, nd, src, dst) && ChildrenOf(n, dst) == {}
  }

  /**
   * `dst` copies `src` with its staff, and its children, in id order, copy
   * the children of `src` in id order (departments are at most two levels
   * deep, so those copies are leaves).
   */
  predicate TreeCopied(o: map<int, Department>, od: map<int, DepartmentMember>, n: map<int, Department>,
                       nd: map<int, DepartmentMember>, src: int, dst: int, project: int, parent: Option<int>) {
    && NodeCopied(o, n, src, dst, project, parent) && RosterCopied(od, nd, src, dst)
    && var kids, copies := SortedIds(ChildrenOf(o, src)), SortedIds(ChildrenOf(n, dst));
      |copies| == |kids| && forall k :: 0 <= k < |kids| ==> LeafCopied(o, od, n, nd, kids[k], copies[k], project, Some(dst))
  }

  /** Groups after `ProjectAdmin.save_model`: the chosen ones join `project`; with `detach`, the others leave it. */
  function AttachGroups(groups: map<int, Option<int>>, project: int, chosen: set<int>, detach: bool): (r: map<int, Option<int>>)
    ensures r.Keys == groups.Keys
  {
    map g | g in groups ::
      if g in chosen then Some(project)
      else if detach && groups[g] == Some(project) then None
      else groups[g]
  }

  /** Departments after the "move" mode: the chosen ones join `project`; with `detach`, the others leave it. */
  function MoveDepartments(deps: map<int, Department>, project: int, chosen: set<int>, detach: bool): (r: map<int, Department>)
    ensures r.Keys == deps.Keys
    ensures forall x :: x in deps ==> r[x] == deps[x].(project := r[x].project)
  {
    map x | x in deps ::
      if x in chosen then deps[x].(project := Some(project))
      else if detach && deps[x].project == Some(project) then deps[x].(project := None)
      else deps[x]
  }

  /** After attaching with `detach`, a group is in the project exactly when it was chosen. */
  lemma AttachWithDetachIsExact(groups: map<int, Option<int>>, project: int, chosen: set<int>)
    ensures var r := AttachGroups(groups, project, chosen, true);
      forall g :: g in groups ==> (r[g] == Some(project) <==> g in chosen)
  {
  }

  /** Without `detach`, attaching only adds groups to the project. */
  lemma AttachWithoutDetachKeeps(groups: map<int, Option<int>>, project: int, chosen: set<int>)
    ensures var r := AttachGroups(groups, project, chosen, false);
      forall g :: g in groups ==> (r[g] == Some(project) <==> g in chosen || groups[g] == Some(project))
  {
  }

  /** After moving with `detach`, a department is in the project exactly when it was chosen. */
  lemma MoveWithDetachIsExact(deps: map<int, Department>, project: int, chosen: set<int>)
    ensures var r := MoveDepartments(deps, project, chosen, true);
      forall x :: x in deps ==> (r[x].project == Some(project) <==> x in chosen)
  {
  }

  /** Moving never touches the tree: every parent stays. */
  lemma MoveKeepsTree(deps: map<int, Department>, project: int, chosen: set<int>, detach: bool)
    requires ParentsBelow(deps) && TwoLevels(deps)
    ensures var r := MoveDepartments(deps, project, chosen, detach);
      ParentsBelow(r) && TwoLevels(r) && forall x :: x in deps ==> Level(r, x) == Level(deps, x)
  {
    var r := MoveDepartments(deps, project, chosen, detach);
    forall x | x in deps ensures Level(r, x) == Level(deps, x) {
      LevelFrame(deps, r, x);
    }
  }

  /** Rows added to a staff table outside department `d` leave the roster of `d` as it was. */
  lemma RosterFrame(d1: map<int, DepartmentMember>, d2: map<int, DepartmentMember>, d: int)
    requires forall x :: x in d1 ==> x in d2 && d2[x] == d1[x]
    requires forall x :: x in d2 && x !in d1 ==> d2[x].department != d
    ensures StaffOf(d2, d) == StaffOf(d1, d) && Roster(d2, d) == Roster(d1, d)
  {
    forall x ensures x in StaffOf(d2, d) <==> x in StaffOf(d1, d) {
      if x in d2 && x !in d1 { assert d2[x].department != d; }
    }
    SortedByRankFrame(StaffOf(d1, d), OrderRank(d1), OrderRank(d2));
  }

  /** Departments added outside the children of `d` leave those children as they were. */
  lemma ChildrenFrame(n1: map<int, Department>, n2: map<int, Department>, d: int)
    requires forall x :: x in n1 ==> x in n2 && n2[x] == n1[x]
    requires forall x :: x in n2 && x !in n1 ==> n2[x].parent != Some(d)
    ensures ChildrenOf(n2, d) == ChildrenOf(n1, d)
  {
    forall x ensures x in ChildrenOf(n2, d) <==> x in ChildrenOf(n1, d) {
      if x in n2 && x !in n1 { assert n2[x].parent != Some(d); }
    }
  }

  /** A leaf copy stays one while rows are added elsewhere. */
  lemma LeafCopiedFrame(o: map<int, Department>, od: map<int, DepartmentMember>,
                        n1: map<int, Department>, nd1: map<int, DepartmentMember>,
                        n2: map<int, Department>, nd2: map<int, DepartmentMember>,
                        src: int, dst: int, project: int, parent: Option<int>)
    requires LeafCopied(o, od, n1, nd1, src, dst, project, parent)
    requires forall x :: x in n1 ==> x in n2 && n2[x] == n1[x]
    requires forall x :: x in n2 && x !in n1 ==> n2[x].parent != Some(dst)
    requires forall x :: x in nd1 ==> x in nd2 && nd2[x] == nd1[x]
    requires forall x :: x in nd2 && x !in nd1 ==> nd2[x].department != dst
    ensures LeafCopied(o, od, n2, nd2, src, dst, project, parent)
  {
    RosterFrame(nd1, nd2, dst);
    ChildrenFrame(n1, n2, dst);
  }

  /** The rows of one department's roster belong to different users. */
  lemma RosterUsersDistinct(dms: map<int, DepartmentMember>, d: int)
    requires UniqueStaff(dms)
    ensures var r := Roster(dms, d);
      forall i, j :: 0 <= i < j < |r| ==> dms[r[i]].user != dms[r[j]].user
  {
    SortedByAscending(StaffOf(dms, d), OrderRank(dms));
    var r := Roster(dms, d);
    forall i, j | 0 <= i < j < |r| ensures dms[r[i]].user != dms[r[j]].user {
      assert RankedBefore(OrderRank(dms), r[i], r[j]);
    }
  }

  /** Row `base + i` of `nd` is a copy, in department `dst`, of row `r[i]` of `od`, for every `i < n`. */
  predicate CopiedFrom(od: map<int, DepartmentMember>, nd: map<int, DepartmentMember>, r: seq<int>, n: int, dst: int, base: int) {
    forall i :: 0 <= i < n ==> i < |r| && r[i] in od && base + i in nd && nd[base + i] == od[r[i]].(department := dst)
  }

  /** Writing the copy of `r[n]` under id `base + n` extends the copies by one. */
  lemma CopiedFromStep(od: map<int, DepartmentMember>, nd: map<int, DepartmentMember>, r: seq<int>, n: nat, dst: int, base: int)
    requires CopiedFrom(od, nd, r, n, dst, base) && n < |r| && r[n] in od
    ensures CopiedFrom(od, nd[base + n := od[r[n]].(department := dst)], r, n + 1, dst, base)
  {
  }

  /**
   * While the roster `r` of distinct users is copied into the empty
   * department `dst`, the next user to copy is not yet on its staff.
   */
  lemma NextCopyIsNew(od: map<int, DepartmentMember>, nd: map<int, DepartmentMember>, r: seq<int>, n: nat, dst: int, base: int)
    requires n < |r| && forall i :: 0 <= i < |r| ==> r[i] in od
    requires forall i, j :: 0 <= i < j < |r| ==> od[r[i]].user != od[r[j]].user
    requires forall x :: x in od ==> x in nd && nd[x] == od[x] && od[x].department != dst
    requires forall x :: x in nd && x !in od ==> base <= x < base + n
    requires CopiedFrom(od, nd, r, n, dst, base)
    ensures !HasStaff(nd, dst, od[r[n]].user)
  {
    forall x | x in nd && nd[x].department == dst ensures nd[x].user != od[r[n]].user {
      assert x !in od;
      assert nd[base + (x - base)] == od[r[x - base]].(department := dst);
    }
  }

  /** The ids `base`, `base + 1`, ..., `base + n - 1`. */
  function Consecutive(base: int, n: nat): (ids: seq<int>)
    ensures |ids| == n && forall i :: 0 <= i < n ==> ids[i] == base + i
  {
    if n == 0 then [] else Consecutive(base, n - 1) + [base + n - 1]
  }

  /** The rows created under consecutive ids from `base` are exactly the staff of `dst`. */
  lemma CopiesAreTheStaff(od: map<int, DepartmentMember>, nd: map<int, DepartmentMember>, r: seq<int>,
                          dst: int, base: int)
    requires forall x :: x in od ==> x < base && x in nd && nd[x] == od[x] && od[x].department != dst
    requires forall x :: x in nd ==> x in od || base <= x < base + |r|
    requires CopiedFrom(od, nd, r, |r|, dst, base)
    ensures forall x :: x in Consecutive(base, |r|) <==> x in StaffOf(nd, dst)
  {
    var created := Consecutive(base, |r|);
    forall x | x in created ensures x in StaffOf(nd, dst) {
      var i :| 0 <= i < |created| && created[i] == x;
      assert r[i] in od && nd[base + i] == od[r[i]].(department := dst);
    }
    forall x | x in StaffOf(nd, dst) ensures x in created {
      assert x !in od;
      assert created[x - base] == x;
    }
  }

  /** Copies made in roster order under increasing ids keep the (order_index, id) order. */
  lemma CopiesAscend(od: map<int, DepartmentMember>, nd: map<int, DepartmentMember>, r: seq<int>,
                     dst: int, base: int)
    requires CopiedFrom(od, nd, r, |r|, dst, base)
    requires forall k :: 0 <= k < |r| ==> r[k] in OrderRank(od)
    requires Ascending(r, OrderRank(od))
    ensures var created := Consecutive(base, |r|);
      && (forall k :: 0 <= k < |created| ==> created[k] in OrderRank(nd))
      && Ascending(created, OrderRank(nd))
  {
    var created := Consecutive(base, |r|);
    var rank := OrderRank(nd);
    forall k | 0 <= k < |created| ensures created[k] in rank {
      assert r[k] in od && base + k in nd;
    }
    forall i, j | 0 <= i < j < |created| ensures RankedBefore(rank, created[i], created[j]) {
      assert r[i] in od && nd[base + i] == od[r[i]].(department := dst);
      assert r[j] in od && nd[base + j] == od[r[j]].(department := dst);
      assert RankedBefore(OrderRank(od), r[i], r[j]);
    }
  }

  /**
   * Copies of the roster of `src` created under consecutive ids from `base`
   * form the roster of `dst`, in the same order.
   */
  lemma CopiesInOrder(od: map<int, DepartmentMember>, nd: map<int, DepartmentMember>, src: int, dst: int,
                      base: int, r: seq<int>)
    requires r == Roster(od, src)
    requires forall x :: x in od ==> x < base && x in nd && nd[x] == od[x] && od[x].department != dst
    requires forall x :: x in nd ==> x in od || base <= x < base + |r|
    requires CopiedFrom(od, nd, r, |r|, dst, base)
    ensures RosterCopied(od, nd, src, dst)
  {
    SortedByAscending(StaffOf(od, src), OrderRank(od));
    var created := Consecutive(base, |r|);
    CopiesFormRoster(od, nd, r, dst, base);
    ConsecutiveCopies(od, nd, r, dst, base);
  }

  /** The row under the k-th consecutive id is the copy of the k-th listed row. */
  lemma ConsecutiveCopies(od: map<int, DepartmentMember>, nd: map<int, DepartmentMember>, r: seq<int>, dst: int, base: int)
    requires CopiedFrom(od, nd, r, |r|, dst, base)
    ensures var created := Consecutive(base, |r|);
      forall k :: 0 <= k < |r| ==> created[k] in nd && nd[created[k]] == od[r[k]].(department := dst)
  {
    var created := Consecutive(base, |r|);
    forall k | 0 <= k < |r| ensures created[k] in nd && nd[created[k]] == od[r[k]].(department := dst) {
      assert created[k] == base + k;
    }
  }

  /** The copies, listed by id, are the roster of `dst`. */
  lemma CopiesFormRoster(od: map<int, DepartmentMember>, nd: map<int, DepartmentMember>, r: seq<int>, dst: int, base: int)
    requires forall x :: x in od ==> x < base && x in nd && nd[x] == od[x] && od[x].department != dst
    requires forall x :: x in nd ==> x in od || base <= x < base + |r|
    requires CopiedFrom(od, nd, r, |r|, dst, base)
    requires forall k :: 0 <= k < |r| ==> r[k] in OrderRank(od)
    requires Ascending(r, OrderRank(od))
    ensures Roster(nd, dst) == Consecutive(base, |r|)
  {
    CopiesAreTheStaff(od, nd, r, dst, base);
    CopiesAscend(od, nd, r, dst, base);
    AscendingIsSorted(Consecutive(base, |r|), StaffOf(nd, dst), OrderRank(nd));
  }

  /** A leaf copy made from a later state of the tables is a copy of the same rows of an earlier state. */
  lemma LeafCopiedSource(o: map<int, Department>, od: map<int, DepartmentMember>,
                         o1: map<int, Department>, od1: map<int, DepartmentMember>,
                         n: map<int, Department>, nd: map<int, DepartmentMember>,
                         src: int, dst: int, project: int, parent: Option<int>)
    requires LeafCopied(o1, od1, n, nd, src, dst, project, parent)
    requires src in o
    requires forall x :: x in o ==> x in o1 && o1[x] == o[x]
    requires forall x :: x in od ==> x in od1 && od1[x] == od[x]
    requires forall x :: x in od1 && x !in od ==> od1[x].department !in o
    ensures LeafCopied(o, od, n, nd, src, dst, project, parent)
  {
    RosterFrame(od, od1, src);
  }

  /** A child of a department of a two-level tree has no children, even after copies are added under another department. */
  lemma KidIsLeaf(o: map<int, Department>, n: map<int, Department>, src: int, kid: int, dst: int)
    requires ParentsBelow(o) && TwoLevels(o)
    requires kid in o && o[kid].parent == Some(src) && kid != dst
    requires forall x :: x in o ==> x in n && n[x] == o[x]
    requires forall x :: x in n && x !in o ==> n[x].parent == Some(dst)
    ensures ChildrenOf(n, kid) == {}
  {
    forall x | x in n ensures n[x].parent != Some(kid) {
      if x in o {
        assert o[kid].parent.Some?;
      }
    }
  }

  /**
   * One round of the children loop of `clone_department_tree`: the copies
   * made so far stay leaf copies, and the new copy `c` of `kids[k]` joins
   * them as the newest child of `dst`.
   */
  lemma CloneStep(o: map<int, Department>, od: map<int, DepartmentMember>,
                  n1: map<int, Department>, nd1: map<int, DepartmentMember>,
                  n2: map<int, Department>, nd2: map<int, DepartmentMember>,
                  kids: seq<int>, copies: seq<int>, k: nat, c: int, dst: int, project: int)
    requires k < |kids| && |copies| == k && kids[k] in o && dst in n1 && c !in n1
    requires forall i :: 0 <= i < k ==> copies[i] in n1 && copies[i] != dst
    requires forall i :: 0 <= i < k ==> LeafCopied(o, od, n1, nd1, kids[i], copies[i], project, Some(dst))
    requires forall x :: x in ChildrenOf(n1, dst) <==> x in copies
    requires forall x :: x in o ==> x in n1 && n1[x] == o[x]
    requires forall x :: x in od ==> x in nd1 && nd1[x] == od[x]
    requires forall x :: x in nd1 && x !in od ==> nd1[x].department !in o
    // what the recursive call promises
    requires LeafCopied(n1, nd1, n2, nd2, kids[k], c, project, Some(dst))
    requires forall x :: x in n1 ==> x in n2 && n2[x] == n1[x]
    requires forall x :: x in n2 && x !in n1 ==> x == c || n2[x].parent == Some(c)
    requires forall x :: x in nd1 ==> x in nd2 && nd2[x] == nd1[x]
    requires forall x :: x in nd2 && x !in nd1 ==> nd2[x].department !in n1
    ensures forall i :: 0 <= i < k + 1 ==> LeafCopied(o, od, n2, nd2, kids[i], (copies + [c])[i], project, Some(dst))
    ensures forall x :: x in ChildrenOf(n2, dst) <==> x in copies + [c]
    ensures forall x :: x in n2 && x !in n1 ==> x == c && n2[x].parent == Some(dst)
  {
    forall x | x in n2 && x !in n1 ensures x == c {
      assert x !in ChildrenOf(n2, c);
    }
    forall i | 0 <= i < k
      ensures LeafCopied(o, od, n2, nd2, kids[i], (copies + [c])[i], project, Some(dst))
    {
      assert (copies + [c])[i] == copies[i];
      LeafCopiedFrame(o, od, n1, nd1, n2, nd2, kids[i], copies[i], project, Some(dst));
    }
    LeafCopiedSource(o, od, n1, nd1, n2, nd2, kids[k], c, project, Some(dst));
    assert (copies + [c])[k] == c;
  }

  /** A roster copy stays one while rows are added outside its department. */
  lemma RosterCopiedFrame(od: map<int, DepartmentMember>, nd1: map<int, DepartmentMember>, nd2: map<int, DepartmentMember>,
                          src: int, dst: int)
    requires RosterCopied(od, nd1, src, dst)
    requires forall x :: x in nd1 ==> x in nd2 && nd2[x] == nd1[x]
    requires forall x :: x in nd2 && x !in nd1 ==> nd2[x].department != dst
    ensures RosterCopied(od, nd2, src, dst)
  {
    RosterFrame(nd1, nd2, dst);
    RowsCopiedFrame(od, nd1, nd2, Roster(od, src), Roster(nd1, dst), dst);
  }

  /** Copies stay copies while the rows holding them are left as they were. */
  lemma RowsCopiedFrame(od: map<int, DepartmentMember>, nd1: map<int, DepartmentMember>, nd2: map<int, DepartmentMember>,
                        from: seq<int>, to: seq<int>, dst: int)
    requires |to| == |from|
    requires forall k :: 0 <= k < |from| ==> from[k] in od && to[k] in nd1
    requires forall x :: x in nd1 ==> x in nd2 && nd2[x] == nd1[x]
    requires forall k :: 0 <= k < |from| ==> nd1[to[k]] == od[from[k]].(department := dst)
    ensures forall k :: 0 <= k < |from| ==> to[k] in nd2 && nd2[to[k]] == od[from[k]].(department := dst)
  {
    forall k | 0 <= k < |from| ensures to[k] in nd2 && nd2[to[k]] == od[from[k]].(department := dst) {
      var x := to[k];
      assert x in nd1;
    }
  }

  /**
   * A copied node whose children were then copied as leaves is a copied
   * tree, seen from the tables before the node was copied.
   */
  lemma TreeCopiedFromParts(o: map<int, Department>, od: map<int, DepartmentMember>,
                            m: map<int, Department>, md: map<int, DepartmentMember>,
                            n: map<int, Department>, nd: map<int, DepartmentMember>,
                            src: int, dst: int, project: int, parent: Option<int>)
    // the node copy
    requires NodeCopied(o, m, src, dst, project, parent) && RosterCopied(od, md, src, dst) && dst !in o
    requires forall x :: x in o ==> x in m && m[x] == o[x]
    requires forall x :: x in od ==> x in md && md[x] == od[x]
    requires forall x :: x in md && x !in od ==> md[x].department == dst
    requires ChildrenOf(m, src) == ChildrenOf(o, src)
    // the children copies
    requires var kids, copies := SortedIds(ChildrenOf(m, src)), SortedIds(ChildrenOf(n, dst));
      |copies| == |kids| && forall k :: 0 <= k < |kids| ==> LeafCopied(m, md, n, nd, kids[k], copies[k], project, Some(dst))
    requires forall x :: x in m ==> x in n && n[x] == m[x]
    requires forall x :: x in md ==> x in nd && nd[x] == md[x]
    requires forall x :: x in nd && x !in md ==> nd[x].department !in m
    ensures TreeCopied(o, od, n, nd, src, dst, project, parent)
    ensures ChildrenOf(o, src) == {} ==> LeafCopied(o, od, n, nd, src, dst, project, parent)
  {
    RosterCopiedFrame(od, md, nd, src, dst);
    var kids, copies := SortedIds(ChildrenOf(m, src)), SortedIds(ChildrenOf(n, dst));
    forall k | 0 <= k < |kids| ensures LeafCopied(o, od, n, nd, kids[k], copies[k], project, Some(dst)) {
      assert kids[k] in kids;
      LeafCopiedSource(o, od, m, md, n, nd, kids[k], copies[k], project, Some(dst));
    }
  }

  /** Appending an id larger than every id of an increasing list keeps it increasing. */
  lemma AppendIncreasing(s: seq<int>, c: int)
    requires forall i, j :: 0 <= i < j < |s| ==> s[i] < s[j]
    requires forall i :: 0 <= i < |s| ==> s[i] < c
    ensures forall i, j :: 0 <= i < j < |s| + 1 ==> (s + [c])[i] < (s + [c])[j]
  {
  }

  /**
   * The state of the children loop of `clone_department_tree` once `copies`
   * have been made: from the tables `o`, `od` with next id `base` to `n`,
   * `nd` with next id `next`, the first children of `src` (listed in `kids`)
   * have leaf copies under `dst`, in increasing id order, and nothing else
   * was written.
   */
  ghost predicate ChildrenCopiedSoFar(o: map<int, Department>, od: map<int, DepartmentMember>,
                                n: map<int, Department>, nd: map<int, DepartmentMember>,
                                kids: seq<int>, copies: seq<int>, dst: int, project: int, base: int, next: int) {
    && |copies| <= |kids|
    && (forall i :: 0 <= i < |copies| ==> LeafCopied(o, od, n, nd, kids[i], copies[i], project, Some(dst)))
    && (forall i :: 0 <= i < |copies| ==> dst < copies[i] < next)
    && (forall i, j :: 0 <= i < j < |copies| ==> copies[i] < copies[j])
    && (forall x :: x in ChildrenOf(n, dst) <==> x in copies)
    && (forall x :: x in o ==> x in n && n[x] == o[x])
    && (forall x :: x in n && x !in o ==> base <= x < next && n[x].parent == Some(dst) && n[x].project == Some(project))
    && (forall x :: x in od ==> x in nd && nd[x] == od[x])
    && (forall x :: x in nd && x !in od ==> base <= x < next && nd[x].department !in o)
  }

  /** One round of the children loop keeps `ChildrenCopiedSoFar`, one copy longer. */
  lemma ChildrenLoopStep(o: map<int, Department>, od: map<int, DepartmentMember>,
                         n1: map<int, Department>, nd1: map<int, DepartmentMember>,
                         n2: map<int, Department>, nd2: map<int, DepartmentMember>,
                         kids: seq<int>, copies: seq<int>, c: int, dst: int, project: int,
                         base: int, next1: int, next2: int)
    requires ChildrenCopiedSoFar(o, od, n1, nd1, kids, copies, dst, project, base, next1)
    requires |copies| < |kids| && kids[|copies|] in o && dst in o && dst < base
    // what the recursive call promises
    requires c !in n1 && base <= next1 <= c < next2
    requires LeafCopied(n1, nd1, n2, nd2, kids[|copies|], c, project, Some(dst))
    requires forall x :: x in n1 ==> x in n2 && n2[x] == n1[x]
    requires forall x :: x in n2 && x !in n1 ==> next1 <= x < next2 && (x == c || n2[x].parent == Some(c))
    requires forall x :: x in nd1 ==> x in nd2 && nd2[x] == nd1[x]
    requires forall x :: x in nd2 && x !in nd1 ==> next1 <= x < next2 && nd2[x].department !in n1
    ensures ChildrenCopiedSoFar(o, od, n2, nd2, kids, copies + [c], dst, project, base, next2)
  {
    ChildrenStepCopies(o, od, n1, nd1, n2, nd2, kids, copies, c, dst, project, base, next1, next2);
    ChildrenStepIds(copies, c, dst, base, next1, next2);
    ChildrenStepFrame(o, od, n1, nd1, n2, nd2, kids[|copies|], c, dst, project, base, next1, next2);
  }

  /** The leaf copies and the children of `dst` after one round of the children loop. */
  lemma ChildrenStepCopies(o: map<int, Department>, od: map<int, DepartmentMember>,
                           n1: map<int, Department>, nd1: map<int, DepartmentMember>,
                           n2: map<int, Department>, nd2: map<int, DepartmentMember>,
                           kids: seq<int>, copies: seq<int>, c: int, dst: int, project: int,
                           base: int, next1: int, next2: int)
    requires ChildrenCopiedSoFar(o, od, n1, nd1, kids, copies, dst, project, base, next1)
    requires |copies| < |kids| && kids[|copies|] in o && dst in o
    requires c !in n1
    requires LeafCopied(n1, nd1, n2, nd2, kids[|copies|], c, project, Some(dst))
    requires forall x :: x in n1 ==> x in n2 && n2[x] == n1[x]
    requires forall x :: x in n2 && x !in n1 ==> x == c || n2[x].parent == Some(c)
    requires forall x :: x in nd1 ==> x in nd2 && nd2[x] == nd1[x]
    requires forall x :: x in nd2 && x !in nd1 ==> nd2[x].department !in n1
    ensures forall i :: 0 <= i < |copies| + 1 ==> LeafCopied(o, od, n2, nd2, kids[i], (copies + [c])[i], project, Some(dst))
    ensures forall x :: x in ChildrenOf(n2, dst) <==> x in copies + [c]
    ensures forall x :: x in n2 && x !in n1 ==> x == c
  {
    var k := |copies|;
    assert forall i :: 0 <= i < k ==> copies[i] in n1 && copies[i] != dst by {
      forall i | 0 <= i < k ensures copies[i] in n1 && copies[i] != dst {
        assert copies[i] in ChildrenOf(n1, dst);
      }
    }
    CloneStep(o, od, n1, nd1, n2, nd2, kids, copies, k, c, dst, project);
  }

  /** The ids of the copies after one round of the children loop: increasing, between `dst` and the next id. */
  lemma ChildrenStepIds(copies: seq<int>, c: int, dst: int, base: int, next1: int, next2: int)
    requires forall i :: 0 <= i < |copies| ==> dst < copies[i] < next1
    requires forall i, j :: 0 <= i < j < |copies| ==> copies[i] < copies[j]
    requires dst < base <= next1 <= c < next2
    ensures forall i :: 0 <= i < |copies| + 1 ==> dst < (copies + [c])[i] < next2
    ensures forall i, j :: 0 <= i < j < |copies| + 1 ==> (copies + [c])[i] < (copies + [c])[j]
  {
    AppendIncreasing(copies, c);
  }

  /** What one round of the children loop writes besides the copies: one new child of `dst` and staff outside the old tables. */
  lemma ChildrenStepFrame(o: map<int, Department>, od: map<int, DepartmentMember>,
                          n1: map<int, Department>, nd1: map<int, DepartmentMember>,
                          n2: map<int, Department>, nd2: map<int, DepartmentMember>,
                          kid: int, c: int, dst: int, project: int, base: int, next1: int, next2: int)
    requires forall x :: x in o ==> x in n1 && n1[x] == o[x]
    requires forall x :: x in n1 && x !in o ==> base <= x < next1 && n1[x].parent == Some(dst) && n1[x].project == Some(project)
    requires forall x :: x in od ==> x in nd1 && nd1[x] == od[x]
    requires forall x :: x in nd1 && x !in od ==> base <= x < next1 && nd1[x].department !in o
    requires base <= next1 <= next2
    requires NodeCopied(n1, n2, kid, c, project, Some(dst))
    requires forall x :: x in n1 ==> x in n2 && n2[x] == n1[x]
    requires forall x :: x in n2 && x !in n1 ==> next1 <= x < next2 && x == c
    requires forall x :: x in nd1 ==> x in nd2 && nd2[x] == nd1[x]
    requires forall x :: x in nd2 && x !in nd1 ==> next1 <= x < next2 && nd2[x].department !in n1
    ensures forall x :: x in o ==> x in n2 && n2[x] == o[x]
    ensures forall x :: x in n2 && x !in o ==> base <= x < next2 && n2[x].parent == Some(dst) && n2[x].project == Some(project)
    ensures forall x :: x in od ==> x in nd2 && nd2[x] == od[x]
    ensures forall x :: x in nd2 && x !in od ==> base <= x < next2 && nd2[x].department !in o
  {
    forall x | x in n2 && x !in o
      ensures base <= x < next2 && n2[x].parent == Some(dst) && n2[x].project == Some(project)
    {
      if x !in n1 {
        assert x == c && n2[c] == Department(Some(project), n1[kid].name, Some(dst), n1[kid].leadRole);
      }
    }
    forall x | x in nd2 && x !in od ensures base <= x < next2 && nd2[x].department !in o {
      if x !in nd1 {
        assert nd2[x].department !in n1;
      }
    }
  }

  /** A copied tree stays one while departments are added outside it and staff is added to other departments. */
  lemma TreeCopiedFrame(o: map<int, Department>, od: map<int, DepartmentMember>,
                        n1: map<int, Department>, nd1: map<int, DepartmentMember>,
                        n2: map<int, Department>, nd2: map<int, DepartmentMember>,
                        src: int, dst: int, project: int, parent: Option<int>)
    requires TreeCopied(o, od, n1, nd1, src, dst, project, parent)
    requires forall x :: x in n1 ==> x in n2 && n2[x] == n1[x]
    requires forall x :: x in n2 && x !in n1 ==> n2[x].parent.None? || n2[x].parent.value !in n1
    requires forall x :: x in nd1 ==> x in nd2 && nd2[x] == nd1[x]
    requires forall x :: x in nd2 && x !in nd1 ==> nd2[x].department !in n1
    ensures TreeCopied(o, od, n2, nd2, src, dst, project, parent)
  {
    RosterCopiedFrame(od, nd1, nd2, src, dst);
    ChildrenFrame(n1, n2, dst);
    var kids, copies := SortedIds(ChildrenOf(o, src)), SortedIds(ChildrenOf(n1, dst));
    forall k | 0 <= k < |kids| ensures LeafCopied(o, od, n2, nd2, kids[k], copies[k], project, Some(dst)) {
      assert copies[k] in copies;
      LeafCopiedFrame(o, od, n1, nd1, n2, nd2, kids[k], copies[k], project, Some(dst));
    }
  }

  /** A tree copied from a later state of the tables is a copy of the same tree of an earlier state. */
  lemma TreeCopiedSource(o: map<int, Department>, od: map<int, DepartmentMember>,
                         o1: map<int, Department>, od1: map<int, DepartmentMember>,
                         n: map<int, Department>, nd: map<int, DepartmentMember>,
                         src: int, dst: int, project: int, parent: Option<int>)
    requires TreeCopied(o1, od1, n, nd, src, dst, project, parent) && src in o
    requires forall x :: x in o ==> x in o1 && o1[x] == o[x]
    requires forall x :: x in o1 && x !in o ==> o1[x].parent.None? || o1[x].parent.value !in o
    requires forall x :: x in od ==> x in od1 && od1[x] == od[x]
    requires forall x :: x in od1 && x !in od ==> od1[x].department !in o
    ensures TreeCopied(o, od, n, nd, src, dst, project, parent)
  {
    RosterCopiedSource(od, od1, nd, src, dst, o);
    KidsCopiedSource(o, od, o1, od1, n, nd, src, dst, project);
  }

  /** A roster copied from a later state of the staff table is a copy of the same roster of an earlier state. */
  lemma RosterCopiedSource(od: map<int, DepartmentMember>, od1: map<int, DepartmentMember>, nd: map<int, DepartmentMember>,
                           src: int, dst: int, o: map<int, Department>)
    requires RosterCopied(od1, nd, src, dst) && src in o
    requires forall x :: x in od ==> x in od1 && od1[x] == od[x]
    requires forall x :: x in od1 && x !in od ==> od1[x].department !in o
    ensures RosterCopied(od, nd, src, dst)
  {
    assert forall x :: x in od1 && x !in od ==> od1[x].department != src;
    RosterFrame(od, od1, src);
    RowsCopiedSource(od, od1, nd, Roster(od, src), Roster(nd, dst), dst);
  }

  /** Rows copied from rows of a later state of the staff table that an earlier state already held are copies of the earlier rows. */
  lemma RowsCopiedSource(od: map<int, DepartmentMember>, od1: map<int, DepartmentMember>, nd: map<int, DepartmentMember>,
                         from: seq<int>, to: seq<int>, dst: int)
    requires |to| == |from|
    requires forall k :: 0 <= k < |from| ==> from[k] in od && from[k] in od1 && od1[from[k]] == od[from[k]] && to[k] in nd
    requires forall k :: 0 <= k < |from| ==> nd[to[k]] == od1[from[k]].(department := dst)
    ensures forall k :: 0 <= k < |from| ==> nd[to[k]] == od[from[k]].(department := dst)
  {
  }

  /** The children copies of a tree copied from a later state of the tables copy the same children of an earlier state. */
  lemma KidsCopiedSource(o: map<int, Department>, od: map<int, DepartmentMember>,
                         o1: map<int, Department>, od1: map<int, DepartmentMember>,
                         n: map<int, Department>, nd: map<int, DepartmentMember>,
                         src: int, dst: int, project: int)
    requires src in o
    requires var kids, copies := SortedIds(ChildrenOf(o1, src)), SortedIds(ChildrenOf(n, dst));
      |copies| == |kids| && forall k :: 0 <= k < |kids| ==> LeafCopied(o1, od1, n, nd, kids[k], copies[k], project, Some(dst))
    requires forall x :: x in o ==> x in o1 && o1[x] == o[x]
    requires forall x :: x in o1 && x !in o ==> o1[x].parent.None? || o1[x].parent.value !in o
    requires forall x :: x in od ==> x in od1 && od1[x] == od[x]
    requires forall x :: x in od1 && x !in od ==> od1[x].department !in o
    ensures var kids, copies := SortedIds(ChildrenOf(o, src)), SortedIds(ChildrenOf(n, dst));
      |copies| == |kids| && forall k :: 0 <= k < |kids| ==> LeafCopied(o, od, n, nd, kids[k], copies[k], project, Some(dst))
  {
    ChildrenFrame(o, o1, src);
    var kids, copies := SortedIds(ChildrenOf(o, src)), SortedIds(ChildrenOf(n, dst));
    forall k | 0 <= k < |kids| ensures LeafCopied(o, od, n, nd, kids[k], copies[k], project, Some(dst)) {
      assert kids[k] in kids;
      LeafCopiedSource(o, od, o1, od1, n, nd, kids[k], copies[k], project, Some(dst));
    }
  }

  /** `ProjectAdmin.save_model`'s choice of mode: an empty choice means "copy". */
  function AttachMode(choice: Option<string>): (mode: string)
    ensures mode == "copy" <==> choice.None? || choice.value == "" || choice.value == "copy"
  {
    if choice.None? || choice.value == "" then "copy" else choice.value
  }

  /**
   * Each of the first `|copies|` chosen departments that has a copy has a
   * copied tree from `o`, `od` in `n`, `nd`, rooted at that copy.
   */
  ghost predicate TreesCopied(o: map<int, Department>, od: map<int, DepartmentMember>,
                              n: map<int, Department>, nd: map<int, DepartmentMember>,
                              chosen: seq<int>, copies: seq<Option<int>>, project: int)
    requires |copies| <= |chosen|
    decreases |copies|
  {
    copies == [] ||
    var last := |copies| - 1;
    && TreesCopied(o, od, n, nd, chosen, copies[..last], project)
    && (copies[last].Some? ==> TreeCopied(o, od, n, nd, chosen[last], copies[last].value, project, None))
  }

  /** `TreesCopied` read one template at a time. */
  lemma {:induction false} TreesCopiedAt(o: map<int, Department>, od: map<int, DepartmentMember>,
                                         n: map<int, Department>, nd: map<int, DepartmentMember>,
                                         chosen: seq<int>, copies: seq<Option<int>>, project: int, j: int)
    requires |copies| <= |chosen| && TreesCopied(o, od, n, nd, chosen, copies, project)
    requires 0 <= j < |copies| && copies[j].Some?
    ensures TreeCopied(o, od, n, nd, chosen[j], copies[j].value, project, None)
    decreases |copies|
  {
    var last := |copies| - 1;
    if j < last {
      assert copies[..last][j] == copies[j];
      TreesCopiedAt(o, od, n, nd, chosen, copies[..last], project, j);
    }
  }

  /**
   * The state of the template loop of `ProjectAdmin.save_model` once
   * `copies` are decided: from `o`, `od` to `n`, `nd`, each of the first
   * chosen departments outside `project` has a copied tree, and nothing
   * else but rows of those copies was written.
   */
  ghost predicate TemplatesCopiedSoFar(o: map<int, Department>, od: map<int, DepartmentMember>,
                                       n: map<int, Department>, nd: map<int, DepartmentMember>,
                                       chosen: seq<int>, copies: seq<Option<int>>, project: int) {
    && |copies| <= |chosen|
    && (forall j :: 0 <= j < |copies| ==> chosen[j] in o && (copies[j].Some? <==> o[chosen[j]].project != Some(project)))
    && TreesCopied(o, od, n, nd, chosen, copies, project)
    && (forall x :: x in o ==> x in n && n[x] == o[x])
    && (forall x :: x in n && x !in o ==> n[x].project == Some(project) && (n[x].parent.None? || n[x].parent.value !in o))
    && (forall x :: x in od ==> x in nd && nd[x] == od[x])
    && (forall x :: x in nd && x !in od ==> nd[x].department !in o)
  }

  /** A chosen department already in the project is skipped. */
  lemma TemplateSkipped(o: map<int, Department>, od: map<int, DepartmentMember>,
                        n: map<int, Department>, nd: map<int, DepartmentMember>,
                        chosen: seq<int>, copies: seq<Option<int>>, project: int)
    requires TemplatesCopiedSoFar(o, od, n, nd, chosen, copies, project)
    requires |copies| < |chosen| && chosen[|copies|] in o && o[chosen[|copies|]].project == Some(project)
    ensures TemplatesCopiedSoFar(o, od, n, nd, chosen, copies + [None], project)
  {
    assert (copies + [None])[..|copies|] == copies;
    TemplatesDecided(o, chosen, copies, project, None);
  }

  /** The decision for the next template is recorded: a copy exactly when it is outside the project. */
  lemma TemplatesDecided(o: map<int, Department>, chosen: seq<int>, copies: seq<Option<int>>, project: int, next: Option<int>)
    requires |copies| < |chosen| && chosen[|copies|] in o && (next.Some? <==> o[chosen[|copies|]].project != Some(project))
    requires forall j :: 0 <= j < |copies| ==> chosen[j] in o && (copies[j].Some? <==> o[chosen[j]].project != Some(project))
    ensures var copies' := copies + [next];
      forall j :: 0 <= j < |copies'| ==> chosen[j] in o && (copies'[j].Some? <==> o[chosen[j]].project != Some(project))
  {
    var copies' := copies + [next];
    forall j | 0 <= j < |copies'| ensures chosen[j] in o && (copies'[j].Some? <==> o[chosen[j]].project != Some(project)) {
      if j < |copies| { assert copies'[j] == copies[j]; }
    }
  }

  /** One clone in the template loop keeps the copies made so far, and adds the copy `c` of the next template. */
  lemma TemplateCopied(o: map<int, Department>, od: map<int, DepartmentMember>,
                       n1: map<int, Department>, nd1: map<int, DepartmentMember>,
                       n2: map<int, Department>, nd2: map<int, DepartmentMember>,
                       chosen: seq<int>, copies: seq<Option<int>>, project: int, c: int)
    requires TemplatesCopiedSoFar(o, od, n1, nd1, chosen, copies, project)
    requires |copies| < |chosen| && chosen[|copies|] in o && o[chosen[|copies|]].project != Some(project)
    // what the clone of the template promises
    requires TreeCopied(n1, nd1, n2, nd2, chosen[|copies|], c, project, None) && c !in n1
    requires forall x :: x in n1 ==> x in n2 && n2[x] == n1[x]
    requires forall x :: x in n2 && x !in n1 ==> (x == c || n2[x].parent == Some(c)) && n2[x].project == Some(project)
    requires forall x :: x in nd1 ==> x in nd2 && nd2[x] == nd1[x]
    requires forall x :: x in nd2 && x !in nd1 ==> nd2[x].department !in n1
    ensures TemplatesCopiedSoFar(o, od, n2, nd2, chosen, copies + [Some(c)], project)
  {
    TemplateTreesStep(o, od, n1, nd1, n2, nd2, chosen, copies, project, c);
    TemplatesDecided(o, chosen, copies, project, Some(c));
    TemplateFrameStep(o, od, n1, nd1, n2, nd2, chosen[|copies|], project, c);
  }

  /** The trees copied so far stay copies, and the new one joins them. */
  lemma TemplateTreesStep(o: map<int, Department>, od: map<int, DepartmentMember>,
                          n1: map<int, Department>, nd1: map<int, DepartmentMember>,
                          n2: map<int, Department>, nd2: map<int, DepartmentMember>,
                          chosen: seq<int>, copies: seq<Option<int>>, project: int, c: int)
    requires |copies| < |chosen| && chosen[|copies|] in o
    requires TreesCopied(o, od, n1, nd1, chosen, copies, project)
    requires forall x :: x in o ==> x in n1 && n1[x] == o[x]
    requires forall x :: x in n1 && x !in o ==> n1[x].parent.None? || n1[x].parent.value !in o
    requires forall x :: x in od ==> x in nd1 && nd1[x] == od[x]
    requires forall x :: x in nd1 && x !in od ==> nd1[x].department !in o
    requires TreeCopied(n1, nd1, n2, nd2, chosen[|copies|], c, project, None) && c !in n1
    requires forall x :: x in n1 ==> x in n2 && n2[x] == n1[x]
    requires forall x :: x in n2 && x !in n1 ==> x == c || n2[x].parent == Some(c)
    requires forall x :: x in nd1 ==> x in nd2 && nd2[x] == nd1[x]
    requires forall x :: x in nd2 && x !in nd1 ==> nd2[x].department !in n1
    ensures TreesCopied(o, od, n2, nd2, chosen, copies + [Some(c)], project)
  {
    assert TreesCopied(o, od, n2, nd2, chosen, copies, project) by {
      forall x | x in n2 && x !in n1 ensures n2[x].parent.None? || n2[x].parent.value !in n1 {
        if x == c {
          assert NodeCopied(n1, n2, chosen[|copies|], c, project, None);
        }
      }
      CopiedTreesKept(o, od, n1, nd1, n2, nd2, chosen, copies, project);
    }
    assert TreeCopied(o, od, n2, nd2, chosen[|copies|], c, project, None) by {
      TreeCopiedSource(o, od, n1, nd1, n2, nd2, chosen[|copies|], c, project, None);
    }
    TreesCopiedAppend(o, od, n2, nd2, chosen, copies, project, c);
  }

  lemma TreesCopiedAppend(o: map<int, Department>, od: map<int, DepartmentMember>,
                          n: map<int, Department>, nd: map<int, DepartmentMember>,
                          chosen: seq<int>, copies: seq<Option<int>>, project: int, c: int)
    requires |copies| < |chosen| && TreesCopied(o, od, n, nd, chosen, copies, project)
    requires TreeCopied(o, od, n, nd, chosen[|copies|], c, project, None)
    ensures TreesCopied(o, od, n, nd, chosen, copies + [Some(c)], project)
  {
    var copies' := copies + [Some(c)];
    assert copies'[..|copies|] == copies;
    assert copies'[|copies|] == Some(c);
  }

  /** Copying one template adds departments of the project outside the old tables and staff of those departments only. */
  lemma TemplateFrameStep(o: map<int, Department>, od: map<int, DepartmentMember>,
                          n1: map<int, Department>, nd1: map<int, DepartmentMember>,
                          n2: map<int, Department>, nd2: map<int, DepartmentMember>,
                          d: int, project: int, c: int)
    requires forall x :: x in o ==> x in n1 && n1[x] == o[x]
    requires forall x :: x in n1 && x !in o ==> n1[x].project == Some(project) && (n1[x].parent.None? || n1[x].parent.value !in o)
    requires forall x :: x in od ==> x in nd1 && nd1[x] == od[x]
    requires forall x :: x in nd1 && x !in od ==> nd1[x].department !in o
    requires NodeCopied(n1, n2, d, c, project, None) && c !in n1
    requires forall x :: x in n1 ==> x in n2 && n2[x] == n1[x]
    requires forall x :: x in n2 && x !in n1 ==> (x == c || n2[x].parent == Some(c)) && n2[x].project == Some(project)
    requires forall x :: x in nd1 ==> x in nd2 && nd2[x] == nd1[x]
    requires forall x :: x in nd2 && x !in nd1 ==> nd2[x].department !in n1
    ensures forall x :: x in o ==> x in n2 && n2[x] == o[x]
    ensures forall x :: x in n2 && x !in o ==> n2[x].project == Some(project) && (n2[x].parent.None? || n2[x].parent.value !in o)
    ensures forall x :: x in od ==> x in nd2 && nd2[x] == od[x]
    ensures forall x :: x in nd2 && x !in od ==> nd2[x].department !in o
  {
    forall x | x in n2 && x !in o
      ensures n2[x].project == Some(project) && (n2[x].parent.None? || n2[x].parent.value !in o)
    {
      if x !in n1 && x != c {
        assert c !in o;
      }
    }
    forall x | x in nd2 && x !in od ensures nd2[x].department !in o {
      if x !in nd1 {
        assert nd2[x].department !in n1;
      }
    }
  }

  /** The trees copied so far stay copies while a new, separate tree is added. */
  lemma {:induction false} CopiedTreesKept(o: map<int, Department>, od: map<int, DepartmentMember>,
                                           n1: map<int, Department>, nd1: map<int, DepartmentMember>,
                                           n2: map<int, Department>, nd2: map<int, DepartmentMember>,
                                           chosen: seq<int>, copies: seq<Option<int>>, project: int)
    requires |copies| <= |chosen| && TreesCopied(o, od, n1, nd1, chosen, copies, project)
    requires forall x :: x in n1 ==> x in n2 && n2[x] == n1[x]
    requires forall x :: x in n2 && x !in n1 ==> n2[x].parent.None? || n2[x].parent.value !in n1
    requires forall x :: x in nd1 ==> x in nd2 && nd2[x] == nd1[x]
    requires forall x :: x in nd2 && x !in nd1 ==> nd2[x].department !in n1
    ensures TreesCopied(o, od, n2, nd2, chosen, copies, project)
    decreases |copies|
  {
    if copies != [] {
      var last := |copies| - 1;
      CopiedTreesKept(o, od, n1, nd1, n2, nd2, chosen, copies[..last], project);
      if copies[last].Some? {
        TreeCopiedFrame(o, od, n1, nd1, n2, nd2, chosen[last], copies[last].value, project, None);
      }
    }
  }

  // ---------------------------------------------------------------- staff assignment

  /** Whether `pms` holds a row equal to `m`. */
  predicate HasMember(pms: map<int, ProjectMember>, m: ProjectMember) {
    exists x :: x in pms && pms[x] == m
  }

  /**
   * From `m1` to `m2` the only rows removed are general rows of `user` with
   * a role in `roles`, the only rows added are department rows of `user`
   * with a role in `roles`, and no row was changed.
   */
  predicate MembersTouched(m1: map<int, ProjectMember>, m2: map<int, ProjectMember>, user: int, roles: set<int>) {
    && (forall x :: x in m1 && !(m1[x].user == user && m1[x].role in roles && m1[x].department.None?) ==> x in m2)
    && (forall x :: x in m1 && x in m2 ==> m2[x] == m1[x])
    && (forall x :: x in m2 && x !in m1 ==> m2[x].user == user && m2[x].role in roles && m2[x].department.Some?)
  }

  lemma MembersTouchedTrans(m1: map<int, ProjectMember>, m2: map<int, ProjectMember>, m3: map<int, ProjectMember>,
                            user: int, roles1: set<int>, roles2: set<int>)
    requires MembersTouched(m1, m2, user, roles1) && MembersTouched(m2, m3, user, roles2)
    requires forall x :: x in m1 && x in m3 ==> x in m2  // ids are not reused
    ensures MembersTouched(m1, m3, user, roles1 + roles2)
  {
  }

  /** Department rows are never removed or changed, and general rows never added or changed. */
  predicate KeepsAssignments(m1: map<int, ProjectMember>, m2: map<int, ProjectMember>) {
    && (forall x :: x in m1 && m1[x].department.Some? ==> x in m2 && m2[x] == m1[x])
    && (forall x :: x in m2 && m2[x].department.None? ==> x in m1 && m1[x] == m2[x])
  }

  lemma TouchedKeepsAssignments(m1: map<int, ProjectMember>, m2: map<int, ProjectMember>, user: int, roles: set<int>)
    requires MembersTouched(m1, m2, user, roles)
    ensures KeepsAssignments(m1, m2)
  {
  }

  lemma KeepsAssignmentsTrans(m1: map<int, ProjectMember>, m2: map<int, ProjectMember>, m3: map<int, ProjectMember>)
    requires KeepsAssignments(m1, m2) && KeepsAssignments(m2, m3)
    ensures KeepsAssignments(m1, m3)
  {
  }

  /** A department-level membership, once made, stays. */
  lemma DepartmentRowKept(m1: map<int, ProjectMember>, m2: map<int, ProjectMember>, m: ProjectMember)
    requires KeepsAssignments(m1, m2) && m.department.Some? && HasMember(m1, m)
    ensures HasMember(m2, m)
  {
    var x :| x in m1 && m1[x] == m;
    assert x in m2;
  }

  /** A general membership, once gone, stays gone. */
  lemma GeneralRowStaysGone(m1: map<int, ProjectMember>, m2: map<int, ProjectMember>, g: ProjectMember)
    requires KeepsAssignments(m1, m2) && g.department.None? && !HasMember(m1, g)
    ensures !HasMember(m2, g)
  {
    forall x | x in m2 && m2[x].department.None? ensures m2[x] != g {
      assert x in m1 && m1[x] == m2[x];
    }
  }

  /**
   * The only staff rows added from `s1` to `s2` are default rows of `user`
   * with `role` in departments of `ds`, with ids from `firstId` on; none changed.
   */
  predicate StaffAddedTo(s1: map<int, DepartmentMember>, s2: map<int, DepartmentMember>, ds: set<int>, user: int, role: int, firstId: int) {
    && (forall x :: x in s1 ==> x in s2 && s2[x] == s1[x])
    && (forall x :: x in s2 && x !in s1 ==>
          s2[x] == DepartmentMember(s2[x].department, user, role, 0, false, false) && s2[x].department in ds && firstId <= x)
  }

  /**
   * The staff side of the children loop of the "parent only" branch once
   * the first `i` children in `order` are done: each has a staff row of
   * `user`, and `count` rows were created, all of them default rows.
   */
  ghost predicate StaffSoFar(o: map<int, Department>, os: map<int, DepartmentMember>, s: map<int, DepartmentMember>,
                             user: int, role: int, parent: int, order: seq<int>, i: int, count: int, base: int) {
    && 0 <= i <= |order|
    && (forall k :: 0 <= k < i ==> HasStaff(s, order[k], user))
    && count == |s.Keys - os.Keys|
    && StaffAddedTo(os, s, ChildrenOf(o, parent), user, role, base)
  }

  /**
   * The membership side of the same loop: each of the first `i` children
   * has a project and a department-level membership of `user` with `role`.
   */
  ghost predicate MembersSoFar(o: map<int, Department>, om: map<int, ProjectMember>, m: map<int, ProjectMember>,
                               user: int, role: int, order: seq<int>, i: int) {
    && 0 <= i <= |order|
    && (forall k :: 0 <= k < i ==> order[k] in o && o[order[k]].project.Some?)
    && (forall k :: 0 <= k < i ==> HasMember(m, ProjectMember(user, o[order[k]].project.value, role, Some(order[k]))))
    && MembersTouched(om, m, user, {role})
  }

  /** Creating one more default row of `user` in a department of `ds` keeps `StaffAddedTo`. */
  lemma StaffAddedStep(os: map<int, DepartmentMember>, s1: map<int, DepartmentMember>, s2: map<int, DepartmentMember>,
                       ds: set<int>, user: int, role: int, base: int, created: bool, next1: int, d: int)
    requires StaffAddedTo(os, s1, ds, user, role, base) && d in ds && base <= next1
    requires !created ==> s2 == s1
    requires created ==> next1 !in s1 && s2 == s1[next1 := DepartmentMember(d, user, role, 0, false, false)]
    ensures StaffAddedTo(os, s2, ds, user, role, base)
  {
  }

  /** Staff rows that stay keep every department they staff. */
  lemma StaffKept(s1: map<int, DepartmentMember>, s2: map<int, DepartmentMember>, order: seq<int>, i: int, user: int)
    requires 0 <= i <= |order|
    requires forall x :: x in s1 ==> x in s2 && s2[x] == s1[x]
    requires forall k :: 0 <= k < i ==> HasStaff(s1, order[k], user)
    ensures forall k :: 0 <= k < i ==> HasStaff(s2, order[k], user)
  {
    forall k | 0 <= k < i ensures HasStaff(s2, order[k], user) {
      assert HasStaff(s1, order[k], user);
      var y :| y in s1 && s1[y].department == order[k] && s1[y].user == user;
      assert y in s2 && s2[y] == s1[y];
    }
  }

  /** One child of the "parent only" branch keeps `StaffSoFar`, one child further. */
  lemma StaffStep(o: map<int, Department>, os: map<int, DepartmentMember>,
                  s1: map<int, DepartmentMember>, s2: map<int, DepartmentMember>,
                  user: int, role: int, parent: int, order: seq<int>, i: int, count: int, created: bool, base: int, next1: int)
    requires StaffSoFar(o, os, s1, user, role, parent, order, i, count, base) && i < |order|
    requires order[i] in ChildrenOf(o, parent) && base <= next1
    // what `AssignChild` promises
    requires HasStaff(s2, order[i], user)
    requires !created ==> s2 == s1
    requires created ==> next1 !in s1 && s2 == s1[next1 := DepartmentMember(order[i], user, role, 0, false, false)]
    ensures StaffSoFar(o, os, s2, user, role, parent, order, i + 1, count + if created then 1 else 0, base)
  {
    assert forall k :: 0 <= k < i + 1 ==> HasStaff(s2, order[k], user) by {
      StaffKept(s1, s2, order, i, user);
      forall k | 0 <= k < i + 1 ensures HasStaff(s2, order[k], user) {
        if k == i { assert order[k] == order[i]; }
      }
    }
    assert |s2.Keys - os.Keys| == count + if created then 1 else 0 by {
      assert os.Keys <= s1.Keys by {
        forall x | x in os.Keys ensures x in s1.Keys { assert x in os; }
      }
      NewRowCount(os, s1, s2, created, next1, DepartmentMember(order[i], user, role, 0, false, false));
    }
    assert StaffAddedTo(os, s2, ChildrenOf(o, parent), user, role, base) by {
      StaffAddedStep(os, s1, s2, ChildrenOf(o, parent), user, role, base, created, next1, order[i]);
    }
  }

  /** One created row adds one to the number of rows not among the old keys. */
  lemma NewRowCount<V>(os: map<int, V>, s1: map<int, V>, s2: map<int, V>, created: bool, id: int, row: V)
    requires os.Keys <= s1.Keys
    requires !created ==> s2 == s1
    requires created ==> id !in s1 && s2 == s1[id := row]
    ensures |s2.Keys - os.Keys| == |s1.Keys - os.Keys| + if created then 1 else 0
  {
    if created {
      KeyUpdateCount(os, s1, id, row);
    }
  }

  lemma KeyUpdateCount<V>(os: map<int, V>, s1: map<int, V>, id: int, row: V)
    requires os.Keys <= s1.Keys && id !in s1
    ensures |s1[id := row].Keys - os.Keys| == |s1.Keys - os.Keys| + 1
  {
    assert s1[id := row].Keys == s1.Keys + {id};
    KeyAddedCount(os.Keys, s1.Keys, id);
  }

  lemma KeyAddedCount(oldKeys: set<int>, keys: set<int>, id: int)
    requires oldKeys <= keys && id !in keys
    ensures |(keys + {id}) - oldKeys| == |keys - oldKeys| + 1
  {
    var b := keys - oldKeys;
    assert (keys + {id}) - oldKeys == b + {id};
  }

  /** One child of the "parent only" branch keeps `MembersSoFar`, one child further. */
  lemma MembersStep(o: map<int, Department>, om: map<int, ProjectMember>, m1: map<int, ProjectMember>, m2: map<int, ProjectMember>,
                    user: int, role: int, order: seq<int>, i: int, next1: int)
    requires MembersSoFar(o, om, m1, user, role, order, i) && i < |order|
    requires order[i] in o && o[order[i]].project.Some?
    requires forall x :: x in om ==> x < next1
    // what `AssignChild` promises
    requires HasMember(m2, ProjectMember(user, o[order[i]].project.value, role, Some(order[i])))
    requires MembersTouched(m1, m2, user, {role})
    requires forall x :: x in m2 && x !in m1 ==> next1 <= x
    ensures MembersSoFar(o, om, m2, user, role, order, i + 1)
  {
    MembersTouchedTrans(om, m1, m2, user, {role}, {role});
    forall k | 0 <= k < i
      ensures HasMember(m2, ProjectMember(user, o[order[k]].project.value, role, Some(order[k])))
    {
      assert HasMember(m1, ProjectMember(user, o[order[k]].project.value, role, Some(order[k])));
      var x :| x in m1 && m1[x] == ProjectMember(user, o[order[k]].project.value, role, Some(order[k]));
      assert x in m2;
    }
  }

  /**
   * Deleting the general row of the parent's project at the end of the
   * "parent only" branch keeps the department-level memberships made.
   */
  lemma GeneralRowRemoved(o: map<int, Department>, om: map<int, ProjectMember>, m: map<int, ProjectMember>,
                          user: int, role: int, parent: int, order: seq<int>, project: int)
    requires MembersSoFar(o, om, m, user, role, order, |order|)
    requires forall c :: c in ChildrenOf(o, parent) <==> c in order
    ensures var m' := DeleteGeneral(m, project, user, role);
      && MembersTouched(om, m', user, {role})
      && !HasMember(m', ProjectMember(user, project, role, None))
      && forall c :: c in ChildrenOf(o, parent) ==> HasMember(m', ProjectMember(user, o[c].project.value, role, Some(c)))
  {
    var m' := DeleteGeneral(m, project, user, role);
    forall c | c in ChildrenOf(o, parent)
      ensures HasMember(m', ProjectMember(user, o[c].project.value, role, Some(c)))
    {
      var k :| 0 <= k < |order| && order[k] == c;
      assert HasMember(m, ProjectMember(user, o[c].project.value, role, Some(c)));
      var x :| x in m && m[x] == ProjectMember(user, o[c].project.value, role, Some(c));
      assert x in m';
    }
  }

  /** At the end of the children loop every child of `parent` is done. */
  lemma FanOutDone(o: map<int, Department>, os: map<int, DepartmentMember>, s: map<int, DepartmentMember>,
                   om: map<int, ProjectMember>, m: map<int, ProjectMember>,
                   user: int, role: int, parent: int, order: seq<int>, count: int, base: int)
    requires StaffSoFar(o, os, s, user, role, parent, order, |order|, count, base)
    requires MembersSoFar(o, om, m, user, role, order, |order|)
    requires forall c :: c in ChildrenOf(o, parent) <==> c in order
    ensures forall c :: c in ChildrenOf(o, parent) ==>
      && o[c].project.Some? && HasStaff(s, c, user)
      && HasMember(m, ProjectMember(user, o[c].project.value, role, Some(c)))
  {
    forall c | c in ChildrenOf(o, parent)
      ensures o[c].project.Some? && HasStaff(s, c, user) && HasMember(m, ProjectMember(user, o[c].project.value, role, Some(c)))
    {
      var k :| 0 <= k < |order| && order[k] == c;
    }
  }

  /**
   * One form of the user page's staff inline, as `UserAdmin.save_formset`
   * reads it: `Skipped` for a deleted, empty or DELETE-marked form;
   * otherwise the chosen parent department, sub-department and role, and
   * the stored row the form edits, if any.
   */
  datatype StaffForm = Skipped | Filled(parent: Option<int>, department: Option<int>, role: int, instance: Option<int>)

  /** What a saved form leaves in the project memberships of `user`, seen from the departments `o`. */
  ghost predicate FormApplied(o: map<int, Department>, m: map<int, ProjectMember>, user: int, f: StaffForm) {
    match f
    case Skipped => true
    case Filled(parent, dept, role, _) =>
      if parent.Some? && dept.None? then
        parent.value in o
        && (forall c :: c in ChildrenOf(o, parent.value) ==>
              o[c].project.Some? && HasMember(m, ProjectMember(user, o[c].project.value, role, Some(c))))
        && (o[parent.value].project.Some? ==> !HasMember(m, ProjectMember(user, o[parent.value].project.value, role, None)))
      else if dept.Some? && dept.value in o && o[dept.value].project.Some? then
        var p := o[dept.value].project.value;
        HasMember(m, ProjectMember(user, p, role, dept)) && !HasMember(m, ProjectMember(user, p, role, None))
      else true
  }

  /** What a form establishes stays established while memberships only grow by department rows and lose general rows. */
  lemma FormAppliedKept(o: map<int, Department>, m1: map<int, ProjectMember>, m2: map<int, ProjectMember>, user: int, f: StaffForm)
    requires FormApplied(o, m1, user, f) && KeepsAssignments(m1, m2)
    ensures FormApplied(o, m2, user, f)
  {
    match f
    case Skipped =>
    case Filled(parent, dept, role, _) =>
      if parent.Some? && dept.None? {
        forall c | c in ChildrenOf(o, parent.value)
          ensures HasMember(m2, ProjectMember(user, o[c].project.value, role, Some(c)))
        {
          DepartmentRowKept(m1, m2, ProjectMember(user, o[c].project.value, role, Some(c)));
        }
        if o[parent.value].project.Some? {
          GeneralRowStaysGone(m1, m2, ProjectMember(user, o[parent.value].project.value, role, None));
        }
      } else if dept.Some? && dept.value in o && o[dept.value].project.Some? {
        var p := o[dept.value].project.value;
        DepartmentRowKept(m1, m2, ProjectMember(user, p, role, dept));
        GeneralRowStaysGone(m1, m2, ProjectMember(user, p, role, None));
      }
  }

  /** The forms before `i` are applied. */
  ghost predicate FormsApplied(o: map<int, Department>, m: map<int, ProjectMember>, user: int, forms: seq<StaffForm>, i: int) {
    0 <= i <= |forms| && forall k :: 0 <= k < i ==> FormApplied(o, m, user, forms[k])
  }

  /** Applying form `i` keeps the earlier forms applied. */
  lemma FormsAppliedStep(o: map<int, Department>, m1: map<int, ProjectMember>, m2: map<int, ProjectMember>,
                         user: int, forms: seq<StaffForm>, i: int)
    requires FormsApplied(o, m1, user, forms, i) && i < |forms|
    requires KeepsAssignments(m1, m2) && FormApplied(o, m2, user, forms[i])
    ensures FormsApplied(o, m2, user, forms, i + 1)
  {
    forall k | 0 <= k < i + 1 ensures FormApplied(o, m2, user, forms[k]) {
      if k < i {
        FormAppliedKept(o, m1, m2, user, forms[k]);
      }
    }
  }

  /** Whether `x` is the stored row one of the forms edits. */
  predicate IsInstance(forms: seq<StaffForm>, x: int) {
    exists k :: 0 <= k < |forms| && forms[k].Filled? && forms[k].instance == Some(x)
  }

  /**
   * From `os` to `s` the staff rows were changed only by the user page:
   * new rows belong to `user` and have ids from `base` on, a row that
   * changed or went is a deleted row or one a form edits, and a deleted
   * row no form edits is gone.
   */
  ghost predicate StaffEdited(os: map<int, DepartmentMember>, s: map<int, DepartmentMember>, user: int,
                              deleted: seq<Option<int>>, forms: seq<StaffForm>, base: int) {
    && (forall x :: x in s && x !in os ==> s[x].user == user && base <= x)
    && (forall x :: x in os && (x !in s || s[x] != os[x]) ==> Some(x) in deleted || IsInstance(forms, x))
    && (forall x :: x in os && Some(x) in deleted && !IsInstance(forms, x) ==> x !in s)
  }

  /** A write of rows of `user` that are new or edited by a form keeps `StaffEdited`. */
  lemma StaffEditedStep(os: map<int, DepartmentMember>, s1: map<int, DepartmentMember>, s2: map<int, DepartmentMember>,
                        user: int, deleted: seq<Option<int>>, forms: seq<StaffForm>, base: int)
    requires StaffEdited(os, s1, user, deleted, forms, base)
    requires forall x :: x in os ==> x < base
    requires forall x :: IsInstance(forms, x) ==> x in os
    requires forall x :: x in s1 ==> x in s2 && (s2[x] == s1[x] || IsInstance(forms, x))
    requires forall x :: x in s2 && x !in s1 ==> s2[x].user == user && (base <= x || IsInstance(forms, x))
    ensures StaffEdited(os, s2, user, deleted, forms, base)
  {
  }

  /** One saved form of `UserAdmin.save_formset` keeps the loop's three invariants, one form further. */
  lemma FormStep(o: map<int, Department>, os: map<int, DepartmentMember>,
                 s1: map<int, DepartmentMember>, s2: map<int, DepartmentMember>,
                 om: map<int, ProjectMember>, m1: map<int, ProjectMember>, m2: map<int, ProjectMember>,
                 user: int, deleted: seq<Option<int>>, forms: seq<StaffForm>, i: int, base: int)
    requires 0 <= i < |forms| && forms[i].Filled?
    requires FormsApplied(o, m1, user, forms, i) && KeepsAssignments(om, m1)
    requires StaffEdited(os, s1, user, deleted, forms, base)
    requires forall x :: x in os ==> x < base
    requires forall x :: IsInstance(forms, x) ==> x in os
    // what `ApplyForm` promises
    requires FormApplied(o, m2, user, forms[i]) && MembersTouched(m1, m2, user, {forms[i].role})
    requires forall x :: x in s1 ==> x in s2 && (s2[x] == s1[x] || forms[i].instance == Some(x))
    requires forall x :: x in s2 && x !in s1 ==> s2[x].user == user && (base <= x || forms[i].instance == Some(x))
    ensures FormsApplied(o, m2, user, forms, i + 1) && KeepsAssignments(om, m2)
    ensures StaffEdited(os, s2, user, deleted, forms, base)
  {
    TouchedKeepsAssignments(m1, m2, user, {forms[i].role});
    KeepsAssignmentsTrans(om, m1, m2);
    if forms[i].instance.Some? {
      assert IsInstance(forms, forms[i].instance.value);
    }
    StaffEditedStep(os, s1, s2, user, deleted, forms, base);
    FormsAppliedStep(o, m1, m2, user, forms, i);
  }

  // ---------------------------------------------------------------- department staff inline

  /**
   * One form of the department page's staff inline (fields user and role),
   * in the order `formset.save()` handles them: the stored rows first, each
   * deleted or changed, then the new rows.
   */
  datatype StaffOp =
    | DeleteRow(id: int)
    | ChangeRow(id: int, user: int, role: int)
    | AddRow(user: int, role: int)

  /** The forms fit the inline of `dept`: the stored rows they name are rows of `dept`, each named once. */
  predicate OpsFit(s: map<int, DepartmentMember>, dept: int, ops: seq<StaffOp>) {
    && (forall k :: 0 <= k < |ops| && !ops[k].AddRow? ==> ops[k].id in s && s[ops[k].id].department == dept)
    && (forall a, b :: 0 <= a < b < |ops| && !ops[a].AddRow? && !ops[b].AddRow? ==> ops[a].id != ops[b].id)
  }

  /** The row a changing or adding form saves: the stored row with the form's user and role, or a new default row. */
  function OpRow(s: map<int, DepartmentMember>, dept: int, op: StaffOp): (row: DepartmentMember)
    requires !op.DeleteRow? && (op.ChangeRow? ==> op.id in s)
    ensures row.department == (if op.ChangeRow? then s[op.id].department else dept)
    ensures row.user == op.user && row.role == op.role
  {
    if op.ChangeRow? then s[op.id].(user := op.user, role := op.role)
    else DepartmentMember(dept, op.user, op.role, 0, false, false)
  }

  /**
   * `formset.save()` has handled the first `|ids|` forms, starting from the
   * staff `s0`: `ids[k]` is the row form `k` deleted or saved (a new row has
   * an id from `base` on), every other stored row is as it was, and no
   * other row was added.
   */
  ghost predicate OpsSaved(s0: map<int, DepartmentMember>, s: map<int, DepartmentMember>, dept: int,
                           ops: seq<StaffOp>, ids: seq<int>, base: int)
    requires OpsFit(s0, dept, ops)
  {
    && |ids| <= |ops|
    && (forall k :: 0 <= k < |ids| && !ops[k].AddRow? ==> ids[k] == ops[k].id)
    && (forall k :: 0 <= k < |ids| && ops[k].DeleteRow? ==> ids[k] !in s)
    && (forall k :: 0 <= k < |ids| && ops[k].AddRow? ==> base <= ids[k])
    && (forall k :: 0 <= k < |ids| && !ops[k].DeleteRow? ==> ids[k] in s && s[ids[k]] == OpRow(s0, dept, ops[k]))
    && (forall x :: x in s0 && x !in ids ==> x in s && s[x] == s0[x])
    && (forall x :: x in s && x !in s0 ==> x in ids)
  }

  /** Deleting the stored row of the next form keeps `OpsSaved`, one form further. */
  lemma DeleteOpStep(s0: map<int, DepartmentMember>, s1: map<int, DepartmentMember>, s2: map<int, DepartmentMember>,
                     dept: int, ops: seq<StaffOp>, ids: seq<int>, base: int)
    requires OpsFit(s0, dept, ops) && OpsSaved(s0, s1, dept, ops, ids, base)
    requires |ids| < |ops| && ops[|ids|].DeleteRow?
    requires forall x :: x in s0 ==> x < base
    requires s2 == s1 - {ops[|ids|].id}
    ensures OpsSaved(s0, s2, dept, ops, ids + [ops[|ids|].id], base)
  {
    var i, id := |ids|, ops[|ids|].id;
    var ids' := ids + [id];
    forall k | 0 <= k < |ids| && !ops[k].DeleteRow? ensures ids[k] != id {
      if ops[k].ChangeRow? { assert ops[k].id != ops[i].id; }
    }
    forall k | 0 <= k < |ids'| && !ops[k].DeleteRow? ensures ids'[k] in s2 && s2[ids'[k]] == OpRow(s0, dept, ops[k]) {
      assert ids'[k] == ids[k];
    }
  }

  /** Saving the row of the next form under `id` keeps `OpsSaved`, one form further. */
  lemma SaveOpStep(s0: map<int, DepartmentMember>, s1: map<int, DepartmentMember>, s2: map<int, DepartmentMember>,
                   dept: int, ops: seq<StaffOp>, ids: seq<int>, base: int, id: int)
    requires OpsFit(s0, dept, ops) && OpsSaved(s0, s1, dept, ops, ids, base)
    requires |ids| < |ops| && !ops[|ids|].DeleteRow?
    requires forall x :: x in s0 ==> x < base
    requires ops[|ids|].ChangeRow? ==> id == ops[|ids|].id
    requires ops[|ids|].AddRow? ==> base <= id && forall x :: x in s1 ==> x < id
    requires s2 == s1[id := OpRow(s0, dept, ops[|ids|])]
    ensures OpsSaved(s0, s2, dept, ops, ids + [id], base)
  {
    var i := |ids|;
    var ids' := ids + [id];
    forall k | 0 <= k < |ids| ensures ids[k] != id {
      if ops[k].AddRow? {
        if ops[i].ChangeRow? { assert ops[i].id in s0; }
        else if !ops[k].DeleteRow? { assert ids[k] in s1; }
      } else if ops[i].ChangeRow? {
        assert ops[k].id != ops[i].id;
      } else if ops[k].ChangeRow? {
        assert ids[k] in s1;
      } else {
        assert ops[k].id in s0;
      }
    }
    forall k | 0 <= k < |ids'| && !ops[k].DeleteRow? ensures ids'[k] in s2 && s2[ids'[k]] == OpRow(s0, dept, ops[k]) {
      if k < i { assert ids'[k] == ids[k]; }
    }
  }

  /** After the forms are saved, the staff of every other department is as it was. */
  lemma OtherDepartmentsKept(s0: map<int, DepartmentMember>, s: map<int, DepartmentMember>, dept: int,
                             ops: seq<StaffOp>, ids: seq<int>, base: int)
    requires OpsFit(s0, dept, ops) && OpsSaved(s0, s, dept, ops, ids, base) && |ids| == |ops|
    requires forall x :: x in s0 ==> x < base
    ensures forall x :: x in s && s[x].department != dept ==> x in s0 && s[x] == s0[x]
    ensures forall x :: x in s0 && s0[x].department != dept ==> x in s && s[x] == s0[x]
  {
    forall x | x in s && s[x].department != dept ensures x in s0 && s[x] == s0[x] {
      forall k | 0 <= k < |ids| ensures ids[k] != x {
        if ops[k].DeleteRow? {
          assert ids[k] !in s;
        } else {
          assert s[ids[k]].department == dept;
        }
      }
    }
    forall x | x in s0 && s0[x].department != dept ensures x in s && s[x] == s0[x] {
      forall k | 0 <= k < |ids| ensures ids[k] != x {
        if ops[k].AddRow? {
          assert base <= ids[k];
        } else {
          assert s0[ops[k].id].department == dept;
        }
      }
    }
  }

  /** After the forms are saved, the user of every changed or added row is on the staff of `dept`. */
  lemma SavedUsersOnStaff(s0: map<int, DepartmentMember>, s: map<int, DepartmentMember>, dept: int,
                          ops: seq<StaffOp>, ids: seq<int>, base: int)
    requires OpsFit(s0, dept, ops) && OpsSaved(s0, s, dept, ops, ids, base) && |ids| == |ops|
    ensures forall k :: 0 <= k < |ops| && !ops[k].DeleteRow? ==> HasStaff(s, dept, ops[k].user)
  {
    forall k | 0 <= k < |ops| && !ops[k].DeleteRow? ensures HasStaff(s, dept, ops[k].user) {
      var x := ids[k];
      assert x in s && s[x].department == dept && s[x].user == ops[k].user;
    }
  }

  /** The (user, role) pairs of the rows the forms save. */
  function SavedKeys(ops: seq<StaffOp>): (keys: set<(int, int)>)
    ensures forall k :: 0 <= k < |ops| && !ops[k].DeleteRow? ==> (ops[k].user, ops[k].role) in keys
    ensures forall key :: key in keys ==> exists k :: 0 <= k < |ops| && !ops[k].DeleteRow? && key == (ops[k].user, ops[k].role)
  {
    set k | 0 <= k < |ops| && !ops[k].DeleteRow? :: (ops[k].user, ops[k].role)
  }

  /**
   * From `m1` to `m2` the only rows removed are general rows of `project`
   * whose (user, role) is in `keys`, the only rows added are rows of `dept`
   * in `project` with such a pair, and no row was changed.
   */
  predicate MembersSynced(m1: map<int, ProjectMember>, m2: map<int, ProjectMember>, project: int, dept: int, keys: set<(int, int)>) {
    && (forall x :: x in m1 && !(m1[x].project == project && (m1[x].user, m1[x].role) in keys && m1[x].department.None?) ==> x in m2)
    && (forall x :: x in m1 && x in m2 ==> m2[x] == m1[x])
    && (forall x :: x in m2 && x !in m1 ==> m2[x].project == project && (m2[x].user, m2[x].role) in keys && m2[x].department == Some(dept))
  }

  /** `get_or_create` of a department row, then the deletion of the general rows of its key, is a sync of that key. */
  lemma SyncedByGetOrCreate(m0: map<int, ProjectMember>, m1: map<int, ProjectMember>, m2: map<int, ProjectMember>,
                            project: int, user: int, role: int, dept: int, id: int, created: bool)
    requires !created ==> m1 == m0
    requires created ==> id !in m0 && m1 == DeleteGeneral(m0[id := ProjectMember(user, project, role, Some(dept))], project, user, role)
    requires m2 == DeleteGeneral(m1, project, user, role)
    ensures MembersSynced(m0, m2, project, dept, {(user, role)})
  {
  }

  lemma MembersSyncedTrans(m1: map<int, ProjectMember>, m2: map<int, ProjectMember>, m3: map<int, ProjectMember>,
                           project: int, dept: int, keys1: set<(int, int)>, keys2: set<(int, int)>)
    requires MembersSynced(m1, m2, project, dept, keys1) && MembersSynced(m2, m3, project, dept, keys2)
    requires forall x :: x in m1 && x in m3 ==> x in m2  // ids are not reused
    ensures MembersSynced(m1, m3, project, dept, keys1 + keys2)
  {
  }

  lemma SyncedKeepsAssignments(m1: map<int, ProjectMember>, m2: map<int, ProjectMember>, project: int, dept: int, keys: set<(int, int)>)
    requires MembersSynced(m1, m2, project, dept, keys)
    ensures KeepsAssignments(m1, m2)
  {
  }

  /**
   * The membership side of the loop of `DepartmentAdmin.save_formset` once
   * the first `i` forms are done: every saved row before `i` has its
   * department-level membership and no general one.
   */
  ghost predicate SyncedSoFar(m0: map<int, ProjectMember>, m: map<int, ProjectMember>, project: int, dept: int,
                              ops: seq<StaffOp>, i: int) {
    && 0 <= i <= |ops|
    && (forall k :: 0 <= k < i && !ops[k].DeleteRow? ==>
          && HasMember(m, ProjectMember(ops[k].user, project, ops[k].role, Some(dept)))
          && !HasMember(m, ProjectMember(ops[k].user, project, ops[k].role, None)))
    && MembersSynced(m0, m, project, dept, SavedKeys(ops[..i]))
  }

  /** Syncing the membership of form `i` keeps `SyncedSoFar`, one form further. */
  lemma SyncStep(m0: map<int, ProjectMember>, m1: map<int, ProjectMember>, m2: map<int, ProjectMember>,
                 project: int, dept: int, ops: seq<StaffOp>, i: int)
    requires SyncedSoFar(m0, m1, project, dept, ops, i) && i < |ops|
    requires forall x :: x in m0 && x in m2 ==> x in m1
    requires !ops[i].DeleteRow? ==>
      && HasMember(m2, ProjectMember(ops[i].user, project, ops[i].role, Some(dept)))
      && !HasMember(m2, ProjectMember(ops[i].user, project, ops[i].role, None))
      && MembersSynced(m1, m2, project, dept, {(ops[i].user, ops[i].role)})
    requires ops[i].DeleteRow? ==> m2 == m1
    ensures SyncedSoFar(m0, m2, project, dept, ops, i + 1)
  {
    assert SavedKeys(ops[..i + 1]) == SavedKeys(ops[..i]) + (if ops[i].DeleteRow? then {} else {(ops[i].user, ops[i].role)}) by {
      assert ops[..i + 1] == ops[..i] + [ops[i]];
      KeysAppend(ops[..i], ops[i]);
    }
    if !ops[i].DeleteRow? {
      MembersSyncedTrans(m0, m1, m2, project, dept, SavedKeys(ops[..i]), {(ops[i].user, ops[i].role)});
      SyncedKeepsAssignments(m1, m2, project, dept, {(ops[i].user, ops[i].role)});
      forall k | 0 <= k < i && !ops[k].DeleteRow?
        ensures HasMember(m2, ProjectMember(ops[k].user, project, ops[k].role, Some(dept)))
        ensures !HasMember(m2, ProjectMember(ops[k].user, project, ops[k].role, None))
      {
        DepartmentRowKept(m1, m2, ProjectMember(ops[k].user, project, ops[k].role, Some(dept)));
        GeneralRowStaysGone(m1, m2, ProjectMember(ops[k].user, project, ops[k].role, None));
      }
    }
  }

  lemma KeysAppend(ops: seq<StaffOp>, op: StaffOp)
    ensures SavedKeys(ops + [op]) == SavedKeys(ops) + (if op.DeleteRow? then {} else {(op.user, op.role)})
  {
    var all := ops + [op];
    forall key | key in SavedKeys(all) ensures key in SavedKeys(ops) + (if op.DeleteRow? then {} else {(op.user, op.role)}) {
      var k :| 0 <= k < |all| && !all[k].DeleteRow? && key == (all[k].user, all[k].role);
      if k < |ops| { assert all[k] == ops[k]; }
    }
    forall key | key in SavedKeys(ops) ensures key in SavedKeys(all) {
      var k :| 0 <= k < |ops| && !ops[k].DeleteRow? && key == (ops[k].user, ops[k].role);
      assert all[k] == ops[k];
    }
    if !op.DeleteRow? {
      assert all[|ops|] == op;
    }
  }

  // ---------------------------------------------------------------- the tables

  class Database {
    var departments: map<int, Department>
    var staff: map<int, DepartmentMember>
    var members: map<int, ProjectMember>
    var groups: map<int, Option<int>>
    var nextId: int

    /** The tree rules and the unique constraints hold, and every id is below `nextId`. */
    predicate Valid()
      reads this
    {
      && 0 < nextId
      && ParentsBelow(departments) && TwoLevels(departments)
      && (forall id :: id in departments ==> id < nextId)
      && (forall id :: id in staff ==> 0 < id < nextId && staff[id].department in departments)
      && (forall id :: id in members ==> 0 < id < nextId)
      && UniqueStaff(staff) && UniqueMembers(members)
    }

    constructor ()
      ensures Valid()
      ensures departments == map[] && staff == map[] && members == map[] && groups == map[]
    {
      departments, staff, members, groups := map[], map[], map[], map[];
      nextId := 1;
    }

    /** `Department.get_level`: walk the parent pointers, counting. */
    method GetLevel(id: int) returns (level: int)
      requires Valid() && id in departments
      ensures level == Level(departments, id)
      ensures 1 <= level <= 2
    {
      level := 1;
      var p := departments[id].parent;
      while p.Some?
        invariant p.Some? ==> p.value in departments
        invariant level + (if p.Some? then Level(departments, p.value) else 0) == Level(departments, id)
        decreases if p.Some? then p.value else 0
      {
        level := level + 1;
        p := departments[p.value].parent;
      }
      TwoLevelsBoundLevel(departments, id);
    }

    /**
     * `Department.save` of the instance `d` with primary key `pk` (None for
     * `Department.objects.create`): the project rules, `full_clean`, then
     * the write. Returns the id written or the error raised.
     */
    method SaveDepartment(pk: Option<int>, d: Department) returns (r: Result<int, DepartmentError>)
      requires Valid()
      modifies this
      ensures Valid()
      ensures r.Ok? <==> PrepareDepartment(old(departments), pk, d).Ok?
      ensures r.Err? ==> r.error == PrepareDepartment(old(departments), pk, d).error && departments == old(departments)
      ensures r.Ok? ==> departments == old(departments)[r.value := PrepareDepartment(old(departments), pk, d).value]
      ensures r.Ok? ==> r.value == if pk.Some? then pk.value else old(nextId)
      ensures r.Ok? ==> Level(departments, r.value) <= 2
      ensures forall x :: x in old(departments) ==> Level(departments, x) == Level(old(departments), x)
      ensures staff == old(staff) && members == old(members) && groups == old(groups)
      ensures old(nextId) <= nextId
    {
      var prepared := PrepareDepartment(departments, pk, d);
      if prepared.Err? {
        return Err(prepared.error);
      }
      var id := if pk.Some? then pk.value else nextId;
      SavedLevelAtMostTwo(departments, pk, d, id);
      var deps' := departments[id := prepared.value];
      forall x | x in departments ensures Level(deps', x) == Level(departments, x) {
        LevelFrame(departments, deps', x);
      }
      departments := deps';
      if pk.None? {
        nextId := nextId + 1;
      }
      r := Ok(id);
    }

    /**
     * `ProjectMember.save` of `m` with primary key `pk`, in its own
     * transaction: the row is written, the unique constraints are checked,
     * and a department row removes the general row of its key.
     */
    method SaveProjectMember(pk: Option<int>, m: ProjectMember) returns (r: Result<int, MemberError>)
      requires Valid() && (pk.Some? ==> 0 < pk.value)
      modifies this
      ensures Valid()
      ensures var id := if pk.Some? then pk.value else old(nextId);
        var saved := SaveMember(old(members), id, m);
        && (r.Ok? <==> saved.Ok?)
        && (r.Ok? ==> r.value == id && members == saved.value)
      ensures r.Err? ==> r.error == IntegrityError && members == old(members)
      ensures departments == old(departments) && staff == old(staff) && groups == old(groups)
      ensures old(nextId) <= nextId
    {
      var id := if pk.Some? then pk.value else nextId;
      var saved := SaveMember(members, id, m);
      if saved.Err? {
        return Err(saved.error);
      }
      members := saved.value;
      if nextId <= id {
        nextId := id + 1;
      }
      r := Ok(id);
    }

    /** `ProjectMember.objects.get_or_create(project=…, user=…, role=…, department=d)`. */
    method GetOrCreateMember(project: int, user: int, role: int, d: int) returns (id: int, created: bool)
      requires Valid()
      modifies this
      ensures Valid()
      ensures id in members && members[id] == ProjectMember(user, project, role, Some(d))
      ensures created <==> !exists x :: x in old(members) && old(members)[x] == ProjectMember(user, project, role, Some(d))
      ensures !created ==> members == old(members)
      ensures created ==> id == old(nextId) && members == DeleteGeneral(old(members)[id := ProjectMember(user, project, role, Some(d))], project, user, role)
      ensures departments == old(departments) && staff == old(staff) && groups == old(groups)
      ensures old(nextId) <= nextId
    {
      var row := ProjectMember(user, project, role, Some(d));
      if exists x :: x in members && members[x] == row {
        id :| id in members && members[id] == row;
        created := false;
      } else {
        var r := SaveProjectMember(None, row);
        id := r.value;
        created := true;
      }
    }

    /** `ProjectMember.objects.filter(project=…, user=…, role=…, department__isnull=True).delete()`. */
    method DeleteGeneralMembers(project: int, user: int, role: int)
      requires Valid()
      modifies this
      ensures Valid()
      ensures members == DeleteGeneral(old(members), project, user, role)
      ensures departments == old(departments) && staff == old(staff) && groups == old(groups) && nextId == old(nextId)
    {
      members := DeleteGeneral(members, project, user, role);
    }

    /** `DepartmentMember.objects.get_or_create(user=…, department=d, defaults={"role": role})`. */
    method GetOrCreateStaff(user: int, d: int, role: int) returns (id: int, created: bool)
      requires Valid() && d in departments
      modifies this
      ensures Valid()
      ensures id in staff && staff[id].department == d && staff[id].user == user
      ensures created <==> !HasStaff(old(staff), d, user)
      ensures !created ==> staff == old(staff)
      ensures created ==> id == old(nextId) && staff == old(staff)[id := DepartmentMember(d, user, role, 0, false, false)]
      ensures departments == old(departments) && members == old(members) && groups == old(groups)
      ensures old(nextId) <= nextId
    {
      if exists x :: x in staff && staff[x].department == d && staff[x].user == user {
        id :| id in staff && staff[id].department == d && staff[id].user == user;
        created := false;
      } else {
        id := nextId;
        staff := staff[id := DepartmentMember(d, user, role, 0, false, false)];
        nextId := nextId + 1;
        created := true;
      }
    }

    /** `DepartmentMember.objects.create(...)` with the fields of `row` in department `d`. */
    method CreateStaff(row: DepartmentMember, d: int) returns (id: int)
      requires Valid() && d in departments && !HasStaff(staff, d, row.user)
      modifies this
      ensures Valid()
      ensures id == old(nextId) && id !in old(staff) && nextId == old(nextId) + 1
      ensures staff == old(staff)[id := row.(department := d)]
      ensures departments == old(departments) && members == old(members) && groups == old(groups)
    {
      id := nextId;
      staff := staff[id := row.(department := d)];
      nextId := nextId + 1;
    }

    /**
     * Create, in the empty department `dst`, a copy of each staff row listed
     * in `order`, one after the other; the rows belong to distinct users.
     */
    method CreateCopies(order: seq<int>, dst: int)
      requires Valid() && dst in departments
      requires forall i :: 0 <= i < |order| ==> order[i] in staff
      requires forall i, j :: 0 <= i < j < |order| ==> staff[order[i]].user != staff[order[j]].user
      requires forall x :: x in staff ==> staff[x].department != dst
      modifies this
      ensures Valid()
      ensures nextId == old(nextId) + |order|
      ensures CopiedFrom(old(staff), staff, order, |order|, dst, old(nextId))
      ensures forall x :: x in old(staff) ==> x in staff && staff[x] == old(staff)[x]
      ensures forall x :: x in staff && x !in old(staff) ==> old(nextId) <= x < nextId && staff[x].department == dst
      ensures departments == old(departments) && members == old(members) && groups == old(groups)
    {
      var rows := staff;
      ghost var base := nextId;
      for k := 0 to |order|
        invariant Valid()
        invariant departments == old(departments) && members == old(members) && groups == old(groups)
        invariant nextId == base + k
        invariant forall x :: x in old(staff) ==> x in staff && staff[x] == old(staff)[x]
        invariant forall x :: x in staff && x !in old(staff) ==> base <= x < nextId && staff[x].department == dst
        invariant CopiedFrom(old(staff), staff, order, k, dst, base)
      {
        var row := rows[order[k]];
        NextCopyIsNew(old(staff), staff, order, k, dst, base);
        ghost var before := staff;
        var _ := CreateStaff(row, dst);
        CopiedFromStep(old(staff), before, order, k, dst, base);
      }
    }

    /**
     * The staff loop of `clone_department_tree`: every member of `src`, in
     * (order_index, id) order, is created again in the new department `dst`.
     */
    method CopyRoster(src: int, dst: int)
      requires Valid() && dst in departments && StaffOf(staff, dst) == {}
      modifies this
      ensures Valid()
      ensures RosterCopied(old(staff), staff, src, dst)
      ensures forall x :: x in old(staff) ==> x in staff && staff[x] == old(staff)[x]
      ensures forall x :: x in staff && x !in old(staff) ==> old(nextId) <= x < nextId && staff[x].department == dst
      ensures departments == old(departments) && members == old(members) && groups == old(groups)
      ensures old(nextId) <= nextId
    {
      var order := Roster(staff, src);
      RosterUsersDistinct(staff, src);
      assert forall i :: 0 <= i < |order| ==> order[i] in order;
      assert forall x :: x in staff ==> staff[x].department != dst by {
        forall x | x in staff ensures staff[x].department != dst {
          assert x !in StaffOf(staff, dst);
        }
      }
      CreateCopies(order, dst);
      CopiesInOrder(old(staff), staff, src, dst, old(nextId), order);
    }

    /**
     * The first half of `clone_department_tree`: `Department.objects.create`
     * of the copy of `src`, then its staff.
     */
    method CloneNode(src: int, project: int, parent: Option<int>) returns (dst: int)
      requires Valid() && src in departments
      requires parent.Some? ==> && parent.value in departments && departments[parent.value].parent.None?
                                && departments[parent.value].project == Some(project)
      modifies this
      ensures Valid()
      ensures dst == old(nextId) && dst < nextId
      ensures departments == old(departments)[dst := Department(Some(project), old(departments)[src].name, parent, old(departments)[src].leadRole)]
      ensures RosterCopied(old(staff), staff, src, dst)
      ensures forall x :: x in old(staff) ==> x in staff && staff[x] == old(staff)[x]
      ensures forall x :: x in staff && x !in old(staff) ==> old(nextId) <= x < nextId && staff[x].department == dst
      ensures members == old(members) && groups == old(groups)
    {
      var source := departments[src];
      var saved := SaveDepartment(None, Department(Some(project), source.name, parent, source.leadRole));
      dst := saved.value;
      assert StaffOf(staff, dst) == {} by {
        forall x | x in staff ensures staff[x].department != dst {
          assert staff[x].department in old(departments);
        }
      }
      CopyRoster(src, dst);
    }

    /**
     * `clone_department_tree(src, project, parent)`: create a copy of `src`
     * in `project` under `parent`, copy its staff, then clone its children
     * in id order under the copy. Returns the copy's id.
     */
    method CloneTree(src: int, project: int, parent: Option<int>) returns (dst: int)
      requires Valid() && src in departments && parent != Some(src)
      requires parent.Some? ==> && parent.value in departments && departments[parent.value].parent.None?
                                && departments[parent.value].project == Some(project)
                                && ChildrenOf(departments, src) == {}
      modifies this
      ensures Valid()
      ensures dst !in old(departments) && old(nextId) <= dst < nextId
      ensures TreeCopied(old(departments), old(staff), departments, staff, src, dst, project, parent)
      ensures parent.Some? ==> LeafCopied(old(departments), old(staff), departments, staff, src, dst, project, parent)
      ensures forall x :: x in old(departments) ==> x in departments && departments[x] == old(departments)[x]
      ensures forall x :: x in departments && x !in old(departments) ==>
        old(nextId) <= x < nextId && (x == dst || departments[x].parent == Some(dst)) && departments[x].project == Some(project)
      ensures forall x :: x in old(staff) ==> x in staff && staff[x] == old(staff)[x]
      ensures forall x :: x in staff && x !in old(staff) ==> old(nextId) <= x < nextId && staff[x].department !in old(departments)
      ensures members == old(members) && groups == old(groups)
      decreases if ChildrenOf(departments, src) == {} then 0 else 1, 1
    {
      dst := CloneNode(src, project, parent);
      ghost var deps1, staff1 := departments, staff;
      assert ChildrenOf(departments, dst) == {} by {
        forall x | x in departments ensures departments[x].parent != Some(dst) {
          if x != dst { assert departments[x] == old(departments)[x]; }
        }
      }
      ChildrenFrame(old(departments), departments, src);
      CloneChildren(src, project, dst);
      TreeCopiedFromParts(old(departments), old(staff), deps1, staff1, departments, staff, src, dst, project, parent);
    }

    /** The children loop of `clone_department_tree`: each child of `src`, in id order, is cloned under `dst`. */
    method CloneChildren(src: int, project: int, dst: int)
      requires Valid() && src in departments && dst in departments && src != dst
      requires departments[dst].parent != Some(src) && departments[dst].project == Some(project)
      requires ChildrenOf(departments, src) != {} ==> departments[dst].parent.None?
      requires ChildrenOf(departments, dst) == {}
      modifies this
      ensures Valid()
      ensures var kids, copies := SortedIds(ChildrenOf(old(departments), src)), SortedIds(ChildrenOf(departments, dst));
        |copies| == |kids| &&
        forall k :: 0 <= k < |kids| ==> LeafCopied(old(departments), old(staff), departments, staff, kids[k], copies[k], project, Some(dst))
      ensures forall x :: x in old(departments) ==> x in departments && departments[x] == old(departments)[x]
      ensures forall x :: x in departments && x !in old(departments) ==>
        old(nextId) <= x < nextId && departments[x].parent == Some(dst) && departments[x].project == Some(project)
      ensures forall x :: x in old(staff) ==> x in staff && staff[x] == old(staff)[x]
      ensures forall x :: x in staff && x !in old(staff) ==> old(nextId) <= x < nextId && staff[x].department !in old(departments)
      ensures members == old(members) && groups == old(groups) && old(nextId) <= nextId
      decreases if ChildrenOf(departments, src) == {} then 0 else 1, 0
    {
      var kids := SortedIds(ChildrenOf(departments, src));
      ghost var copies: seq<int> := [];
      for k := 0 to |kids|
        invariant Valid() && |copies| == k
        invariant ChildrenCopiedSoFar(old(departments), old(staff), departments, staff, kids, copies, dst, project, old(nextId), nextId)
        invariant members == old(members) && groups == old(groups) && old(nextId) <= nextId
      {
        var kid := kids[k];
        assert kid in kids && kid in ChildrenOf(old(departments), src);
        KidIsLeaf(old(departments), departments, src, kid, dst);
        ghost var deps1, staff1, next1 := departments, staff, nextId;
        var c := CloneTree(kid, project, Some(dst));
        ChildrenLoopStep(old(departments), old(staff), deps1, staff1, departments, staff, kids, copies, c, dst, project,
                         old(nextId), next1, nextId);
        copies := copies + [c];
      }
      IncreasingIsSortedIds(copies, ChildrenOf(departments, dst));
    }

    /**
     * The "copy" mode of `ProjectAdmin.save_model`: every chosen department
     * that is not already in `project` is cloned into it as a new root.
     * `copies[i]` is the copy of `chosen[i]`, if one was made.
     */
    method CopyTemplates(project: int, chosen: seq<int>) returns (ghost copies: seq<Option<int>>)
      requires Valid() && forall i :: 0 <= i < |chosen| ==> chosen[i] in departments
      modifies this
      ensures Valid()
      ensures |copies| == |chosen|
      ensures forall i :: 0 <= i < |chosen| ==> (copies[i].Some? <==> old(departments)[chosen[i]].project != Some(project))
      ensures forall i :: 0 <= i < |chosen| && copies[i].Some? ==>
        TreeCopied(old(departments), old(staff), departments, staff, chosen[i], copies[i].value, project, None)
      ensures forall x :: x in old(departments) ==> x in departments && departments[x] == old(departments)[x]
      ensures forall x :: x in departments && x !in old(departments) ==> departments[x].project == Some(project)
      ensures forall x :: x in old(staff) ==> x in staff && staff[x] == old(staff)[x]
      ensures forall x :: x in staff && x !in old(staff) ==> staff[x].department !in old(departments)
      ensures members == old(members) && groups == old(groups)
    {
      copies := [];
      for i := 0 to |chosen|
        invariant Valid() && |copies| == i
        invariant TemplatesCopiedSoFar(old(departments), old(staff), departments, staff, chosen, copies, project)
        invariant members == old(members) && groups == old(groups)
      {
        var d := chosen[i];
        if departments[d].project != Some(project) {
          ghost var deps1, staff1 := departments, staff;
          var c := CloneTree(d, project, None);
          TemplateCopied(old(departments), old(staff), deps1, staff1, departments, staff, chosen, copies, project, c);
          copies := copies + [Some(c)];
        } else {
          TemplateSkipped(old(departments), old(staff), departments, staff, chosen, copies, project);
          copies := copies + [None];
        }
      }
      forall i | 0 <= i < |chosen| && copies[i].Some?
        ensures TreeCopied(old(departments), old(staff), departments, staff, chosen[i], copies[i].value, project, None)
      {
        TreesCopiedAt(old(departments), old(staff), departments, staff, chosen, copies, project, i);
      }
    }

    /**
     * `ProjectAdmin.save_model` after the project itself is saved: attach the
     * chosen groups (detaching the others on request), then copy or move the
     * chosen departments.
     */
    method SaveProject(project: int, chosenGroups: Option<set<int>>, detachGroups: bool,
                       chosenDepartments: Option<seq<int>>, mode: Option<string>, detachDepartments: bool)
      returns (ghost copies: seq<Option<int>>)
      requires Valid()
      requires chosenDepartments.Some? ==> forall i :: 0 <= i < |chosenDepartments.value| ==> chosenDepartments.value[i] in departments
      modifies this
      ensures Valid()
      ensures groups == if chosenGroups.None? then old(groups) else AttachGroups(old(groups), project, chosenGroups.value, detachGroups)
      ensures chosenDepartments.None? ==> departments == old(departments) && staff == old(staff)
      ensures chosenDepartments.Some? && AttachMode(mode) != "copy" ==>
        departments == MoveDepartments(old(departments), project, set i | 0 <= i < |chosenDepartments.value| :: chosenDepartments.value[i], detachDepartments)
        && staff == old(staff)
      ensures chosenDepartments.Some? && AttachMode(mode) == "copy" ==>
        var chosen := chosenDepartments.value;
        && |copies| == |chosen|
        && (forall i :: 0 <= i < |chosen| ==> (copies[i].Some? <==> old(departments)[chosen[i]].project != Some(project)))
        && (forall i :: 0 <= i < |chosen| && copies[i].Some? ==>
              TreeCopied(old(departments), old(staff), departments, staff, chosen[i], copies[i].value, project, None))
        && (forall x :: x in old(departments) ==> x in departments && departments[x] == old(departments)[x])
        && (forall x :: x in old(staff) ==> x in staff && staff[x] == old(staff)[x])
      ensures members == old(members)
    {
      if chosenGroups.Some? {
        groups := AttachGroups(groups, project, chosenGroups.value, detachGroups);
      }
      copies := [];
      if chosenDepartments.Some? {
        var chosen := chosenDepartments.value;
        if AttachMode(mode) == "copy" {
          copies := CopyTemplates(project, chosen);
        } else {
          var ids := set i | 0 <= i < |chosen| :: chosen[i];
          MoveKeepsTree(departments, project, ids, detachDepartments);
          departments := MoveDepartments(departments, project, ids, detachDepartments);
        }
      }
    }

    /** `inst.delete()` of a staff row; deleting a row that is not there changes nothing. */
    method DeleteStaff(id: int)
      requires Valid()
      modifies this
      ensures Valid()
      ensures staff == old(staff) - {id}
      ensures departments == old(departments) && members == old(members) && groups == old(groups) && nextId == old(nextId)
    {
      staff := staff - {id};
    }

    /**
     * `obj.save()` of a staff row: `pk` None inserts under a new id, a
     * primary key writes that row; the (department, user) constraint
     * refuses a second row of the same user in the department.
     */
    method SaveStaffRow(pk: Option<int>, row: DepartmentMember) returns (r: Result<int, MemberError>)
      requires Valid() && row.department in departments && (pk.Some? ==> 0 < pk.value)
      modifies this
      ensures Valid()
      ensures var id := if pk.Some? then pk.value else old(nextId);
        && (r.Ok? <==> !exists x :: x in old(staff) && x != id && old(staff)[x].department == row.department && old(staff)[x].user == row.user)
        && (r.Ok? ==> r.value == id && staff == old(staff)[id := row])
      ensures r.Err? ==> r.error == IntegrityError && staff == old(staff)
      ensures departments == old(departments) && members == old(members) && groups == old(groups)
      ensures old(nextId) <= nextId
    {
      var id := if pk.Some? then pk.value else nextId;
      if exists x :: x in staff && x != id && staff[x].department == row.department && staff[x].user == row.user {
        return Err(IntegrityError);
      }
      staff := staff[id := row];
      if nextId <= id {
        nextId := id + 1;
      }
      r := Ok(id);
    }

    /**
     * One child in the "parent only" branch of `UserAdmin.save_formset`:
     * `get_or_create` of the staff row of `user` in `ch` (with `role` when
     * created), then of the department-level project membership, which
     * fails (`ok` false) when `ch` has no project.
     */
    method AssignChild(user: int, ch: int, role: int) returns (created: bool, ok: bool)
      requires Valid() && ch in departments
      modifies this
      ensures Valid()
      ensures ok <==> old(departments)[ch].project.Some?
      ensures HasStaff(staff, ch, user)
      ensures ok ==> HasMember(members, ProjectMember(user, old(departments)[ch].project.value, role, Some(ch)))
      ensures created <==> !HasStaff(old(staff), ch, user)
      ensures !created ==> staff == old(staff)
      ensures created ==> old(nextId) !in old(staff) && staff == old(staff)[old(nextId) := DepartmentMember(ch, user, role, 0, false, false)]
      ensures MembersTouched(old(members), members, user, {role})
      ensures !ok ==> members == old(members)
      ensures forall x :: x in members && x !in old(members) ==> old(nextId) <= x
      ensures departments == old(departments) && groups == old(groups) && old(nextId) <= nextId
    {
      var _, c := GetOrCreateStaff(user, ch, role);
      created := c;
      ok := departments[ch].project.Some?;
      if ok {
        var _, _ := GetOrCreateMember(departments[ch].project.value, user, role, ch);
      }
    }

    /**
     * The "parent only" branch of `UserAdmin.save_formset`: `user` joins
     * every child of `parent`, visited in the order `order`, with `role`
     * (an existing staff row is kept as it is), gets the department-level
     * project membership there, and then loses the general membership of
     * the parent's project. Returns `created_bulk`, the number of staff rows
     * created. A child without a project makes the membership insert fail.
     */
    method FanOut(user: int, parent: int, role: int, order: seq<int>) returns (r: Result<nat, MemberError>)
      requires Valid() && parent in departments
      requires forall c :: c in ChildrenOf(departments, parent) <==> c in order
      modifies this
      ensures Valid()
      ensures r.Ok? <==> forall c :: c in ChildrenOf(old(departments), parent) ==> old(departments)[c].project.Some?
      ensures r.Err? ==> r.error == IntegrityError
      ensures r.Ok? ==> r.value == |staff.Keys - old(staff).Keys|
      ensures r.Ok? ==> forall c :: c in ChildrenOf(old(departments), parent) ==>
        HasStaff(staff, c, user) && HasMember(members, ProjectMember(user, old(departments)[c].project.value, role, Some(c)))
      ensures r.Ok? && old(departments)[parent].project.Some? ==>
        !HasMember(members, ProjectMember(user, old(departments)[parent].project.value, role, None))
      ensures StaffAddedTo(old(staff), staff, ChildrenOf(old(departments), parent), user, role, old(nextId))
      ensures MembersTouched(old(members), members, user, {role})
      ensures departments == old(departments) && groups == old(groups) && old(nextId) <= nextId
    {
      var count := 0;
      for i := 0 to |order|
        invariant Valid() && departments == old(departments) && groups == old(groups) && old(nextId) <= nextId
        invariant StaffSoFar(old(departments), old(staff), staff, user, role, parent, order, i, count, old(nextId))
        invariant MembersSoFar(old(departments), old(members), members, user, role, order, i)
      {
        var ch := order[i];
        assert ch in order;
        ghost var staff1, members1, next1 := staff, members, nextId;
        var created, ok := AssignChild(user, ch, role);
        StaffStep(old(departments), old(staff), staff1, staff, user, role, parent, order, i, count, created, old(nextId), next1);
        if !ok {
          return Err(IntegrityError);
        }
        MembersStep(old(departments), old(members), members1, members, user, role, order, i, next1);
        count := count + if created then 1 else 0;
      }
      FanOutDone(old(departments), old(staff), staff, old(members), members, user, role, parent, order, count, old(nextId));
      var p := departments[parent].project;
      if p.Some? {
        ghost var members1 := members;
        DeleteGeneralMembers(p.value, user, role);
        GeneralRowRemoved(old(departments), old(members), members1, user, role, parent, order, p.value);
      }
      r := Ok(count);
    }

    /**
     * `ProjectMember.objects.get_or_create` of the department-level row of
     * (`project`, `user`, `role`) in `dept`, then the deletion of the
     * general row of that key (rule P1).
     */
    method SyncMembership(user: int, project: int, role: int, dept: int)
      requires Valid()
      modifies this
      ensures Valid()
      ensures HasMember(members, ProjectMember(user, project, role, Some(dept)))
      ensures !HasMember(members, ProjectMember(user, project, role, None))
      ensures MembersTouched(old(members), members, user, {role})
      ensures MembersSynced(old(members), members, project, dept, {(user, role)})
      ensures forall x :: x in members && x !in old(members) ==> old(nextId) <= x
      ensures departments == old(departments) && staff == old(staff) && groups == old(groups) && old(nextId) <= nextId
    {
      var id, created := GetOrCreateMember(project, user, role, dept);
      ghost var members1 := members;
      DeleteGeneralMembers(project, user, role);
      MembersTouchedTrans(old(members), members1, members, user, {role}, {role});
      assert id in members;
      SyncedByGetOrCreate(old(members), members1, members, project, user, role, dept, old(nextId), created);
    }

    /**
     * The sub-department branch of `UserAdmin.save_formset`: the form's row
     * `base` (the stored row `pk`, or a fresh one) is saved with `user`,
     * department `dept` and `role`; when `dept` has a project, `user` gets
     * the department-level membership there and loses the general one.
     */
    method AssignToDepartment(user: int, pk: Option<int>, base: DepartmentMember, dept: int, role: int)
      returns (r: Result<int, MemberError>)
      requires Valid() && dept in departments && (pk.Some? ==> 0 < pk.value)
      modifies this
      ensures Valid()
      ensures var id := if pk.Some? then pk.value else old(nextId);
        && (r.Ok? <==> !exists x :: x in old(staff) && x != id && old(staff)[x].department == dept && old(staff)[x].user == user)
        && (r.Ok? ==> r.value == id && staff == old(staff)[id := base.(department := dept, user := user, role := role)])
      ensures r.Err? ==> r.error == IntegrityError && staff == old(staff) && members == old(members)
      ensures r.Ok? ==> FormApplied(old(departments), members, user, Filled(None, Some(dept), role, pk))
      ensures old(departments)[dept].project.None? ==> members == old(members)
      ensures MembersTouched(old(members), members, user, {role})
      ensures forall x :: x in members && x !in old(members) ==> old(nextId) <= x
      ensures departments == old(departments) && groups == old(groups) && old(nextId) <= nextId
    {
      r := SaveStaffRow(pk, base.(department := dept, user := user, role := role));
      if r.Ok? && departments[dept].project.Some? {
        SyncMembership(user, departments[dept].project.value, role, dept);
      }
    }

    /**
     * One form of `UserAdmin.save_formset`: a parent-only form fans out to
     * the parent's children in id order, a form with a sub-department
     * saves its row there, any other form changes nothing. `loaded` holds
     * the rows as the forms read them.
     */
    method ApplyForm(user: int, f: StaffForm, loaded: map<int, DepartmentMember>) returns (r: Result<nat, MemberError>)
      requires Valid() && f.Filled?
      requires f.parent.Some? ==> f.parent.value in departments
      requires f.department.Some? ==> f.department.value in departments
      requires f.instance.Some? ==> f.instance.value in loaded && 0 < f.instance.value
      modifies this
      ensures Valid()
      ensures departments == old(departments) && groups == old(groups) && old(nextId) <= nextId
      ensures r.Err? ==> r.error == IntegrityError
      ensures r.Ok? ==> FormApplied(old(departments), members, user, f)
      ensures r.Ok? ==> MembersTouched(old(members), members, user, {f.role})
      ensures r.Ok? ==> forall x :: x in old(staff) ==> x in staff && (staff[x] == old(staff)[x] || f.instance == Some(x))
      ensures r.Ok? ==> forall x :: x in staff && x !in old(staff) ==> staff[x].user == user && (old(nextId) <= x || f.instance == Some(x))
    {
      var parent, dept, role, instance := f.parent, f.department, f.role, f.instance;
      if parent.Some? && dept.None? {
        r := FanOut(user, parent.value, role, SortedIds(ChildrenOf(departments, parent.value)));
      } else if dept.Some? {
        var base := if instance.Some? then loaded[instance.value] else DepartmentMember(dept.value, user, role, 0, false, false);
        var res := AssignToDepartment(user, instance, base, dept.value, role);
        r := if res.Ok? then Ok(0) else Err(res.error);
      } else {
        r := Ok(0);
      }
    }

    /**
     * `UserAdmin.save_formset` for the staff inline of `user`, in one
     * transaction: delete the rows of the deleted forms, then save each
     * form. Returns `created_bulk`; on an error every table is restored.
     */
    method SaveUserFormset(user: int, deleted: seq<Option<int>>, forms: seq<StaffForm>) returns (r: Result<nat, MemberError>)
      requires Valid()
      requires forall k :: 0 <= k < |forms| && forms[k].Filled? ==>
        && (forms[k].parent.Some? ==> forms[k].parent.value in departments)
        && (forms[k].department.Some? ==> forms[k].department.value in departments)
        && (forms[k].instance.Some? ==> forms[k].instance.value in staff)
      modifies this
      ensures Valid()
      ensures departments == old(departments) && groups == old(groups)
      ensures r.Err? ==> r.error == IntegrityError && staff == old(staff) && members == old(members)
      ensures r.Ok? ==> FormsApplied(old(departments), members, user, forms, |forms|)
      ensures r.Ok? ==> KeepsAssignments(old(members), members)
      ensures r.Ok? ==> StaffEdited(old(staff), staff, user, deleted, forms, old(nextId))
    {
      var staff0, members0, next0 := staff, members, nextId;
      DeleteRows(deleted);
      assert StaffEdited(old(staff), staff, user, deleted, forms, old(nextId));
      assert forall x :: IsInstance(forms, x) ==> x in old(staff);
      var created := 0;
      for i := 0 to |forms|
        invariant Valid() && departments == old(departments) && groups == old(groups) && old(nextId) <= nextId
        invariant FormsApplied(old(departments), members, user, forms, i)
        invariant KeepsAssignments(old(members), members)
        invariant StaffEdited(old(staff), staff, user, deleted, forms, old(nextId))
      {
        if forms[i].Filled? {
          ghost var staff1, members1 := staff, members;
          var res := ApplyForm(user, forms[i], staff0);
          if res.Err? {
            Rollback(staff0, members0, next0);
            return Err(res.error);
          }
          created := created + res.value;
          FormStep(old(departments), old(staff), staff1, staff, old(members), members1, members, user, deleted, forms, i, old(nextId));
        } else {
          FormsAppliedStep(old(departments), members, members, user, forms, i);
        }
      }
      r := Ok(created);
    }

    /**
     * The end of a failed transaction: the staff and membership tables get
     * back the rows `s0` and `m0` they had when it began (with ids below
     * `n0`); the id sequence is not rolled back.
     */
    method Rollback(s0: map<int, DepartmentMember>, m0: map<int, ProjectMember>, n0: int)
      requires Valid() && n0 <= nextId
      requires UniqueStaff(s0) && UniqueMembers(m0)
      requires forall id :: id in s0 ==> 0 < id < n0 && s0[id].department in departments
      requires forall id :: id in m0 ==> 0 < id < n0
      modifies this
      ensures Valid()
      ensures staff == s0 && members == m0
      ensures departments == old(departments) && groups == old(groups) && nextId == old(nextId)
    {
      staff, members := s0, m0;
    }

    /** The first step of `UserAdmin.save_formset`: `delete()` of the stored row of every deleted form. */
    method DeleteRows(deleted: seq<Option<int>>)
      requires Valid()
      modifies this
      ensures Valid()
      ensures staff == old(staff) - (set k | 0 <= k < |deleted| && deleted[k].Some? :: deleted[k].value)
      ensures departments == old(departments) && members == old(members) && groups == old(groups) && nextId == old(nextId)
    {
      for i := 0 to |deleted|
        invariant Valid()
        invariant staff == old(staff) - (set k | 0 <= k < i && deleted[k].Some? :: deleted[k].value)
        invariant departments == old(departments) && members == old(members) && groups == old(groups) && nextId == old(nextId)
      {
        if deleted[i].Some? {
          DeleteStaff(deleted[i].value);
        }
        assert (set k | 0 <= k < i + 1 && deleted[k].Some? :: deleted[k].value)
            == (set k | 0 <= k < i && deleted[k].Some? :: deleted[k].value) + (if deleted[i].Some? then {deleted[i].value} else {});
      }
    }

    /**
     * `formset.save()` of the department page's staff inline of `dept`:
     * each form in turn deletes its stored row, saves its stored row with
     * the new user and role, or inserts a new row. Returns the row of each
     * form; a write the (department, user) constraint refuses stops it.
     */
    method SaveStaffForms(dept: int, ops: seq<StaffOp>) returns (r: Result<seq<int>, MemberError>)
      requires Valid() && dept in departments && OpsFit(staff, dept, ops)
      modifies this
      ensures Valid()
      ensures r.Err? ==> r.error == IntegrityError
      ensures r.Ok? ==> |r.value| == |ops| && OpsSaved(old(staff), staff, dept, ops, r.value, old(nextId))
      ensures departments == old(departments) && members == old(members) && groups == old(groups) && old(nextId) <= nextId
    {
      var staff0 := staff;
      var ids := [];
      for i := 0 to |ops|
        invariant Valid() && departments == old(departments) && members == old(members) && groups == old(groups)
        invariant old(nextId) <= nextId && |ids| == i
        invariant OpsSaved(old(staff), staff, dept, ops, ids, old(nextId))
      {
        var op := ops[i];
        ghost var s1 := staff;
        if op.DeleteRow? {
          DeleteStaff(op.id);
          DeleteOpStep(old(staff), s1, staff, dept, ops, ids, old(nextId));
          ids := ids + [op.id];
        } else {
          var pk := if op.ChangeRow? then Some(op.id) else None;
          var res := SaveStaffRow(pk, OpRow(staff0, dept, op));
          if res.Err? {
            return Err(res.error);
          }
          SaveOpStep(old(staff), s1, staff, dept, ops, ids, old(nextId), res.value);
          ids := ids + [res.value];
        }
      }
      r := Ok(ids);
    }

    /**
     * The loop of `DepartmentAdmin.save_formset` over the saved rows: each
     * gets the department-level membership of `project` in `dept` and
     * loses the general one.
     */
    method SyncSavedMembers(dept: int, project: int, ops: seq<StaffOp>)
      requires Valid()
      modifies this
      ensures Valid()
      ensures forall k :: 0 <= k < |ops| && !ops[k].DeleteRow? ==>
        && HasMember(members, ProjectMember(ops[k].user, project, ops[k].role, Some(dept)))
        && !HasMember(members, ProjectMember(ops[k].user, project, ops[k].role, None))
      ensures MembersSynced(old(members), members, project, dept, SavedKeys(ops))
      ensures departments == old(departments) && staff == old(staff) && groups == old(groups) && old(nextId) <= nextId
    {
      for i := 0 to |ops|
        invariant Valid() && departments == old(departments) && staff == old(staff) && groups == old(groups)
        invariant old(nextId) <= nextId
        invariant SyncedSoFar(old(members), members, project, dept, ops, i)
        invariant forall x :: x in members && x !in old(members) ==> old(nextId) <= x
      {
        ghost var m1 := members;
        if !ops[i].DeleteRow? {
          SyncMembership(ops[i].user, project, ops[i].role, dept);
        }
        SyncStep(old(members), m1, members, project, dept, ops, i);
      }
      assert ops[..|ops|] == ops;
    }

    /**
     * `DepartmentAdmin.save_formset` for the staff inline of `dept`, in the
     * change view's transaction: `formset.save()`, then the memberships of
     * the saved rows. A department without a project makes the first
     * membership insert fail; on an error every table is restored.
     */
    method SaveStaffFormset(dept: int, ops: seq<StaffOp>) returns (r: Result<seq<int>, MemberError>)
      requires Valid() && dept in departments && OpsFit(staff, dept, ops)
      modifies this
      ensures Valid()
      ensures departments == old(departments) && groups == old(groups)
      ensures r.Err? ==> r.error == IntegrityError && staff == old(staff) && members == old(members)
      ensures (exists k :: 0 <= k < |ops| && !ops[k].DeleteRow?) && old(departments)[dept].project.None? ==> r.Err?
      ensures r.Ok? ==> |r.value| == |ops| && OpsSaved(old(staff), staff, dept, ops, r.value, old(nextId))
      ensures r.Ok? && old(departments)[dept].project.Some? ==>
        var p := old(departments)[dept].project.value;
        && MembersSynced(old(members), members, p, dept, SavedKeys(ops))
        && forall k :: 0 <= k < |ops| && !ops[k].DeleteRow? ==>
             && HasMember(members, ProjectMember(ops[k].user, p, ops[k].role, Some(dept)))
             && !HasMember(members, ProjectMember(ops[k].user, p, ops[k].role, None))
      ensures r.Ok? && old(departments)[dept].project.None? ==> members == old(members)
    {
      var staff0, members0, next0 := staff, members, nextId;
      var res := SaveStaffForms(dept, ops);
      if res.Err? {
        Rollback(staff0, members0, next0);
        return Err(res.error);
      }
      var saving := exists k :: 0 <= k < |ops| && !ops[k].DeleteRow?;
      var p := departments[dept].project;
      if p.None? && saving {
        Rollback(staff0, members0, next0);
        return Err(IntegrityError);
      }
      if p.Some? {
        SyncSavedMembers(dept, p.value, ops);
      }
      r := Ok(res.value);
    }
  }
}
