/**
 * What the summary table of a parent department's page shows
 * (`AllMembersInline.get_formset`, admin/core/admin.py), stated on values:
 * the department and every department below it, the staff rows of those
 * departments, and per user the role names and the names of the top-level
 * sub-departments the user works in.
 */
module MemberSummary {
  import opened Wrappers
  import opened Text
  import opened OrgModels
  import opened Ordering
  import opened Store

  /** `x` is `root` or lies somewhere below it. */
  predicate Under(deps: map<int, Department>, x: int, root: int)
    requires ParentsBelow(deps) && x in deps
    decreases x
  {
    x == root || (deps[x].parent.Some? && Under(deps, deps[x].parent.value, root))
  }

  lemma {:induction false} UnderIsAbove(deps: map<int, Department>, x: int, root: int)
    requires ParentsBelow(deps) && x in deps && Under(deps, x, root)
    ensures root <= x
    decreases x
  {
    if x != root {
      UnderIsAbove(deps, deps[x].parent.value, root);
    }
  }

  /** How many parent steps lead from `x` up to `root`. */
  function Depth(deps: map<int, Department>, x: int, root: int): (n: nat)
    requires ParentsBelow(deps) && x in deps && Under(deps, x, root)
    ensures n == 0 <==> x == root
    decreases x
  {
    if x == root then 0 else 1 + Depth(deps, deps[x].parent.value, root)
  }

  /** `root` and every department below it. */
  function Subtree(deps: map<int, Department>, root: int): (s: set<int>)
    requires ParentsBelow(deps)
    ensures s <= deps.Keys
  {
    set x | x in deps && Under(deps, x, root)
  }

  /** `Department.objects.filter(parent_id__in=q)`. */
  function ChildrenOfAny(deps: map<int, Department>, q: seq<int>): (r: set<int>)
    ensures forall c {:trigger c in r} :: c in r <==> c in deps && deps[c].parent.Some? && deps[c].parent.value in q
  {
    set c | c in deps && deps[c].parent.Some? && deps[c].parent.value in q
  }

  /** The layers of the walk: `root`, its children, their children, and so on. */
  function Layer(deps: map<int, Department>, root: int, k: nat): set<int>
  {
    if k == 0 then {root}
    else
      var above := Layer(deps, root, k - 1);
      set c | c in deps && deps[c].parent.Some? && deps[c].parent.value in above
  }

  /** The first `k + 1` layers together. */
  function UpTo(deps: map<int, Department>, root: int, k: nat): set<int>
  {
    if k == 0 then {root} else UpTo(deps, root, k - 1) + Layer(deps, root, k)
  }

  /** Layer `k` holds exactly the departments `k` parent steps below `root`. */
  lemma {:induction false} LayerIsDepth(deps: map<int, Department>, root: int, k: nat)
    requires ParentsBelow(deps) && root in deps
    ensures forall x :: x in Layer(deps, root, k) <==> x in deps && Under(deps, x, root) && Depth(deps, x, root) == k
  {
    if k > 0 {
      LayerIsDepth(deps, root, k - 1);
      forall x ensures x in Layer(deps, root, k) <==> x in deps && Under(deps, x, root) && Depth(deps, x, root) == k {
        if x in Layer(deps, root, k) {
          var p := deps[x].parent.value;
          UnderIsAbove(deps, p, root);
          assert Under(deps, x, root);
        }
        if x in deps && Under(deps, x, root) && Depth(deps, x, root) == k {
          assert deps[x].parent.value in Layer(deps, root, k - 1);
        }
      }
    }
  }

  /** The first `k + 1` layers hold exactly the departments at most `k` steps below `root`. */
  lemma {:induction false} UpToIsDepth(deps: map<int, Department>, root: int, k: nat)
    requires ParentsBelow(deps) && root in deps
    ensures forall x :: x in UpTo(deps, root, k) <==> x in deps && Under(deps, x, root) && Depth(deps, x, root) <= k
  {
    LayerIsDepth(deps, root, k);
    if k > 0 {
      UpToIsDepth(deps, root, k - 1);
    }
  }

  /** The children of the layer listed by `q` are the next layer. */
  lemma NextLayer(deps: map<int, Department>, root: int, k: nat, q: seq<int>)
    requires forall x :: x in q <==> x in Layer(deps, root, k)
    ensures ChildrenOfAny(deps, q) == Layer(deps, root, k + 1)
  {
    forall c ensures c in ChildrenOfAny(deps, q) <==> c in Layer(deps, root, k + 1) {
      if c in deps && deps[c].parent.Some? {
        var p := deps[c].parent.value;
        assert p in q <==> p in Layer(deps, root, k);
      }
    }
  }

  /** A new layer shares nothing with the layers before it. */
  lemma LayerIsNew(deps: map<int, Department>, root: int, k: nat)
    requires ParentsBelow(deps) && root in deps
    ensures UpTo(deps, root, k) !! Layer(deps, root, k + 1)
    ensures root !in Layer(deps, root, k + 1)
  {
    UpToIsDepth(deps, root, k);
    LayerIsDepth(deps, root, k + 1);
    forall x | x in UpTo(deps, root, k) ensures x !in Layer(deps, root, k + 1) {
      assert Depth(deps, x, root) <= k;
    }
  }

  /** Every department `j` or more steps down has an ancestor exactly `j` steps down. */
  lemma {:induction false} AncestorAt(deps: map<int, Department>, root: int, x: int, j: nat) returns (y: int)
    requires ParentsBelow(deps) && root in deps && x in deps && Under(deps, x, root) && j <= Depth(deps, x, root)
    ensures y in Layer(deps, root, j)
    decreases x
  {
    if Depth(deps, x, root) == j {
      y := x;
      LayerIsDepth(deps, root, j);
    } else {
      y := AncestorAt(deps, root, deps[x].parent.value, j);
    }
  }

  /** Once layer `j` is empty, every department of the subtree is fewer than `j` steps down. */
  lemma DepthBelow(deps: map<int, Department>, root: int, j: nat, x: int)
    requires ParentsBelow(deps) && root in deps && x in deps && Under(deps, x, root)
    requires forall y :: y !in Layer(deps, root, j)
    ensures Depth(deps, x, root) < j
  {
    if j <= Depth(deps, x, root) {
      var y := AncestorAt(deps, root, x, j);
    }
  }

  /** Once a layer is empty, the layers above it hold the whole subtree. */
  lemma ClosedAt(deps: map<int, Department>, root: int, j: nat, k: nat)
    requires ParentsBelow(deps) && root in deps && j <= k + 1
    requires forall x :: x !in Layer(deps, root, j)
    ensures UpTo(deps, root, k) == Subtree(deps, root)
  {
    UpToIsDepth(deps, root, k);
    var s := Subtree(deps, root);
    forall x ensures x in UpTo(deps, root, k) <==> x in s {
      if x in deps && Under(deps, x, root) {
        DepthBelow(deps, root, j, x);
      }
    }
  }

  /** A set strictly inside another is smaller. */
  lemma {:induction false} SubsetSmaller<T>(a: set<T>, b: set<T>)
    requires a < b
    ensures |a| < |b|
    decreases |b|
  {
    var x :| x in b && x !in a;
    var b' := b - {x};
    if a < b' {
      SubsetSmaller(a, b');
    } else {
      assert a == b';
    }
  }

  /** No value occurs twice. */
  predicate Distinct(s: seq<int>) {
    forall i, j :: 0 <= i < j < |s| ==> s[i] != s[j]
  }

  lemma AppendDistinct(a: seq<int>, b: seq<int>)
    requires Distinct(a) && Distinct(b) && forall x :: x in a ==> x !in b
    ensures Distinct(a + b)
  {
    var s := a + b;
    forall i, j | 0 <= i < j < |s| ensures s[i] != s[j] {
      if j >= |a| && i < |a| {
        assert s[i] in a && s[j] == b[j - |a|];
      } else if i >= |a| {
        assert s[i] == b[i - |a|] && s[j] == b[j - |a|];
      }
    }
  }

  /** `parentOf` and `nameOf` record the parent and the name of every department of `s`. */
  predicate Recorded(deps: map<int, Department>, root: int, s: set<int>, parentOf: map<int, int>, nameOf: map<int, string>) {
    && parentOf.Keys == s - {root}
    && (forall x :: x in parentOf ==> x in deps && deps[x].parent == Some(parentOf[x]))
    && nameOf.Keys == s
    && (forall x :: x in nameOf ==> x in deps && nameOf[x] == deps[x].name)
  }

  lemma RecordedGrow(deps: map<int, Department>, root: int, s: set<int>, found: set<int>,
                     parentOf: map<int, int>, nameOf: map<int, string>)
    requires Recorded(deps, root, s, parentOf, nameOf)
    requires forall c :: c in found ==> c in deps && deps[c].parent.Some? && c != root
    ensures Recorded(deps, root, s + found,
                     parentOf + map c | c in found :: deps[c].parent.value,
                     nameOf + map c | c in found :: deps[c].name)
  {
  }

  /** The child of `root` that `x` lies under. */
  function ChildOnPath(deps: map<int, Department>, x: int, root: int): (c: int)
    requires ParentsBelow(deps) && x in deps && Under(deps, x, root) && x != root
    ensures c in deps && deps[c].parent == Some(root) && Under(deps, x, c)
    decreases x
  {
    var p := deps[x].parent.value;
    if p == root then x else ChildOnPath(deps, p, root)
  }

  /** The staff rows the summary covers: those of the departments in the subtree. */
  function SummaryRows(deps: map<int, Department>, staff: map<int, DepartmentMember>, root: int): (r: set<int>)
    requires ParentsBelow(deps)
    ensures forall x :: x in r <==> x in staff && staff[x].department in Subtree(deps, root)
  {
    set x | x in staff && staff[x].department in Subtree(deps, root)
  }

  /** Every staff row's role is a stored role, whose name `roleNames` gives. */
  predicate RolesKnown(staff: map<int, DepartmentMember>, roleNames: map<int, string>) {
    forall x :: x in staff ==> staff[x].role in roleNames
  }

  /** The names of the roles `u` holds in the rows `rows`. */
  function RolesIn(staff: map<int, DepartmentMember>, roleNames: map<int, string>, rows: set<int>, u: int): set<string>
    requires RolesKnown(staff, roleNames) && rows <= staff.Keys
  {
    set x | x in rows && staff[x].user == u :: roleNames[staff[x].role]
  }

  /** The names of the children of `root` under which `u` has a row of `rows` (rows of `root` itself do not count). */
  function SubsIn(deps: map<int, Department>, staff: map<int, DepartmentMember>, root: int, rows: set<int>, u: int): set<string>
    requires ParentsBelow(deps) && rows <= SummaryRows(deps, staff, root)
  {
    set x | x in rows && staff[x].user == u && staff[x].department != root ::
      deps[ChildOnPath(deps, staff[x].department, root)].name
  }

  lemma RolesInStep(staff: map<int, DepartmentMember>, roleNames: map<int, string>, rows: set<int>, m: int, u: int)
    requires RolesKnown(staff, roleNames) && rows <= staff.Keys && m in staff
    ensures RolesIn(staff, roleNames, rows + {m}, u) ==
      RolesIn(staff, roleNames, rows, u) + (if staff[m].user == u then {roleNames[staff[m].role]} else {})
  {
  }

  lemma SubsInStep(deps: map<int, Department>, staff: map<int, DepartmentMember>, root: int, rows: set<int>, m: int, u: int)
    requires ParentsBelow(deps) && rows <= SummaryRows(deps, staff, root) && m in SummaryRows(deps, staff, root)
    ensures SubsIn(deps, staff, root, rows + {m}, u) ==
      SubsIn(deps, staff, root, rows, u) +
      (if staff[m].user == u && staff[m].department != root
       then {deps[ChildOnPath(deps, staff[m].department, root)].name} else {})
  {
  }

  /** Each staff row's user, the first key of `order_by("user_id", "id")`. */
  function UserRank(staff: map<int, DepartmentMember>): (rank: map<int, int>)
    ensures rank.Keys == staff.Keys
    ensures forall x :: x in staff ==> rank[x] == staff[x].user
  {
    map x | x in staff :: staff[x].user
  }

  /** `firstPk` maps each user met in `seen` to that user's smallest row id there. */
  ghost predicate FirstRows(staff: map<int, DepartmentMember>, seen: set<int>, firstPk: map<int, int>)
    requires seen <= staff.Keys
  {
    && (forall u :: u in firstPk ==> firstPk[u] in seen && staff[firstPk[u]].user == u)
    && (forall x :: x in seen ==> staff[x].user in firstPk && firstPk[staff[x].user] <= x)
  }

  /** `roles` maps each user to the role names of the user's rows in `seen`, and holds no other user. */
  ghost predicate RolesGathered(staff: map<int, DepartmentMember>, roleNames: map<int, string>, seen: set<int>,
                          roles: map<int, set<string>>)
    requires RolesKnown(staff, roleNames) && seen <= staff.Keys
  {
    && (forall u :: u in roles <==> RolesIn(staff, roleNames, seen, u) != {})
    && (forall u :: u in roles ==> roles[u] == RolesIn(staff, roleNames, seen, u))
  }

  /** `subs` maps each user to the sub-department names of the user's rows in `seen`, and holds no other user. */
  ghost predicate SubsGathered(deps: map<int, Department>, staff: map<int, DepartmentMember>, root: int, seen: set<int>,
                         subs: map<int, set<string>>)
    requires ParentsBelow(deps) && seen <= SummaryRows(deps, staff, root)
  {
    && (forall u :: u in subs <==> SubsIn(deps, staff, root, seen, u) != {})
    && (forall u :: u in subs ==> subs[u] == SubsIn(deps, staff, root, seen, u))
  }

  /** The three results of the loop of `get_formset` after it has taken the rows `seen`. */
  ghost predicate Folded(deps: map<int, Department>, staff: map<int, DepartmentMember>, roleNames: map<int, string>,
                         root: int, seen: set<int>, firstPk: map<int, int>, roles: map<int, set<string>>,
                         subs: map<int, set<string>>)
    requires ParentsBelow(deps) && RolesKnown(staff, roleNames) && seen <= SummaryRows(deps, staff, root)
  {
    && FirstRows(staff, seen, firstPk)
    && RolesGathered(staff, roleNames, seen, roles)
    && SubsGathered(deps, staff, root, seen, subs)
  }

  /** `first_pk_by_user.setdefault(u, m)` when every earlier row of `u` has a smaller id. */
  lemma FirstRowsStep(staff: map<int, DepartmentMember>, seen: set<int>, m: int, firstPk: map<int, int>)
    requires seen <= staff.Keys && m in staff && FirstRows(staff, seen, firstPk)
    requires forall x :: x in seen && staff[x].user == staff[m].user ==> x <= m
    ensures var u := staff[m].user;
      FirstRows(staff, seen + {m}, if u in firstPk then firstPk else firstPk[u := m])
  {
  }

  /** `roles_by_user[u].add(name)`. */
  lemma RolesStep(staff: map<int, DepartmentMember>, roleNames: map<int, string>, seen: set<int>, m: int,
                  roles: map<int, set<string>>)
    requires RolesKnown(staff, roleNames) && seen <= staff.Keys && m in staff
    requires RolesGathered(staff, roleNames, seen, roles)
    ensures var u := staff[m].user;
      RolesGathered(staff, roleNames, seen + {m},
                    roles[u := (if u in roles then roles[u] else {}) + {roleNames[staff[m].role]}])
  {
    forall v {:trigger RolesIn(staff, roleNames, seen + {m}, v)} ensures RolesIn(staff, roleNames, seen + {m}, v) ==
      RolesIn(staff, roleNames, seen, v) + (if staff[m].user == v then {roleNames[staff[m].role]} else {}) {
      RolesInStep(staff, roleNames, seen, m, v);
    }
  }

  /** `subdeps_by_user[u].add(name)` for a row below the department itself. */
  lemma SubsStep(deps: map<int, Department>, staff: map<int, DepartmentMember>, root: int, seen: set<int>, m: int,
                 subs: map<int, set<string>>)
    requires ParentsBelow(deps) && seen <= SummaryRows(deps, staff, root) && m in SummaryRows(deps, staff, root)
    requires SubsGathered(deps, staff, root, seen, subs)
    requires staff[m].department != root
    ensures var u := staff[m].user;
      var name := deps[ChildOnPath(deps, staff[m].department, root)].name;
      SubsGathered(deps, staff, root, seen + {m}, subs[u := (if u in subs then subs[u] else {}) + {name}])
  {
    var u := staff[m].user;
    var name := deps[ChildOnPath(deps, staff[m].department, root)].name;
    var next := subs[u := (if u in subs then subs[u] else {}) + {name}];
    forall v {:trigger SubsIn(deps, staff, root, seen + {m}, v)} ensures SubsIn(deps, staff, root, seen + {m}, v) ==
      SubsIn(deps, staff, root, seen, v) + (if u == v then {name} else {}) {
      SubsInStep(deps, staff, root, seen, m, v);
    }
    assert forall v :: v in next ==> next[v] == SubsIn(deps, staff, root, seen + {m}, v);
  }

  /** A row of the department itself adds no sub-department name. */
  lemma SubsSkip(deps: map<int, Department>, staff: map<int, DepartmentMember>, root: int, seen: set<int>, m: int,
                 subs: map<int, set<string>>)
    requires ParentsBelow(deps) && seen <= SummaryRows(deps, staff, root) && m in SummaryRows(deps, staff, root)
    requires SubsGathered(deps, staff, root, seen, subs)
    requires staff[m].department == root
    ensures SubsGathered(deps, staff, root, seen + {m}, subs)
  {
    forall v {:trigger SubsIn(deps, staff, root, seen + {m}, v)}
      ensures SubsIn(deps, staff, root, seen + {m}, v) == SubsIn(deps, staff, root, seen, v) {
      SubsInStep(deps, staff, root, seen, m, v);
    }
  }

  /** Among the rows of one user, `members` lists the smaller id first. */
  predicate IdsAscendPerUser(staff: map<int, DepartmentMember>, members: seq<int>)
    requires forall k :: 0 <= k < |members| ==> members[k] in staff
  {
    forall i, j :: 0 <= i < j < |members| && staff[members[i]].user == staff[members[j]].user ==> members[i] < members[j]
  }

  /** `order_by("user_id", "id")` lists each user's rows by ascending id. */
  lemma UserOrderAscendsPerUser(staff: map<int, DepartmentMember>, members: seq<int>)
    requires forall k :: 0 <= k < |members| ==> members[k] in staff
    requires Ascending(members, UserRank(staff))
    ensures IdsAscendPerUser(staff, members)
  {
    forall i, j | 0 <= i < j < |members| && staff[members[i]].user == staff[members[j]].user
      ensures members[i] < members[j] {
      assert RankedBefore(UserRank(staff), members[i], members[j]);
    }
  }

  /** The first row of a user met in (user, id) order has the smallest id among that user's rows so far. */
  lemma FirstIsSmallest(staff: map<int, DepartmentMember>, members: seq<int>, i: nat)
    requires forall k :: 0 <= k < |members| ==> members[k] in staff
    requires IdsAscendPerUser(staff, members)
    requires i < |members|
    ensures forall x :: x in members[..i] && staff[x].user == staff[members[i]].user ==> x <= members[i]
  {
    forall x | x in members[..i] && staff[x].user == staff[members[i]].user ensures x <= members[i] {
      var j :| 0 <= j < i && members[j] == x;
    }
  }

  /** A loop that has walked all of `members` has seen exactly the set they list. */
  lemma AllSeen(members: seq<int>, seen: set<int>, all: set<int>)
    requires forall x :: x in seen <==> x in members[..|members|]
    requires forall x :: x in members <==> x in all
    ensures seen == all
  {
    var whole := members[..|members|];
    assert whole == members;
    forall x ensures x in seen <==> x in all {
      assert x in seen <==> x in whole;
    }
  }

  // ---------------------------------------------------------------- the table

  /** `x` is the row with the smallest id among the rows of its user in `rows`. */
  ghost predicate IsFirstRow(staff: map<int, DepartmentMember>, rows: set<int>, x: int)
    requires rows <= staff.Keys
  {
    x in rows && forall y :: y in rows && staff[y].user == staff[x].user ==> x <= y
  }

  /** `first_pk_by_user.values()`. */
  function FirstPks(firstPk: map<int, int>): set<int>
  {
    set u | u in firstPk :: firstPk[u]
  }

  /** The recorded first rows are exactly the first rows of their users. */
  lemma FirstRowsAreFirst(staff: map<int, DepartmentMember>, rows: set<int>, firstPk: map<int, int>)
    requires rows <= staff.Keys && FirstRows(staff, rows, firstPk)
    ensures forall x :: x in FirstPks(firstPk) <==> IsFirstRow(staff, rows, x)
  {
    forall x ensures x in FirstPks(firstPk) <==> IsFirstRow(staff, rows, x) {
      if x in FirstPks(firstPk) {
        var u :| u in firstPk && firstPk[u] == x;
      }
      if IsFirstRow(staff, rows, x) {
        var u := staff[x].user;
        assert firstPk[u] in rows && firstPk[u] <= x;
        assert firstPk[u] == x;
      }
    }
  }

  /** Every user with a row in `rows` has exactly one first row there. */
  lemma OneFirstRowPerUser(staff: map<int, DepartmentMember>, rows: set<int>, x: int)
    requires rows <= staff.Keys && x in rows
    ensures exists y :: IsFirstRow(staff, rows, y) && staff[y].user == staff[x].user
    ensures forall y, z :: IsFirstRow(staff, rows, y) && IsFirstRow(staff, rows, z) && staff[y].user == staff[z].user ==> y == z
  {
    var same := set y | y in rows && staff[y].user == staff[x].user;
    assert x in same;
    var rank := IdRank(same);
    var y := Least(same, rank);
    forall z | z in rows && staff[z].user == staff[x].user ensures y <= z {
      if z != y {
        assert RankedBefore(rank, y, z);
      }
    }
    assert IsFirstRow(staff, rows, y);
  }

  /** A cell of a computed column: `", ".join(sorted(v)) if v else "—"`. */
  function JoinedOrDash(v: set<string>): string
  {
    if v == {} then "—" else Join(", ", SortedStrings(v))
  }

  /** In the two-level hierarchy a row below the department lies in one of its children. */
  lemma ChildOnPathTwoLevels(deps: map<int, Department>, x: int, root: int)
    requires ParentsBelow(deps) && TwoLevels(deps)
    requires x in deps && Under(deps, x, root) && x != root
    ensures ChildOnPath(deps, x, root) == x
  {
    var p := deps[x].parent.value;
    assert deps[p].parent.None?;
  }
}
