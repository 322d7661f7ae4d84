/**
 * `_resolve_responsible` of bot/main.py: who gets a new task. An explicit
 * "@username" wins; otherwise the topic's bindings are tried in priority
 * order (a user, the latest holder of a project role, or a department's
 * lead, tech lead or first member), and the answer is cached per chat and
 * topic.
 */
module Responsible {
  import opened Wrappers
  import opened Text

  /** A row of core_user. */
  datatype UserRow = UserRow(id: int, username: string, telegramId: int)

  /** A row of core_topicbinding; ids are nullable foreign keys. */
  datatype Binding = Binding(userId: Option<int>, roleId: Option<int>, departmentId: Option<int>, priority: int)

  datatype ProjectMemberRow = ProjectMemberRow(id: int, projectId: int, userId: int, roleId: Option<int>)

  datatype DeptMemberRow = DeptMemberRow(id: int, departmentId: int, userId: int, isLead: bool, isTech: bool, orderIndex: int)

  /** The tables the resolver reads; `chatProject` maps a group's Telegram id to its project. */
  datatype Db = Db(users: seq<UserRow>, chatProject: map<int, int>,
                   projectMembers: seq<ProjectMemberRow>, deptMembers: seq<DeptMemberRow>)

  /** What the resolver returns, and the value it stores in the cache, if any. */
  datatype Resolution = Resolution(userId: Option<int>, username: Option<string>, cacheWrite: Option<string>)

  /** Python truthiness of a nullable id: None and 0 are false. */
  predicate Truthy(o: Option<int>) {
    o.Some? && o.value != 0
  }

  // ---------------------------------------------------------------- lookups

  function LowerChar(c: char): char {
    if 'A' <= c <= 'Z' then (c as int + 32) as char else c
  }

  /** `lower()` on the ASCII letters, the only letters a Telegram username has. */
  function Lower(s: string): (r: string)
    ensures |r| == |s|
  {
    seq(|s|, i requires 0 <= i < |s| => LowerChar(s[i]))
  }

  /** `row["username"] or f"id:{row['telegram_id']}"`. */
  function DisplayName(u: UserRow): (r: string)
    ensures r != []
  {
    if u.username != "" then u.username else "id:" + IntToString(u.telegramId)
  }

  /** `SELECT … FROM core_user WHERE id = $1`. */
  function UserById(users: seq<UserRow>, id: int): (r: Option<UserRow>)
    ensures r.Some? ==> r.value in users && r.value.id == id
    ensures r.None? ==> forall u :: u in users ==> u.id != id
  {
    if users == [] then None
    else if users[0].id == id then Some(users[0])
    else UserById(users[1..], id)
  }

  /** `SELECT … FROM core_user WHERE LOWER(username) = $1`, the first such row. */
  function UserByName(users: seq<UserRow>, name: string): (r: Option<UserRow>)
    ensures r.Some? ==> r.value in users && Lower(r.value.username) == Lower(name)
    ensures r.None? ==> forall u :: u in users ==> Lower(u.username) != Lower(name)
  {
    if users == [] then None
    else if Lower(users[0].username) == Lower(name) then Some(users[0])
    else UserByName(users[1..], name)
  }

  predicate HoldsRole(pm: ProjectMemberRow, projectId: int, roleId: int) {
    pm.projectId == projectId && pm.roleId == Some(roleId)
  }

  /** `… WHERE pm.role_id = $2 ORDER BY pm.id DESC LIMIT 1` within one project. */
  function LatestWithRole(pms: seq<ProjectMemberRow>, projectId: int, roleId: int): (r: Option<ProjectMemberRow>)
    ensures r.Some? ==> r.value in pms && HoldsRole(r.value, projectId, roleId)
    ensures r.Some? ==> forall p :: p in pms && HoldsRole(p, projectId, roleId) ==> p.id <= r.value.id
    ensures r.None? ==> forall p :: p in pms ==> !HoldsRole(p, projectId, roleId)
  {
    if pms == [] then None
    else
      var rest := LatestWithRole(pms[1..], projectId, roleId);
      assert forall p :: p in pms ==> p == pms[0] || p in pms[1..];
      if HoldsRole(pms[0], projectId, roleId) && (rest.None? || rest.value.id <= pms[0].id) then Some(pms[0])
      else rest
  }

  /** The three department queries: lead, then tech lead, then anyone. */
  datatype MemberKind = Lead | Tech | AnyMember

  predicate Qualifies(dm: DeptMemberRow, deptId: int, kind: MemberKind) {
    dm.departmentId == deptId &&
    match kind
    case Lead => dm.isLead
    case Tech => dm.isTech
    case AnyMember => true
  }

  /** `ORDER BY dm.order_index, dm.id`. */
  predicate RanksBefore(a: DeptMemberRow, b: DeptMemberRow) {
    a.orderIndex < b.orderIndex || (a.orderIndex == b.orderIndex && a.id <= b.id)
  }

  /** The first qualifying member in `(order_index, id)` order. */
  function FirstInDept(dms: seq<DeptMemberRow>, deptId: int, kind: MemberKind): (r: Option<DeptMemberRow>)
    ensures r.Some? ==> r.value in dms && Qualifies(r.value, deptId, kind)
    ensures r.Some? ==> forall d :: d in dms && Qualifies(d, deptId, kind) ==> RanksBefore(r.value, d)
    ensures r.None? ==> forall d :: d in dms ==> !Qualifies(d, deptId, kind)
  {
    if dms == [] then None
    else
      var rest := FirstInDept(dms[1..], deptId, kind);
      assert forall d :: d in dms ==> d == dms[0] || d in dms[1..];
      if Qualifies(dms[0], deptId, kind) && (rest.None? || RanksBefore(dms[0], rest.value)) then Some(dms[0])
      else rest
  }

  function MemberUserId(r: Option<DeptMemberRow>): Option<int> {
    match r
    case Some(dm) => Some(dm.userId)
    case None => None
  }

  /** The user id the department branch settles on, before the user row is read. */
  function DeptCandidate(dms: seq<DeptMemberRow>, deptId: int): Option<int> {
    var lead := MemberUserId(FirstInDept(dms, deptId, Lead));
    if Truthy(lead) then lead
    else
      var tech := MemberUserId(FirstInDept(dms, deptId, Tech));
      if Truthy(tech) then tech
      else MemberUserId(FirstInDept(dms, deptId, AnyMember))
  }

  /** The user id the role branch settles on: the latest holder of the role in the chat's project. */
  function RoleCandidate(db: Db, chatId: int, roleId: int): Option<int> {
    if chatId !in db.chatProject then None
    else
      match LatestWithRole(db.projectMembers, db.chatProject[chatId], roleId)
      case Some(pm) => Some(pm.userId)
      case None => None
  }

  /** The user a binding names, trying its user, role and department in that order. */
  function BindingUser(db: Db, chatId: int, b: Binding): (r: Option<UserRow>)
    ensures r.Some? ==> r.value in db.users
  {
    var direct := if Truthy(b.userId) then UserById(db.users, b.userId.value) else None;
    if direct.Some? then direct
    else
      var byRole :=
        if Truthy(b.roleId) && Truthy(RoleCandidate(db, chatId, b.roleId.value))
        then UserById(db.users, RoleCandidate(db, chatId, b.roleId.value).value) else None;
      if byRole.Some? then byRole
      else if Truthy(b.departmentId) && Truthy(DeptCandidate(db.deptMembers, b.departmentId.value))
      then UserById(db.users, DeptCandidate(db.deptMembers, b.departmentId.value).value)
      else None
  }

  /** Where a binding's user comes from: its own user id, the role's latest holder, or the department's pick. */
  lemma BindingUserSource(db: Db, chatId: int, b: Binding)
    ensures var r := BindingUser(db, chatId, b);
      r.Some? ==>
        || (Truthy(b.userId) && r.value.id == b.userId.value)
        || (Truthy(b.roleId) && RoleCandidate(db, chatId, b.roleId.value) == Some(r.value.id))
        || (Truthy(b.departmentId) && DeptCandidate(db.deptMembers, b.departmentId.value) == Some(r.value.id))
  {
  }

  /** The bindings as the query returns them, `ORDER BY tb.priority ASC`. */
  predicate ByPriority(bindings: seq<Binding>) {
    |bindings| <= 1 || (bindings[0].priority <= bindings[1].priority && ByPriority(bindings[1..]))
  }

  /** The user of the first binding, in priority order, that names one. */
  function FirstBound(db: Db, chatId: int, bindings: seq<Binding>): (r: Option<UserRow>)
    ensures r.Some? ==> r.value in db.users
  {
    if bindings == [] then None
    else
      var u := BindingUser(db, chatId, bindings[0]);
      if u.Some? then u else FirstBound(db, chatId, bindings[1..])
  }

  // ---------------------------------------------------------------- cache values

  /** `f"{row['id']}:{uname}"`. */
  function CacheValue(u: UserRow): string {
    IntToString(u.id) + ":" + DisplayName(u)
  }

  const NoneText := "None"

  /** `f"{None}:{None}"`. */
  const NoneValue := NoneText + ":" + NoneText

  /**
   * Reading a cached value: the pair it holds, or None when there is nothing
   * to use (no value, an empty one, no colon, or an id `int` rejects).
   */
  function CacheHit(cached: Option<string>): (r: Option<(Option<int>, Option<string>)>)
    ensures cached.None? || cached.value == "" || ':' !in cached.value ==> r.None?
    ensures r.Some? && r.value.1.Some? ==> r.value.1.value != NoneText
  {
    if cached.None? || cached.value == "" then None
    else
      var parts := SplitFirst(cached.value, ':');
      if |parts| != 2 then None
      else if parts[0] != NoneText && PyInt(parts[0]).None? then None
      else
        var uid := if parts[0] != NoneText then PyInt(parts[0]) else None;
        var name := if parts[1] != NoneText then Some(parts[1]) else None;
        Some((uid, name))
  }

  // ---------------------------------------------------------------- the resolver

  /**
   * The resolver as a function of the tables, the cached value for the chat
   * and topic, and the topic's bindings in priority order.
   */
  function Resolve(db: Db, chatId: int, topicId: Option<int>, explicit: Option<string>,
                   cached: Option<string>, bindings: seq<Binding>): Resolution {
    if explicit.Some? && explicit.value != "" then
      match UserByName(db.users, explicit.value)
      case Some(u) => Resolution(Some(u.id), Some(DisplayName(u)), None)
      case None => Resolution(None, None, None)
    else if topicId.None? then Resolution(None, None, None)
    else if CacheHit(cached).Some? then
      Resolution(CacheHit(cached).value.0, CacheHit(cached).value.1, None)
    else if bindings == [] then Resolution(None, None, None)
    else
      match FirstBound(db, chatId, bindings)
      case Some(u) => Resolution(Some(u.id), Some(DisplayName(u)), Some(CacheValue(u)))
      case None => Resolution(None, None, Some(NoneValue))
  }

  /** `f"responsible:{chat_id}:{topic_id}"`: its ':'-fields are the prefix and the two ids. */
  function CacheKey(chatId: int, topicId: int): (r: string)
    ensures SplitOn(r, ':') == ["responsible", IntToString(chatId), IntToString(topicId)]
  {
    CacheKeyFields(IntToString(chatId), IntToString(topicId));
    "responsible:" + IntToString(chatId) + ":" + IntToString(topicId)
  }

  lemma CacheKeyFields(a: string, b: string)
    requires ':' !in a && ':' !in b
    ensures SplitOn("responsible:" + a + ":" + b, ':') == ["responsible", a, b]
  {
    assert "responsible:" + a + ":" + b == "responsible" + ":" + a + ":" + b;
    assert ':' !in "responsible";
    SplitThreeFields("responsible", a, b, ':', ":");
  }

  /** Different chats or topics never share a cache key. */
  lemma CacheKeysDistinct(chatId: int, topicId: int, chatId': int, topicId': int)
    requires CacheKey(chatId, topicId) == CacheKey(chatId', topicId')
    ensures chatId == chatId' && topicId == topicId'
  {
    var f, f' := SplitOn(CacheKey(chatId, topicId), ':'), SplitOn(CacheKey(chatId', topicId'), ':');
    assert f == f';
    assert f[1] == IntToString(chatId) && f'[1] == IntToString(chatId');
    assert f[2] == IntToString(topicId) && f'[2] == IntToString(topicId');
    IntToStringInjective(chatId, chatId');
    IntToStringInjective(topicId, topicId');
  }

  /** The body of the loop over bindings: user, then role, then department. */
  method BindingUserStep(db: Db, chatId: int, b: Binding) returns (row: Option<UserRow>)
    ensures row == BindingUser(db, chatId, b)
  {
    if Truthy(b.userId) {
      row := UserById(db.users, b.userId.value);
      if row.Some? {
        return;
      }
    }
    if Truthy(b.roleId) {
      var uid := RoleCandidate(db, chatId, b.roleId.value);
      if Truthy(uid) {
        row := UserById(db.users, uid.value);
        if row.Some? {
          return;
        }
      }
    }
    if Truthy(b.departmentId) {
      var uid := MemberUserId(FirstInDept(db.deptMembers, b.departmentId.value, Lead));
      if !Truthy(uid) {
        uid := MemberUserId(FirstInDept(db.deptMembers, b.departmentId.value, Tech));
      }
      if !Truthy(uid) {
        uid := MemberUserId(FirstInDept(db.deptMembers, b.departmentId.value, AnyMember));
      }
      if Truthy(uid) {
        row := UserById(db.users, uid.value);
        if row.Some? {
          return;
        }
      }
    }
    return None;
  }

  /** The Redis keys the resolver reads and writes, with their values. */
  class ResponsibleCache {
    var entries: map<string, string>

    constructor ()
      ensures entries == map[]
    {
      entries := map[];
    }

    function Lookup(key: string): Option<string>
      reads this
    {
      if key in entries then Some(entries[key]) else None
    }

    /**
     * `_resolve_responsible`, writing to the cache where the source does. The
     * bindings are the topic's, as the query returns them.
     */
    method ResolveResponsible(db: Db, chatId: int, topicId: Option<int>, explicit: Option<string>,
                              bindings: seq<Binding>)
      returns (userId: Option<int>, username: Option<string>)
      requires ByPriority(bindings)
      modifies this
      ensures var key := CacheKey(chatId, topicId.GetOr(0));
        var r := Resolve(db, chatId, topicId, explicit, old(Lookup(key)), bindings);
        && userId == r.userId && username == r.username
        && entries == if r.cacheWrite.Some? then old(entries)[key := r.cacheWrite.value] else old(entries)
    {
      if explicit.Some? && explicit.value != "" {
        var row := UserByName(db.users, explicit.value);
        if row.Some? {
          return Some(row.value.id), Some(DisplayName(row.value));
        }
        return None, None;
      }
      if topicId.None? {
        return None, None;
      }
      var key := CacheKey(chatId, topicId.value);
      var hit := CacheHit(Lookup(key));
      if hit.Some? {
        return hit.value.0, hit.value.1;
      }
      if bindings == [] {
        return None, None;
      }
      var row := ScanBindings(db, chatId, bindings);
      if row.Some? {
        entries := entries[key := CacheValue(row.value)];
        return Some(row.value.id), Some(DisplayName(row.value));
      }
      entries := entries[key := NoneValue];
      return None, None;
    }
  }

  /** `for tb in bindings`: the user of the first binding that names one. */
  method ScanBindings(db: Db, chatId: int, bindings: seq<Binding>) returns (row: Option<UserRow>)
    ensures row == FirstBound(db, chatId, bindings)
  {
    var i := 0;
    while i < |bindings|
      invariant 0 <= i <= |bindings|
      invariant FirstBound(db, chatId, bindings) == FirstBound(db, chatId, bindings[i..])
    {
      assert bindings[i..][1..] == bindings[i + 1..];
      row := BindingUserStep(db, chatId, bindings[i]);
      if row.Some? {
        return;
      }
      i := i + 1;
    }
    return None;
  }

  // ---------------------------------------------------------------- properties

  /** An explicit name decides alone: the bindings and the cache play no part. */
  lemma ExplicitNameDecides(db: Db, chatId: int, topicId: Option<int>, name: string,
                            cached: Option<string>, bindings: seq<Binding>)
    requires name != ""
    ensures var r := Resolve(db, chatId, topicId, Some(name), cached, bindings);
      && r.cacheWrite.None?
      && (r.userId.Some? <==> exists u :: u in db.users && Lower(u.username) == Lower(name))
      && (r.userId.Some? ==> exists u :: u in db.users && u.id == r.userId.value && Lower(u.username) == Lower(name))
  {
  }

  /**
   * The cache is written only after a binding lookup: with no explicit name, in
   * a topic, on a cache miss and with bindings. What is written reads back as
   * the answer given, unless the name is the word "None".
   */
  lemma ResolveWritesAfterLookup(db: Db, chatId: int, topicId: Option<int>, explicit: Option<string>,
                                 cached: Option<string>, bindings: seq<Binding>)
    ensures var r := Resolve(db, chatId, topicId, explicit, cached, bindings);
      r.cacheWrite.Some? <==>
        (explicit.None? || explicit.value == "") && topicId.Some? && CacheHit(cached).None? && bindings != []
    ensures var r := Resolve(db, chatId, topicId, explicit, cached, bindings);
      r.cacheWrite.Some? && r.username != Some(NoneText) ==> CacheHit(r.cacheWrite) == Some((r.userId, r.username))
  {
    var r := Resolve(db, chatId, topicId, explicit, cached, bindings);
    if r.cacheWrite.Some? && r.username != Some(NoneText) {
      match FirstBound(db, chatId, bindings)
      case Some(u) => CacheRoundTrip(u);
      case None => NoneRoundTrip();
    }
  }

  /** The first binding, in priority order, that yields a user decides; earlier ones yield none. */
  lemma {:induction false} FirstBindingWins(db: Db, chatId: int, bindings: seq<Binding>)
    ensures FirstBound(db, chatId, bindings).Some? <==>
      exists k :: 0 <= k < |bindings| && BindingUser(db, chatId, bindings[k]).Some?
    ensures FirstBound(db, chatId, bindings).Some? ==>
      exists k :: 0 <= k < |bindings| && BindingUser(db, chatId, bindings[k]) == FirstBound(db, chatId, bindings)
        && forall j :: 0 <= j < k ==> BindingUser(db, chatId, bindings[j]).None?
  {
    if bindings != [] {
      FirstBindingWins(db, chatId, bindings[1..]);
      if BindingUser(db, chatId, bindings[0]).None? {
        if exists k :: 0 <= k < |bindings| && BindingUser(db, chatId, bindings[k]).Some? {
          var k :| 0 <= k < |bindings| && BindingUser(db, chatId, bindings[k]).Some?;
          assert bindings[1..][k - 1] == bindings[k];
        }
        if FirstBound(db, chatId, bindings).Some? {
          var k :| 0 <= k < |bindings[1..]| && BindingUser(db, chatId, bindings[1..][k]) == FirstBound(db, chatId, bindings)
            && forall j :: 0 <= j < k ==> BindingUser(db, chatId, bindings[1..][j]).None?;
          assert bindings[k + 1] == bindings[1..][k];
          forall j | 0 <= j < k + 1 ensures BindingUser(db, chatId, bindings[j]).None? {
            if j > 0 { assert bindings[j] == bindings[1..][j - 1]; }
          }
        }
      }
    }
  }

  /** A binding that names an existing user directly is answered with that user. */
  lemma DirectBindingUser(db: Db, chatId: int, b: Binding, u: UserRow)
    requires Truthy(b.userId) && u in db.users && u.id == b.userId.value
    requires forall v :: v in db.users && v.id == u.id ==> v == u
    ensures BindingUser(db, chatId, b) == Some(u)
  {
  }

  /**
   * A department binding without a usable lead falls back to the tech lead,
   * and picks the one ranked first by `(order_index, id)`.
   */
  lemma DepartmentFallsBackToTech(dms: seq<DeptMemberRow>, deptId: int, t: DeptMemberRow)
    requires forall d :: d in dms ==> !Qualifies(d, deptId, Lead)
    requires t in dms && Qualifies(t, deptId, Tech) && t.userId != 0
    requires forall d :: d in dms && Qualifies(d, deptId, Tech) && d != t ==> RanksBefore(t, d) && !RanksBefore(d, t)
    ensures DeptCandidate(dms, deptId) == Some(t.userId)
  {
  }

  /** The id part of a cache value: digits and possibly a sign, never "None" nor a colon. */
  lemma IdTextShape(n: int)
    ensures ':' !in IntToString(n) && IntToString(n) != NoneText
  {
    IntToStringChars(n);
    assert NoneText[0] == 'N';
    assert IntToString(n) != [] ==> IntToString(n)[0] != 'N';
  }

  /** A stored user is read back from the cache as the same id and name. */
  lemma CacheRoundTrip(u: UserRow)
    requires DisplayName(u) != NoneText
    ensures CacheHit(Some(CacheValue(u))) == Some((Some(u.id), Some(DisplayName(u))))
  {
    var id := IntToString(u.id);
    IdTextShape(u.id);
    IntToStringRoundTrip(u.id);
    var v := CacheValue(u);
    assert v == id + [':'] + DisplayName(u);
    var parts := SplitFirst(v, ':');
    assert ':' in v by { assert v[|id|] == ':'; }
    SplitFirstAtFirst(id, DisplayName(u), ':');
  }

  /** The split at the first separator, where the head holds none. */
  lemma SplitFirstAtFirst(a: string, b: string, sep: char)
    requires sep !in a
    ensures SplitFirst(a + [sep] + b, sep) == [a, b]
  {
    var s := a + [sep] + b;
    IndexOfAfter(a, sep, b);
    assert s[..|a|] == a && s[|a| + 1..] == b;
  }

  /** The "nobody" marker is read back as nobody. */
  lemma NoneRoundTrip()
    ensures CacheHit(Some(NoneValue)) == Some((None, None))
  {
    assert ':' !in NoneText;
    SplitFirstAtFirst(NoneText, NoneText, ':');
  }

  /**
   * A second call within the cache's lifetime gives the answer the first one
   * computed, and writes nothing, as long as the user's name is not the word
   * "None".
   */
  lemma CacheIsTransparent(db: Db, chatId: int, topicId: int, explicit: Option<string>,
                           cached: Option<string>, bindings: seq<Binding>, later: seq<Binding>)
    requires var r := Resolve(db, chatId, Some(topicId), explicit, cached, bindings);
      r.cacheWrite.Some? && r.username != Some(NoneText)
    ensures var r := Resolve(db, chatId, Some(topicId), explicit, cached, bindings);
      var again := Resolve(db, chatId, Some(topicId), explicit, r.cacheWrite, later);
      again == Resolution(r.userId, r.username, None)
  {
    var r := Resolve(db, chatId, Some(topicId), explicit, cached, bindings);
    match FirstBound(db, chatId, bindings)
    case Some(u) => CacheRoundTrip(u);
    case None => NoneRoundTrip();
  }

  /** A user whose name is literally "None" comes back from the cache without a name. */
  lemma NoneNamedUserLosesName(u: UserRow)
    requires u.username == NoneText
    ensures CacheHit(Some(CacheValue(u))) == Some((Some(u.id), None))
  {
    var id := IntToString(u.id);
    IdTextShape(u.id);
    IntToStringRoundTrip(u.id);
    SplitFirstAtFirst(id, NoneText, ':');
  }
}
