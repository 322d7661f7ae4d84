/**
 * The admin page script admin/static/admin/js/department_inline_fix.js: on a
 * department's change page, the "add" links of the sub-department inline get
 * `?parent=<id>` appended, so that the new department opens with its parent
 * preselected. The page is its path and its inline groups.
 */
module ParentLinkFix {
  import opened Wrappers
  import opened Text

  const Marker := "/department/"

  /** An inline group: its element id and the hrefs of its add-links, in page order. */
  datatype InlineGroup = InlineGroup(id: string, hrefs: seq<string>)

  // ---------------------------------------------------------------- the regular expression

  /** `/\/department\/(\d+)\//` tried at position p: the captured digits. */
  function MatchAt(path: string, p: nat): (r: Option<string>)
    requires p <= |path|
    ensures r.Some? ==>
      && r.value != [] && AllDigits(r.value)
      && p + |Marker| + |r.value| < |path|
      && path[p..p + |Marker|] == Marker
      && path[p + |Marker|..p + |Marker| + |r.value|] == r.value
      && path[p + |Marker| + |r.value|] == '/'
  {
    var rest := path[p..];
    if StartsWith(rest, Marker) then
      var tail := rest[|Marker|..];
      var k := LeadingDigits(tail);
      if 1 <= k < |tail| && tail[k] == '/' then
        assert tail[..k] == path[p + |Marker|..p + |Marker| + k];
        Some(tail[..k])
      else None
    else None
  }

  /**
   * Where the digits after the marker run up to a slash, the match captures
   * all of them: `\d+` is greedy and a shorter run is not followed by '/'.
   */
  lemma MatchCapturesDigitRun(a: string, ds: string, b: string)
    requires ds != [] && AllDigits(ds)
    ensures MatchAt(a + Marker + ds + "/" + b, |a|) == Some(ds)
  {
    var path := a + Marker + ds + "/" + b;
    var rest := path[|a|..];
    assert rest == Marker + (ds + ("/" + b));
    var tail := rest[|Marker|..];
    assert tail == ds + ("/" + b);
    LeadingDigitsOf(ds, "/" + b);
    assert tail[..|ds|] == ds;
  }

  /** The leftmost position from p on where the expression matches. */
  function FirstMatchFrom(path: string, p: nat): (r: Option<nat>)
    requires p <= |path|
    ensures r.Some? ==> p <= r.value <= |path| && MatchAt(path, r.value).Some?
    ensures r.Some? ==> forall q :: p <= q < r.value ==> MatchAt(path, q).None?
    ensures r.None? ==> forall q :: p <= q <= |path| ==> MatchAt(path, q).None?
    decreases |path| - p
  {
    if MatchAt(path, p).Some? then Some(p)
    else if p == |path| then None
    else FirstMatchFrom(path, p + 1)
  }

  /** `location.pathname.match(...)`, then `match[1]`: the leftmost match's digits. */
  function ParentId(path: string): (r: Option<string>)
    ensures r.Some? ==> r.value != [] && AllDigits(r.value) && |Marker| + |r.value| < |path|
    ensures r.None? <==> forall q :: 0 <= q <= |path| ==> MatchAt(path, q).None?
  {
    match FirstMatchFrom(path, 0)
    case None => None
    case Some(p) => MatchAt(path, p)
  }

  /** The id of a department change page whose path holds no earlier match. */
  lemma ParentIdOfChangePage(a: string, ds: string, b: string)
    requires ds != [] && AllDigits(ds)
    requires forall q :: 0 <= q < |a| ==> MatchAt(a + Marker + ds + "/" + b, q).None?
    ensures ParentId(a + Marker + ds + "/" + b) == Some(ds)
  {
    MatchCapturesDigitRun(a, ds, b);
  }

  /** A path without the marker gives no id, so the page is left alone. */
  lemma NoMarkerNoId(path: string)
    requires !Contains(path, Marker)
    ensures ParentId(path) == None
  {
    forall q | 0 <= q <= |path| ensures MatchAt(path, q).None? {
      if MatchAt(path, q).Some? {
        ContainsAt(path, Marker, q);
      }
    }
  }

  // ---------------------------------------------------------------- the rewrite

  /** `group.id && group.id.includes('children')`. */
  predicate IsChildrenGroup(id: string) {
    id != [] && Contains(id, "children")
  }

  /** The href after the script, for a link in group `groupId` on the page at `path`. */
  function PatchHref(path: string, groupId: string, href: string): (r: string)
    ensures |href| <= |r| && r[..|href|] == href
    ensures r != href <==> IsChildrenGroup(groupId) && ParentId(path).Some? && href != [] && !Contains(href, "parent=")
  {
    if IsChildrenGroup(groupId) then
      match ParentId(path)
      case Some(id) =>
        if href != [] && !Contains(href, "parent=") then href + "?parent=" + id else href
      case None => href
    else href
  }

  function PatchGroup(path: string, g: InlineGroup): (r: InlineGroup)
    ensures r.id == g.id && |r.hrefs| == |g.hrefs|
  {
    g.(hrefs := seq(|g.hrefs|, k requires 0 <= k < |g.hrefs| => PatchHref(path, g.id, g.hrefs[k])))
  }

  /** The page the script leaves behind, group by group. */
  function PatchPage(path: string, groups: seq<InlineGroup>): (r: seq<InlineGroup>)
    ensures |r| == |groups|
  {
    seq(|groups|, g requires 0 <= g < |groups| => PatchGroup(path, groups[g]))
  }

  /** The page: its path and its inline groups, whose links the script rewrites. */
  class AdminPage {
    const path: string
    var groups: seq<InlineGroup>

    constructor (path: string, groups: seq<InlineGroup>)
      ensures this.path == path && this.groups == groups
    {
      this.path := path;
      this.groups := groups;
    }

    /** The DOMContentLoaded handler: both `forEach` loops. */
    method FixParentLinks()
      modifies this
      ensures groups == PatchPage(path, old(groups))
    {
      var g := 0;
      while g < |groups|
        invariant 0 <= g <= |groups| == |old(groups)|
        invariant groups[..g] == PatchPage(path, old(groups))[..g]
        invariant groups[g..] == old(groups)[g..]
      {
        var group := groups[g];
        if group.id != [] && Contains(group.id, "children") {
          var hrefs := PatchLinks(path, group);
          groups := groups[g := group.(hrefs := hrefs)];
        } else {
          assert group == PatchGroup(path, group);
        }
        g := g + 1;
      }
    }
  }

  /** The inner `forEach` over the add-links of one sub-department group. */
  method PatchLinks(path: string, group: InlineGroup) returns (hrefs: seq<string>)
    requires IsChildrenGroup(group.id)
    ensures hrefs == PatchGroup(path, group).hrefs
  {
    hrefs := group.hrefs;
    var k := 0;
    while k < |hrefs|
      invariant 0 <= k <= |hrefs| == |group.hrefs|
      invariant forall i :: 0 <= i < k ==> hrefs[i] == PatchHref(path, group.id, group.hrefs[i])
      invariant forall i :: k <= i < |hrefs| ==> hrefs[i] == group.hrefs[i]
    {
      var m := ParentId(path);
      var href := hrefs[k];
      if m.Some? && href != [] && !Contains(href, "parent=") {
        hrefs := hrefs[k := href + "?parent=" + m.value];
      }
      k := k + 1;
    }
  }

  // ---------------------------------------------------------------- properties

  /** Running the script a second time changes nothing more. */
  lemma PatchHrefIdempotent(path: string, groupId: string, href: string)
    ensures PatchHref(path, groupId, PatchHref(path, groupId, href)) == PatchHref(path, groupId, href)
  {
    if IsChildrenGroup(groupId) && ParentId(path).Some? && href != [] && !Contains(href, "parent=") {
      var id := ParentId(path).value;
      var r := href + "?parent=" + id;
      assert r == (href + "?") + "parent=" + id;
      ContainsItself("parent=");
      ContainsExtend(href + "?", "parent=", id, "parent=");
    }
  }

  lemma PatchPageIdempotent(path: string, groups: seq<InlineGroup>)
    ensures PatchPage(path, PatchPage(path, groups)) == PatchPage(path, groups)
  {
    var once := PatchPage(path, groups);
    forall g | 0 <= g < |groups|
      ensures PatchGroup(path, once[g]) == once[g]
    {
      forall k | 0 <= k < |groups[g].hrefs| {
        PatchHrefIdempotent(path, groups[g].id, groups[g].hrefs[k]);
      }
    }
  }

  /** Links of other groups, and all links when the path has no id, keep their href. */
  lemma OnlyChildrenLinksChange(path: string, groupId: string, href: string)
    requires !IsChildrenGroup(groupId) || ParentId(path).None?
    ensures PatchHref(path, groupId, href) == href
  {
  }

  /** An empty href, or one already naming a parent, is kept byte for byte. */
  lemma MarkedLinksKept(path: string, groupId: string, href: string)
    requires href == [] || Contains(href, "parent=")
    ensures PatchHref(path, groupId, href) == href
  {
  }

  /**
   * Otherwise the href gains "?parent=" and the id, and names the parent
   * afterwards.
   */
  lemma UnmarkedLinksGainParent(path: string, groupId: string, href: string)
    requires IsChildrenGroup(groupId) && ParentId(path).Some?
    requires href != [] && !Contains(href, "parent=")
    ensures PatchHref(path, groupId, href) == href + "?parent=" + ParentId(path).value
    ensures Contains(PatchHref(path, groupId, href), "parent=")
  {
    PatchHrefIdempotent(path, groupId, href);
  }

  /**
   * The id is appended with "?" even when the href already has a query, so
   * such a link ends up with two question marks.
   */
  lemma QueryGetsSecondQuestionMark(path: string, groupId: string, href: string, i: nat)
    requires IsChildrenGroup(groupId) && ParentId(path).Some?
    requires href != [] && !Contains(href, "parent=") && i < |href| && href[i] == '?'
    ensures var r := PatchHref(path, groupId, href);
      i < |href| < |r| && r[i] == '?' && r[|href|] == '?'
  {
  }
}
