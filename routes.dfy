/**
 * The request handlers of api/routes.py that change the store or the cache.
 * Each takes the store the way the source's handlers take a database session,
 * and runs as one atomic step. Handlers that only read are functions in Views.
 */
module Routes {
  import opened Models
  import opened LinkCache
  import opened ShortCodes
  import opened Views
  import opened Database

  /**
   * The body of POST /links/shorten. `expiresAt` is accepted but never copied
   * into the new row. `projectId` is read by the handler although the request
   * schema in core/schemas.py does not declare it.
   */
  datatype LinkCreate = LinkCreate(
    originalUrl: string,
    customAlias: Option<string>,
    expiresAt: Option<Time>,
    projectId: Option<int>)

  /** The body of PUT /links/{code}: the only two columns a caller may change. */
  datatype LinkUpdate = LinkUpdate(originalUrl: Option<string>, expiresAt: Option<Time>)

  /** Python truthiness of the alias: an absent or empty alias falls back to a generated code. */
  predicate AliasGiven(alias: Option<string>) {
    alias.Some? && alias.value != ""
  }

  /** Python truthiness of the project id: an absent id, or id 0, skips the project check. */
  predicate ProjectGiven(project: Option<int>) {
    project.Some? && project.value != 0
  }

  /** A successful visit: one more access, stamped with the time of the visit, and nothing else. */
  function Touch(l: Link, now: Time): (r: Link)
    ensures r.accessCount == l.accessCount + 1 && r.lastAccessedAt == Some(now)
    ensures r.(accessCount := l.accessCount, lastAccessedAt := l.lastAccessedAt) == l
  {
    l.(accessCount := l.accessCount + 1, lastAccessedAt := Some(now))
  }

  /** An update: each supplied column replaced, every other column kept. */
  function Patch(l: Link, u: LinkUpdate): (r: Link)
    ensures r.originalUrl == (if u.originalUrl.Some? then u.originalUrl.value else l.originalUrl)
    ensures r.expiresAt == (if u.expiresAt.Some? then u.expiresAt else l.expiresAt)
    ensures r.(originalUrl := l.originalUrl, expiresAt := l.expiresAt) == l
  {
    l.(originalUrl := if u.originalUrl.Some? then u.originalUrl.value else l.originalUrl,
       expiresAt := if u.expiresAt.Some? then u.expiresAt else l.expiresAt)
  }

  /** The caller may change the row: nobody is signed in, or the signed-in user owns it. */
  predicate MayChange(user: Option<UserId>, l: Link) {
    user.None? || l.userId == user.value
  }

  /**
   * create_short_link. The code is the alias when one is given, otherwise a
   * freshly generated code (returned, as a ghost, so that the contract can speak
   * of it). A code already used as a short code or an alias fails with 400; a
   * project that the caller does not own fails with 404; a row the unique
   * constraints or the foreign key on `project_id` refuse fails in the
   * database, after drawing an id. A project id of 0 skips the ownership check
   * but names no project, so the foreign key refuses it. On success
   * exactly one row is appended. The cache is not touched.
   */
  method CreateShortLink(store: Store, req: LinkCreate, user: UserId, now: Time)
    returns (r: Result<Link>, ghost code: string)
    requires store.Valid()
    modifies store
    ensures store.Valid()
    ensures AliasGiven(req.customAlias) ==> code == req.customAlias.value
    ensures !AliasGiven(req.customAlias) ==> IsShortCode(code, DefaultLength)
    ensures store.cache == old(store.cache)
    ensures store.projects == old(store.projects) && store.nextProjectId == old(store.nextProjectId)
    ensures r == Err(AlreadyExists) <==> CodeTaken(old(store.links), code)
    ensures r == Err(NotFound) <==>
            !CodeTaken(old(store.links), code) && ProjectGiven(req.projectId)
            && IndexOfProject(old(store.projects), req.projectId.value, user).None?
    ensures r.Err? ==> store.links == old(store.links)
    ensures r.Err? && r.error != StoreRejected ==> store.nextLinkId == old(store.nextLinkId)
    ensures r == Err(StoreRejected) ==> store.nextLinkId == old(store.nextLinkId) + 1
    ensures r.Ok? ==>
      && !CodeTaken(old(store.links), code)
      && r.value == NewLink(old(store.nextLinkId), req.originalUrl, code, req.customAlias, user, req.projectId, now)
      && store.links == old(store.links) + [r.value]
      && store.nextLinkId == old(store.nextLinkId) + 1
    ensures r.Err? && r.error == StoreRejected ==>
      || !Insertable(old(store.links), NewLink(old(store.nextLinkId), req.originalUrl, code, req.customAlias, user, req.projectId, now))
      || !ProjectReferenced(old(store.projects), req.projectId)
    ensures r.Ok? <==>
      && !CodeTaken(old(store.links), code)
      && (ProjectGiven(req.projectId) ==> IndexOfProject(old(store.projects), req.projectId.value, user).Some?)
      && Insertable(old(store.links), NewLink(old(store.nextLinkId), req.originalUrl, code, req.customAlias, user, req.projectId, now))
      && ProjectReferenced(old(store.projects), req.projectId)
    ensures r.Err? ==> r.error in {AlreadyExists, NotFound, StoreRejected}
    ensures req.projectId == Some(0) && !CodeTaken(old(store.links), code) ==> r == Err(StoreRejected)
  {
    var c: string;
    if AliasGiven(req.customAlias) {
      c := req.customAlias.value;
    } else {
      c := GenerateShortCode(DefaultLength);
    }
    code := c;
    if CodeTaken(store.links, c) {
      return Err(AlreadyExists), code;
    }
    if ProjectGiven(req.projectId) && IndexOfProject(store.projects, req.projectId.value, user).None? {
      return Err(NotFound), code;
    }
    var l := NewLink(store.nextLinkId, req.originalUrl, c, req.customAlias, user, req.projectId, now);
    if !Insertable(store.links, l) || !ProjectReferenced(store.projects, req.projectId) {
      // The refused INSERT has already drawn its id from the sequence.
      store.nextLinkId := store.nextLinkId + 1;
      return Err(StoreRejected), code;
    }
    AppendPreservesTable(store.links, l);
    store.links := store.links + [l];
    store.nextLinkId := store.nextLinkId + 1;
    r := Ok(l);
  }

  /**
   * get_link: an unknown code is 404 and a row flagged expired is 410, both
   * leaving the store as it was; otherwise the row's access count goes up by one,
   * its last-access time becomes `now`, and the updated row is returned. Only the
   * stored flag is consulted, never the expiry time itself.
   */
  method GetLink(store: Store, code: string, now: Time) returns (r: Result<Link>)
    requires store.Valid()
    modifies store
    ensures store.Valid()
    ensures store.cache == old(store.cache) && store.projects == old(store.projects)
    ensures store.nextLinkId == old(store.nextLinkId) && store.nextProjectId == old(store.nextProjectId)
    ensures IndexOfCode(old(store.links), code).None? ==> r == Err(NotFound)
    ensures r.Err? ==> store.links == old(store.links)
    ensures var i := IndexOfCode(old(store.links), code);
      i.Some? ==>
        if old(store.links)[i.value].isExpired then r == Err(Gone)
        else
          && r == Ok(Touch(old(store.links)[i.value], now))
          && store.links == old(store.links)[i.value := r.value]
  {
    var i := IndexOfCode(store.links, code);
    if i.None? {
      return Err(NotFound);
    }
    var link := store.links[i.value];
    if link.isExpired {
      return Err(Gone);
    }
    var visited := Touch(link, now);
    ReplacePreservesTable(store.links, i.value, visited);
    store.links := store.links[i.value := visited];
    r := Ok(visited);
  }

  /** redirect_to_url: the same rule as get_link, answering with the destination of the row. */
  method RedirectToUrl(store: Store, code: string, now: Time) returns (r: Result<string>)
    requires store.Valid()
    modifies store
    ensures store.Valid()
    ensures store.cache == old(store.cache) && store.projects == old(store.projects)
    ensures store.nextLinkId == old(store.nextLinkId) && store.nextProjectId == old(store.nextProjectId)
    ensures IndexOfCode(old(store.links), code).None? ==> r == Err(NotFound)
    ensures r.Err? ==> store.links == old(store.links)
    ensures var i := IndexOfCode(old(store.links), code);
      i.Some? ==>
        if old(store.links)[i.value].isExpired then r == Err(Gone)
        else
          && r == Ok(old(store.links)[i.value].originalUrl)
          && store.links == old(store.links)[i.value := Touch(old(store.links)[i.value], now)]
  {
    var visited := GetLink(store, code, now);
    match visited
    case Err(e) => r := Err(e);
    case Ok(l) => r := Ok(l.originalUrl);
  }

  /**
   * update_link: 404 for an unknown code, 403 when a signed-in caller does not
   * own the row (both leaving store and cache as they were); otherwise only the
   * supplied columns change and the link views and the code's statistics key
   * are dropped from the cache.
   */
  method UpdateLink(store: Store, code: string, u: LinkUpdate, user: Option<UserId>) returns (r: Result<Link>)
    requires store.Valid()
    modifies store
    ensures store.Valid()
    ensures store.projects == old(store.projects)
    ensures store.nextLinkId == old(store.nextLinkId) && store.nextProjectId == old(store.nextProjectId)
    ensures IndexOfCode(old(store.links), code).None? ==> r == Err(NotFound)
    ensures r.Err? ==> store.links == old(store.links) && store.cache == old(store.cache)
    ensures var i := IndexOfCode(old(store.links), code);
      i.Some? ==>
        if !MayChange(user, old(store.links)[i.value]) then r == Err(Forbidden)
        else
          && r == Ok(Patch(old(store.links)[i.value], u))
          && store.links == old(store.links)[i.value := r.value]
          && store.cache == InvalidateLinkViews(old(store.cache), code)
    ensures PopularUncached(old(store.cache)) ==> PopularUncached(store.cache)
  {
    ghost var before := store.cache;
    if PopularUncached(before) {
      SubCacheKeepsPopularUncached(before, InvalidateLinkViews(before, code));
    }
    var i := IndexOfCode(store.links, code);
    if i.None? {
      return Err(NotFound);
    }
    var link := store.links[i.value];
    if !MayChange(user, link) {
      return Err(Forbidden);
    }
    var changed := Patch(link, u);
    ReplacePreservesTable(store.links, i.value, changed);
    store.links := store.links[i.value := changed];
    store.cache := ClearPattern(store.cache, PopularPattern);
    store.cache := ClearPattern(store.cache, RecentPattern);
    store.cache := Delete(store.cache, StatsKey(code));
    r := Ok(changed);
  }

  /**
   * delete_link: the same 404 and 403 guards; otherwise exactly that row is
   * removed and the cache is invalidated as for an update.
   */
  method DeleteLink(store: Store, code: string, user: Option<UserId>) returns (r: Status)
    requires store.Valid()
    modifies store
    ensures store.Valid()
    ensures store.projects == old(store.projects)
    ensures store.nextLinkId == old(store.nextLinkId) && store.nextProjectId == old(store.nextProjectId)
    ensures IndexOfCode(old(store.links), code).None? ==> r == Failure(NotFound)
    ensures r.Failure? ==> store.links == old(store.links) && store.cache == old(store.cache)
    ensures var i := IndexOfCode(old(store.links), code);
      i.Some? ==>
        if !MayChange(user, old(store.links)[i.value]) then r == Failure(Forbidden)
        else
          && r == Success
          && store.links == old(store.links)[..i.value] + old(store.links)[i.value + 1..]
          && store.cache == InvalidateLinkViews(old(store.cache), code)
    ensures PopularUncached(old(store.cache)) ==> PopularUncached(store.cache)
  {
    ghost var before := store.cache;
    if PopularUncached(before) {
      SubCacheKeepsPopularUncached(before, InvalidateLinkViews(before, code));
    }
    var i := IndexOfCode(store.links, code);
    if i.None? {
      return Failure(NotFound);
    }
    if !MayChange(user, store.links[i.value]) {
      return Failure(Forbidden);
    }
    RemovePreservesTable(store.links, i.value);
    store.links := store.links[..i.value] + store.links[i.value + 1..];
    store.cache := ClearPattern(store.cache, PopularPattern);
    store.cache := ClearPattern(store.cache, RecentPattern);
    store.cache := Delete(store.cache, StatsKey(code));
    r := Success;
  }

  /**
   * get_popular_links: a non-empty cached list under `popular_links_<limit>` is
   * served as it is. On a miss the active rows, most visited first, are read
   * and handed to the cache, whose `json.dumps` refuses ORM rows: a non-empty
   * view fails with a server error and nothing is stored, while an empty view
   * is stored (and reads back as a miss) and returned.
   */
  method GetPopularLinks(store: Store, limit: nat) returns (r: Result<seq<Link>>)
    modifies store`cache
    ensures Hit(old(store.cache), PopularKey(limit)).Some? ==>
      r == Ok(old(store.cache)[PopularKey(limit)]) && store.cache == old(store.cache)
    ensures Hit(old(store.cache), PopularKey(limit)).None? && PopularLinks(store.links, limit) != [] ==>
      r == Err(Unserialisable) && store.cache == old(store.cache)
    ensures Hit(old(store.cache), PopularKey(limit)).None? && PopularLinks(store.links, limit) == [] ==>
      r == Ok([]) && store.cache == old(store.cache)[PopularKey(limit) := []]
    ensures PopularUncached(old(store.cache)) ==> PopularUncached(store.cache)
  {
    var key := PopularKey(limit);
    var cached := Hit(store.cache, key);
    if cached.Some? {
      return Ok(cached.value);
    }
    var rows := PopularLinks(store.links, limit);
    if rows != [] {
      return Err(Unserialisable);
    }
    ghost var before := store.cache;
    store.cache := store.cache[key := []];
    if PopularUncached(before) {
      forall n: nat ensures Hit(store.cache, PopularKey(n)).None? {
        assert Hit(before, PopularKey(n)).None?;
      }
    }
    r := Ok([]);
  }

  /** The dictionaries get_recent_links caches: every column but `expires_at`, which reads back as absent. */
  function CachedForm(links: seq<Link>): (r: seq<Link>)
    ensures |r| == |links|
    ensures forall i :: 0 <= i < |r| ==> r[i].expiresAt == None && r[i].(expiresAt := links[i].expiresAt) == links[i]
  {
    seq(|links|, i requires 0 <= i < |links| => links[i].(expiresAt := None))
  }

  /**
   * get_recent_links: a non-empty cached list under `recent_links:<limit>` is
   * served as it is; otherwise the newest rows are read from the table, their
   * cached form is stored under that key, and the rows themselves are returned.
   */
  method GetRecentLinks(store: Store, limit: nat) returns (r: seq<Link>)
    modifies store`cache
    ensures Hit(old(store.cache), RecentKey(limit)).Some? ==>
      r == old(store.cache)[RecentKey(limit)] && store.cache == old(store.cache)
    ensures Hit(old(store.cache), RecentKey(limit)).None? ==>
      r == RecentLinks(store.links, limit) && store.cache == old(store.cache)[RecentKey(limit) := CachedForm(r)]
    ensures PopularUncached(old(store.cache)) ==> PopularUncached(store.cache)
  {
    var key := RecentKey(limit);
    var cached := Hit(store.cache, key);
    if cached.Some? {
      return cached.value;
    }
    r := RecentLinks(store.links, limit);
    ghost var before := store.cache;
    store.cache := store.cache[key := CachedForm(r)];
    if PopularUncached(before) {
      forall n: nat ensures Hit(store.cache, PopularKey(n)).None? {
        assert Hit(before, PopularKey(n)).None?;
      }
    }
  }

  /** create_project: appends a project owned by the caller, both timestamps `now`. */
  method CreateProject(store: Store, name: string, description: Option<string>, user: UserId, now: Time)
    returns (p: Project)
    requires store.Valid()
    modifies store
    ensures store.Valid()
    ensures p == NewProject(old(store.nextProjectId), name, description, user, now)
    ensures store.projects == old(store.projects) + [p]
    ensures store.nextProjectId == old(store.nextProjectId) + 1
    ensures store.links == old(store.links) && store.cache == old(store.cache)
    ensures store.nextLinkId == old(store.nextLinkId)
  {
    p := NewProject(store.nextProjectId, name, description, user, now);
    store.projects := store.projects + [p];
    store.nextProjectId := store.nextProjectId + 1;
  }

  /**
   * update_project: 404 unless the caller owns a project with that id; otherwise
   * name and description are replaced, and `updated_at` becomes `now` only when
   * one of them actually changed (an UPDATE is issued only for a changed row).
   */
  method UpdateProject(store: Store, id: int, name: string, description: Option<string>, user: UserId, now: Time)
    returns (r: Result<Project>)
    requires store.Valid()
    modifies store
    ensures store.Valid()
    ensures store.links == old(store.links) && store.cache == old(store.cache)
    ensures store.nextLinkId == old(store.nextLinkId) && store.nextProjectId == old(store.nextProjectId)
    ensures IndexOfProject(old(store.projects), id, user).None? ==> r == Err(NotFound) && store.projects == old(store.projects)
    ensures var i := IndexOfProject(old(store.projects), id, user);
      i.Some? ==>
        var p := old(store.projects)[i.value];
        var changed := p.name != name || p.description != description;
        && r == Ok(p.(name := name, description := description, updatedAt := if changed then now else p.updatedAt))
        && store.projects == old(store.projects)[i.value := r.value]
  {
    var i := IndexOfProject(store.projects, id, user);
    if i.None? {
      return Err(NotFound);
    }
    var p := store.projects[i.value];
    var changed := p.name != name || p.description != description;
    var q := p.(name := name, description := description, updatedAt := if changed then now else p.updatedAt);
    store.projects := store.projects[i.value := q];
    r := Ok(q);
  }

  /** The links of a deleted project lose their project reference; every other column is kept. */
  function Detach(links: seq<Link>, project: int): (r: seq<Link>)
    ensures |r| == |links|
    ensures forall k :: 0 <= k < |r| ==>
      r[k] == (if links[k].projectId == Some(project) then links[k].(projectId := None) else links[k])
  {
    seq(|links|, k requires 0 <= k < |links| =>
      if links[k].projectId == Some(project) then links[k].(projectId := None) else links[k])
  }

  /** No row refers to a project after it has been detached from it, and the table stays well formed. */
  lemma DetachClears(links: seq<Link>, project: int)
    requires WellFormedTable(links)
    ensures forall l :: l in Detach(links, project) ==> l.projectId != Some(project)
    ensures WellFormedTable(Detach(links, project))
  {
    PointwisePreservesTable(links, Detach(links, project));
  }

  /**
   * delete_project: 404 unless the caller owns a project with that id; otherwise
   * the project row is removed and the rows that referred to it are detached
   * (their links are not deleted).
   */
  method DeleteProject(store: Store, id: int, user: UserId) returns (r: Status)
    requires store.Valid()
    modifies store
    ensures store.Valid()
    ensures store.cache == old(store.cache)
    ensures store.nextLinkId == old(store.nextLinkId) && store.nextProjectId == old(store.nextProjectId)
    ensures IndexOfProject(old(store.projects), id, user).None? ==>
      r == Failure(NotFound) && store.projects == old(store.projects) && store.links == old(store.links)
    ensures var i := IndexOfProject(old(store.projects), id, user);
      i.Some? ==>
        && r == Success
        && store.projects == old(store.projects)[..i.value] + old(store.projects)[i.value + 1..]
        && store.links == Detach(old(store.links), id)
  {
    var i := IndexOfProject(store.projects, id, user);
    if i.None? {
      return Failure(NotFound);
    }
    var rest := store.projects[..i.value] + store.projects[i.value + 1..];
    assert forall a :: 0 <= a < |rest| ==> rest[a] == store.projects[if a < i.value then a else a + 1];
    DetachClears(store.links, id);
    store.projects := rest;
    store.links := Detach(store.links, id);
    r := Success;
  }

  // ---------------------------------------------------------------------------
  // What the handlers promise across calls

  /** A created row resolves under its code at once, and its code or alias can no longer be used by another create. */
  lemma {:induction false} CreatedLinkResolves(links: seq<Link>, l: Link)
    requires WellFormedTable(links + [l]) && !l.isExpired
    ensures IndexOfCode(links + [l], l.shortCode) == Some(|links|)
    ensures Resolves(links + [l], l.shortCode)
    ensures CodeTaken(links + [l], l.shortCode)
    ensures l.customAlias.Some? ==> CodeTaken(links + [l], l.customAlias.value)
  {
    var t := links + [l];
    assert t[|links|] == l;
    IndexOfCodeFinds(t, |links|);
  }

  /**
   * A successful visit adds exactly one click to the owner's statistics and
   * changes no other user's; the link and active counts stay as they were.
   */
  lemma {:induction false} VisitAddsOneClick(links: seq<Link>, i: nat, now: Time, user: UserId)
    requires i < |links|
    ensures var after := StatsOverview(links[i := Touch(links[i], now)], user);
      var before := StatsOverview(links, user);
      && after.totalLinks == before.totalLinks
      && after.activeLinks == before.activeLinks
      && after.totalClicks == before.totalClicks + (if links[i].userId == user then 1 else 0)
  {
    var x := Touch(links[i], now);
    FilterReplaceCount(links, i, x, OwnedBy(user));
    FilterReplaceCount(links, i, x, ActiveOwnedBy(user));
    if links[i].userId == user {
      FilterReplaceClicks(links, i, x, OwnedBy(user));
    } else {
      FilterReplaceUnselected(links, i, x, OwnedBy(user));
    }
  }

  /**
   * Deleting the row found under a code removes that row alone: every other row
   * is kept, and the code no longer resolves.
   */
  lemma {:induction false} DeleteRemovesExactly(links: seq<Link>, i: nat)
    requires WellFormedTable(links) && i < |links|
    ensures var rest := links[..i] + links[i + 1..];
      && |rest| == |links| - 1
      && links[i] !in rest
      && (forall k :: 0 <= k < |links| && k != i ==> links[k] in rest)
      && IndexOfCode(rest, links[i].shortCode) == None
  {
    var rest := links[..i] + links[i + 1..];
    forall a | 0 <= a < |rest| ensures rest[a] != links[i] && rest[a].shortCode != links[i].shortCode {
      var k := if a < i then a else a + 1;
      assert rest[a] == links[k];
      UniqueKeys(links, k, i);
    }
    forall k | 0 <= k < |links| && k != i ensures links[k] in rest {
      assert rest[if k < i then k else k - 1] == links[k];
    }
  }

  /** An update keeps the row's identity and state, so the code resolves exactly as it did before. */
  lemma {:induction false} UpdateKeepsResolution(links: seq<Link>, i: nat, u: LinkUpdate)
    requires WellFormedTable(links) && i < |links|
    ensures WellFormedTable(links[i := Patch(links[i], u)])
    ensures IndexOfCode(links[i := Patch(links[i], u)], links[i].shortCode) == Some(i)
    ensures Resolves(links[i := Patch(links[i], u)], links[i].shortCode) == !links[i].isExpired
  {
    var t := links[i := Patch(links[i], u)];
    ReplacePreservesTable(links, i, Patch(links[i], u));
    IndexOfCodeFinds(t, i);
  }

  /**
   * In a well-formed table the create handler's uniqueness query (short code or
   * alias equal to the code) matches at most one row, so `scalar_one_or_none`
   * never sees several and a taken code always surfaces as 400.
   */
  lemma {:induction false} CodeQueryMatchesAtMostOne(links: seq<Link>, code: string, i: nat, j: nat)
    requires WellFormedTable(links) && i < j < |links|
    ensures !((links[i].shortCode == code || links[i].customAlias == Some(code))
              && (links[j].shortCode == code || links[j].customAlias == Some(code)))
  {
    assert Compatible(links[i], links[j]);
  }
}
