/**
 * The read-only queries of api/routes.py: lookups by code, filters, orderings,
 * LIMIT/OFFSET, and the per-user statistics. Each is a function of the table.
 * SQL leaves the order of rows with equal sort keys open; the model fixes one
 * (a stable sort, so equal keys keep table order).
 */
module Views {
  import opened Models

  /** `SELECT ... WHERE short_code = code`: the position of the row with that code, if any. */
  function IndexOfCode(links: seq<Link>, code: string): (r: Option<nat>)
    ensures r.Some? ==> r.value < |links| && links[r.value].shortCode == code
    ensures r.None? <==> forall i :: 0 <= i < |links| ==> links[i].shortCode != code
    decreases |links|
  {
    if links == [] then None
    else if links[|links| - 1].shortCode == code then Some(|links| - 1)
    else IndexOfCode(links[..|links| - 1], code)
  }

  /** In a well-formed table the lookup finds the one row that carries the code. */
  lemma IndexOfCodeFinds(links: seq<Link>, j: nat)
    requires WellFormedTable(links) && j < |links|
    ensures IndexOfCode(links, links[j].shortCode) == Some(j)
  {
    var r := IndexOfCode(links, links[j].shortCode);
    if r.value != j {
      UniqueKeys(links, r.value, j);
    }
  }

  /** Whether `code` resolves: a row carries it and that row is not flagged expired. */
  predicate Resolves(links: seq<Link>, code: string) {
    var r := IndexOfCode(links, code);
    r.Some? && !links[r.value].isExpired
  }

  /** A WHERE clause: the rows satisfying `p`, in table order. */
  function Filter(s: seq<Link>, p: Link -> bool): (r: seq<Link>)
    ensures |r| <= |s|
    ensures forall x :: x in r <==> x in s && p(x)
    decreases |s|
  {
    if s == [] then []
    else Filter(s[..|s| - 1], p) + (if p(s[|s| - 1]) then [s[|s| - 1]] else [])
  }

  /** A WHERE clause lists each selected row as often as the table holds it, and no other row. */
  lemma {:induction false} FilterMultiset(s: seq<Link>, p: Link -> bool)
    ensures forall x :: multiset(Filter(s, p))[x] == if p(x) then multiset(s)[x] else 0
    decreases |s|
  {
    if s != [] {
      var init, last := s[..|s| - 1], s[|s| - 1];
      assert s == init + [last];
      FilterMultiset(init, p);
      assert Filter(s, p) == Filter(init, p) + (if p(last) then [last] else []);
    }
  }

  /** A filter that every row passes keeps the whole table. */
  lemma {:induction false} FilterAll(s: seq<Link>, p: Link -> bool)
    requires forall i :: 0 <= i < |s| ==> p(s[i])
    ensures Filter(s, p) == s
    decreases |s|
  {
    if s != [] {
      var init, last := s[..|s| - 1], s[|s| - 1];
      assert forall i :: 0 <= i < |init| ==> init[i] == s[i];
      FilterAll(init, p);
      assert p(last);
      calc {
        Filter(s, p);
        Filter(init, p) + [last];
        init + [last];
        s;
      }
    }
  }

  /** A stricter filter selects no more rows. */
  lemma {:induction false} FilterMonotone(s: seq<Link>, p: Link -> bool, q: Link -> bool)
    requires forall x :: p(x) ==> q(x)
    ensures |Filter(s, p)| <= |Filter(s, q)|
    decreases |s|
  {
    if s != [] {
      FilterMonotone(s[..|s| - 1], p, q);
    }
  }

  /** Filtering keeps table order, so it keeps a well-formed table well formed. */
  lemma {:induction false} FilterPreservesTable(s: seq<Link>, p: Link -> bool)
    requires WellFormedTable(s)
    ensures WellFormedTable(Filter(s, p))
    decreases |s|
  {
    if s != [] {
      var init := s[..|s| - 1];
      var last := s[|s| - 1];
      assert WellFormedTable(init) by {
        forall i, j | 0 <= i < j < |init| ensures Compatible(init[i], init[j]) {
          assert init[i] == s[i] && init[j] == s[j];
        }
      }
      FilterPreservesTable(init, p);
      var f := Filter(init, p);
      var r := Filter(s, p);
      forall i, j | 0 <= i < j < |r| ensures Compatible(r[i], r[j]) {
        if j < |f| {
          assert r[i] == f[i] && r[j] == f[j];
        } else {
          assert r[j] == last && r[i] == f[i];
          assert f[i] in init;
          var k :| 0 <= k < |init| && init[k] == f[i];
          assert Compatible(s[k], s[|s| - 1]);
        }
      }
      forall i | 0 <= i < |r| ensures RowOk(r[i]) {
        assert r[i] in s;
      }
    }
  }

  /** Total of `access_count` over the rows (`func.sum`, with an empty sum read as 0). */
  function Clicks(s: seq<Link>): nat
    decreases |s|
  {
    if s == [] then 0 else Clicks(s[..|s| - 1]) + s[|s| - 1].accessCount
  }

  /** Changing one row to another that the filter treats the same way selects as many rows as before. */
  lemma {:induction false} FilterReplaceCount(s: seq<Link>, i: nat, x: Link, p: Link -> bool)
    requires i < |s| && p(x) == p(s[i])
    ensures |Filter(s[i := x], p)| == |Filter(s, p)|
    decreases |s|
  {
    var t := s[i := x];
    var n := |s| - 1;
    if i == n {
      assert t[..n] == s[..n];
    } else {
      assert t[..n] == s[..n][i := x];
      FilterReplaceCount(s[..n], i, x, p);
    }
  }

  /**
   * Changing one selected row to another changes the click total of the
   * selection by the difference between the two rows' counters.
   */
  lemma {:induction false} FilterReplaceClicks(s: seq<Link>, i: nat, x: Link, p: Link -> bool)
    requires i < |s| && p(x) && p(s[i])
    ensures Clicks(Filter(s[i := x], p)) + s[i].accessCount == Clicks(Filter(s, p)) + x.accessCount
    decreases |s|
  {
    var t := s[i := x];
    var n := |s| - 1;
    var sInit, tInit := s[..n], t[..n];
    FilterLastClicks(t, p);
    FilterLastClicks(s, p);
    if i == n {
      assert tInit == sInit;
    } else {
      assert tInit == sInit[i := x];
      assert t[n] == s[n];
      FilterReplaceClicks(sInit, i, x, p);
    }
  }

  /** The click total of a selection grows by the last row's count exactly when that row is selected. */
  lemma FilterLastClicks(s: seq<Link>, p: Link -> bool)
    requires s != []
    ensures Clicks(Filter(s, p)) ==
      Clicks(Filter(s[..|s| - 1], p)) + (if p(s[|s| - 1]) then s[|s| - 1].accessCount else 0)
  {
    var init, last := s[..|s| - 1], s[|s| - 1];
    var f := Filter(init, p);
    if p(last) {
      assert Filter(s, p) == f + [last];
      ClicksSnoc(f, last);
    } else {
      assert Filter(s, p) == f;
    }
  }

  /** Changing a row the filter rejects, to another it rejects, leaves the selection as it was. */
  lemma {:induction false} FilterReplaceUnselected(s: seq<Link>, i: nat, x: Link, p: Link -> bool)
    requires i < |s| && !p(x) && !p(s[i])
    ensures Filter(s[i := x], p) == Filter(s, p)
    decreases |s|
  {
    var t := s[i := x];
    var n := |s| - 1;
    var sInit, tInit := s[..n], t[..n];
    assert Filter(s, p) == Filter(sInit, p) + (if p(s[n]) then [s[n]] else []);
    assert Filter(t, p) == Filter(tInit, p) + (if p(t[n]) then [t[n]] else []);
    if i == n {
      assert tInit == sInit;
    } else {
      assert tInit == sInit[i := x];
      assert t[n] == s[n];
      FilterReplaceUnselected(sInit, i, x, p);
    }
  }

  lemma ClicksSnoc(s: seq<Link>, x: Link)
    ensures Clicks(s + [x]) == Clicks(s) + x.accessCount
  {
    assert (s + [x])[..|s|] == s;
  }

  // ---------------------------------------------------------------------------
  // Orderings

  predicate SortedDesc(s: seq<Link>, key: Link -> int) {
    forall i, j :: 0 <= i < j < |s| ==> key(s[i]) >= key(s[j])
  }

  /** Places `x` after every row whose key is at least its own. */
  function Insert(x: Link, s: seq<Link>, key: Link -> int): (r: seq<Link>)
    ensures |r| == |s| + 1
    ensures multiset(r) == multiset(s) + multiset{x}
    decreases |s|
  {
    if s == [] then [x]
    else if key(s[0]) >= key(x) then
      assert s == [s[0]] + s[1..];
      [s[0]] + Insert(x, s[1..], key)
    else
      assert s == [s[0]] + s[1..];
      [x] + s
  }

  /** Inserting into a descending sequence keeps it descending. */
  lemma {:induction false} InsertSorted(x: Link, s: seq<Link>, key: Link -> int)
    requires SortedDesc(s, key)
    ensures SortedDesc(Insert(x, s, key), key)
    decreases |s|
  {
    if s != [] && key(s[0]) >= key(x) {
      InsertSorted(x, s[1..], key);
      var rest := Insert(x, s[1..], key);
      forall i | 0 <= i < |rest| ensures key(s[0]) >= key(rest[i]) {
        assert rest[i] in multiset(rest);
        if rest[i] != x {
          assert rest[i] in multiset(s[1..]);
          var k :| 0 <= k < |s[1..]| && s[1..][k] == rest[i];
          assert s[1..][k] == s[k + 1];
        }
      }
    }
  }

  /** `ORDER BY key DESC`: a permutation of the rows with non-increasing keys. */
  function SortDesc(s: seq<Link>, key: Link -> int): (r: seq<Link>)
    ensures |r| == |s|
    ensures SortedDesc(r, key)
    ensures multiset(r) == multiset(s)
    decreases |s|
  {
    if s == [] then []
    else
      assert s == s[..|s| - 1] + [s[|s| - 1]];
      var sorted := SortDesc(s[..|s| - 1], key);
      InsertSorted(s[|s| - 1], sorted, key);
      Insert(s[|s| - 1], sorted, key)
  }

  /** A row is in a sorted view exactly when it is among the rows that were sorted. */
  lemma SortedMembers(s: seq<Link>, key: Link -> int)
    ensures forall x :: x in SortDesc(s, key) <==> x in s
  {
    var r := SortDesc(s, key);
    forall x ensures x in r <==> x in s {
      assert x in r <==> x in multiset(r);
      assert x in s <==> x in multiset(s);
    }
  }

  /** `.offset(skip)`. */
  function Drop(s: seq<Link>, skip: nat): (r: seq<Link>)
    ensures |r| == if skip <= |s| then |s| - skip else 0
    ensures forall i :: 0 <= i < |r| ==> r[i] == s[skip + i]
  {
    if skip <= |s| then s[skip..] else []
  }

  /** `.limit(limit)`. */
  function Take(s: seq<Link>, limit: nat): (r: seq<Link>)
    ensures |r| == if limit <= |s| then limit else |s|
    ensures r <= s
  {
    if limit <= |s| then s[..limit] else s
  }

  /** `.limit(limit)` lists no row more often than the rows it cuts from. */
  lemma TakeMultiset(s: seq<Link>, limit: nat)
    ensures multiset(Take(s, limit)) <= multiset(s)
  {
    if limit <= |s| {
      assert s == s[..limit] + s[limit..];
    }
  }

  function Min(a: int, b: int): int { if a <= b then a else b }

  /** Every row of `s` that `top` leaves out ranks no higher than any row `top` keeps. */
  predicate IsTop(top: seq<Link>, s: seq<Link>, key: Link -> int) {
    forall x, y :: x in s && x !in top && y in top ==> key(y) >= key(x)
  }

  /**
   * `page` is the window of `ranking` that starts at `skip`: the rows before it
   * rank at least as high as every row on it, and the rows after it no higher.
   */
  predicate IsPage(page: seq<Link>, ranking: seq<Link>, skip: nat, key: Link -> int) {
    && (skip <= |ranking| ==> skip + |page| <= |ranking| && page == ranking[skip..skip + |page|])
    && (forall i, y :: 0 <= i < skip && i < |ranking| && y in page ==> key(ranking[i]) >= key(y))
    && (forall j, y :: skip + |page| <= j < |ranking| && y in page ==> key(y) >= key(ranking[j]))
  }

  /**
   * `.offset(skip).limit(limit)` over a ranking: the page is the window of the
   * ranking at `skip`, still ranked; the rows before it rank at least as high
   * and the rows after it no higher.
   */
  lemma {:induction false} PageOfRanking(sorted: seq<Link>, key: Link -> int, skip: nat, limit: nat)
    requires SortedDesc(sorted, key)
    ensures var r := Take(Drop(sorted, skip), limit);
      && (forall x :: x in r ==> x in sorted)
      && SortedDesc(r, key)
      && IsPage(r, sorted, skip, key)
  {
    var page := Drop(sorted, skip);
    var r := Take(page, limit);
    assert forall k :: 0 <= k < |r| ==> r[k] == page[k] == sorted[skip + k];
    if skip <= |sorted| {
      assert r == sorted[skip..skip + |r|];
    }
    forall x | x in r ensures x in sorted {
      var k :| 0 <= k < |r| && r[k] == x;
    }
    forall i, y | 0 <= i < skip && i < |sorted| && y in r ensures key(sorted[i]) >= key(y) {
      var k :| 0 <= k < |r| && r[k] == y;
    }
    forall j, y | skip + |r| <= j < |sorted| && y in r ensures key(y) >= key(sorted[j]) {
      var k :| 0 <= k < |r| && r[k] == y;
    }
  }

  /**
   * `ORDER BY key DESC LIMIT n` keeps the top of the ranking: a row it leaves
   * out ranks no higher than any row it keeps.
   */
  lemma {:induction false} TakeIsTop(s: seq<Link>, key: Link -> int, limit: nat)
    ensures IsTop(Take(SortDesc(s, key), limit), s, key)
  {
    var sorted := SortDesc(s, key);
    SortedMembers(s, key);
    var r := Take(sorted, limit);
    forall x, y | x in s && x !in r && y in r ensures key(y) >= key(x) {
      var j :| 0 <= j < |sorted| && sorted[j] == x;
      assert |r| <= j;
      var i :| 0 <= i < |r| && r[i] == y;
      assert sorted[i] == y;
    }
  }

  function AccessCountKey(l: Link): int { l.accessCount }
  function CreatedAtKey(l: Link): int { l.createdAt }

  /**
   * Sort key for an optional timestamp, with NULL read as 0. The inactive view
   * lists only rows with a visit time, and in a well-formed table every expired
   * row has an expiry time, so there the value chosen for NULL never decides an
   * order. In a table that breaks `RowOk`, an expired row without an expiry
   * sorts last here, whereas PostgreSQL puts NULL first under DESC.
   */
  function OptionalTimeKey(t: Option<Time>): int {
    match t
    case Some(v) => v
    case None => 0
  }

  function ExpiresAtKey(l: Link): int { OptionalTimeKey(l.expiresAt) }
  function LastAccessedKey(l: Link): int { OptionalTimeKey(l.lastAccessedAt) }

  // ---------------------------------------------------------------------------
  // Row predicates of the WHERE clauses

  function IsActiveRow(l: Link): bool { l.isActive }
  function OwnedBy(user: UserId): Link -> bool { (l: Link) => l.userId == user }
  function ActiveOwnedBy(user: UserId): Link -> bool { (l: Link) => l.userId == user && l.isActive }
  function ExpiredOwnedBy(user: UserId): Link -> bool { (l: Link) => l.userId == user && l.isExpired }
  function InProject(project: int): Link -> bool { (l: Link) => l.projectId == Some(project) }
  function WithUrl(url: string): Link -> bool { (l: Link) => l.originalUrl == url }

  /** Inactive, owned by `user`, and last visited at or before `since`: a NULL visit time never qualifies. */
  function IdleOwnedBy(user: UserId, since: Time): Link -> bool {
    (l: Link) => l.userId == user && !l.isActive && l.lastAccessedAt.Some? && l.lastAccessedAt.value <= since
  }

  const SecondsPerDay: int := 86400

  // ---------------------------------------------------------------------------
  // The list views

  /** get_popular_links on a cache miss: active rows, most visited first, at most `limit`. */
  function PopularLinks(links: seq<Link>, limit: nat): (r: seq<Link>)
    ensures |r| == Min(limit, |Filter(links, IsActiveRow)|)
    ensures forall x :: x in r ==> x in links && x.isActive
    ensures multiset(r) <= multiset(links)
    ensures SortedDesc(r, AccessCountKey)
  {
    var sorted := SortDesc(Filter(links, IsActiveRow), AccessCountKey);
    SortedMembers(Filter(links, IsActiveRow), AccessCountKey);
    FilterMultiset(links, IsActiveRow);
    TakeMultiset(sorted, limit);
    var r := Take(sorted, limit);
    assert forall x :: x in r ==> x in sorted;
    r
  }

  /**
   * The popular view really is the top of the ranking: an active row it leaves
   * out has no more visits than any row it returns.
   */
  lemma {:induction false} PopularIsTop(links: seq<Link>, limit: nat)
    ensures forall x, y :: x in links && x.isActive && x !in PopularLinks(links, limit) && y in PopularLinks(links, limit)
                           ==> y.accessCount >= x.accessCount
  {
    var f := Filter(links, IsActiveRow);
    var r := PopularLinks(links, limit);
    TakeIsTop(f, AccessCountKey, limit);
    assert r == Take(SortDesc(f, AccessCountKey), limit);
    forall x, y | x in links && x.isActive && x !in r && y in r ensures y.accessCount >= x.accessCount {
      assert IsActiveRow(x) && x in f;
      assert AccessCountKey(y) >= AccessCountKey(x);
    }
  }

  /** In a well-formed table an expired row is inactive, so the popular view never lists one. */
  lemma PopularHasNoExpired(links: seq<Link>, limit: nat)
    requires WellFormedTable(links)
    ensures forall x :: x in PopularLinks(links, limit) ==> !x.isExpired
  {
    forall x | x in PopularLinks(links, limit) ensures !x.isExpired {
      var i :| 0 <= i < |links| && links[i] == x;
      assert RowOk(links[i]);
    }
  }

  /**
   * get_recent_links on a cache miss: at most `limit` rows, newest first, and
   * they are the newest ones: a row left out was created no later than any row
   * listed.
   */
  function RecentLinks(links: seq<Link>, limit: nat): (r: seq<Link>)
    ensures |r| == Min(limit, |links|)
    ensures forall x :: x in r ==> x in links
    ensures multiset(r) <= multiset(links)
    ensures SortedDesc(r, CreatedAtKey)
    ensures IsTop(r, links, CreatedAtKey)
  {
    var sorted := SortDesc(links, CreatedAtKey);
    SortedMembers(links, CreatedAtKey);
    TakeIsTop(links, CreatedAtKey, limit);
    TakeMultiset(sorted, limit);
    var r := Take(sorted, limit);
    assert forall x :: x in r ==> x in sorted;
    r
  }

  /** get_user_links: the caller's rows, in table order (the query has no ORDER BY). */
  function UserLinks(links: seq<Link>, user: UserId): (r: seq<Link>)
    ensures forall x :: x in r <==> x in links && x.userId == user
    ensures forall x :: multiset(r)[x] == if x.userId == user then multiset(links)[x] else 0
  {
    FilterMultiset(links, OwnedBy(user));
    Filter(links, OwnedBy(user))
  }

  /**
   * get_my_links: the page at `skip` of the caller's rows ranked newest first:
   * every row skipped is at least as new as every row on the page, and every row
   * after the page is no newer.
   */
  function MyLinks(links: seq<Link>, user: UserId, skip: nat, limit: nat): (r: seq<Link>)
    ensures |r| == Min(limit, if skip <= |Filter(links, OwnedBy(user))| then |Filter(links, OwnedBy(user))| - skip else 0)
    ensures forall x :: x in r ==> x in links && x.userId == user
    ensures SortedDesc(r, CreatedAtKey)
    ensures IsPage(r, SortDesc(Filter(links, OwnedBy(user)), CreatedAtKey), skip, CreatedAtKey)
  {
    var sorted := SortDesc(Filter(links, OwnedBy(user)), CreatedAtKey);
    SortedMembers(Filter(links, OwnedBy(user)), CreatedAtKey);
    PageOfRanking(sorted, CreatedAtKey, skip, limit);
    Take(Drop(sorted, skip), limit)
  }

  /** get_expired_links: the caller's rows flagged expired, latest expiry first. */
  function ExpiredLinks(links: seq<Link>, user: UserId): (r: seq<Link>)
    ensures forall x :: x in r <==> x in links && x.userId == user && x.isExpired
    ensures forall x :: multiset(r)[x] == if x.userId == user && x.isExpired then multiset(links)[x] else 0
    ensures SortedDesc(r, ExpiresAtKey)
  {
    var f := Filter(links, ExpiredOwnedBy(user));
    SortedMembers(f, ExpiresAtKey);
    FilterMultiset(links, ExpiredOwnedBy(user));
    SortDesc(f, ExpiresAtKey)
  }

  /**
   * get_inactive_links: the caller's inactive rows last visited at least `days`
   * days before `now`, latest visit first. Rows never visited are not listed.
   */
  function InactiveLinks(links: seq<Link>, user: UserId, now: Time, days: int): (r: seq<Link>)
    ensures forall x :: x in r <==>
      x in links && x.userId == user && !x.isActive
      && x.lastAccessedAt.Some? && x.lastAccessedAt.value <= now - days * SecondsPerDay
    ensures forall x :: multiset(r)[x] == if IdleOwnedBy(user, now - days * SecondsPerDay)(x) then multiset(links)[x] else 0
    ensures SortedDesc(r, LastAccessedKey)
  {
    var f := Filter(links, IdleOwnedBy(user, now - days * SecondsPerDay));
    SortedMembers(f, LastAccessedKey);
    FilterMultiset(links, IdleOwnedBy(user, now - days * SecondsPerDay));
    SortDesc(f, LastAccessedKey)
  }

  /** The position of project `id` among the rows owned by `user`, if any. */
  function IndexOfProject(projects: seq<Project>, id: int, user: UserId): (r: Option<nat>)
    ensures r.Some? ==> r.value < |projects| && projects[r.value].id == id && projects[r.value].userId == user
    ensures r.None? <==> forall i :: 0 <= i < |projects| ==> !(projects[i].id == id && projects[i].userId == user)
    decreases |projects|
  {
    if projects == [] then None
    else if projects[|projects| - 1].id == id && projects[|projects| - 1].userId == user then Some(|projects| - 1)
    else IndexOfProject(projects[..|projects| - 1], id, user)
  }

  /** get_project_links: 404 unless the caller owns the project; otherwise its rows, newest first. */
  function ProjectLinks(links: seq<Link>, projects: seq<Project>, project: int, user: UserId): (r: Result<seq<Link>>)
    ensures r.Err? <==> forall i :: 0 <= i < |projects| ==> !(projects[i].id == project && projects[i].userId == user)
    ensures r.Err? ==> r.error == NotFound
    ensures r.Ok? ==> (forall x :: x in r.value <==> x in links && x.projectId == Some(project))
    ensures r.Ok? ==> (forall x :: multiset(r.value)[x] == if x.projectId == Some(project) then multiset(links)[x] else 0)
    ensures r.Ok? ==> SortedDesc(r.value, CreatedAtKey)
  {
    if IndexOfProject(projects, project, user).None? then Err(NotFound)
    else
      var f := Filter(links, InProject(project));
      SortedMembers(f, CreatedAtKey);
      FilterMultiset(links, InProject(project));
      Ok(SortDesc(f, CreatedAtKey))
  }

  /** get_user_projects: the caller's projects, in table order. */
  function UserProjects(projects: seq<Project>, user: UserId): (r: seq<Project>)
    ensures forall p :: p in r <==> p in projects && p.userId == user
    ensures forall p :: multiset(r)[p] == if p.userId == user then multiset(projects)[p] else 0
    decreases |projects|
  {
    if projects == [] then []
    else
      var last := projects[|projects| - 1];
      assert projects == projects[..|projects| - 1] + [last];
      UserProjects(projects[..|projects| - 1], user) + (if last.userId == user then [last] else [])
  }

  /** get_link_stats: the row with that code if the caller owns it, 404 otherwise. */
  function LinkStats(links: seq<Link>, code: string, user: UserId): (r: Result<Link>)
    requires WellFormedTable(links)
    ensures r.Ok? <==> exists i :: 0 <= i < |links| && links[i].shortCode == code && links[i].userId == user
    ensures r.Ok? ==> r.value in links && r.value.shortCode == code && r.value.userId == user
    ensures r.Err? ==> r.error == NotFound
  {
    var i := IndexOfCode(links, code);
    if i.Some? && links[i.value].userId == user then Ok(links[i.value])
    else
      assert forall j :: 0 <= j < |links| && links[j].shortCode == code ==> links[j].userId != user by {
        forall j | 0 <= j < |links| && links[j].shortCode == code ensures links[j].userId != user {
          IndexOfCodeFinds(links, j);
        }
      }
      Err(NotFound)
  }

  /**
   * search_link: the one row with that destination. No row gives 404, several
   * rows make `scalar_one_or_none` raise, and a signed-in caller who does not own
   * the row gets 403.
   */
  function SearchLink(links: seq<Link>, url: string, user: Option<UserId>): (r: Result<Link>)
    ensures r.Ok? ==> r.value in links && r.value.originalUrl == url
    ensures r.Ok? ==> user.None? || r.value.userId == user.value
    ensures r == Err(NotFound) <==> forall x :: x in links ==> x.originalUrl != url
    ensures r == Err(MultipleResults) <==> |Filter(links, WithUrl(url))| > 1
    ensures |Filter(links, WithUrl(url))| == 1 ==>
      (r.Ok? <==> user.None? || Filter(links, WithUrl(url))[0].userId == user.value)
    ensures |Filter(links, WithUrl(url))| == 1 && r.Ok? ==> r.value == Filter(links, WithUrl(url))[0]
    ensures r.Err? ==> r.error in {NotFound, MultipleResults, Forbidden}
  {
    var found := Filter(links, WithUrl(url));
    assert |found| > 0 ==> found[0] in found;
    if |found| == 0 then
      Err(NotFound)
    else if |found| > 1 then Err(MultipleResults)
    else
      assert found[0] in found;
      if user.Some? && found[0].userId != user.value then Err(Forbidden)
      else Ok(found[0])
  }

  // ---------------------------------------------------------------------------
  // Statistics

  datatype Stats = Stats(totalLinks: nat, totalClicks: nat, activeLinks: nat)

  /**
   * get_stats_overview: how many rows the caller owns, the sum of their access
   * counts, and how many of them are active.
   */
  function StatsOverview(links: seq<Link>, user: UserId): (r: Stats)
    ensures r.activeLinks <= r.totalLinks
    ensures r.totalLinks == 0 ==> r.totalClicks == 0
    ensures r.totalLinks == |UserLinks(links, user)|
    ensures r.totalClicks == Clicks(UserLinks(links, user))
    ensures r.activeLinks == |Filter(links, ActiveOwnedBy(user))|
  {
    var owned := Filter(links, OwnedBy(user));
    FilterMonotone(links, ActiveOwnedBy(user), OwnedBy(user));
    Stats(|owned|, Clicks(owned), |Filter(links, ActiveOwnedBy(user))|)
  }
}
