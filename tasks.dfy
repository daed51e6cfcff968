/**
 * The lifecycle sweeper (core/tasks.py): two bulk flag transitions over the
 * links table and a purge of the rows flagged expired, with the cache keys the
 * purge drops. Each pass is specified by a function of the table before it; the
 * lemmas state what the passes promise.
 */
module Tasks {
  import opened Models
  import opened LinkCache
  import opened Views
  import opened Database

  // ---------------------------------------------------------------------------
  // mark_expired_links

  /** Matched by the UPDATE's WHERE: an expiry time at or before `now`, and not yet flagged. */
  predicate DueToExpire(l: Link, now: Time) {
    l.expiresAt.Some? && l.expiresAt.value <= now && !l.isExpired
  }

  function ExpireIfDue(l: Link, now: Time): Link {
    if DueToExpire(l, now) then l.(isExpired := true, isActive := false) else l
  }

  /** The table after `UPDATE links SET is_expired = true, is_active = false WHERE ...`. */
  function MarkExpired(links: seq<Link>, now: Time): (r: seq<Link>)
    ensures |r| == |links|
    ensures forall k :: 0 <= k < |r| ==> SameIdentity(links[k], r[k])
  {
    seq(|links|, k requires 0 <= k < |links| => ExpireIfDue(links[k], now))
  }

  /**
   * Exactly the due rows become expired and inactive; a row flagged expired
   * afterwards was flagged before or had an expiry time at or before `now`; no
   * column besides the two flags changes, and a row without an expiry time is
   * left as it was.
   */
  lemma MarkExpiredExact(links: seq<Link>, now: Time, k: nat)
    requires k < |links|
    ensures var r := MarkExpired(links, now);
      && (r[k].isExpired <==> links[k].isExpired || (links[k].expiresAt.Some? && links[k].expiresAt.value <= now))
      && (DueToExpire(links[k], now) ==> !r[k].isActive)
      && (!DueToExpire(links[k], now) ==> r[k] == links[k])
      && (links[k].expiresAt.None? ==> r[k] == links[k])
      && r[k].(isExpired := links[k].isExpired, isActive := links[k].isActive) == links[k]
  {
  }

  /** A second pass at the same `now` changes nothing. */
  lemma MarkExpiredIdempotent(links: seq<Link>, now: Time)
    ensures MarkExpired(MarkExpired(links, now), now) == MarkExpired(links, now)
  {
  }

  /** After the pass no row is still due. */
  lemma MarkExpiredLeavesNoneDue(links: seq<Link>, now: Time)
    ensures forall l :: l in MarkExpired(links, now) ==> !DueToExpire(l, now)
  {
  }

  /** The pass keeps the table well formed: a row it flags expired has an expiry and is inactive. */
  lemma MarkExpiredPreservesTable(links: seq<Link>, now: Time)
    requires WellFormedTable(links)
    ensures WellFormedTable(MarkExpired(links, now))
  {
    PointwisePreservesTable(links, MarkExpired(links, now));
  }

  /** Once the pass has run, a code whose expiry time has come no longer resolves: visiting it answers 410. */
  lemma {:induction false} ExpiredCodeIsGone(links: seq<Link>, now: Time, j: nat)
    requires WellFormedTable(links) && j < |links|
    requires links[j].expiresAt.Some? && links[j].expiresAt.value <= now
    ensures !Resolves(MarkExpired(links, now), links[j].shortCode)
  {
    var r := MarkExpired(links, now);
    MarkExpiredPreservesTable(links, now);
    IndexOfCodeFinds(r, j);
  }

  method MarkExpiredLinks(store: Store, now: Time)
    requires store.Valid()
    modifies store
    ensures store.Valid()
    ensures store.links == MarkExpired(old(store.links), now)
    ensures store.cache == old(store.cache) && store.projects == old(store.projects)
    ensures store.nextLinkId == old(store.nextLinkId) && store.nextProjectId == old(store.nextProjectId)
  {
    ghost var before := store.links;
    MarkExpiredPreservesTable(before, now);
    var i := 0;
    while i < |store.links|
      invariant |store.links| == |before| && 0 <= i <= |before|
      invariant forall k :: 0 <= k < i ==> store.links[k] == ExpireIfDue(before[k], now)
      invariant forall k :: i <= k < |before| ==> store.links[k] == before[k]
      invariant store.cache == old(store.cache) && store.projects == old(store.projects)
      invariant store.nextLinkId == old(store.nextLinkId) && store.nextProjectId == old(store.nextProjectId)
    {
      store.links := store.links[i := ExpireIfDue(store.links[i], now)];
      i := i + 1;
    }
    assert store.links == MarkExpired(before, now);
  }

  // ---------------------------------------------------------------------------
  // mark_inactive_links

  /** Matched by the UPDATE's WHERE: active, and last visited at or before `since` (a NULL visit time never matches). */
  predicate Idle(l: Link, since: Time) {
    l.lastAccessedAt.Some? && l.lastAccessedAt.value <= since && l.isActive
  }

  function DeactivateIfIdle(l: Link, since: Time): Link {
    if Idle(l, since) then l.(isActive := false) else l
  }

  /** The table after `UPDATE links SET is_active = false WHERE ...`. */
  function MarkInactive(links: seq<Link>, since: Time): (r: seq<Link>)
    ensures |r| == |links|
    ensures forall k :: 0 <= k < |r| ==> SameIdentity(links[k], r[k])
  {
    seq(|links|, k requires 0 <= k < |links| => DeactivateIfIdle(links[k], since))
  }

  /**
   * A row stays active exactly when it was active and not idle since `since`;
   * only `is_active` can change, so the expiry flag, the counter and the URL are
   * kept; a row never visited is left as it was.
   */
  lemma MarkInactiveExact(links: seq<Link>, since: Time, k: nat)
    requires k < |links|
    ensures var r := MarkInactive(links, since);
      && (r[k].isActive <==> links[k].isActive && !(links[k].lastAccessedAt.Some? && links[k].lastAccessedAt.value <= since))
      && r[k].(isActive := links[k].isActive) == links[k]
      && (links[k].lastAccessedAt.None? ==> r[k] == links[k])
  {
  }

  /** A second pass with the same threshold changes nothing. */
  lemma MarkInactiveIdempotent(links: seq<Link>, since: Time)
    ensures MarkInactive(MarkInactive(links, since), since) == MarkInactive(links, since)
  {
  }

  lemma MarkInactivePreservesTable(links: seq<Link>, since: Time)
    requires WellFormedTable(links)
    ensures WellFormedTable(MarkInactive(links, since))
  {
    PointwisePreservesTable(links, MarkInactive(links, since));
  }

  /** `days` days before `now` is the threshold. */
  method MarkInactiveLinks(store: Store, now: Time, days: int)
    requires store.Valid()
    modifies store
    ensures store.Valid()
    ensures store.links == MarkInactive(old(store.links), now - days * SecondsPerDay)
    ensures store.cache == old(store.cache) && store.projects == old(store.projects)
    ensures store.nextLinkId == old(store.nextLinkId) && store.nextProjectId == old(store.nextProjectId)
  {
    ghost var before := store.links;
    var since := now - days * SecondsPerDay;
    MarkInactivePreservesTable(before, since);
    var i := 0;
    while i < |store.links|
      invariant |store.links| == |before| && 0 <= i <= |before|
      invariant forall k :: 0 <= k < i ==> store.links[k] == DeactivateIfIdle(before[k], since)
      invariant forall k :: i <= k < |before| ==> store.links[k] == before[k]
      invariant store.cache == old(store.cache) && store.projects == old(store.projects)
      invariant store.nextLinkId == old(store.nextLinkId) && store.nextProjectId == old(store.nextProjectId)
    {
      store.links := store.links[i := DeactivateIfIdle(store.links[i], since)];
      i := i + 1;
    }
    assert store.links == MarkInactive(before, since);
  }

  // ---------------------------------------------------------------------------
  // cleanup_expired_links

  function IsExpiredRow(l: Link): bool { l.isExpired }
  function IsUnexpiredRow(l: Link): bool { !l.isExpired }

  /** The rows kept and the rows purged together are the old table, row for row. */
  lemma {:induction false} PurgePartition(links: seq<Link>)
    ensures multiset(Filter(links, IsUnexpiredRow)) + multiset(Filter(links, IsExpiredRow)) == multiset(links)
    decreases |links|
  {
    if links != [] {
      var n := |links| - 1;
      PurgePartition(links[..n]);
      assert links == links[..n] + [links[n]];
    }
  }

  /**
   * The purge splits the table into the rows it keeps and the rows it deletes,
   * keeps the table well formed, and with nothing expired keeps the whole table.
   */
  lemma PurgeExact(links: seq<Link>)
    requires WellFormedTable(links)
    ensures multiset(Filter(links, IsUnexpiredRow)) + multiset(Filter(links, IsExpiredRow)) == multiset(links)
    ensures WellFormedTable(Filter(links, IsUnexpiredRow))
    ensures (forall l :: l in links ==> !l.isExpired) ==> Filter(links, IsUnexpiredRow) == links
  {
    PurgePartition(links);
    FilterPreservesTable(links, IsUnexpiredRow);
    if forall l :: l in links ==> !l.isExpired {
      FilterAll(links, IsUnexpiredRow);
    }
  }

  /** The statistics key of each purged row cleared in turn (the source passes each as a pattern). */
  function ClearStatsKeys(cache: Cache, removed: seq<Link>): (r: Cache)
    ensures forall k :: k in r ==> k in cache && r[k] == cache[k]
    decreases |removed|
  {
    if removed == [] then cache
    else ClearPattern(ClearStatsKeys(cache, removed[..|removed| - 1]), StatsKey(removed[|removed| - 1].shortCode))
  }

  /**
   * After the clearing, no purged row's statistics key is left, and every key
   * that none of the patterns matches is kept.
   */
  lemma {:induction false} ClearStatsKeysExact(cache: Cache, removed: seq<Link>)
    ensures forall l :: l in removed ==> StatsKey(l.shortCode) !in ClearStatsKeys(cache, removed)
    ensures forall k :: k in cache && (forall l :: l in removed ==> !Matches(StatsKey(l.shortCode), k))
                        ==> k in ClearStatsKeys(cache, removed)
    decreases |removed|
  {
    if removed != [] {
      var init := removed[..|removed| - 1];
      var last := removed[|removed| - 1];
      ClearStatsKeysExact(cache, init);
      forall l | l in removed ensures StatsKey(l.shortCode) !in ClearStatsKeys(cache, removed) {
        var p := StatsKey(last.shortCode);
        if l == last {
          if EndsInWildcard(p) {
            assert p[..|p| - 1] <= StatsKey(l.shortCode);
          }
        } else {
          assert l in init;
        }
      }
      forall k | k in cache && (forall l :: l in removed ==> !Matches(StatsKey(l.shortCode), k))
        ensures k in ClearStatsKeys(cache, removed)
      {
        assert forall l :: l in init ==> l in removed;
      }
    }
  }

  /** A key that no pattern of `link_stats:` form matches: it does not start with `l`. */
  lemma {:induction false} StatsPatternsSpare(cache: Cache, removed: seq<Link>, key: string)
    requires |key| > 0 && key[0] != 'l' && key in cache
    ensures key in ClearStatsKeys(cache, removed) && ClearStatsKeys(cache, removed)[key] == cache[key]
  {
    forall l | l in removed ensures !Matches(StatsKey(l.shortCode), key) {
      var p := StatsKey(l.shortCode);
      assert p[0] == 'l';
    }
    ClearStatsKeysExact(cache, removed);
  }

  /** The cache after the purge: both view prefixes cleared, then each purged row's statistics key. */
  function PurgeCache(cache: Cache, removed: seq<Link>): (r: Cache)
    ensures forall k :: k in r ==> k in cache && r[k] == cache[k]
    ensures forall k :: k in r ==> !Matches(PopularPattern, k) && !Matches(RecentPattern, k)
  {
    ClearStatsKeys(ClearPattern(ClearPattern(cache, PopularPattern), RecentPattern), removed)
  }

  /**
   * After the purge no key under `popular_links:` or `recent_links:` and no
   * purged row's statistics key is left; the popular view's own key
   * (`popular_links_<limit>`) is not among them, so whatever is stored there is
   * left as it was (only an empty view ever is, see PopularUncached).
   */
  lemma {:induction false} PurgeCacheExact(cache: Cache, removed: seq<Link>, limit: nat)
    ensures forall k :: k in PurgeCache(cache, removed) ==> !("popular_links:" <= k) && !("recent_links:" <= k)
    ensures forall l :: l in removed ==> StatsKey(l.shortCode) !in PurgeCache(cache, removed)
    ensures Hit(PurgeCache(cache, removed), PopularKey(limit)) == Hit(cache, PopularKey(limit))
  {
    var c := ClearPattern(ClearPattern(cache, PopularPattern), RecentPattern);
    ClearStatsKeysExact(c, removed);
    var key := PopularKey(limit);
    PopularViewSurvivesInvalidation(cache, "", limit);
    if key in cache {
      assert key in c;
      assert key[0] == 'p';
      StatsPatternsSpare(c, removed, key);
    }
  }

  /** The purge only drops entries, so it never makes a popular view servable. */
  lemma PurgeKeepsPopularUncached(cache: Cache, removed: seq<Link>)
    ensures PopularUncached(cache) ==> PopularUncached(PurgeCache(cache, removed))
  {
    if PopularUncached(cache) {
      SubCacheKeepsPopularUncached(cache, PurgeCache(cache, removed));
    }
  }

  /** The rows left once every selected (expired) row has been deleted, in table order. */
  method DeleteExpiredRows(table: seq<Link>) returns (kept: seq<Link>)
    ensures kept == Filter(table, IsUnexpiredRow)
  {
    kept := [];
    var i := 0;
    while i < |table|
      invariant 0 <= i <= |table|
      invariant kept == Filter(table[..i], IsUnexpiredRow)
    {
      assert table[..i + 1][..i] == table[..i];
      if !table[i].isExpired {
        kept := kept + [table[i]];
      }
      i := i + 1;
    }
    assert table[..|table|] == table;
  }

  /** The loop clearing each purged row's statistics key. */
  method ClearEachStatsKey(cache: Cache, removed: seq<Link>) returns (c: Cache)
    ensures c == ClearStatsKeys(cache, removed)
  {
    c := cache;
    var j := 0;
    while j < |removed|
      invariant 0 <= j <= |removed|
      invariant c == ClearStatsKeys(cache, removed[..j])
    {
      assert removed[..j + 1][..j] == removed[..j];
      c := ClearPattern(c, StatsKey(removed[j].shortCode));
      j := j + 1;
    }
    assert removed[..|removed|] == removed;
  }

  /** The kept rows form a well-formed table whose ids stay below any bound the old ids were below. */
  lemma PurgeKeepsIdsBelow(links: seq<Link>, bound: nat)
    requires WellFormedTable(links) && forall i :: 0 <= i < |links| ==> links[i].id < bound
    ensures WellFormedTable(Filter(links, IsUnexpiredRow))
    ensures forall i :: 0 <= i < |Filter(links, IsUnexpiredRow)| ==> Filter(links, IsUnexpiredRow)[i].id < bound
  {
    var kept := Filter(links, IsUnexpiredRow);
    FilterPreservesTable(links, IsUnexpiredRow);
    assert forall i :: 0 <= i < |kept| ==> kept[i] in links;
  }

  /** The cache pass of the cleanup: both view patterns, then each purged row's statistics key. */
  method ClearPurgedKeys(cache: Cache, expired: seq<Link>) returns (c: Cache)
    ensures c == PurgeCache(cache, expired)
  {
    c := ClearPattern(cache, PopularPattern);
    c := ClearPattern(c, RecentPattern);
    c := ClearEachStatsKey(c, expired);
  }

  method CleanupExpiredLinks(store: Store)
    requires store.Valid()
    modifies store
    ensures store.Valid()
    ensures store.links == Filter(old(store.links), IsUnexpiredRow)
    ensures store.cache == PurgeCache(old(store.cache), Filter(old(store.links), IsExpiredRow))
    ensures store.projects == old(store.projects)
    ensures store.nextLinkId == old(store.nextLinkId) && store.nextProjectId == old(store.nextProjectId)
    ensures PopularUncached(old(store.cache)) ==> PopularUncached(store.cache)
  {
    var expired := Filter(store.links, IsExpiredRow);
    PurgeKeepsPopularUncached(store.cache, expired);
    PurgeKeepsIdsBelow(store.links, store.nextLinkId);
    var kept := DeleteExpiredRows(store.links);
    store.links := kept;
    store.cache := ClearPurgedKeys(store.cache, expired);
  }
}
