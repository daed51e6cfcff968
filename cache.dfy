/**
 * The Redis cache in front of the list views, as a map from keys to cached link
 * lists, with the keys the handlers build and the invalidation they perform.
 * `clear_cache_pattern` deletes every key a glob pattern matches; the patterns the
 * source passes either end in one `*` (every key with the given prefix) or have
 * no wildcard (that key alone).
 */
module LinkCache {
  import opened Models

  type Cache = map<string, seq<Link>>

  /** `get_cached_data` followed by the handlers' `if cached_data:`: an empty cached list reads as a miss. */
  function Hit(cache: Cache, key: string): (r: Option<seq<Link>>)
    ensures r.Some? <==> key in cache && cache[key] != []
    ensures r.Some? ==> r.value == cache[key]
  {
    if key in cache && cache[key] != [] then Some(cache[key]) else None
  }

  predicate EndsInWildcard(pattern: string) {
    |pattern| > 0 && pattern[|pattern| - 1] == '*'
  }

  /** Whether a key is one the pattern selects. */
  predicate Matches(pattern: string, key: string) {
    if EndsInWildcard(pattern) then pattern[..|pattern| - 1] <= key else key == pattern
  }

  /** `clear_cache_pattern`: drops the keys the pattern matches and keeps every other entry as it was. */
  function ClearPattern(cache: Cache, pattern: string): (r: Cache)
    ensures forall k :: k in r <==> k in cache && !Matches(pattern, k)
    ensures forall k :: k in r ==> r[k] == cache[k]
  {
    map k | k in cache && !Matches(pattern, k) :: cache[k]
  }

  /** `delete_cached_data`: drops one key. */
  function Delete(cache: Cache, key: string): (r: Cache)
    ensures forall k :: k in r <==> k in cache && k != key
    ensures forall k :: k in r ==> r[k] == cache[k]
  {
    cache - {key}
  }

  /** Decimal digits of a number, as an f-string writes it. */
  function NatToString(n: nat): (s: string)
    ensures |s| > 0
    decreases n
  {
    var d := ['0' + (n % 10) as char];
    if n < 10 then d else NatToString(n / 10) + d
  }

  const PopularPattern: string := "popular_links:*"
  const RecentPattern: string := "recent_links:*"

  /**
   * The key get_popular_links reads and writes. It is joined with `_`, so
   * neither view pattern the mutating handlers clear matches it.
   */
  function PopularKey(limit: nat): (k: string)
    ensures !Matches(PopularPattern, k) && !Matches(RecentPattern, k)
  {
    var k := "popular_links_" + NatToString(limit);
    assert k[13] == '_' && "popular_links:"[13] == ':';
    assert k[0] == 'p' && "recent_links:"[0] == 'r';
    k
  }

  /** The key get_recent_links reads and writes: under the pattern the mutating handlers clear. */
  function RecentKey(limit: nat): (k: string)
    ensures Matches(RecentPattern, k)
    ensures forall n: nat :: k != PopularKey(n)
  {
    var k := "recent_links:" + NatToString(limit);
    assert "recent_links:" <= k;
    assert forall n: nat :: k != PopularKey(n) by {
      forall n: nat ensures k != PopularKey(n) {
        assert PopularKey(n)[0] == 'p' && k[0] == 'r';
      }
    }
    k
  }

  /** The per-link statistics key the mutating handlers drop: under neither view pattern. */
  function StatsKey(code: string): (k: string)
    ensures !Matches(PopularPattern, k) && !Matches(RecentPattern, k)
    ensures forall n: nat :: k != PopularKey(n)
  {
    var k := "link_stats:" + code;
    assert k[0] == 'l';
    assert forall n: nat :: k != PopularKey(n) by {
      forall n: nat ensures k != PopularKey(n) {
        assert PopularKey(n)[0] == 'p';
      }
    }
    k
  }

  /**
   * No popular view can be served from the cache: under every popular key the
   * cache holds nothing or an empty list. get_popular_links hands ORM rows to
   * `json.dumps`, which refuses them, so only an empty view is ever stored there.
   */
  ghost predicate PopularUncached(cache: Cache) {
    forall n: nat :: Hit(cache, PopularKey(n)).None?
  }

  /** Dropping entries, and keeping the rest as they were, cannot make a popular view servable. */
  lemma {:induction false} SubCacheKeepsPopularUncached(cache: Cache, smaller: Cache)
    requires PopularUncached(cache)
    requires forall k :: k in smaller ==> k in cache && smaller[k] == cache[k]
    ensures PopularUncached(smaller)
  {
    forall n: nat ensures Hit(smaller, PopularKey(n)).None? {
      assert Hit(cache, PopularKey(n)).None?;
    }
  }

  /**
   * What update_link and delete_link do to the cache after a successful
   * mutation: drop every key under `popular_links:` and under `recent_links:`,
   * and the statistics key of the code.
   */
  function InvalidateLinkViews(cache: Cache, code: string): (r: Cache)
    ensures forall k :: k in r <==>
      k in cache && !("popular_links:" <= k) && !("recent_links:" <= k) && k != StatsKey(code)
    ensures forall k :: k in r ==> r[k] == cache[k]
  {
    Delete(ClearPattern(ClearPattern(cache, PopularPattern), RecentPattern), StatsKey(code))
  }

  /**
   * The popular-links key is `popular_links_<limit>`, which the pattern
   * `popular_links:*` never matches: whatever is stored under it is left in
   * place by every invalidation. (Only an empty view ever reaches that key, see
   * PopularUncached, so the mismatch never serves stale rows.)
   */
  lemma {:induction false} PopularViewSurvivesInvalidation(cache: Cache, code: string, limit: nat)
    ensures PopularKey(limit) in cache ==> PopularKey(limit) in InvalidateLinkViews(cache, code)
    ensures Hit(InvalidateLinkViews(cache, code), PopularKey(limit)) == Hit(cache, PopularKey(limit))
  {
    var key := PopularKey(limit);
    assert !("popular_links:" <= key) && !("recent_links:" <= key);
    assert key != StatsKey(code);
  }

  /** The recent-links key does sit under `recent_links:`, so every invalidation drops it. */
  lemma {:induction false} RecentViewInvalidated(cache: Cache, code: string, limit: nat)
    ensures RecentKey(limit) !in InvalidateLinkViews(cache, code)
    ensures Hit(InvalidateLinkViews(cache, code), RecentKey(limit)) == None
  {
    assert "recent_links:" <= RecentKey(limit);
  }

  /** Clearing a pattern twice drops nothing more than clearing it once. */
  lemma ClearPatternIdempotent(cache: Cache, pattern: string)
    ensures ClearPattern(ClearPattern(cache, pattern), pattern) == ClearPattern(cache, pattern)
  {
  }

  /** A pattern without a wildcard drops exactly the key it spells, as a plain delete does. */
  lemma ExactPatternIsDelete(cache: Cache, key: string)
    requires !EndsInWildcard(key)
    ensures ClearPattern(cache, key) == Delete(cache, key)
  {
  }
}
