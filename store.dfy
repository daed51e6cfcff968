/**
 * The state the handlers and the sweeper share: the `links` and `projects`
 * tables with their id sequences, and the cache. Each handler is one atomic
 * step on this state.
 */
module Database {
  import opened Models
  import opened LinkCache

  class Store {
    var links: seq<Link>
    var projects: seq<Project>
    var nextLinkId: nat
    var nextProjectId: nat
    var cache: Cache

    /** Both tables are well formed, every id handed out lies below the next one, and project ids start at 1. */
    ghost predicate Valid()
      reads this
    {
      && WellFormedTable(links)
      && (forall i :: 0 <= i < |links| ==> links[i].id < nextLinkId)
      && WellFormedProjects(projects)
      && (forall i :: 0 <= i < |projects| ==> 0 < projects[i].id < nextProjectId)
      && 0 < nextProjectId
    }

    /** Empty tables, an empty cache, and id sequences that start at 1. */
    constructor ()
      ensures Valid()
      ensures links == [] && projects == [] && cache == map[]
      ensures PopularUncached(cache)
      ensures nextLinkId == 1 && nextProjectId == 1
    {
      links := [];
      projects := [];
      nextLinkId := 1;
      nextProjectId := 1;
      cache := map[];
    }
  }
}
