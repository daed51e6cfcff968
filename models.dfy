/**
 * Record shapes of the link store (core/models.py): the `links` and `projects`
 * tables, their column defaults, and the uniqueness constraints the database
 * enforces on them. Users are known only by their id.
 */
module Models {

  datatype Option<T> = None | Some(value: T)

  /** Errors a handler can end in, with the HTTP status the source raises. */
  datatype Error =
    | NotFound        // 404
    | AlreadyExists   // 400 "Short code or custom alias already exists"
    | Forbidden       // 403 "Not enough permissions"
    | Gone            // 410 "Link has expired"
    | StoreRejected   // the database refuses the INSERT (unique constraint); surfaces as a server error
    | MultipleResults // scalar_one_or_none() saw more than one row; surfaces as a server error
    | Unserialisable  // json.dumps refused a value handed to the cache; surfaces as a server error

  datatype Result<T> = Ok(value: T) | Err(error: Error)

  /** The outcome of a handler that answers only with a message. */
  datatype Status = Success | Failure(error: Error)

  type UserId = int

  /** Timestamps are seconds on one integer clock. */
  type Time = int

  /** One row of the `links` table. */
  datatype Link = Link(
    id: nat,
    originalUrl: string,
    shortCode: string,
    customAlias: Option<string>,
    userId: UserId,
    projectId: Option<int>,
    createdAt: Time,
    expiresAt: Option<Time>,
    lastAccessedAt: Option<Time>,
    accessCount: nat,
    isActive: bool,
    isExpired: bool)

  /** One row of the `projects` table. */
  datatype Project = Project(
    id: nat,
    name: string,
    description: Option<string>,
    userId: UserId,
    createdAt: Time,
    updatedAt: Time)

  /** A row inserted with every column the caller does not give left at its default. */
  function NewLink(id: nat, url: string, code: string, alias: Option<string>,
                   user: UserId, project: Option<int>, now: Time): (l: Link)
    ensures l.id == id && l.originalUrl == url && l.shortCode == code
    ensures l.customAlias == alias && l.userId == user && l.projectId == project
    ensures l.createdAt == now && l.expiresAt == None && l.lastAccessedAt == None
    ensures l.accessCount == 0 && l.isActive && !l.isExpired
  {
    Link(id, url, code, alias, user, project, now, None, None, 0, true, false)
  }

  /** A project row as inserted: both timestamps default to the insertion time. */
  function NewProject(id: nat, name: string, description: Option<string>,
                      user: UserId, now: Time): (p: Project)
    ensures p.id == id && p.name == name && p.description == description
    ensures p.userId == user && p.createdAt == now && p.updatedAt == now
  {
    Project(id, name, description, user, now, now)
  }

  /** The columns that identify a row: neither a sweep, a visit nor an update changes them. */
  predicate SameIdentity(a: Link, b: Link) {
    a.id == b.id && a.shortCode == b.shortCode && a.customAlias == b.customAlias
  }

  /**
   * Two rows, `a` stored before `b`, may sit in the table together: ids grow
   * with insertion order, `short_code` is unique, `custom_alias` is unique among
   * rows that have one, and no code of one row is the alias of the other.
   */
  predicate Compatible(a: Link, b: Link) {
    && a.id < b.id
    && a.shortCode != b.shortCode
    && (a.customAlias.Some? && b.customAlias.Some? ==> a.customAlias != b.customAlias)
    && a.customAlias != Some(b.shortCode)
    && b.customAlias != Some(a.shortCode)
  }

  /**
   * What holds of every row the handlers and the sweeper can produce: its code is
   * not empty, and an expired row is inactive and has an expiry time.
   */
  predicate RowOk(l: Link) {
    |l.shortCode| > 0 && (l.isExpired ==> !l.isActive && l.expiresAt.Some?)
  }

  predicate WellFormedTable(links: seq<Link>) {
    && (forall i, j :: 0 <= i < j < |links| ==> Compatible(links[i], links[j]))
    && (forall i :: 0 <= i < |links| ==> RowOk(links[i]))
  }

  /** Project ids grow with insertion order. */
  predicate WellFormedProjects(projects: seq<Project>) {
    forall i, j :: 0 <= i < j < |projects| ==> projects[i].id < projects[j].id
  }

  /** Whether `code` already names a row, as its short code or as its alias. */
  predicate CodeTaken(links: seq<Link>, code: string) {
    exists i :: 0 <= i < |links| && (links[i].shortCode == code || links[i].customAlias == Some(code))
  }

  /** The database's unique constraints on `short_code` and `custom_alias` admit `l`. */
  predicate Insertable(links: seq<Link>, l: Link) {
    forall i :: 0 <= i < |links| ==>
      links[i].shortCode != l.shortCode
      && (l.customAlias.Some? ==> links[i].customAlias != l.customAlias)
  }

  /** The foreign key on `links.project_id` admits `project`: it is NULL or names a stored project. */
  predicate ProjectReferenced(projects: seq<Project>, project: Option<int>) {
    project.None? || exists i :: 0 <= i < |projects| && projects[i].id == project.value
  }

  /** In a well-formed table no two rows share a short code or an alias. */
  lemma {:induction false} UniqueKeys(links: seq<Link>, i: nat, j: nat)
    requires WellFormedTable(links)
    requires i < |links| && j < |links| && i != j
    ensures links[i].shortCode != links[j].shortCode
    ensures links[i].id != links[j].id
    ensures links[i].customAlias.Some? ==> links[i].customAlias != links[j].customAlias
  {
    if i < j {
      assert Compatible(links[i], links[j]);
    } else {
      assert Compatible(links[j], links[i]);
    }
  }

  /**
   * Appending a row whose code is free, which the unique constraints admit, and
   * whose alias is absent, its own code or empty, keeps the table well formed.
   */
  lemma {:induction false} AppendPreservesTable(links: seq<Link>, l: Link)
    requires WellFormedTable(links)
    requires forall i :: 0 <= i < |links| ==> links[i].id < l.id
    requires !CodeTaken(links, l.shortCode) && Insertable(links, l)
    requires l.customAlias == None || l.customAlias == Some(l.shortCode) || l.customAlias == Some("")
    requires RowOk(l)
    ensures WellFormedTable(links + [l])
  {
    var t := links + [l];
    forall i, j | 0 <= i < j < |t| ensures Compatible(t[i], t[j]) {
      if j < |links| {
        assert t[i] == links[i] && t[j] == links[j];
      } else {
        assert t[j] == l && t[i] == links[i];
        assert !(links[i].shortCode == l.shortCode || links[i].customAlias == Some(l.shortCode));
        assert |links[i].shortCode| > 0 by { assert RowOk(links[i]); }
      }
    }
  }

  /** Replacing one row by another with the same identity and a sound state keeps the table well formed. */
  lemma {:induction false} ReplacePreservesTable(links: seq<Link>, i: nat, l: Link)
    requires WellFormedTable(links) && i < |links|
    requires SameIdentity(links[i], l) && RowOk(l)
    ensures WellFormedTable(links[i := l])
  {
    var t := links[i := l];
    forall a, b | 0 <= a < b < |t| ensures Compatible(t[a], t[b]) {
      assert Compatible(links[a], links[b]);
    }
  }

  /** Removing one row keeps the table well formed. */
  lemma {:induction false} RemovePreservesTable(links: seq<Link>, i: nat)
    requires WellFormedTable(links) && i < |links|
    ensures WellFormedTable(links[..i] + links[i + 1..])
  {
    var t := links[..i] + links[i + 1..];
    forall a, b | 0 <= a < b < |t| ensures Compatible(t[a], t[b]) {
      var a' := if a < i then a else a + 1;
      var b' := if b < i then b else b + 1;
      assert t[a] == links[a'] && t[b] == links[b'];
      assert Compatible(links[a'], links[b']);
    }
    forall a | 0 <= a < |t| ensures RowOk(t[a]) {
      assert t[a] == links[if a < i then a else a + 1];
    }
  }

  /** Rewriting every row without touching its identity, into a sound state, keeps the table well formed. */
  lemma {:induction false} PointwisePreservesTable(links: seq<Link>, t: seq<Link>)
    requires WellFormedTable(links) && |t| == |links|
    requires forall k :: 0 <= k < |t| ==> SameIdentity(links[k], t[k]) && RowOk(t[k])
    ensures WellFormedTable(t)
  {
    forall a, b | 0 <= a < b < |t| ensures Compatible(t[a], t[b]) {
      assert Compatible(links[a], links[b]);
    }
  }
}
