/** The generic data-access layer (Repository.cs): one table of entities keyed by their `Id`,
    four writes that each end in one `SaveChanges` commit, and two reads that run the fixed
    pipeline predicate -> inclusion -> orderBy -> selector. */
module DataAccess {
  import opened Wrappers
  import opened Seqs
  import opened DomainModels

  /** The exceptions that can escape the repository and the services built on it. */
  datatype Failure =
    | DuplicateKey         // the commit of an insert hits a key that is already stored
    | ConcurrencyConflict  // an update or delete affects no row: DbUpdateConcurrencyException
    | NullArgument         // `Remove(null)`: ArgumentNullException
    | NullReference        // a property set on a null record: NullReferenceException

  /** No two rows share a key: the primary-key constraint of the table. */
  predicate DistinctKeys<T>(rows: seq<T>, key: T -> Guid) {
    forall i, j :: 0 <= i < j < |rows| ==> key(rows[i]) != key(rows[j])
  }

  /** The position of the row whose key is `id`. */
  function IndexOf<T>(rows: seq<T>, key: T -> Guid, id: Guid): (r: Option<nat>)
    ensures r.Some? ==> r.value < |rows| && key(rows[r.value]) == id
    ensures r.Some? ==> forall j :: 0 <= j < r.value ==> key(rows[j]) != id
    ensures r.None? <==> forall j :: 0 <= j < |rows| ==> key(rows[j]) != id
  {
    FirstIndex(rows, (x: T) => key(x) == id)
  }

  /** The row whose key is `id`, as a reference navigation loads it. */
  function FindById<T>(rows: seq<T>, key: T -> Guid, id: Guid): (r: Option<T>)
    ensures r.None? <==> forall j :: 0 <= j < |rows| ==> key(rows[j]) != id
    ensures r.Some? ==> key(r.value) == id
  {
    match IndexOf(rows, key, id)
    case None => None
    case Some(k) => Some(rows[k])
  }

  /** The inclusion step applied to one row; no inclusion leaves the row as stored. */
  function Included<T>(inclusion: Option<T -> T>, x: T): T {
    if inclusion.Some? then inclusion.value(x) else x
  }

  /** Whether a row passes the (optional) predicate; no predicate passes every row. */
  predicate Matches<T>(filter: Option<T -> bool>, x: T) {
    filter.None? || filter.value(x)
  }

  /** An ordering in the sense of `IOrderedQueryable`: it rearranges rows and nothing else. */
  ghost predicate IsReordering<T(!new)>(orderBy: seq<T> -> seq<T>) {
    forall s :: multiset(orderBy(s)) == multiset(s)
  }

  /** The read pipeline of Get and GetAll: filter by the filter, then the inclusion step, then
      the ordering, then the projection. */
  function Query<T(==), E>(
    rows: seq<T>,
    selector: T -> E,
    filter: Option<T -> bool>,
    orderBy: Option<seq<T> -> seq<T>>,
    inclusion: Option<T -> T>): seq<E>
  {
    var matching := if filter.Some? then Where(rows, filter.value) else rows;
    var loaded := if inclusion.Some? then Map(matching, inclusion.value) else matching;
    var ordered := if orderBy.Some? then orderBy.value(loaded) else loaded;
    Map(ordered, selector)
  }

  /** Without an ordering a query yields at most one result per stored row, and without a
      predicate exactly one. */
  lemma QueryLength<T, E>(
    rows: seq<T>, selector: T -> E, filter: Option<T -> bool>, inclusion: Option<T -> T>)
    ensures |Query(rows, selector, filter, None, inclusion)| <= |rows|
    ensures filter.None? ==> |Query(rows, selector, filter, None, inclusion)| == |rows|
  {
  }

  /** Without predicate or ordering a query projects every stored row, in store order. */
  lemma QueryAll<T, E>(rows: seq<T>, selector: T -> E, inclusion: Option<T -> T>)
    ensures |Query(rows, selector, None, None, inclusion)| == |rows|
    ensures forall i :: 0 <= i < |rows| ==>
      Query(rows, selector, None, None, inclusion)[i] == selector(Included(inclusion, rows[i]))
  {
  }

  /** The predicate is applied first, to the rows as stored: whatever the inclusion step and the
      ordering do, a query yields (up to order) the projection of the included form of exactly
      the rows that match. */
  lemma {:induction false} QueryYieldsMatchingRows<T(!new), E>(
    rows: seq<T>,
    selector: T -> E,
    filter: Option<T -> bool>,
    orderBy: Option<seq<T> -> seq<T>>,
    inclusion: Option<T -> T>)
    requires orderBy.Some? ==> IsReordering(orderBy.value)
    ensures var matching := Where(rows, (x: T) => Matches(filter, x));
      multiset(Query(rows, selector, filter, orderBy, inclusion))
        == multiset(Map(matching, (x: T) => selector(Included(inclusion, x))))
  {
    var matching := if filter.Some? then Where(rows, filter.value) else rows;
    var all := Where(rows, (x: T) => Matches(filter, x));
    if filter.Some? {
      WhereAgrees(rows, filter.value, (x: T) => Matches(filter, x));
    }
    assert matching == all;
    var loaded := if inclusion.Some? then Map(matching, inclusion.value) else matching;
    var ordered := if orderBy.Some? then orderBy.value(loaded) else loaded;
    assert multiset(ordered) == multiset(loaded);
    MapKeepsPermutation(ordered, loaded, selector);
    assert |loaded| == |all|;
    assert forall i :: 0 <= i < |all| ==> loaded[i] == Included(inclusion, all[i]);
    assert Map(loaded, selector) == Map(all, (x: T) => selector(Included(inclusion, x)));
  }

  /** Without an ordering, the first result of a query is the projection of the first row the
      predicate accepts, and there is none exactly when no row matches. */
  lemma QueryFirstIsFirstMatch<T, E>(
    rows: seq<T>, selector: T -> E, filter: T -> bool, inclusion: Option<T -> T>)
    ensures First(Query(rows, selector, Some(filter), None, inclusion)) ==
      match FirstIndex(rows, filter)
      case None => None
      case Some(k) => Some(selector(Included(inclusion, rows[k])))
  {
    WhereStartsAtFirstIndex(rows, filter);
  }

  /** A query without ordering whose predicate compares the key with `id` yields the row that
      `FindById` finds, included and projected, or nothing when no row has that key. */
  lemma QueryById<T, E>(
    rows: seq<T>, key: T -> Guid, id: Guid,
    selector: T -> E, filter: T -> bool, inclusion: Option<T -> T>)
    requires forall i :: 0 <= i < |rows| ==> filter(rows[i]) == (key(rows[i]) == id)
    ensures First(Query(rows, selector, Some(filter), None, inclusion)) ==
      match FindById(rows, key, id)
      case None => None
      case Some(x) => Some(selector(Included(inclusion, x)))
  {
    QueryFirstIsFirstMatch(rows, selector, filter, inclusion);
    FirstIndexAgrees(rows, filter, (x: T) => key(x) == id);
  }

  /** With any ordering that only rearranges rows, a query is empty exactly when no stored row
      matches the filter. */
  lemma QueryEmptyIffNoMatch<T(!new), E>(
    rows: seq<T>,
    selector: T -> E,
    filter: Option<T -> bool>,
    orderBy: Option<seq<T> -> seq<T>>,
    inclusion: Option<T -> T>)
    requires orderBy.Some? ==> IsReordering(orderBy.value)
    ensures Query(rows, selector, filter, orderBy, inclusion) == [] <==>
      forall i :: 0 <= i < |rows| ==> !Matches(filter, rows[i])
  {
    var matching := if filter.Some? then Where(rows, filter.value) else rows;
    var loaded := if inclusion.Some? then Map(matching, inclusion.value) else matching;
    var ordered := if orderBy.Some? then orderBy.value(loaded) else loaded;
    assert |ordered| == |multiset(ordered)| == |multiset(loaded)| == |loaded|;
  }

  /** Appending a row whose key is new keeps the keys distinct and puts that key at the end. */
  lemma AppendNewKey<T>(rows: seq<T>, key: T -> Guid, e: T)
    requires DistinctKeys(rows, key)
    requires IndexOf(rows, key, key(e)).None?
    ensures DistinctKeys(rows + [e], key)
    ensures IndexOf(rows + [e], key, key(e)) == Some(|rows|)
  {
    var all := rows + [e];
    assert forall j :: 0 <= j < |rows| ==> all[j] == rows[j];
    assert key(all[|rows|]) == key(e);
    var r := IndexOf(all, key, key(e));
    assert r.Some?;
  }

  /** With distinct keys, the row holding a key is the one `IndexOf` finds. */
  lemma IndexOfDistinct<T>(rows: seq<T>, key: T -> Guid, k: nat)
    requires DistinctKeys(rows, key)
    requires k < |rows|
    ensures IndexOf(rows, key, key(rows[k])) == Some(k)
  {
  }

  /** Replacing a row by one with the same key keeps the keys distinct and the key in place. */
  lemma ReplaceSameKey<T>(rows: seq<T>, key: T -> Guid, k: nat, e: T)
    requires DistinctKeys(rows, key)
    requires k < |rows| && key(rows[k]) == key(e)
    ensures DistinctKeys(rows[k := e], key)
    ensures IndexOf(rows[k := e], key, key(e)) == Some(k)
  {
    IndexOfDistinct(rows[k := e], key, k);
  }

  /** Removing a row keeps the other keys distinct, and its key no longer occurs. */
  lemma RemoveKey<T>(rows: seq<T>, key: T -> Guid, k: nat)
    requires DistinctKeys(rows, key)
    requires k < |rows|
    ensures DistinctKeys(rows[..k] + rows[k + 1..], key)
    ensures IndexOf(rows[..k] + rows[k + 1..], key, key(rows[k])).None?
  {
    var rest := rows[..k] + rows[k + 1..];
    assert forall j :: 0 <= j < |rest| ==> rest[j] == if j < k then rows[j] else rows[j + 1];
  }

  /** Repository<T>: the DbSet<T> of one entity kind. `commits` counts the `SaveChanges` calls
      that succeeded. */
  class Repository<T(==)> {
    const key: T -> Guid
    var rows: seq<T>
    ghost var commits: nat

    ghost predicate Valid()
      reads this
    {
      DistinctKeys(rows, key)
    }

    /** A repository over a table that already holds `initial`. */
    constructor (key: T -> Guid, initial: seq<T>)
      requires DistinctKeys(initial, key)
      ensures Valid()
      ensures this.key == key && rows == initial && commits == 0
    {
      this.key := key;
      rows := initial;
      commits := 0;
    }

    /** Insert: add the entity, commit, return it. A key that is already stored makes the
        commit fail and nothing changes. */
    method Insert(entity: T) returns (r: Result<T, Failure>)
      requires Valid()
      modifies this
      ensures Valid()
      ensures IndexOf(old(rows), key, key(entity)).Some? ==>
        r == Err(DuplicateKey) && rows == old(rows) && commits == old(commits)
      ensures IndexOf(old(rows), key, key(entity)).None? ==>
        r == Ok(entity) && rows == old(rows) + [entity] && commits == old(commits) + 1
    {
      if IndexOf(rows, key, key(entity)).Some? {
        r := Err(DuplicateKey);
      } else {
        AppendNewKey(rows, key, entity);
        rows := rows + [entity];
        commits := commits + 1;
        r := Ok(entity);
      }
    }

    /** InsertMany: add the whole batch in one commit and return the same collection. The commit
        is atomic: a key clash with the table or inside the batch stores none of it. */
    method InsertMany(batch: seq<T>) returns (r: Result<seq<T>, Failure>)
      requires Valid()
      modifies this
      ensures Valid()
      ensures !DistinctKeys(old(rows) + batch, key) ==>
        r == Err(DuplicateKey) && rows == old(rows) && commits == old(commits)
      ensures DistinctKeys(old(rows) + batch, key) ==>
        r == Ok(batch) && rows == old(rows) + batch && commits == old(commits) + 1
    {
      if !DistinctKeys(rows + batch, key) {
        r := Err(DuplicateKey);
      } else {
        rows := rows + batch;
        commits := commits + 1;
        r := Ok(batch);
      }
    }

    /** Update: replace the stored row that has the entity's key by the entity (the whole
        record), commit, return the entity. When no row has that key the UPDATE affects no row
        and EF reports a concurrency conflict. */
    method Update(entity: T) returns (r: Result<T, Failure>)
      requires Valid()
      modifies this
      ensures Valid()
      ensures match IndexOf(old(rows), key, key(entity))
        case None =>
          r == Err(ConcurrencyConflict) && rows == old(rows) && commits == old(commits)
        case Some(k) =>
          r == Ok(entity) && rows == old(rows)[k := entity] && commits == old(commits) + 1
    {
      match IndexOf(rows, key, key(entity))
      case None =>
        r := Err(ConcurrencyConflict);
      case Some(k) =>
        ReplaceSameKey(rows, key, k, entity);
        rows := rows[k := entity];
        commits := commits + 1;
        r := Ok(entity);
    }

    /** Delete: remove the stored row that has the entity's key, commit, return the entity.
        When no row has that key the DELETE affects no row: a concurrency conflict. */
    method Delete(entity: T) returns (r: Result<T, Failure>)
      requires Valid()
      modifies this
      ensures Valid()
      ensures match IndexOf(old(rows), key, key(entity))
        case None =>
          r == Err(ConcurrencyConflict) && rows == old(rows) && commits == old(commits)
        case Some(k) =>
          r == Ok(entity) && rows == old(rows)[..k] + old(rows)[k + 1..]
          && commits == old(commits) + 1
    {
      match IndexOf(rows, key, key(entity))
      case None =>
        r := Err(ConcurrencyConflict);
      case Some(k) =>
        RemoveKey(rows, key, k);
        rows := rows[..k] + rows[k + 1..];
        commits := commits + 1;
        r := Ok(entity);
    }

    /** GetAll: every result of the pipeline. Without predicate or ordering that is the
        projection of every stored row in store order, so an empty table gives an empty
        sequence. */
    function GetAll<E>(
      selector: T -> E,
      filter: Option<T -> bool>,
      orderBy: Option<seq<T> -> seq<T>>,
      inclusion: Option<T -> T>): (r: seq<E>)
      reads this
      ensures filter.None? && orderBy.None? ==>
        |r| == |rows| && forall i :: 0 <= i < |rows| ==> r[i] == selector(Included(inclusion, rows[i]))
      ensures orderBy.None? && rows == [] ==> r == []
    {
      QueryAll(rows, selector, inclusion);
      Query(rows, selector, filter, orderBy, inclusion)
    }

    /** Get: `FirstOrDefault` of the same pipeline. It is `None` exactly when GetAll with the
        same arguments is empty, and otherwise GetAll's first element. */
    function Get<E>(
      selector: T -> E,
      filter: Option<T -> bool>,
      orderBy: Option<seq<T> -> seq<T>>,
      inclusion: Option<T -> T>): (r: Option<E>)
      reads this
      ensures r.None? <==> GetAll(selector, filter, orderBy, inclusion) == []
      ensures r.Some? ==> r.value == GetAll(selector, filter, orderBy, inclusion)[0]
    {
      First(Query(rows, selector, filter, orderBy, inclusion))
    }
  }
}
