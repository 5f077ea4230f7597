/**
 * EntityDB: the public face of a database. Every operation first refuses
 * to run once the database is closed; the queries also refuse a null
 * filter; the key queries reduce queryKeys' ascending id set to a single
 * key.
 */
module EntityStore {

  import opened Wrappers
  import opened Filters
  import opened SortedSets
  import opened Entities
  import opened Relational

  /** Why an EntityDB operation fails. */
  datatype StoreError =
    | IllegalState    // "This db is closed."
    | NullFilter      // "The filter parameter can not be null."
    | TooManyResults  // querySingletonKey: more than one key
    | NoResults       // querySingletonKey: no key
    | Backend(error: DbError)

  class EntityDB {
    var closed: bool
    const newDatabase: bool
    const rdb: RelationalDB

    /** The closed flag and the connection agree, and the tables are valid. */
    ghost predicate Valid()
      reads this, rdb
    {
      rdb.Valid() && (closed <==> !rdb.open)
    }

    /**
     * connect: opens the database, or creates it when none exists; the
     * database counts as new exactly when it did not exist before.
     */
    constructor (existing: Option<Tables>)
      requires existing.Some? ==> ValidTables(existing.value)
      ensures Valid() && !closed && fresh(rdb)
      ensures newDatabase <==> existing.None?
      ensures rdb.tables == if existing.Some? then existing.value else EmptyTables
    {
      newDatabase := existing.None?;
      rdb := new RelationalDB(existing);
      closed := false;
    }

    /** getDB: the handle for this database, refused once it is closed. */
    function GetDB(): (r: Result<EntityDB, StoreError>)
      reads this
      ensures r.Failure? <==> closed
      ensures r.Failure? ==> r.error == IllegalState
      ensures r.Success? ==> r.value == this
    {
      if closed then Failure(IllegalState) else Success(this)
    }

    method Put(entity: Entity) returns (r: Result<(), StoreError>)
      requires Valid()
      modifies rdb, entity
      ensures Valid()
      ensures closed ==> r == Failure(IllegalState) && unchanged(rdb) && unchanged(entity)
      ensures !closed ==> r.Success?
      ensures !closed && old(entity.id) > -1 ==>
        unchanged(entity) && rdb.tables == UpdateTables(old(rdb.tables), entity.id, entity.kind, entity.payload, entity.attributes)
      ensures !closed && old(entity.id) <= -1 ==>
        rdb.tables == InsertTables(old(rdb.tables), old(entity.kind), old(entity.payload), old(entity.attributes))
        && entity.id == old(rdb.tables.nextId)
        && entity.kind == old(entity.kind) && entity.payload == old(entity.payload) && entity.attributes == old(entity.attributes)
    {
      if closed {
        return Failure(IllegalState);
      }
      var res := rdb.Put(entity);
      return Success(());
    }

    method Delete(id: int) returns (r: Result<(), StoreError>)
      requires Valid()
      modifies rdb
      ensures Valid()
      ensures closed ==> r == Failure(IllegalState) && unchanged(rdb)
      ensures !closed ==> r.Success? && rdb.tables == DeleteTables(old(rdb.tables), id)
    {
      if closed {
        return Failure(IllegalState);
      }
      var res := rdb.Delete(id);
      return Success(());
    }

    method Get(id: int) returns (r: Result<Option<Entity>, StoreError>)
      requires Valid()
      ensures closed ==> r == Failure(IllegalState)
      ensures !closed ==> r.Success? && (r.value.Some? <==> id in rdb.tables.entities)
      ensures r.Success? && r.value.Some? ==> fresh(r.value.value) && LoadedAs(r.value.value, rdb.tables, id)
    {
      if closed {
        return Failure(IllegalState);
      }
      var res := rdb.Get(id);
      return Success(res.value);
    }

    /** queryKeys: the ids in Found (the matching candidates), ascending. */
    method QueryKeys(filter: Option<Filter>) returns (r: Result<seq<int>, StoreError>)
      requires Valid()
      ensures closed ==> r == Failure(IllegalState)
      ensures !closed && filter.None? ==> r == Failure(NullFilter)
      ensures !closed && filter.Some? ==>
        r.Success? && StrictlyIncreasing(r.value) && Elements(r.value) == Found(rdb.tables, filter.value)
    {
      if closed {
        return Failure(IllegalState);
      }
      if filter.None? {
        return Failure(NullFilter);
      }
      var res := rdb.QueryKeys(filter.value);
      return Success(res.value);
    }

    /** query: the entities of Found, in ascending id order. */
    method Query(filter: Option<Filter>) returns (r: Result<seq<Entity>, StoreError>)
      requires Valid()
      ensures closed ==> r == Failure(IllegalState)
      ensures !closed && filter.None? ==> r == Failure(NullFilter)
      ensures !closed && filter.Some? ==>
        r.Success? && StrictlyIncreasing(IdsOf(r.value)) && Elements(IdsOf(r.value)) == Found(rdb.tables, filter.value)
        && forall k | 0 <= k < |r.value| :: LoadedAs(r.value[k], rdb.tables, r.value[k].id)
    {
      if closed {
        return Failure(IllegalState);
      }
      if filter.None? {
        return Failure(NullFilter);
      }
      var res := rdb.Query(filter.value);
      return Success(res.value);
    }

    /** querySingleton: the only matching entity; another number of matches is the backend's error. */
    method QuerySingleton(filter: Option<Filter>) returns (r: Result<Entity, StoreError>)
      requires Valid()
      ensures closed ==> r == Failure(IllegalState)
      ensures !closed && filter.None? ==> r == Failure(NullFilter)
      ensures !closed && filter.Some? ==>
        (r.Success? <==> |Found(rdb.tables, filter.value)| == 1)
        && (r.Failure? ==> r.error == Backend(Cardinality(|Found(rdb.tables, filter.value)|)))
        && (r.Success? ==> Found(rdb.tables, filter.value) == {r.value.id} && LoadedAs(r.value, rdb.tables, r.value.id))
    {
      if closed {
        return Failure(IllegalState);
      }
      if filter.None? {
        return Failure(NullFilter);
      }
      var res := rdb.QuerySingleton(filter.value);
      if res.Failure? {
        return Failure(Backend(res.error));
      }
      return Success(res.value);
    }

    /** queryFirst: the matching entity with the least id, or None. */
    method QueryFirst(filter: Option<Filter>) returns (r: Result<Option<Entity>, StoreError>)
      requires Valid()
      ensures closed ==> r == Failure(IllegalState)
      ensures !closed && filter.None? ==> r == Failure(NullFilter)
      ensures !closed && filter.Some? ==> r.Success? && (r.value.None? <==> Found(rdb.tables, filter.value) == {})
      ensures r.Success? && r.value.Some? ==>
        var e := r.value.value;
        LoadedAs(e, rdb.tables, e.id) && e.id in Found(rdb.tables, filter.value)
        && forall id | id in Found(rdb.tables, filter.value) :: e.id <= id
    {
      if closed {
        return Failure(IllegalState);
      }
      if filter.None? {
        return Failure(NullFilter);
      }
      var res := rdb.QueryFirst(filter.value);
      return Success(res.value);
    }

    /** querySingletonKey: the one matching id; more than one or none is an error. */
    method QuerySingletonKey(filter: Option<Filter>) returns (r: Result<int, StoreError>)
      requires Valid()
      ensures closed ==> r == Failure(IllegalState)
      ensures !closed && filter.None? ==> r == Failure(NullFilter)
      ensures !closed && filter.Some? ==>
        (|Found(rdb.tables, filter.value)| > 1 <==> r == Failure(TooManyResults))
        && (Found(rdb.tables, filter.value) == {} <==> r == Failure(NoResults))
        && (|Found(rdb.tables, filter.value)| == 1 <==> r.Success?)
        && (r.Success? ==> Found(rdb.tables, filter.value) == {r.value})
    {
      var results := QueryKeys(filter);
      if results.Failure? {
        return Failure(results.error);
      }
      ElementsCount(results.value);
      if |results.value| > 1 {
        return Failure(TooManyResults);
      }
      if |results.value| < 1 {
        return Failure(NoResults);
      }
      assert Elements(results.value) == {results.value[0]};
      return Success(results.value[0]);
    }

    /** queryFirstKey: the least matching id, or None when nothing matches. */
    method QueryFirstKey(filter: Option<Filter>) returns (r: Result<Option<int>, StoreError>)
      requires Valid()
      ensures closed ==> r == Failure(IllegalState)
      ensures !closed && filter.None? ==> r == Failure(NullFilter)
      ensures !closed && filter.Some? ==> r.Success? && (r.value.None? <==> Found(rdb.tables, filter.value) == {})
      ensures r.Success? && r.value.Some? ==>
        r.value.value in Found(rdb.tables, filter.value)
        && forall id | id in Found(rdb.tables, filter.value) :: r.value.value <= id
    {
      var results := QueryKeys(filter);
      if results.Failure? {
        return Failure(results.error);
      }
      ElementsEmpty(results.value);
      if results.value == [] {
        return Success(None);
      }
      FirstIsLeast(results.value);
      return Success(Some(results.value[0]));
    }

    function IsClosed(): bool
      reads this
    {
      closed
    }

    /** close: marks the database closed and closes the connection; the stored tables survive. */
    method Close()
      requires Valid()
      modifies this, rdb
      ensures Valid() && closed && rdb.tables == old(rdb.tables)
    {
      closed := true;
      rdb.Close();
    }

    function IsNewDatabase(): bool
      reads this
    {
      newDatabase
    }
  }
}
