/**
 * RelationalDB over an in-memory backend: the Entity table (an identity id,
 * a kind and an optional payload) and the Attribute table (one row per
 * non-null attribute, holding its type tag and toString text). The pure
 * part below states what the tables mean; the class after it performs the
 * source's operations step by step and is proved against that meaning.
 */
module Relational {

  import opened Wrappers
  import opened Values
  import opened Conditions
  import opened Filters
  import opened SortedSets
  import opened Entities

  /** One row of the Entity table. */
  datatype EntityRow = EntityRow(kind: string, payload: Option<seq<bv8>>)

  /** Both tables and the Entity table's identity counter (the id the next insert receives). */
  datatype Tables = Tables(entities: map<int, EntityRow>, attributes: set<AttributeRow>, nextId: int)

  /** The empty tables of a newly created database: identity ids start at 1. */
  const EmptyTables := Tables(map[], {}, 1)

  /**
   * What every operation keeps true of the tables: ids were handed out by
   * the identity counter, every attribute row belongs to a stored entity
   * and carries its kind, every row is as putAttribute writes it, and an
   * entity has at most one row per attribute name.
   */
  predicate ValidTables(t: Tables) {
    t.nextId >= 1
    && (forall id | id in t.entities :: 1 <= id < t.nextId)
    && (forall row | row in t.attributes ::
          row.entityId in t.entities && row.entityKind == t.entities[row.entityId].kind && CanonicalRow(row))
    && (forall r1, r2 | r1 in t.attributes && r2 in t.attributes && r1.entityId == r2.entityId && r1.name == r2.name :: r1 == r2)
  }

  /** The rows "SELECT * FROM Attribute WHERE entityId=<id>" reads. */
  function RowsFor(t: Tables, id: int): set<AttributeRow> {
    set r | r in t.attributes && r.entityId == id
  }

  /** Rows with distinct names: the HashMap getAttributes fills is then keyed without collisions. */
  predicate DistinctNames(rows: set<AttributeRow>) {
    forall r1, r2 | r1 in rows && r2 in rows && r1.name == r2.name :: r1 == r2
  }

  /** getAttributes' map from attribute name to row. */
  function NameIndex(rows: set<AttributeRow>): map<string, AttributeRow>
    requires DistinctNames(rows)
  {
    map r | r in rows :: r.name := r
  }

  /** getAttributes' map is keyed by exactly the rows' names, each name mapping to its own row. */
  lemma NameIndexKeys(rows: set<AttributeRow>)
    requires DistinctNames(rows)
    ensures NameIndex(rows).Keys == set r | r in rows :: r.name
    ensures forall r | r in rows :: NameIndex(rows)[r.name] == r
  {
  }

  /** The named rows of an index decoded by their type tags, as get() puts them into the entity. */
  function Decoded(index: map<string, AttributeRow>, names: set<string>): AttributeMap
    requires names <= index.Keys
  {
    map n | n in names :: Decode(index[n].typeCode, index[n].value)
  }

  /** The attributes get() rebuilds for an entity: each row's name mapped to its decoded value. */
  function StoredAttributes(t: Tables, id: int): AttributeMap
    requires ValidTables(t)
  {
    var index := NameIndex(RowsFor(t, id));
    Decoded(index, index.Keys)
  }

  /** The ids a filter's condition selects from the Attribute table. */
  function Candidates(t: Tables, f: Filter): set<int> {
    set r | r in t.attributes && FilterHolds(FilterCondition(f), r) :: r.entityId
  }

  /** filter.match(get(id)) on a stored entity. */
  predicate Matches(t: Tables, f: Filter, id: int)
    requires ValidTables(t) && id in t.entities
  {
    FilterMatch(f, t.entities[id].kind, StoredAttributes(t, id))
  }

  /** The stored entities a filter matches once loaded. */
  function Matching(t: Tables, f: Filter): set<int>
    requires ValidTables(t)
  {
    set id | id in t.entities && Matches(t, f, id)
  }

  /**
   * What query and queryKeys return: the matching entities among the ids
   * the condition selects. CandidatesCoverMatches shows it is all of
   * Matching when no CONTAINS reference holds a '%'.
   */
  function Found(t: Tables, f: Filter): set<int>
    requires ValidTables(t)
  {
    Matching(t, f) * Candidates(t, f)
  }

  // ---------------------------------------------------------------------
  // The table updates of put and delete.
  // ---------------------------------------------------------------------

  /** putNew: a new Entity row under the next identity id, then one row per non-null attribute. */
  function InsertTables(t: Tables, kind: string, payload: Option<seq<bv8>>, attrs: AttributeMap): Tables {
    Tables(t.entities[t.nextId := EntityRow(kind, payload)], t.attributes + RowsOf(t.nextId, kind, attrs), t.nextId + 1)
  }

  /**
   * update: the id's attribute rows are deleted, then its Entity row is
   * rewritten and the current attributes inserted. This is the corrected
   * update: when no Entity row has the id, no attribute rows are written.
   */
  function UpdateTables(t: Tables, id: int, kind: string, payload: Option<seq<bv8>>, attrs: AttributeMap): Tables {
    if id in t.entities then
      Tables(t.entities[id := EntityRow(kind, payload)], (t.attributes - RowsFor(t, id)) + RowsOf(id, kind, attrs), t.nextId)
    else
      t.(attributes := t.attributes - RowsFor(t, id))
  }

  /** update as the source writes it: the attribute rows are inserted even when the UPDATE matched no Entity row. */
  function UpdateAsWritten(t: Tables, id: int, kind: string, payload: Option<seq<bv8>>, attrs: AttributeMap): Tables {
    Tables(
      if id in t.entities then t.entities[id := EntityRow(kind, payload)] else t.entities,
      (t.attributes - RowsFor(t, id)) + RowsOf(id, kind, attrs),
      t.nextId)
  }

  /** delete: the id's attribute rows, then its Entity row. */
  function DeleteTables(t: Tables, id: int): Tables {
    Tables(t.entities - {id}, t.attributes - RowsFor(t, id), t.nextId)
  }

  // ---------------------------------------------------------------------
  // Storage round trip.
  // ---------------------------------------------------------------------

  /** The rows of a stored entity are exactly the rows its rebuilt attributes are written as. */
  lemma RowsForStored(t: Tables, id: int)
    requires ValidTables(t) && id in t.entities
    ensures RowsFor(t, id) == RowsOf(id, t.entities[id].kind, StoredAttributes(t, id))
  {
    var kind := t.entities[id].kind;
    var sa := StoredAttributes(t, id);
    var index := NameIndex(RowsFor(t, id));
    forall r | r in RowsFor(t, id)
      ensures r in RowsOf(id, kind, sa)
    {
      var d := Decode(r.typeCode, r.value);
      assert index[r.name] == r;
      assert sa[r.name] == d;
      assert StoredRow(id, kind, r.name, d.value) == r;
    }
    forall r | r in RowsOf(id, kind, sa)
      ensures r in RowsFor(t, id)
    {
      var n :| n in sa && sa[n].Some? && r == StoredRow(id, kind, n, sa[n].value);
      var row := index[n];
      assert row in RowsFor(t, id);
      assert StoredRow(id, kind, n, sa[n].value) == row;
    }
  }

  /** Rows written for an entity read back as its non-null attributes. */
  lemma RowsOfRoundTrip(t: Tables, id: int, kind: string, attrs: AttributeMap)
    requires ValidTables(t)
    requires RowsFor(t, id) == RowsOf(id, kind, attrs)
    ensures StoredAttributes(t, id) == NonNull(attrs)
  {
    var index := NameIndex(RowsFor(t, id));
    var sa := StoredAttributes(t, id);
    forall n | n in NonNull(attrs)
      ensures n in sa && sa[n] == NonNull(attrs)[n]
    {
      var row := StoredRow(id, kind, n, attrs[n].value);
      assert row in RowsFor(t, id);
      assert index[n] == row;
      DecodeStored(attrs[n].value);
    }
    forall n | n in sa
      ensures n in NonNull(attrs)
    {
      var row := index[n];
      assert row in RowsOf(id, kind, attrs);
    }
  }

  /** Inserting an entity keeps the tables valid, and get() rebuilds exactly its non-null attributes. */
  lemma InsertRoundTrip(t: Tables, kind: string, payload: Option<seq<bv8>>, attrs: AttributeMap)
    requires ValidTables(t)
    ensures ValidTables(InsertTables(t, kind, payload, attrs))
    ensures StoredAttributes(InsertTables(t, kind, payload, attrs), t.nextId) == NonNull(attrs)
    ensures forall id | id in t.entities :: StoredAttributes(InsertTables(t, kind, payload, attrs), id) == StoredAttributes(t, id)
  {
    var id := t.nextId;
    var t' := InsertTables(t, kind, payload, attrs);
    forall row | row in RowsOf(id, kind, attrs)
      ensures CanonicalRow(row)
    {
      var n :| n in attrs && attrs[n].Some? && row == StoredRow(id, kind, n, attrs[n].value);
      DecodeStored(attrs[n].value);
    }
    assert ValidTables(t');
    assert RowsFor(t', id) == RowsOf(id, kind, attrs);
    RowsOfRoundTrip(t', id, kind, attrs);
    forall other | other in t.entities
      ensures StoredAttributes(t', other) == StoredAttributes(t, other)
    {
      assert RowsFor(t', other) == RowsFor(t, other);
    }
  }

  /** Updating a stored entity keeps the tables valid; its old rows are gone and get() rebuilds its new non-null attributes. */
  lemma UpdateRoundTrip(t: Tables, id: int, kind: string, payload: Option<seq<bv8>>, attrs: AttributeMap)
    requires ValidTables(t)
    ensures ValidTables(UpdateTables(t, id, kind, payload, attrs))
    ensures id in t.entities ==> StoredAttributes(UpdateTables(t, id, kind, payload, attrs), id) == NonNull(attrs)
    ensures id !in t.entities ==> UpdateTables(t, id, kind, payload, attrs) == t
    ensures forall other | other in t.entities && other != id ::
      StoredAttributes(UpdateTables(t, id, kind, payload, attrs), other) == StoredAttributes(t, other)
  {
    var t' := UpdateTables(t, id, kind, payload, attrs);
    if id in t.entities {
      forall row | row in RowsOf(id, kind, attrs)
        ensures CanonicalRow(row)
      {
        var n :| n in attrs && attrs[n].Some? && row == StoredRow(id, kind, n, attrs[n].value);
        DecodeStored(attrs[n].value);
      }
      assert ValidTables(t');
      assert RowsFor(t', id) == RowsOf(id, kind, attrs);
      RowsOfRoundTrip(t', id, kind, attrs);
    } else {
      assert RowsFor(t, id) == {};
      assert t.attributes - RowsFor(t, id) == t.attributes;
    }
    forall other | other in t.entities && other != id
      ensures StoredAttributes(t', other) == StoredAttributes(t, other)
    {
      assert RowsFor(t', other) == RowsFor(t, other);
    }
  }

  /** Deleting keeps the tables valid, removes the entity, and leaves every other entity as it was. */
  lemma DeleteKeepsOthers(t: Tables, id: int)
    requires ValidTables(t)
    ensures ValidTables(DeleteTables(t, id))
    ensures id !in DeleteTables(t, id).entities
    ensures RowsFor(DeleteTables(t, id), id) == {}
    ensures forall other | other in t.entities && other != id ::
      other in DeleteTables(t, id).entities && StoredAttributes(DeleteTables(t, id), other) == StoredAttributes(t, other)
  {
    var t' := DeleteTables(t, id);
    forall row | row in t'.attributes
      ensures row.entityId in t'.entities && row.entityKind == t'.entities[row.entityId].kind
    {
      assert row in t.attributes && row.entityId != id;
    }
    assert ValidTables(t');
    forall other | other in t.entities && other != id
      ensures StoredAttributes(t', other) == StoredAttributes(t, other)
    {
      assert RowsFor(t', other) == RowsFor(t, other);
    }
  }

  /**
   * The update as written breaks the tables: re-putting an entity whose
   * row is gone (put, delete, then put the same Entity object again) leaves
   * attribute rows with no Entity row. Such a row satisfies the condition of
   * a not-null filter on its kind, so a later query takes its id as a
   * candidate, get() returns null for it, and filter.match(null) throws.
   */
  lemma UpdateAsWrittenLeavesOrphans(t: Tables, id: int, kind: string, payload: Option<seq<bv8>>, attrs: AttributeMap, name: string)
    requires ValidTables(t)
    requires id !in t.entities
    requires name in attrs && attrs[name].Some?
    ensures var t' := UpdateAsWritten(t, id, kind, payload, attrs);
      !ValidTables(t')
      && id in Candidates(t', Filter(kind, NullItem(name, Some(NotNull))))
      && id !in t'.entities
  {
    var t' := UpdateAsWritten(t, id, kind, payload, attrs);
    var row := StoredRow(id, kind, name, attrs[name].value);
    assert row in RowsOf(id, kind, attrs);
    assert row in t'.attributes;
    assert FilterHolds(FilterCondition(Filter(kind, NullItem(name, Some(NotNull)))), row);
  }

  // ---------------------------------------------------------------------
  // The query pipeline.
  // ---------------------------------------------------------------------

  /**
   * For a filter with no '%' in its CONTAINS references, every stored
   * entity it matches is among the candidates its condition selects: the
   * narrowing loses no match, and the query finds exactly the matches.
   */
  lemma CandidatesCoverMatches(t: Tables, f: Filter)
    requires ValidTables(t) && WellFormed(f.filterItem) && PercentFree(f.filterItem)
    ensures Matching(t, f) <= Candidates(t, f)
    ensures Found(t, f) == Matching(t, f)
  {
    forall id | id in Matching(t, f)
      ensures id in Candidates(t, f)
    {
      var kind := t.entities[id].kind;
      FilterMatchIsSound(f, id, kind, StoredAttributes(t, id));
      RowsForStored(t, id);
      var row :| row in RowsOf(id, kind, StoredAttributes(t, id)) && FilterHolds(FilterCondition(f), row);
      assert row in t.attributes;
    }
  }

  /** The candidates among the first i ids of a candidate list that match once loaded. */
  ghost function KeptPrefix(t: Tables, f: Filter, ids: seq<int>, i: nat): set<int>
    requires ValidTables(t) && i <= |ids|
  {
    set k | 0 <= k < i && ids[k] in t.entities && Matches(t, f, ids[k]) :: ids[k]
  }

  /** One more candidate is kept exactly when it is stored and matches. */
  lemma KeptPrefixStep(t: Tables, f: Filter, ids: seq<int>, i: nat)
    requires ValidTables(t) && i < |ids|
    ensures KeptPrefix(t, f, ids, i + 1)
      == KeptPrefix(t, f, ids, i) + if ids[i] in t.entities && Matches(t, f, ids[i]) then {ids[i]} else {}
  {
  }

  /** One step of the filtering loops: the kept ids stay ascending, below the next candidate, and equal to the kept prefix. */
  lemma KeptStep(t: Tables, f: Filter, ids: seq<int>, i: nat, kept: seq<int>, keep: bool)
    requires ValidTables(t) && i < |ids| && StrictlyIncreasing(ids)
    requires StrictlyIncreasing(kept) && forall k | 0 <= k < |kept| :: kept[k] < ids[i]
    requires Elements(kept) == KeptPrefix(t, f, ids, i)
    requires keep <==> ids[i] in t.entities && Matches(t, f, ids[i])
    ensures var next := if keep then kept + [ids[i]] else kept;
      StrictlyIncreasing(next)
      && (i + 1 < |ids| ==> forall k | 0 <= k < |next| :: next[k] < ids[i + 1])
      && Elements(next) == KeptPrefix(t, f, ids, i + 1)
  {
    KeptPrefixStep(t, f, ids, i);
    if keep {
      AppendGreatest(kept, ids[i]);
    }
  }

  /** Keeping the matching ids of the full candidate list yields exactly the matching candidates. */
  lemma KeptCandidates(t: Tables, f: Filter, ids: seq<int>)
    requires ValidTables(t)
    requires Elements(ids) == Candidates(t, f)
    ensures KeptPrefix(t, f, ids, |ids|) == Found(t, f)
  {
    forall id | id in Found(t, f)
      ensures id in KeptPrefix(t, f, ids, |ids|)
    {
      assert id in Elements(ids);
      var k :| 0 <= k < |ids| && ids[k] == id;
    }
  }

  /** An entity without any non-null attribute has no rows, so no filter ever returns it. */
  lemma NoAttributesNeverQueried(t: Tables, f: Filter, id: int)
    requires ValidTables(t)
    requires RowsFor(t, id) == {}
    ensures id !in Candidates(t, f) && id !in Found(t, f)
  {
    forall r | r in t.attributes
      ensures r.entityId != id
    {
      assert r !in RowsFor(t, id);
    }
  }

  // ---------------------------------------------------------------------
  // The RelationalDB class.
  // ---------------------------------------------------------------------

  /** Why a RelationalDB operation fails. */
  datatype DbError =
    | Closed                   // the connection is closed
    | Cardinality(count: nat)  // querySingleton found this many results, not one

  /** The rows putAttribute writes for the named attributes of an entity (null values are skipped). */
  function RowsOfNames(id: int, kind: string, attrs: AttributeMap, names: set<string>): set<AttributeRow> {
    set n | n in names && n in attrs && attrs[n].Some? :: StoredRow(id, kind, n, attrs[n].value)
  }

  /** An entity's rows have distinct names in valid tables. */
  lemma RowsForDistinct(t: Tables, id: int)
    requires ValidTables(t)
    ensures DistinctNames(RowsFor(t, id))
  {
  }

  lemma DistinctNamesSubset(rows: set<AttributeRow>, all: set<AttributeRow>)
    requires rows <= all && DistinctNames(all)
    ensures DistinctNames(rows)
  {
  }

  lemma NameIndexInsert(rows: set<AttributeRow>, r: AttributeRow)
    requires DistinctNames(rows + {r}) && r !in rows
    ensures DistinctNames(rows)
    ensures NameIndex(rows + {r}) == NameIndex(rows)[r.name := r]
  {
    assert forall q | q in rows :: q.name != r.name;
  }

  lemma DecodedInsert(index: map<string, AttributeRow>, names: set<string>, n: string)
    requires names <= index.Keys && n in index
    ensures Decoded(index, names + {n}) == Decoded(index, names)[n := Decode(index[n].typeCode, index[n].value)]
  {
  }

  lemma RowsOfNamesInsert(id: int, kind: string, attrs: AttributeMap, names: set<string>, n: string)
    requires n in attrs
    ensures attrs[n].None? ==> RowsOfNames(id, kind, attrs, names + {n}) == RowsOfNames(id, kind, attrs, names)
    ensures attrs[n].Some? ==>
      RowsOfNames(id, kind, attrs, names + {n}) == RowsOfNames(id, kind, attrs, names) + {StoredRow(id, kind, n, attrs[n].value)}
  {
  }

  lemma RowsOfNamesAll(id: int, kind: string, attrs: AttributeMap)
    ensures RowsOfNames(id, kind, attrs, attrs.Keys) == RowsOf(id, kind, attrs)
  {
  }

  /** e is what get(id) builds from the tables. */
  ghost predicate LoadedAs(e: Entity, t: Tables, id: int)
    requires ValidTables(t)
    reads e
  {
    id in t.entities
    && e.id == id && e.kind == t.entities[id].kind && e.payload == t.entities[id].payload
    && e.attributes == StoredAttributes(t, id)
  }

  /** The ids of a list of loaded entities, in list order. */
  ghost function IdsOf(es: seq<Entity>): (ids: seq<int>)
    reads set e | e in es
    ensures |ids| == |es| && forall k | 0 <= k < |es| :: ids[k] == es[k].id
  {
    if es == [] then [] else [es[0].id] + IdsOf(es[1..])
  }

  lemma IdsOfSnoc(es: seq<Entity>, e: Entity)
    ensures IdsOf(es + [e]) == IdsOf(es) + [e.id]
  {
  }

  class RelationalDB {
    var tables: Tables
    var open: bool

    ghost predicate Valid()
      reads this
    {
      ValidTables(tables)
    }

    /** Opens an existing database, or creates the two tables of a new one. */
    constructor (existing: Option<Tables>)
      requires existing.Some? ==> ValidTables(existing.value)
      ensures Valid() && open
      ensures tables == if existing.Some? then existing.value else EmptyTables
    {
      tables := if existing.Some? then existing.value else EmptyTables;
      open := true;
    }

    /** Closes the connection; the stored tables are kept. */
    method Close()
      modifies this
      ensures !open && tables == old(tables)
    {
      open := false;
    }

    function IsClosed(): bool
      reads this
    {
      !open
    }

    /** getAttributes: the id's rows keyed by attribute name. */
    method GetAttributes(id: int) returns (res: map<string, AttributeRow>)
      requires Valid()
      ensures DistinctNames(RowsFor(tables, id)) && res == NameIndex(RowsFor(tables, id))
    {
      var all := RowsFor(tables, id);
      RowsForDistinct(tables, id);
      var rest := all;
      res := map[];
      while rest != {}
        invariant rest <= all
        invariant DistinctNames(all - rest) && res == NameIndex(all - rest)
        decreases |rest|
      {
        var r :| r in rest;
        ghost var done := all - rest;
        assert DistinctNames(done + {r}) && r !in done by {
          DistinctNamesSubset(done + {r}, all);
        }
        NameIndexInsert(done, r);
        res := res[r.name := r];
        rest := rest - {r};
        assert all - rest == done + {r};
      }
    }

    /** get: the Entity row and its attributes decoded by type, or None when no row has the id. */
    method Get(id: int) returns (r: Result<Option<Entity>, DbError>)
      requires Valid()
      ensures !open ==> r == Failure(Closed)
      ensures open ==> r.Success? && (r.value.Some? <==> id in tables.entities)
      ensures r.Success? && r.value.Some? ==> fresh(r.value.value) && LoadedAs(r.value.value, tables, id)
    {
      if !open {
        return Failure(Closed);
      }
      if id !in tables.entities {
        return Success(None);
      }
      var row := tables.entities[id];
      var e := new Entity(row.kind);
      e.SetId(id);
      e.SetByteValue(row.payload);
      var attrs := GetAttributes(id);
      PutDecoded(e, attrs);
      return Success(Some(e));
    }

    /** The loop of get over the attribute rows: each value decoded by its type tag (Boolean.valueOf, Long.parseLong, the text itself). */
    static method PutDecoded(e: Entity, attrs: map<string, AttributeRow>)
      requires e.attributes == map[]
      modifies e
      ensures e.attributes == Decoded(attrs, attrs.Keys)
      ensures e.id == old(e.id) && e.kind == old(e.kind) && e.payload == old(e.payload)
    {
      var names := attrs.Keys;
      while names != {}
        invariant names <= attrs.Keys
        invariant e.id == old(e.id) && e.kind == old(e.kind) && e.payload == old(e.payload)
        invariant e.attributes == Decoded(attrs, attrs.Keys - names)
        decreases |names|
      {
        var n :| n in names;
        assert attrs.Keys - (names - {n}) == (attrs.Keys - names) + {n};
        DecodedInsert(attrs, attrs.Keys - names, n);
        var a := attrs[n];
        e.PutAttribute(n, Decode(a.typeCode, a.value));
        names := names - {n};
      }
      assert attrs.Keys - names == attrs.Keys;
    }

    /** putAttribute: one row holding the value's type tag and text; a null value writes nothing. */
    method PutAttribute(entityId: int, entityKind: string, name: string, value: Option<Value>)
      modifies this
      ensures open == old(open)
      ensures tables.entities == old(tables.entities) && tables.nextId == old(tables.nextId)
      ensures value.None? ==> tables.attributes == old(tables.attributes)
      ensures value.Some? ==> tables.attributes == old(tables.attributes) + {StoredRow(entityId, entityKind, name, value.value)}
    {
      if value.None? {
        return;
      }
      var row := AttributeRow(entityId, entityKind, name, GetType(TypeOf(value.value)), ValueText(value.value));
      tables := tables.(attributes := tables.attributes + {row});
    }

    /** The loop of putNew and updateEntity over the entity's attribute entries. */
    method PutAttributes(entityId: int, entityKind: string, attrs: AttributeMap)
      modifies this
      ensures open == old(open)
      ensures tables.entities == old(tables.entities) && tables.nextId == old(tables.nextId)
      ensures tables.attributes == old(tables.attributes) + RowsOf(entityId, entityKind, attrs)
    {
      var names := attrs.Keys;
      while names != {}
        invariant names <= attrs.Keys && open == old(open)
        invariant tables.entities == old(tables.entities) && tables.nextId == old(tables.nextId)
        invariant tables.attributes == old(tables.attributes) + RowsOfNames(entityId, entityKind, attrs, attrs.Keys - names)
        decreases |names|
      {
        var n :| n in names;
        PutAttribute(entityId, entityKind, n, attrs[n]);
        assert attrs.Keys - (names - {n}) == (attrs.Keys - names) + {n};
        RowsOfNamesInsert(entityId, entityKind, attrs, attrs.Keys - names, n);
        names := names - {n};
      }
      assert attrs.Keys - names == attrs.Keys;
      RowsOfNamesAll(entityId, entityKind, attrs);
    }

    /** putNew: inserts the Entity row, gives the entity its identity id, then writes its attributes. */
    method PutNew(entity: Entity)
      requires Valid()
      modifies this, entity
      ensures Valid() && open == old(open)
      ensures tables == InsertTables(old(tables), old(entity.kind), old(entity.payload), old(entity.attributes))
      ensures entity.id == old(tables.nextId)
      ensures entity.kind == old(entity.kind) && entity.payload == old(entity.payload) && entity.attributes == old(entity.attributes)
    {
      InsertRoundTrip(tables, entity.kind, entity.payload, entity.attributes);
      var id := tables.nextId;
      tables := tables.(entities := tables.entities[id := EntityRow(entity.kind, entity.payload)], nextId := id + 1);
      entity.SetId(id);
      PutAttributes(entity.GetId(), entity.kind, entity.attributes);
    }

    /** deleteAttributes: every row of the id. */
    method DeleteAttributes(entityId: int)
      modifies this
      ensures open == old(open)
      ensures tables == old(tables).(attributes := old(tables.attributes) - RowsFor(old(tables), entityId))
    {
      tables := tables.(attributes := tables.attributes - RowsFor(tables, entityId));
    }

    /**
     * updateEntity: rewrites the Entity row and writes the attributes,
     * corrected to write them only when the row exists.
     */
    method UpdateEntity(entity: Entity)
      modifies this
      ensures open == old(open)
      ensures old(entity.id) in old(tables.entities) ==>
        tables == Tables(old(tables.entities)[entity.id := EntityRow(entity.kind, entity.payload)],
                         old(tables.attributes) + RowsOf(entity.id, entity.kind, entity.attributes), old(tables.nextId))
      ensures old(entity.id) !in old(tables.entities) ==> tables == old(tables)
    {
      if entity.id in tables.entities {
        tables := tables.(entities := tables.entities[entity.id := EntityRow(entity.kind, entity.payload)]);
        PutAttributes(entity.id, entity.kind, entity.attributes);
      }
    }

    /** update: the old attribute rows go, then the Entity row and the current attributes are written. */
    method Update(entity: Entity)
      requires Valid()
      modifies this
      ensures Valid() && open == old(open)
      ensures tables == UpdateTables(old(tables), entity.id, entity.kind, entity.payload, entity.attributes)
    {
      UpdateRoundTrip(tables, entity.id, entity.kind, entity.payload, entity.attributes);
      DeleteAttributes(entity.id);
      UpdateEntity(entity);
    }

    /** put: an entity with an id (greater than -1) is updated, any other is inserted. */
    method Put(entity: Entity) returns (r: Result<(), DbError>)
      requires Valid()
      modifies this, entity
      ensures Valid() && open == old(open)
      ensures !open ==> r == Failure(Closed) && tables == old(tables) && unchanged(entity)
      ensures open ==> r.Success?
      ensures open && old(entity.id) > -1 ==>
        unchanged(entity) && tables == UpdateTables(old(tables), entity.id, entity.kind, entity.payload, entity.attributes)
      ensures open && old(entity.id) <= -1 ==>
        tables == InsertTables(old(tables), old(entity.kind), old(entity.payload), old(entity.attributes))
        && entity.id == old(tables.nextId)
        && entity.kind == old(entity.kind) && entity.payload == old(entity.payload) && entity.attributes == old(entity.attributes)
    {
      if !open {
        return Failure(Closed);
      }
      if entity.GetId() > -1 {
        Update(entity);
      } else {
        PutNew(entity);
      }
      return Success(());
    }

    /** delete: the id's attribute rows, then its Entity row. */
    method Delete(id: int) returns (r: Result<(), DbError>)
      requires Valid()
      modifies this
      ensures Valid() && open == old(open)
      ensures !open ==> r == Failure(Closed) && tables == old(tables)
      ensures open ==> r.Success? && tables == DeleteTables(old(tables), id)
    {
      if !open {
        return Failure(Closed);
      }
      DeleteKeepsOthers(tables, id);
      tables := tables.(attributes := tables.attributes - RowsFor(tables, id));
      tables := tables.(entities := tables.entities - {id});
      return Success(());
    }

    /** The SQL step of query and queryKeys: the entityId of every row the filter's condition selects, in a TreeSet. */
    method CandidateIds(f: Filter) returns (ids: seq<int>)
      ensures StrictlyIncreasing(ids) && Elements(ids) == Candidates(tables, f)
    {
      var cond := FilterCondition(f);
      var hits := set row | row in tables.attributes && FilterHolds(cond, row);
      var rest := hits;
      ids := [];
      while rest != {}
        invariant rest <= hits && StrictlyIncreasing(ids)
        invariant Elements(ids) == set row | row in hits - rest :: row.entityId
        decreases |rest|
      {
        var row :| row in rest;
        ids := Insert(ids, row.entityId);
        rest := rest - {row};
      }
      assert hits - rest == hits;
      assert hits == set row | row in tables.attributes && FilterHolds(FilterCondition(f), row);
    }

    /** queryKeys: the candidate ids whose loaded entity the filter matches, in increasing order. */
    method QueryKeys(f: Filter) returns (r: Result<seq<int>, DbError>)
      requires Valid()
      ensures !open ==> r == Failure(Closed)
      ensures open ==> r.Success? && StrictlyIncreasing(r.value) && Elements(r.value) == Found(tables, f)
    {
      if !open {
        return Failure(Closed);
      }
      var ids := CandidateIds(f);
      var kept: seq<int> := [];
      var i := 0;
      while i < |ids|
        invariant 0 <= i <= |ids| && StrictlyIncreasing(kept)
        invariant i < |ids| ==> forall k | 0 <= k < |kept| :: kept[k] < ids[i]
        invariant Elements(kept) == KeptPrefix(tables, f, ids, i)
      {
        var e := Get(ids[i]);
        var keep := e.value.Some? && FilterMatch(f, e.value.value.kind, e.value.value.attributes);
        KeptStep(tables, f, ids, i, kept, keep);
        if keep {
          kept := kept + [ids[i]];
        }
        i := i + 1;
      }
      KeptCandidates(tables, f, ids);
      return Success(kept);
    }
  
    /** query: the candidates whose loaded entity the filter matches, as entities in increasing id order. */
    method Query(f: Filter) returns (r: Result<seq<Entity>, DbError>)
      requires Valid()
      ensures !open ==> r == Failure(Closed)
      ensures open ==> r.Success? && StrictlyIncreasing(IdsOf(r.value)) && Elements(IdsOf(r.value)) == Found(tables, f)
      ensures open ==> forall k | 0 <= k < |r.value| :: LoadedAs(r.value[k], tables, r.value[k].id)
    {
      if !open {
        return Failure(Closed);
      }
      var ids := CandidateIds(f);
      var res := LoadMatching(f, ids);
      KeptCandidates(tables, f, ids);
      return Success(res);
    }

    /** The loop of query over the candidate ids: each id is loaded and kept when the filter matches it. */
    method LoadMatching(f: Filter, ids: seq<int>) returns (res: seq<Entity>)
      requires Valid() && open && StrictlyIncreasing(ids)
      ensures StrictlyIncreasing(IdsOf(res)) && Elements(IdsOf(res)) == KeptPrefix(tables, f, ids, |ids|)
      ensures forall k | 0 <= k < |res| :: LoadedAs(res[k], tables, res[k].id)
    {
      res := [];
      ghost var kept: seq<int> := [];
      var i := 0;
      while i < |ids|
        invariant 0 <= i <= |ids| && StrictlyIncreasing(kept)
        invariant i < |ids| ==> forall k | 0 <= k < |kept| :: kept[k] < ids[i]
        invariant Elements(kept) == KeptPrefix(tables, f, ids, i)
        invariant kept == IdsOf(res)
        invariant forall k | 0 <= k < |res| :: LoadedAs(res[k], tables, res[k].id)
      {
        var e := Get(ids[i]);
        var keep := e.value.Some? && FilterMatch(f, e.value.value.kind, e.value.value.attributes);
        KeptStep(tables, f, ids, i, kept, keep);
        if keep {
          IdsOfSnoc(res, e.value.value);
          kept := kept + [ids[i]];
          res := res + [e.value.value];
        }
        i := i + 1;
      }
    }

    /** queryFirst: the matching entity with the least id, or None when nothing matches. */
    method QueryFirst(f: Filter) returns (r: Result<Option<Entity>, DbError>)
      requires Valid()
      ensures !open ==> r == Failure(Closed)
      ensures open ==> r.Success? && (r.value.None? <==> Found(tables, f) == {})
      ensures open && r.value.Some? ==>
        var e := r.value.value;
        LoadedAs(e, tables, e.id) && e.id in Found(tables, f) && forall id | id in Found(tables, f) :: e.id <= id
    {
      var all := Query(f);
      if all.Failure? {
        return Failure(all.error);
      }
      ElementsEmpty(IdsOf(all.value));
      if |all.value| < 1 {
        return Success(None);
      }
      FirstIsLeast(IdsOf(all.value));
      return Success(Some(all.value[0]));
    }

    /** querySingleton: the only matching entity; any other number of matches is an error carrying that number. */
    method QuerySingleton(f: Filter) returns (r: Result<Entity, DbError>)
      requires Valid()
      ensures !open ==> r == Failure(Closed)
      ensures open ==> (r.Success? <==> |Found(tables, f)| == 1)
      ensures open && r.Failure? ==> r.error == Cardinality(|Found(tables, f)|)
      ensures r.Success? ==> Found(tables, f) == {r.value.id} && LoadedAs(r.value, tables, r.value.id)
    {
      var all := Query(f);
      if all.Failure? {
        return Failure(all.error);
      }
      ElementsCount(IdsOf(all.value));
      if |all.value| != 1 {
        return Failure(Cardinality(|all.value|));
      }
      assert Elements(IdsOf(all.value)) == {all.value[0].id};
      return Success(all.value[0]);
    }
  }
}
