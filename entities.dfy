/**
 * Entity, the persistable object (an id, a kind, an opaque payload and an
 * attribute map), and EntityValue, the attribute bag an entity's payload
 * is usually made from. Both update their maps in place.
 */
module Entities {

  import opened Wrappers
  import opened Values

  /** The ClassCastException a typed getter throws when the stored value has another type. */
  datatype CastError = CastError(stored: EType)

  class Entity {
    /** -1 until the entity is first stored. */
    var id: int
    var kind: string
    /** The serialized payload, null when no value was set. */
    var payload: Option<seq<bv8>>
    var attributes: AttributeMap

    /** A new entity of the given kind: no id yet, no payload, no attributes. */
    constructor (kind: string)
      ensures id == -1 && this.kind == kind && payload == None && attributes == map[]
    {
      id := -1;
      this.kind := kind;
      payload := None;
      attributes := map[];
    }

    /** setId; getId reads the field back. */
    method SetId(id: int)
      modifies this
      ensures GetId() == id
      ensures kind == old(kind) && payload == old(payload) && attributes == old(attributes)
    {
      this.id := id;
    }

    function GetId(): int
      reads this
    {
      id
    }

    method SetByteValue(value: Option<seq<bv8>>)
      modifies this
      ensures payload == value
      ensures id == old(id) && kind == old(kind) && attributes == old(attributes)
    {
      payload := value;
    }

    /**
     * The three putAttribute overloads: the key now maps to the value (which
     * may be null), whatever it held before; every other key is untouched.
     */
    method PutAttribute(key: string, value: Option<Value>)
      modifies this
      ensures attributes == old(attributes)[key := value]
      ensures GetAttribute(key) == value
      ensures forall k | k != key :: GetAttribute(k) == old(GetAttribute(k))
      ensures GetAttributeNames() == old(GetAttributeNames()) + {key}
      ensures IsAttributeNull(key) <==> value.None?
      ensures id == old(id) && kind == old(kind) && payload == old(payload)
    {
      attributes := attributes[key := value];
    }

    /** getAttribute: the value put last under key, or null when none was put or null was put. */
    function GetAttribute(key: string): (r: Option<Value>)
      reads this
      ensures r.Some? ==> key in attributes && attributes[key] == r
      ensures key !in attributes ==> r.None?
    {
      Lookup(attributes, key)
    }

    /** getLongAttribute: the Long under key, null when there is none, a cast failure for any other type. */
    function GetLongAttribute(key: string): (r: Result<Option<Int64>, CastError>)
      reads this
      ensures r.Failure? <==> GetAttribute(key).Some? && !GetAttribute(key).value.LongValue?
      ensures r.Failure? ==> r.error.stored == TypeOf(GetAttribute(key).value)
      ensures r.Success? ==> (r.value.Some? <==> GetAttribute(key).Some?)
      ensures r.Success? && r.value.Some? ==> GetAttribute(key) == Some(LongValue(r.value.value))
    {
      match GetAttribute(key)
      case None => Success(None)
      case Some(LongValue(l)) => Success(Some(l))
      case Some(v) => Failure(CastError(TypeOf(v)))
    }

    /** getBooleanAttribute, with the same cast rule. */
    function GetBooleanAttribute(key: string): (r: Result<Option<bool>, CastError>)
      reads this
      ensures r.Failure? <==> GetAttribute(key).Some? && !GetAttribute(key).value.BooleanValue?
      ensures r.Failure? ==> r.error.stored == TypeOf(GetAttribute(key).value)
      ensures r.Success? ==> (r.value.Some? <==> GetAttribute(key).Some?)
      ensures r.Success? && r.value.Some? ==> GetAttribute(key) == Some(BooleanValue(r.value.value))
    {
      match GetAttribute(key)
      case None => Success(None)
      case Some(BooleanValue(b)) => Success(Some(b))
      case Some(v) => Failure(CastError(TypeOf(v)))
    }

    /** getStringAttribute, with the same cast rule. */
    function GetStringAttribute(key: string): (r: Result<Option<string>, CastError>)
      reads this
      ensures r.Failure? <==> GetAttribute(key).Some? && !GetAttribute(key).value.StringValue?
      ensures r.Failure? ==> r.error.stored == TypeOf(GetAttribute(key).value)
      ensures r.Success? ==> (r.value.Some? <==> GetAttribute(key).Some?)
      ensures r.Success? && r.value.Some? ==> GetAttribute(key) == Some(StringValue(r.value.value))
    {
      match GetAttribute(key)
      case None => Success(None)
      case Some(StringValue(s)) => Success(Some(s))
      case Some(v) => Failure(CastError(TypeOf(v)))
    }

    /** isAttributeNull: absent and null-valued keys alike. */
    predicate IsAttributeNull(key: string)
      reads this
      ensures IsAttributeNull(key) <==> GetAttribute(key).None?
    {
      key !in attributes || attributes[key].None?
    }

    /** getAttributeNames: every key put, including those put with null. */
    function GetAttributeNames(): (r: set<string>)
      reads this
      ensures forall k :: k in r <==> k in attributes
    {
      attributes.Keys
    }
  }

  /** EntityValue: a name-to-object map; any object type T, null as None. */
  class EntityValue<T> {
    var entries: map<string, Option<T>>

    constructor ()
      ensures entries == map[]
    {
      entries := map[];
    }

    /** put: the name now maps to the value, every other name is untouched. */
    method Put(name: string, value: Option<T>)
      modifies this
      ensures entries == old(entries)[name := value]
      ensures Get(name) == value
      ensures forall n | n != name :: Get(n) == old(Get(n))
    {
      entries := entries[name := value];
    }

    /** get: the value under name, null when absent. */
    function Get(name: string): (r: Option<T>)
      reads this
      ensures r.Some? ==> name in entries && entries[name] == r
      ensures name !in entries ==> r.None?
    {
      if name in entries then entries[name] else None
    }

    /** remove: returns the value the name had, and the name is gone afterwards. */
    method Remove(name: string) returns (prior: Option<T>)
      modifies this
      ensures prior == old(Get(name))
      ensures entries == old(entries) - {name}
      ensures name !in GetNames() && Get(name).None?
      ensures forall n | n != name :: Get(n) == old(Get(n))
    {
      prior := Get(name);
      entries := entries - {name};
    }

    method Clear()
      modifies this
      ensures entries == map[]
      ensures GetNames() == {}
    {
      entries := map[];
    }

    /** hasName: the name maps to a non-null value. */
    predicate HasName(name: string)
      reads this
      ensures HasName(name) <==> Get(name).Some?
    {
      name in entries && entries[name].Some?
    }

    function GetNames(): (r: set<string>)
      reads this
      ensures forall n :: n in r <==> n in entries
    {
      entries.Keys
    }
  }
}
