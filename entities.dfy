/**
 * Entities as the DAO sees them through reflection: an object whose declared
 * fields each carry a name, a declared type (String or anything else), the
 * `static` and `final` modifiers, and a current value.
 */
module Entities {
  import opened Wrappers

  /** Primary keys (the repository's one entity uses `Integer`). */
  type Key = int

  /** Whether a declared field has type `java.lang.String`. */
  datatype FieldKind = StringKind | OtherKind

  /** The value a field holds: null, a string, or some other scalar. */
  datatype Value = Null | Text(s: string) | Scalar(n: int)

  /** One declared field of an entity class together with its current value. */
  datatype Field = Field(name: string, kind: FieldKind, isStatic: bool, isFinal: bool, value: Value)

  /** The name of the primary-key attribute; the repository's `Person` declares it as `id`. */
  const KeyAttribute: string := "id"

  /** A stored row: the key and the field values written under it. */
  datatype Row = Row(id: Key, fields: seq<Field>)

  /**
   * An entity instance: its primary key and its other declared fields; the
   * fields are overwritten in place.
   */
  class Entity {
    const id: Key
    var fields: seq<Field>

    constructor (id: Key, fields: seq<Field>)
      ensures this.id == id && this.fields == fields
    {
      this.id := id;
      this.fields := fields;
    }
  }

  /** The value of the first field called `name`, if the entity declares one. */
  function Lookup(fields: seq<Field>, name: string): (r: Option<Value>)
    ensures r.None? <==> forall i :: 0 <= i < |fields| ==> fields[i].name != name
    ensures r.Some? ==> exists i :: 0 <= i < |fields| && fields[i].name == name && fields[i].value == r.value
  {
    if fields == [] then None
    else if fields[0].name == name then Some(fields[0].value)
    else Lookup(fields[1..], name)
  }
}
