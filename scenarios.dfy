/** End-to-end uses of the DAO, stated from its callers' side. */
module Scenarios {
  import opened Wrappers
  import opened Entities
  import opened Sanitize
  import opened Persistence
  import opened GenericDao

  /** A created entity reads back as itself, with its blank strings now null. */
  method CreateThenRead(dao: AbstractGenericDao, e: Entity) returns (created: Outcome<Error>, read: Result<Option<Entity>, Error>)
    requires dao.Valid() && e.id !in dao.em.rows && e.id !in dao.em.managed
    requires OfBoundType(e.fields, dao.attributes)
    modifies e, dao.em
    ensures created == Pass && read == Ok(Some(e))
    ensures e.fields == Sanitized(old(e.fields)) && NoBlankStrings(e.fields)
    ensures e.id in dao.em.rows && dao.em.rows[e.id] == e.fields
  {
    created := dao.Create(e);
    read := dao.Read(Some(e.id));
  }

  /** A person with only a name. */
  function Person(name: string): seq<Field>
  {
    [Field("name", StringKind, false, false, Text(name))]
  }

  /** A non-blank name is left as it is by sanitisation. */
  lemma PersonKeptBySanitize(name: string)
    requires name != [] && !IsTrimmed(name[0])
    ensures Sanitized(Person(name)) == Person(name)
  {
    SanitizedUnchangedIff(Person(name));
  }

  /** A table of two rows scans in key order. */
  lemma ScanOfTwo(table: map<Key, seq<Field>>, a: Key, b: Key)
    requires table.Keys == {a, b} && a < b
    ensures TableScan(table) == [Row(a, table[a]), Row(b, table[b])]
  {
    var r := TableScan(table);
    TableScanLength(table);
    assert |table| == 2;
    assert Row(a, table[a]) in r && Row(b, table[b]) in r;
    assert r[0].id in {a, b} && r[1].id in {a, b};
  }

  /** Searching the two stored people by name "bob" keeps bob's row only. */
  lemma SelectBob()
    ensures SelectByAttributes([Row(1, Person("alice")), Row(2, Person("bob"))],
                               map["name" := Text("bob")], {"id", "name"}) == [Row(2, Person("bob"))]
  {
    var attrs := map["name" := Text("bob")];
    var rows := [Row(1, Person("alice")), Row(2, Person("bob"))];
    assert "id" != "name";
    assert !MatchesAttributes(rows[0], attrs, {"id", "name"}) by {
      assert Lookup(Person("alice"), "name") == Some(Text("alice"));
      assert !Holds(Equal("name", Text("bob")), rows[0]);
    }
    assert MatchesAttributes(rows[1], attrs, {"id", "name"}) by {
      assert Lookup(Person("bob"), "name") == Some(Text("bob"));
    }
    assert rows[1..][1..] == [];
  }

  /** Store "alice" and "bob", then search by name: exactly bob's row comes back. */
  method FindBobByName() returns (found: seq<Row>)
    ensures found == [Row(2, Person("bob"))]
  {
    var em := new Context();
    var dao := new AbstractGenericDao(em, {"id", "name"});
    var alice := new Entity(1, Person("alice"));
    var bob := new Entity(2, Person("bob"));
    PersonKeptBySanitize("alice");
    PersonKeptBySanitize("bob");
    var r1 := dao.Create(alice);
    var r2 := dao.Create(bob);
    ScanOfTwo(em.rows, 1, 2);
    SelectBob();
    found := dao.FindAllByAttributes(map["name" := Text("bob")]);
  }

  /** A table of one row scans as that row. */
  lemma ScanOfOne(table: map<Key, seq<Field>>, a: Key)
    requires table.Keys == {a}
    ensures TableScan(table) == [Row(a, table[a])]
  {
    var r := TableScan(table);
    TableScanLength(table);
    assert |table| == 1;
    assert Row(a, table[a]) in r;
  }

  /**
   * Store "alice", then search for the nickname "bob", an attribute the
   * entity does not declare. Following the intent of the
   * `root.get(s) != null` guard, the key is skipped and alice's row comes
   * back although nothing was asked for her. Under JPA's `Path.get` the same
   * call raises an `IllegalArgumentException` instead.
   */
  method UnknownAttributeSearch() returns (skipped: seq<Row>, asWritten: Result<seq<Row>, Error>)
    ensures skipped == [Row(1, Person("alice"))]
    ensures asWritten == Err(InvalidArgument)
  {
    var em := new Context();
    var dao := new AbstractGenericDao(em, {"id", "name"});
    var alice := new Entity(1, Person("alice"));
    PersonKeptBySanitize("alice");
    var created := dao.Create(alice);
    ScanOfOne(em.rows, 1);
    var attrs := map["nickname" := Text("bob")];
    assert "nickname" != "name" by { assert "nickname"[1] != "name"[1]; }
    assert "nickname" != "id" by { assert |"nickname"| != |"id"|; }
    assert attrs.Keys == {"nickname"} && attrs.Keys !! dao.attributes;
    skipped := dao.FindAllByAttributes(attrs);
    asWritten := dao.FindAllByAttributesUnderJpa(attrs);
  }

  /** Store "alice" and "bob", then search by the key attribute: exactly alice's row comes back. */
  method FindAliceById() returns (found: seq<Row>)
    ensures found == [Row(1, Person("alice"))]
  {
    var em := new Context();
    var dao := new AbstractGenericDao(em, {"id", "name"});
    var alice := new Entity(1, Person("alice"));
    var bob := new Entity(2, Person("bob"));
    PersonKeptBySanitize("alice");
    PersonKeptBySanitize("bob");
    var r1 := dao.Create(alice);
    var r2 := dao.Create(bob);
    SearchByKey(em.rows, 1, dao.attributes);
    found := dao.FindAllByAttributes(map[KeyAttribute := Scalar(1)]);
  }
}
