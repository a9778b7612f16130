/**
 * A small stand-in for the JPA persistence context the DAO delegates to: a
 * table of rows by primary key, an identity map of the managed (tracked)
 * instances, and a query engine that evaluates conjunctions of equality
 * predicates. Writes are flushed to the table immediately. `Where` and
 * `SingleResult` define how this stand-in evaluates a select and
 * `getSingleResult`; they are definitions of the query engine, not properties
 * of the DAO.
 */
module Persistence {
  import opened Wrappers
  import opened Entities
  import opened KeyOrder

  /** An equality condition `attribute = value` of a criteria query. */
  datatype Predicate = Equal(attribute: string, value: Value)

  /** A select over the bound entity type with a conjunction of predicates as its WHERE clause. */
  datatype CriteriaQuery = CriteriaQuery(where: seq<Predicate>)

  /** A bulk delete over the bound entity type with a conjunction of predicates as its WHERE clause. */
  datatype CriteriaDelete = CriteriaDelete(where: seq<Predicate>)

  /**
   * The value the attribute path `root.get(name)` denotes on a row: the key
   * for the primary-key attribute, otherwise the field of that name.
   */
  function AttributeValue(r: Row, name: string): Option<Value>
  {
    if name == KeyAttribute then Some(Scalar(r.id)) else Lookup(r.fields, name)
  }

  /** SQL equality: a null on either side never matches. */
  predicate Holds(p: Predicate, r: Row)
  {
    var v := AttributeValue(r, p.attribute);
    v.Some? && v.value != Null && p.value != Null && v.value == p.value
  }

  /** An equality on the primary-key attribute holds exactly on the row with that key. */
  lemma HoldsOnKey(r: Row, k: Key)
    ensures Holds(Equal(KeyAttribute, Scalar(k)), r) <==> r.id == k
  {
  }

  /** The row satisfies every conjunct. */
  predicate SatisfiesAll(r: Row, where: seq<Predicate>)
  {
    forall p :: p in where ==> Holds(p, r)
  }

  /** The rows satisfying the WHERE clause, in their scan order. */
  function Where(rows: seq<Row>, where: seq<Predicate>): (r: seq<Row>)
    ensures |r| <= |rows|
    ensures forall x :: x in r <==> x in rows && SatisfiesAll(x, where)
  {
    if rows == [] then []
    else (if SatisfiesAll(rows[0], where) then [rows[0]] else []) + Where(rows[1..], where)
  }

  /**
   * `TypedQuery.getSingleResult` over a result list: the one result, or
   * `NoResult` for none, or `NonUniqueResult` for several.
   */
  function SingleResult<T>(results: seq<T>): (r: Result<T, Error>)
    ensures r.Ok? <==> |results| == 1
    ensures r.Ok? ==> r.value == results[0]
    ensures r.Err? ==> r.error == if results == [] then NoResult else NonUniqueResult
  {
    if |results| == 1 then Ok(results[0])
    else if results == [] then Err(NoResult)
    else Err(NonUniqueResult)
  }

  /** The rows stored under the keys `ks`, in the order of `ks`. */
  function RowsOf(ks: seq<Key>, table: map<Key, seq<Field>>): (r: seq<Row>)
    requires forall i :: 0 <= i < |ks| ==> ks[i] in table
    ensures |r| == |ks| && forall i :: 0 <= i < |ks| ==> r[i] == Row(ks[i], table[ks[i]])
  {
    seq(|ks|, i requires 0 <= i < |ks| => Row(ks[i], table[ks[i]]))
  }

  /** The rows of a table in ascending key order: what a full table scan returns. */
  function TableScan(table: map<Key, seq<Field>>): (r: seq<Row>)
    ensures forall i :: 0 <= i < |r| ==> r[i].id in table && r[i].fields == table[r[i].id]
    ensures forall k :: k in table ==> Row(k, table[k]) in r
    ensures forall i, j :: 0 <= i < j < |r| ==> r[i].id < r[j].id
  {
    var ks := SortedKeys(table.Keys);
    var r := RowsOf(ks, table);
    forall k | k in table ensures Row(k, table[k]) in r {
      assert r[IndexOf(ks, k)] == Row(k, table[k]);
    }
    r
  }

  /** A scan yields one row per key. */
  lemma TableScanLength(table: map<Key, seq<Field>>)
    ensures |TableScan(table)| == |table|
  {
    SortedKeysLength(table.Keys);
  }

  class Context {
    /** The table: the field values stored under each primary key. */
    var rows: map<Key, seq<Field>>
    /** The identity map: the one managed instance per key that the context tracks. */
    var managed: map<Key, Entity>

    ghost predicate Valid()
      reads this
    {
      forall k :: k in managed ==> managed[k].id == k
    }

    constructor ()
      ensures Valid() && rows == map[] && managed == map[]
    {
      rows := map[];
      managed := map[];
    }

    /** `EntityManager.contains`: `e` is the instance the context tracks for its key. */
    predicate Contains(e: Entity)
      reads this
    {
      e.id in managed && managed[e.id] == e
    }

    /** All rows of the table, in ascending key order. */
    function Scan(): seq<Row>
      reads this
    {
      TableScan(rows)
    }

    /** The result list of a select. */
    function Execute(q: CriteriaQuery): (r: seq<Row>)
      reads this
    {
      Where(Scan(), q.where)
    }

    /** The number of rows of the table. */
    function Count(): (n: nat)
      reads this
      ensures n == |Scan()|
    {
      TableScanLength(rows);
      |rows|
    }

    /** `EntityManager.persist`: make a new instance managed and store its row. */
    method Persist(e: Entity) returns (r: Outcome<Error>)
      requires Valid()
      modifies this
      ensures Valid()
      ensures r.Pass? <==> old(Contains(e)) || (e.id !in old(rows) && e.id !in old(managed))
      ensures r.Pass? ==> rows == old(rows)[e.id := e.fields] && managed == old(managed)[e.id := e]
      ensures r.Fail? ==> r.error == EntityExists && rows == old(rows) && managed == old(managed)
    {
      if Contains(e) || (e.id !in rows && e.id !in managed) {
        rows := rows[e.id := e.fields];
        managed := managed[e.id := e];
        r := Pass;
      } else {
        r := Fail(EntityExists);
      }
    }

    /**
     * `EntityManager.merge`: copy the state of `e` onto the managed instance for
     * its key (a fresh one if there is none), store it, and return that instance.
     */
    method Merge(e: Entity) returns (m: Entity)
      requires Valid()
      modifies this, managed.Values
      ensures Valid()
      ensures m.id == e.id && m.fields == e.fields && e.fields == old(e.fields)
      ensures rows == old(rows)[e.id := e.fields]
      ensures managed == old(managed)[e.id := m]
      ensures e.id in old(managed) ==> m == old(managed[e.id])
      ensures e.id !in old(managed) ==> fresh(m)
      ensures forall x :: x in old(managed.Values) && x != m ==> x.fields == old(x.fields)
    {
      if e.id in managed {
        m := managed[e.id];
        if m != e {
          m.fields := e.fields;
        }
      } else {
        m := new Entity(e.id, e.fields);
        managed := managed[e.id := m];
      }
      rows := rows[e.id := e.fields];
    }

    /** `EntityManager.remove` of a managed instance: delete its row and stop tracking it. */
    method Remove(e: Entity)
      requires Valid() && Contains(e)
      modifies this
      ensures Valid()
      ensures rows == old(rows) - {e.id} && managed == old(managed) - {e.id}
    {
      rows := rows - {e.id};
      managed := managed - {e.id};
    }

    /**
     * `EntityManager.find`: the managed instance for `k`, else a fresh instance
     * loaded from the table and now managed, else absent.
     */
    method Find(k: Key) returns (r: Option<Entity>)
      requires Valid()
      modifies this
      ensures Valid() && rows == old(rows)
      ensures r.Some? <==> k in old(managed) || k in old(rows)
      ensures k in old(managed) ==> r == Some(old(managed[k])) && managed == old(managed)
      ensures k !in old(managed) && k in old(rows) ==>
        r.Some? && fresh(r.value) && r.value.id == k && r.value.fields == rows[k] &&
        managed == old(managed)[k := r.value]
      ensures r.None? ==> managed == old(managed)
    {
      if k in managed {
        r := Some(managed[k]);
      } else if k in rows {
        var e := new Entity(k, rows[k]);
        managed := managed[k := e];
        r := Some(e);
      } else {
        r := None;
      }
    }

    /** `EntityManager.detach`: stop tracking `e`; its row stays. */
    method Detach(e: Entity)
      requires Valid()
      modifies this
      ensures Valid() && rows == old(rows)
      ensures managed == if old(Contains(e)) then old(managed) - {e.id} else old(managed)
    {
      if Contains(e) {
        managed := managed - {e.id};
      }
    }

    /**
     * A bulk delete: one statement removing every row that satisfies the WHERE
     * clause; it returns the affected-row count and leaves the managed
     * instances alone.
     */
    method ExecuteDelete(cd: CriteriaDelete) returns (n: nat)
      requires Valid()
      modifies this
      ensures Valid() && managed == old(managed)
      ensures rows.Keys <= old(rows).Keys
      ensures forall k :: k in old(rows) ==>
        (k in rows <==> !SatisfiesAll(Row(k, old(rows)[k]), cd.where))
      ensures forall k :: k in rows ==> rows[k] == old(rows)[k]
      ensures n == |old(rows)| - |rows|
    {
      var kept := map k | k in rows && !SatisfiesAll(Row(k, rows[k]), cd.where) :: rows[k];
      assert kept.Keys <= rows.Keys;
      SubsetCard(kept.Keys, rows.Keys);
      n := |rows| - |kept|;
      rows := kept;
    }
  }
}
