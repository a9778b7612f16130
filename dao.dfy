/**
 * The generic DAO base class: CRUD operations, attribute and criteria search,
 * pagination and unique-result lookup over one bound entity type, with every
 * entity sanitised before it is persisted or merged.
 */
module GenericDao {
  import opened Wrappers
  import opened Entities
  import opened Sanitize
  import opened KeyOrder
  import opened Persistence

  // ---------------------------------------------------------------------
  // Pagination of a result list
  // ---------------------------------------------------------------------

  /** The offset is passed to `setFirstResult` only when it is non-null and not negative. */
  predicate OffsetApplied(offset: Option<int>)
  {
    offset.Some? && offset.value >= 0
  }

  /** The limit is passed to `setMaxResults` only when it is non-null and positive. */
  predicate LimitApplied(limit: Option<int>)
  {
    limit.Some? && limit.value > 0
  }

  /** The position of the first result a page holds. */
  function PageStart(offset: Option<int>, n: nat): (start: nat)
    ensures start <= n
  {
    if OffsetApplied(offset) then (if offset.value <= n then offset.value else n) else 0
  }

  /**
   * The result list after the offset and the limit that were applied: the
   * run of consecutive results from the page start, at most `limit` long.
   */
  function Paginate<T>(results: seq<T>, offset: Option<int>, limit: Option<int>): (page: seq<T>)
    ensures PageStart(offset, |results|) + |page| <= |results|
    ensures LimitApplied(limit) ==> |page| == Min(limit.value, |results| - PageStart(offset, |results|))
    ensures !LimitApplied(limit) ==> |page| == |results| - PageStart(offset, |results|)
    ensures forall i :: 0 <= i < |page| ==> page[i] == results[PageStart(offset, |results|) + i]
  {
    var rest := results[PageStart(offset, |results|)..];
    if LimitApplied(limit) && limit.value < |rest| then rest[..limit.value] else rest
  }

  function Min(a: int, b: int): int
  {
    if a <= b then a else b
  }

  /** Without an applied offset or limit the whole result list comes back. */
  lemma PaginateUnbounded<T>(results: seq<T>, offset: Option<int>, limit: Option<int>)
    requires !OffsetApplied(offset) && !LimitApplied(limit)
    ensures Paginate(results, offset, limit) == results
  {
    var page := Paginate(results, offset, limit);
    assert |page| == |results|;
    assert forall i :: 0 <= i < |page| ==> page[i] == results[i];
  }

  /** A negative offset behaves like a null one, and a limit below one like a null one. */
  lemma PaginateIgnoresRejectedBounds<T>(results: seq<T>, offset: Option<int>, limit: Option<int>)
    ensures Paginate(results, offset, limit) ==
            Paginate(results, if OffsetApplied(offset) then offset else None,
                              if LimitApplied(limit) then limit else None)
  {
  }

  /** Two adjacent pages together hold the page that spans both. */
  lemma AdjacentPages<T>(results: seq<T>, offset: nat, first: nat, second: nat)
    requires first > 0 && second > 0
    ensures Paginate(results, Some(offset), Some(first)) + Paginate(results, Some(offset + first), Some(second))
         == Paginate(results, Some(offset), Some(first + second))
  {
    var a := Paginate(results, Some(offset), Some(first));
    var b := Paginate(results, Some(offset + first), Some(second));
    var c := Paginate(results, Some(offset), Some(first + second));
    assert |a + b| == |c|;
    forall i | 0 <= i < |c| ensures (a + b)[i] == c[i] {
      if i < |a| {
        assert (a + b)[i] == a[i];
      } else {
        assert (a + b)[i] == b[i - |a|];
      }
    }
  }

  // ---------------------------------------------------------------------
  // Attribute search
  // ---------------------------------------------------------------------

  /** The row equals the map on every key that names an attribute of the entity type. */
  ghost predicate MatchesAttributes(r: Row, attrs: map<string, Value>, resolvable: set<string>)
  {
    forall a :: a in attrs && a in resolvable ==> Holds(Equal(a, attrs[a]), r)
  }

  /** The rows that match the attribute map, in scan order. */
  ghost function SelectByAttributes(rows: seq<Row>, attrs: map<string, Value>, resolvable: set<string>): (r: seq<Row>)
    ensures forall x :: x in r <==> x in rows && MatchesAttributes(x, attrs, resolvable)
  {
    if rows == [] then []
    else (if MatchesAttributes(rows[0], attrs, resolvable) then [rows[0]] else [])
         + SelectByAttributes(rows[1..], attrs, resolvable)
  }

  /** A WHERE clause equivalent to the attribute map selects the same rows in the same order. */
  lemma {:induction false} WhereIsSelectByAttributes(rows: seq<Row>, where: seq<Predicate>,
                                                     attrs: map<string, Value>, resolvable: set<string>)
    requires forall r :: SatisfiesAll(r, where) <==> MatchesAttributes(r, attrs, resolvable)
    ensures Where(rows, where) == SelectByAttributes(rows, attrs, resolvable)
  {
    if rows != [] {
      WhereIsSelectByAttributes(rows[1..], where, attrs, resolvable);
    }
  }

  /** Keys that name no attribute restrict nothing: such a map selects every row. */
  lemma {:induction false} UnresolvedAttributesSelectAll(rows: seq<Row>, attrs: map<string, Value>, resolvable: set<string>)
    requires attrs.Keys !! resolvable
    ensures SelectByAttributes(rows, attrs, resolvable) == rows
  {
    if rows != [] {
      UnresolvedAttributesSelectAll(rows[1..], attrs, resolvable);
    }
  }

  /**
   * A conjunction holding `Equal(a, attrs[a])` for every resolvable key `a`,
   * and nothing else, accepts exactly the rows that match the attribute map.
   */
  lemma PredicatesMatchAttributes(predicates: seq<Predicate>, attrs: map<string, Value>, resolvable: set<string>)
    requires forall p :: p in predicates ==> p.attribute in attrs && p.attribute in resolvable && p.value == attrs[p.attribute]
    requires forall a :: a in attrs && a in resolvable ==> Equal(a, attrs[a]) in predicates
    ensures forall r :: SatisfiesAll(r, predicates) <==> MatchesAttributes(r, attrs, resolvable)
  {
    forall r ensures SatisfiesAll(r, predicates) <==> MatchesAttributes(r, attrs, resolvable) {
      if SatisfiesAll(r, predicates) {
        forall a | a in attrs && a in resolvable ensures Holds(Equal(a, attrs[a]), r) {
          assert Equal(a, attrs[a]) in predicates;
        }
      }
    }
  }

  /** Over rows with strictly increasing keys, a map that only one row matches selects that row alone. */
  lemma {:induction false} SelectSingleMatch(rows: seq<Row>, attrs: map<string, Value>, resolvable: set<string>, x: Row)
    requires forall i, j :: 0 <= i < j < |rows| ==> rows[i].id < rows[j].id
    requires forall y :: y in rows ==> (MatchesAttributes(y, attrs, resolvable) <==> y == x)
    ensures SelectByAttributes(rows, attrs, resolvable) == if x in rows then [x] else []
  {
    if rows != [] {
      SelectSingleMatch(rows[1..], attrs, resolvable, x);
      if rows[0] == x {
        assert forall j :: 0 <= j < |rows[1..]| ==> rows[1..][j].id > x.id;
      }
    }
  }

  /**
   * A search by the primary-key attribute returns the row stored under that
   * key, or nothing when the key is not stored.
   */
  lemma SearchByKey(table: map<Key, seq<Field>>, k: Key, resolvable: set<string>)
    requires KeyAttribute in resolvable
    ensures SelectByAttributes(TableScan(table), map[KeyAttribute := Scalar(k)], resolvable) ==
            if k in table then [Row(k, table[k])] else []
  {
    var attrs := map[KeyAttribute := Scalar(k)];
    var x := Row(k, if k in table then table[k] else []);
    forall y | y in TableScan(table) ensures MatchesAttributes(y, attrs, resolvable) <==> y == x {
      HoldsOnKey(y, k);
    }
    SelectSingleMatch(TableScan(table), attrs, resolvable, x);
  }

  /** An empty WHERE clause selects every row. */
  lemma {:induction false} WhereEmpty(rows: seq<Row>)
    ensures Where(rows, []) == rows
  {
    if rows != [] {
      WhereEmpty(rows[1..]);
    }
  }

  // ---------------------------------------------------------------------
  // Unique results
  // ---------------------------------------------------------------------

  /** The catch of `NoResultException`: no result becomes null, anything else propagates. */
  function AbsentOnNoResult<T>(r: Result<T, Error>): Result<Option<T>, Error>
  {
    match r
    case Ok(v) => Ok(Some(v))
    case Err(NoResult) => Ok(None)
    case Err(e) => Err(e)
  }

  /** Each result projected to the query's selection: how the stand-in evaluates a select clause. */
  function Project<C>(rows: seq<Row>, select: Row -> C): (r: seq<C>)
    ensures |r| == |rows| && forall i :: 0 <= i < |rows| ==> r[i] == select(rows[i])
  {
    seq(|rows|, i requires 0 <= i < |rows| => select(rows[i]))
  }

  // ---------------------------------------------------------------------
  // The DAO
  // ---------------------------------------------------------------------

  /**
   * The fields of an instance of the bound entity type: each is a declared
   * attribute other than the key, which the instance carries as its id.
   */
  predicate OfBoundType(fields: seq<Field>, attributes: set<string>)
  {
    forall i :: 0 <= i < |fields| ==> fields[i].name in attributes && fields[i].name != KeyAttribute
  }

  /** Sanitisation keeps an instance of the bound type one. */
  lemma SanitizedOfBoundType(fields: seq<Field>, attributes: set<string>)
    requires OfBoundType(fields, attributes)
    ensures OfBoundType(Sanitized(fields), attributes)
  {
    forall i | 0 <= i < |fields|
      ensures Sanitized(fields)[i].name in attributes && Sanitized(fields)[i].name != KeyAttribute
    {
      SanitizedAt(fields, i);
    }
  }

  class AbstractGenericDao {
    /** The injected persistence context. */
    const em: Context
    /** The attribute names of the bound entity type: the names `root.get` resolves. */
    const attributes: set<string>

    /**
     * The context is consistent, the key is an attribute of the bound type,
     * and every stored row holds only fields of the bound type.
     */
    ghost predicate Valid()
      reads em
    {
      && em.Valid()
      && KeyAttribute in attributes
      && forall k :: k in em.rows ==> OfBoundType(em.rows[k], attributes)
    }

    constructor (em: Context, attributes: set<string>)
      requires em.Valid() && KeyAttribute in attributes
      requires forall k :: k in em.rows ==> OfBoundType(em.rows[k], attributes)
      ensures this.em == em && this.attributes == attributes && Valid()
    {
      this.em := em;
      this.attributes := attributes;
    }

    /** Blank-string sanitisation of one entity, field by field, in place. */
    static method NullifyEmptyStrings(o: Entity)
      modifies o
      ensures o.fields == Sanitized(old(o.fields))
      ensures NoBlankStrings(o.fields)
    {
      ghost var declared := o.fields;
      var i := 0;
      while i < |o.fields|
        invariant 0 <= i <= |o.fields| == |declared|
        invariant o.fields[..i] == Sanitized(declared)[..i]
        invariant forall j :: i <= j < |declared| ==> o.fields[j] == declared[j]
      {
        var f := o.fields[i];
        if Participates(f) {
          var value := f.value;
          if IsBlank(value) {
            o.fields := o.fields[i := f.(value := Null)];
          }
        }
        assert o.fields[i] == Sanitized(declared)[i];
        i := i + 1;
      }
      assert o.fields == o.fields[..i];
      SanitizedHasNoBlankStrings(declared);
    }

    /** Sanitise, then persist: a new instance becomes managed and its row is stored. */
    method Create(newInstance: Entity) returns (r: Outcome<Error>)
      requires Valid() && OfBoundType(newInstance.fields, attributes)
      modifies newInstance, em
      ensures Valid()
      ensures newInstance.fields == Sanitized(old(newInstance.fields))
      ensures NoBlankStrings(newInstance.fields)
      ensures r.Pass? <==> old(em.Contains(newInstance)) ||
                           (newInstance.id !in old(em.rows) && newInstance.id !in old(em.managed))
      ensures r.Pass? ==> em.rows == old(em.rows)[newInstance.id := newInstance.fields] &&
                          em.managed == old(em.managed)[newInstance.id := newInstance]
      ensures r.Fail? ==> r.error == EntityExists && em.rows == old(em.rows) && em.managed == old(em.managed)
    {
      SanitizedOfBoundType(newInstance.fields, attributes);
      NullifyEmptyStrings(newInstance);
      r := em.Persist(newInstance);
    }

    /** Sanitise, then merge: the returned managed instance carries the sanitised state. */
    method Update(transientObject: Entity) returns (managedInstance: Entity)
      requires Valid() && OfBoundType(transientObject.fields, attributes)
      modifies transientObject, em, em.managed.Values
      ensures Valid()
      ensures transientObject.fields == Sanitized(old(transientObject.fields))
      ensures managedInstance.id == transientObject.id && em.Contains(managedInstance)
      ensures managedInstance.fields == transientObject.fields
      ensures em.rows == old(em.rows)[transientObject.id := transientObject.fields]
      ensures NoBlankStrings(em.rows[transientObject.id])
      ensures em.managed == old(em.managed)[transientObject.id := managedInstance]
      ensures transientObject.id in old(em.managed) ==> managedInstance == old(em.managed[transientObject.id])
      ensures transientObject.id !in old(em.managed) ==> fresh(managedInstance)
      ensures forall x :: x in old(em.managed.Values) && x != managedInstance && x != transientObject ==>
        x.fields == old(x.fields)
    {
      SanitizedOfBoundType(transientObject.fields, attributes);
      NullifyEmptyStrings(transientObject);
      managedInstance := em.Merge(transientObject);
    }

    /**
     * Remove the instance itself if the context tracks it, otherwise the
     * managed copy merging it yields; either way its key leaves the table.
     */
    method Delete(persistentObject: Entity)
      requires Valid()
      modifies em, em.managed.Values
      ensures Valid()
      ensures em.rows == old(em.rows) - {persistentObject.id}
      ensures em.managed == old(em.managed) - {persistentObject.id}
      ensures persistentObject.fields == old(persistentObject.fields)
      ensures persistentObject.id in old(em.managed) ==>
        old(em.managed[persistentObject.id]).fields == persistentObject.fields
      ensures forall x :: x in old(em.managed.Values) && x.id != persistentObject.id ==>
        x.fields == old(x.fields)
    {
      var target: Entity;
      if em.Contains(persistentObject) {
        target := persistentObject;
      } else {
        target := em.Merge(persistentObject);
      }
      em.Remove(target);
    }

    /** A null key is refused; otherwise the managed instance for the key, loaded if need be, or null. */
    method Read(id: Option<Key>) returns (r: Result<Option<Entity>, Error>)
      requires Valid()
      modifies em
      ensures Valid() && em.rows == old(em.rows)
      ensures id.None? ==> r == Err(InvalidArgument) && em.managed == old(em.managed)
      ensures id.Some? ==> r.Ok? && (r.value.Some? <==> id.value in old(em.rows) || id.value in old(em.managed))
      ensures id.Some? && id.value in old(em.managed) ==>
        r == Ok(Some(old(em.managed[id.value]))) && em.managed == old(em.managed)
      ensures id.Some? && id.value !in old(em.managed) && id.value in old(em.rows) ==>
        r.Ok? && r.value.Some? && fresh(r.value.value) && r.value.value.id == id.value &&
        r.value.value.fields == em.rows[id.value] && em.managed == old(em.managed)[id.value := r.value.value]
      ensures r.Ok? && r.value.None? ==> em.managed == old(em.managed)
    {
      if id.None? {
        return Err(InvalidArgument);
      }
      var found := em.Find(id.value);
      r := Ok(found);
    }

    /** Read by key, then delete what was read; a null key is refused and a missing entity reported. */
    method DeleteById(id: Option<Key>) returns (r: Outcome<Error>)
      requires Valid()
      modifies em, em.managed.Values
      ensures Valid()
      ensures id.None? ==> r == Fail(InvalidArgument) && em.rows == old(em.rows) && em.managed == old(em.managed)
      ensures id.Some? && (id.value in old(em.rows) || id.value in old(em.managed)) ==>
        r == Pass && em.rows == old(em.rows) - {id.value} && em.managed == old(em.managed) - {id.value}
      ensures id.Some? && id.value !in old(em.rows) && id.value !in old(em.managed) ==>
        r == Fail(NotFound) && em.rows == old(em.rows) && em.managed == old(em.managed)
      ensures forall k :: k in old(em.managed) ==> old(em.managed[k]).fields == old(em.managed[k].fields)
    {
      var read := Read(id);
      match read {
        case Err(e) =>
          r := Fail(e);
        case Ok(None) =>
          r := Fail(NotFound);
        case Ok(Some(obj)) =>
          assert obj.id == id.value && em.Contains(obj);
          ghost var before := em.managed;
          Delete(obj);
          r := Pass;
          forall k | k in old(em.managed) ensures old(em.managed[k]).fields == old(em.managed[k].fields) {
            assert k in before && before[k] in before.Values;
          }
      }
    }

    /** The number of stored entities: the length of `ReadAll()`. */
    function Count(): (n: nat)
      reads em
      ensures n == |ReadAll()|
    {
      em.Count()
    }

    /** Every stored entity: the select without WHERE clause, offset or limit. */
    function ReadAll(): (r: seq<Row>)
      reads em
      ensures r == em.Scan()
    {
      WhereEmpty(em.Scan());
      PaginateUnbounded(em.Scan(), None, None);
      FindAllByCriteriaQuery(CriteriaQuery([]), None, None)
    }

    /** A criteria select, with the offset and the limit applied as the pagination rule says. */
    function FindAllByCriteriaQuery(cq: CriteriaQuery, offset: Option<int>, limit: Option<int>): (r: seq<Row>)
      reads em
      ensures !OffsetApplied(offset) && !LimitApplied(limit) ==> r == em.Execute(cq)
      ensures forall x :: x in r ==> x in em.Scan() && SatisfiesAll(x, cq.where)
    {
      var results := em.Execute(cq);
      assert !OffsetApplied(offset) && !LimitApplied(limit) ==> Paginate(results, offset, limit) == results by {
        if !OffsetApplied(offset) && !LimitApplied(limit) {
          PaginateUnbounded(results, offset, limit);
        }
      }
      Paginate(results, offset, limit)
    }

    /** The select whose WHERE clause is the conjunction a search bean builds. */
    function FindAllByBeanCritere(example: seq<Predicate>): (r: seq<Row>)
      reads em
      ensures r == em.Execute(CriteriaQuery(example))
      ensures forall x :: x in r <==> x in em.Scan() && SatisfiesAll(x, example)
    {
      FindAllByCriteriaQuery(CriteriaQuery(example), None, None)
    }

    /**
     * One equality predicate per map key that resolves to an attribute, all
     * of them conjoined; keys that resolve to nothing are skipped.
     */
    method FindAllByAttributes(attrs: map<string, Value>) returns (result: seq<Row>)
      requires Valid()
      ensures result == SelectByAttributes(ReadAll(), attrs, attributes)
      ensures forall x :: x in result <==> x in ReadAll() && MatchesAttributes(x, attrs, attributes)
      ensures attrs.Keys !! attributes ==> result == ReadAll()
    {
      var remaining := attrs.Keys;
      var predicates: seq<Predicate> := [];
      while remaining != {}
        invariant remaining <= attrs.Keys
        invariant forall p :: p in predicates ==>
          p.attribute in attrs && p.attribute in attributes && p.attribute !in remaining && p.value == attrs[p.attribute]
        invariant forall a :: a in attrs && a in attributes && a !in remaining ==> Equal(a, attrs[a]) in predicates
        decreases |remaining|
      {
        // PickOne is the witness that lets the `:|` below pick a key.
        ghost var some := PickOne(remaining);
        var s :| s in remaining;
        if s in attributes {
          predicates := predicates + [Equal(s, attrs[s])];
        }
        remaining := remaining - {s};
      }
      result := FindAllByCriteriaQuery(CriteriaQuery(predicates), None, None);
      PredicatesMatchAttributes(predicates, attrs, attributes);
      WhereIsSelectByAttributes(em.Scan(), predicates, attrs, attributes);
      if attrs.Keys !! attributes {
        UnresolvedAttributesSelectAll(em.Scan(), attrs, attributes);
      }
    }

    /**
     * `findAllByAttributes` under the JPA contract of `Path.get`: an attribute
     * name the entity does not declare raises `IllegalArgumentException`
     * instead of returning null, so the `!= null` guard never skips a key.
     */
    method FindAllByAttributesUnderJpa(attrs: map<string, Value>) returns (r: Result<seq<Row>, Error>)
      requires Valid()
      ensures r.Err? <==> !(attrs.Keys <= attributes)
      ensures r.Err? ==> r.error == InvalidArgument
      ensures r.Ok? ==> r.value == SelectByAttributes(ReadAll(), attrs, attributes)
    {
      var remaining := attrs.Keys;
      var predicates: seq<Predicate> := [];
      while remaining != {}
        invariant remaining <= attrs.Keys
        invariant attrs.Keys - remaining <= attributes
        invariant forall p :: p in predicates ==>
          p.attribute in attrs && p.attribute in attributes && p.attribute !in remaining && p.value == attrs[p.attribute]
        invariant forall a :: a in attrs && a in attributes && a !in remaining ==> Equal(a, attrs[a]) in predicates
        decreases |remaining|
      {
        // PickOne is the witness that lets the `:|` below pick a key.
        ghost var some := PickOne(remaining);
        var s :| s in remaining;
        if s !in attributes {
          return Err(InvalidArgument);
        }
        predicates := predicates + [Equal(s, attrs[s])];
        remaining := remaining - {s};
      }
      var result := FindAllByCriteriaQuery(CriteriaQuery(predicates), None, None);
      PredicatesMatchAttributes(predicates, attrs, attributes);
      WhereIsSelectByAttributes(em.Scan(), predicates, attrs, attributes);
      r := Ok(result);
    }

    /** The one matching row, or null when there is none; several matching rows are an error. */
    function FindUniqueByCriteriaQuery(cq: CriteriaQuery): (r: Result<Option<Row>, Error>)
      reads em
      ensures r == Ok(None) <==> em.Execute(cq) == []
      ensures r.Ok? && r.value.Some? <==> |em.Execute(cq)| == 1
      ensures r.Ok? && r.value.Some? ==> r.value.value == em.Execute(cq)[0]
      ensures r.Err? <==> |em.Execute(cq)| > 1
      ensures r.Err? ==> r.error == NonUniqueResult
    {
      AbsentOnNoResult(SingleResult(em.Execute(cq)))
    }

    /** As `FindUniqueByCriteriaQuery`, for a query selecting `select(row)` of each matching row. */
    function FindUniqueGenericTypeByCriteriaQuery<C>(cq: CriteriaQuery, select: Row -> C): (r: Result<Option<C>, Error>)
      reads em
      ensures r == Ok(None) <==> em.Execute(cq) == []
      ensures r.Ok? && r.value.Some? <==> |em.Execute(cq)| == 1
      ensures r.Ok? && r.value.Some? ==> r.value.value == select(em.Execute(cq)[0])
      ensures r.Err? <==> |em.Execute(cq)| > 1
      ensures r.Err? ==> r.error == NonUniqueResult
    {
      AbsentOnNoResult(SingleResult(Project(em.Execute(cq), select)))
    }

    /** A bulk delete statement; returns the number of rows it removed. */
    method DeleteByCriteria(cd: CriteriaDelete) returns (n: nat)
      requires Valid()
      modifies em
      ensures Valid() && em.managed == old(em.managed)
      ensures forall k :: k in old(em.rows) ==>
        (k in em.rows <==> !SatisfiesAll(Row(k, old(em.rows)[k]), cd.where))
      ensures forall k :: k in em.rows ==> k in old(em.rows) && em.rows[k] == old(em.rows)[k]
      ensures n == |old(em.rows)| - |em.rows|
    {
      n := em.ExecuteDelete(cd);
    }

    /** Delete every stored entity in one statement; returns how many there were. */
    method DeleteAll() returns (n: nat)
      requires Valid()
      modifies em
      ensures Valid() && em.managed == old(em.managed)
      ensures n == old(Count()) && Count() == 0 && ReadAll() == []
    {
      n := DeleteByCriteria(CriteriaDelete([]));
      assert em.rows.Keys == {} by {
        forall k | k in em.rows ensures false {
          assert k in old(em.rows) && SatisfiesAll(Row(k, old(em.rows)[k]), []);
        }
      }
    }

    /** Stop tracking the entity; its row stays. */
    method DetachEntity(entity: Entity)
      requires Valid()
      modifies em
      ensures Valid() && em.rows == old(em.rows)
      ensures em.managed == if old(em.Contains(entity)) then old(em.managed) - {entity.id} else old(em.managed)
    {
      em.Detach(entity);
    }
  }
}
