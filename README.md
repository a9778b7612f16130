# Generic DAO over a persistence context — a Dafny model

This project models `AbstractGenericDaoImpl`, the generic data-access base
class of a Hibernate/JPA demo application. Each concrete DAO (for example the
person DAO) is bound to one entity class. It gets create, update, delete,
delete-by-id, read, count, read-all and delete-all from the base class, along
with a search by attribute map and a search by a bean that builds a criteria
predicate. It also gets criteria selects with optional pagination,
unique-result lookups and bulk deletes by criteria. Before an entity is
persisted or merged, every non-static, non-final `String` field holding
a non-null value that is empty after `trim()` is set to null.

The model has these modules:

- `Wrappers` holds `Option`, `Result` and `Outcome`, and the error cases.
  An exception the Java code throws or lets through becomes an `Err` or a
  `Fail`.
- `Entities` describes an entity as its primary key (the attribute `id`)
  and its reflection view: a sequence of the other declared fields. Each field has a name, a String/other kind, the `static`
  and `final` modifiers, and a value. `Entity` is a class, because the DAO
  and the persistence context overwrite those fields in place.
- `Sanitize` holds `String.trim`, the blank-string rule, and its
  properties: it removes every blank string, it changes nothing exactly when
  there is none, and applying it twice is the same as applying it once.
- `KeyOrder` gives the ascending order of primary keys, which is the order
  a table scan returns rows in.
- `Persistence` is a small stand-in for the JPA `EntityManager` the DAO
  delegates to:
  - a table of rows by key, and an identity map of managed instances;
  - `persist`, `merge`, `remove`, `find`, `detach` and `contains`;
  - selects whose WHERE clause is a conjunction of equality predicates;
  - `getSingleResult` and bulk delete.
- `GenericDao` holds the DAO class itself, pagination, the attribute search
  and the unique-result lookups. The DAO is bound to the attribute names of
  its entity type, and every row it stores holds only those attributes.
- `Scenarios` shows end-to-end uses from a caller's side: a created entity
  reads back as itself, and a search by name finds exactly the matching row.

## Model

| member | source | states |
|---|---|---|
| GenericDao.AbstractGenericDao.NullifyEmptyStrings | src/main/java/com/demo/dao/impl/AbstractGenericDaoImpl.java:458-473 | the loop leaves the entity's fields equal to `Sanitized` of the old fields (only participating blank strings become null, everything else and the order are kept), so afterwards no participating field is blank |
| Sanitize.TrimEmptyIffAllTrimmed | src/main/java/com/demo/dao/impl/AbstractGenericDaoImpl.java:465 | `s.trim().isEmpty()` holds exactly when every character of `s` is at most U+0020 |
| Sanitize.TrimStart | src/main/java/com/demo/dao/impl/AbstractGenericDaoImpl.java:465 | the result is a suffix of the input; every character stripped is trimmable; the first character kept is not |
| Sanitize.TrimEnd | src/main/java/com/demo/dao/impl/AbstractGenericDaoImpl.java:465 | the result is a prefix of the input; every character stripped is trimmable; the last character kept is not |
| Sanitize.SanitizedAt | src/main/java/com/demo/dao/impl/AbstractGenericDaoImpl.java:459-468 | field by field: a non-static, non-final String field whose value is a non-null all-blank string becomes null; every other field is unchanged, and so are the name, type and modifiers of every field |
| Sanitize.SanitizedHasNoBlankStrings | src/main/java/com/demo/dao/impl/AbstractGenericDaoImpl.java:462-467 | after the rule, no participating field holds a blank string |
| Sanitize.SanitizedUnchangedIff | src/main/java/com/demo/dao/impl/AbstractGenericDaoImpl.java:462-467 | the rule leaves the fields unchanged if and only if no participating field is blank |
| Sanitize.SanitizeIdempotent | src/main/java/com/demo/dao/impl/AbstractGenericDaoImpl.java:458-473 | sanitising twice gives the same fields as sanitising once |
| GenericDao.AbstractGenericDao.Create | src/main/java/com/demo/dao/impl/AbstractGenericDaoImpl.java:67-76 | an instance of the bound type is sanitised, then persisted. It succeeds exactly when it is already managed or its key is neither stored nor tracked; then its row is stored and it becomes managed. Otherwise the result is `EntityExists` and the context is unchanged |
| GenericDao.AbstractGenericDao.Update | src/main/java/com/demo/dao/impl/AbstractGenericDaoImpl.java:78-91 | an instance of the bound type is sanitised, then merged. The returned instance is the managed one for the key (the existing one, or a fresh one if there was none) and carries the sanitised fields. The stored row is those fields and holds no blank string. Other managed instances keep their fields |
| GenericDao.AbstractGenericDao.Delete | src/main/java/com/demo/dao/impl/AbstractGenericDaoImpl.java:93-104 | a managed instance is removed directly; otherwise its merged copy is removed. Either way the key leaves the table and the identity map, and no other managed instance changes |
| GenericDao.AbstractGenericDao.Read | src/main/java/com/demo/dao/impl/AbstractGenericDaoImpl.java:120-134 | a null key gives `InvalidArgument`. Otherwise the result is present exactly when the key is managed or stored: it is the managed instance if there is one, else a fresh managed instance loaded from the row. The table is unchanged |
| GenericDao.AbstractGenericDao.DeleteById | src/main/java/com/demo/dao/impl/AbstractGenericDaoImpl.java:106-118 | a null key is refused. A stored or managed key is deleted from both the table and the identity map. A missing key gives `NotFound` and changes nothing |
| GenericDao.AbstractGenericDao.Count | src/main/java/com/demo/dao/impl/AbstractGenericDaoImpl.java:136-143 | the count equals the number of rows `ReadAll` returns |
| GenericDao.AbstractGenericDao.ReadAll | src/main/java/com/demo/dao/impl/AbstractGenericDaoImpl.java:145-152 | a select without WHERE clause, offset or limit returns the full table scan |
| GenericDao.AbstractGenericDao.DeleteAll | src/main/java/com/demo/dao/impl/AbstractGenericDaoImpl.java:154-161 | the returned count is the number of rows before; afterwards the count is zero and `ReadAll` is empty; managed instances are untouched |
| GenericDao.AbstractGenericDao.FindAllByAttributes | src/main/java/com/demo/dao/impl/AbstractGenericDaoImpl.java:163-179 | the result is exactly the stored rows that equal the map on every key naming an attribute, in scan order; keys naming no attribute are skipped; a map with no resolvable key returns every row |
| GenericDao.AbstractGenericDao.FindAllByAttributesUnderJpa | src/main/java/com/demo/dao/impl/AbstractGenericDaoImpl.java:163-179 | with `root.get` raising for an undeclared attribute name: the call fails with `InvalidArgument` exactly when some key of the map is not an attribute; otherwise the result is exactly the matching stored rows in scan order |
| GenericDao.PredicatesMatchAttributes | src/main/java/com/demo/dao/impl/AbstractGenericDaoImpl.java:170-176 | the conjunction holding one equality per resolvable key of the map accepts a row if and only if the row matches the map |
| GenericDao.SelectSingleMatch | src/main/java/com/demo/dao/impl/AbstractGenericDaoImpl.java:170-178 | over rows with strictly increasing keys, a map matched by one row only selects exactly that row |
| GenericDao.SearchByKey | src/main/java/com/demo/dao/impl/AbstractGenericDaoImpl.java:170-178 | a search by the key attribute `id` returns the row stored under that key, or nothing if the key is not stored |
| Persistence.HoldsOnKey | src/main/java/com/demo/dao/impl/AbstractGenericDaoImpl.java:172-173 | `cb.equal(root.get("id"), k)` holds on a row exactly when the row's key is `k` |
| GenericDao.SanitizedOfBoundType | src/main/java/com/demo/dao/impl/AbstractGenericDaoImpl.java:458-473 | sanitising keeps every field's name, so an instance of the bound type stays one and the DAO's row invariant survives `create` and `update` |
| GenericDao.AbstractGenericDao.FindAllByBeanCritere | src/main/java/com/demo/dao/impl/AbstractGenericDaoImpl.java:181-188 | the bean's predicate (a conjunction of equalities) is the only WHERE clause; a row is in the result if and only if it is stored and satisfies every conjunct |
| GenericDao.AbstractGenericDao.FindAllByCriteriaQuery | src/main/java/com/demo/dao/impl/AbstractGenericDaoImpl.java:203-212 | every result is a stored row satisfying the WHERE clause; with no applied offset or limit, the result is the whole result list |
| GenericDao.Paginate | src/main/java/com/demo/dao/impl/AbstractGenericDaoImpl.java:203-212 | the page is the run of consecutive results starting at the offset (applied only if non-null and not negative), at most `limit` long (applied only if non-null and positive) |
| GenericDao.PageStart | src/main/java/com/demo/dao/impl/AbstractGenericDaoImpl.java:205-207 | the first result of the page is within the result list |
| GenericDao.PaginateUnbounded | src/main/java/com/demo/dao/impl/AbstractGenericDaoImpl.java:248-250 | without offset and limit the whole result list comes back |
| GenericDao.PaginateIgnoresRejectedBounds | src/main/java/com/demo/dao/impl/AbstractGenericDaoImpl.java:205-210 | a negative offset acts as a null one, and a limit below one acts as a null one |
| GenericDao.AdjacentPages | src/main/java/com/demo/dao/impl/AbstractGenericDaoImpl.java:203-212 | two adjacent pages concatenate to the page that spans both |
| GenericDao.SelectByAttributes | src/main/java/com/demo/dao/impl/AbstractGenericDaoImpl.java:170-178 | a row is selected if and only if it matches the attribute map |
| GenericDao.WhereIsSelectByAttributes | src/main/java/com/demo/dao/impl/AbstractGenericDaoImpl.java:170-178 | a WHERE clause equivalent to the attribute map selects the same rows in the same order |
| GenericDao.UnresolvedAttributesSelectAll | src/main/java/com/demo/dao/impl/AbstractGenericDaoImpl.java:171-176 | when no key resolves to an attribute, the empty conjunction selects every row |
| GenericDao.WhereEmpty | src/main/java/com/demo/dao/impl/AbstractGenericDaoImpl.java:148-151 | a select without WHERE clause returns every row |
| GenericDao.AbstractGenericDao.FindUniqueByCriteriaQuery | src/main/java/com/demo/dao/impl/AbstractGenericDaoImpl.java:259-267 | no match gives null; exactly one match gives that row; several matches give `NonUniqueResult` |
| GenericDao.AbstractGenericDao.FindUniqueGenericTypeByCriteriaQuery | src/main/java/com/demo/dao/impl/AbstractGenericDaoImpl.java:278-285 | as the entity variant, over the projected results |
| GenericDao.AbstractGenericDao.DeleteByCriteria | src/main/java/com/demo/dao/impl/AbstractGenericDaoImpl.java:394-397 | exactly the rows satisfying the WHERE clause are removed, the rest are kept unchanged, the managed instances are untouched, and the count is the number of rows removed |
| GenericDao.AbstractGenericDao.DetachEntity | src/main/java/com/demo/dao/impl/AbstractGenericDaoImpl.java:436-439 | a managed entity stops being tracked; its row stays |
| GenericDao.AbstractGenericDao.constructor | src/main/java/com/demo/dao/impl/AbstractGenericDaoImpl.java:40-56 | the DAO is bound to the given persistence context and to the attributes of its entity type, which include the key attribute |
| Persistence.Context.Persist | src/main/java/com/demo/dao/impl/AbstractGenericDaoImpl.java:71 | a new instance becomes managed and its row is stored; an instance whose key is already taken by another is refused with nothing changed |
| Persistence.Context.Merge | src/main/java/com/demo/dao/impl/AbstractGenericDaoImpl.java:82 | the state is copied onto the managed instance for the key (a fresh one if none), which is stored and returned; other managed instances are unchanged |
| Persistence.Context.Remove | src/main/java/com/demo/dao/impl/AbstractGenericDaoImpl.java:96 | the managed instance's key leaves the table and the identity map |
| Persistence.Context.Find | src/main/java/com/demo/dao/impl/AbstractGenericDaoImpl.java:126 | the managed instance for the key, else a fresh instance loaded from its row and now managed, else absent |
| Persistence.Context.Detach | src/main/java/com/demo/dao/impl/AbstractGenericDaoImpl.java:438 | the instance stops being managed if it was; the table is unchanged |
| Persistence.Context.ExecuteDelete | src/main/java/com/demo/dao/impl/AbstractGenericDaoImpl.java:395-396 | one statement removes every row satisfying the WHERE clause and returns the number removed |
| Persistence.Context.Count | src/main/java/com/demo/dao/impl/AbstractGenericDaoImpl.java:139-142 | the count equals the length of the table scan |
| Persistence.Where | src/main/java/com/demo/dao/impl/AbstractGenericDaoImpl.java:176 | a row is selected if and only if it is in the input and satisfies every conjunct; at most as many rows as the input |
| Persistence.TableScan | src/main/java/com/demo/dao/impl/AbstractGenericDaoImpl.java:145-152 | the scan holds exactly the rows of the table, in ascending key order |
| Persistence.TableScanLength | src/main/java/com/demo/dao/impl/AbstractGenericDaoImpl.java:145-152 | the scan yields one row per stored key |
| Entities.Lookup | src/main/java/com/demo/dao/impl/AbstractGenericDaoImpl.java:172-173 | the value of the first field called `name` among an instance's fields; absent exactly when no field has that name |
| KeyOrder.SortedKeys | src/main/java/com/demo/dao/impl/AbstractGenericDaoImpl.java:145-152 | the keys of the table, each present, in strictly increasing order |
| KeyOrder.SortedKeysLength | src/main/java/com/demo/dao/impl/AbstractGenericDaoImpl.java:145-152 | the sorted key list has one entry per key |
| Scenarios.CreateThenRead | src/main/java/com/demo/dao/impl/AbstractGenericDaoImpl.java:67-134 | an entity with a fresh key is created, then read back by its key: the read returns that same instance, sanitised, and the stored row equals its fields |
| Scenarios.FindBobByName | src/main/java/com/demo/dao/impl/AbstractGenericDaoImpl.java:163-179 | after creating "alice" (key 1) and "bob" (key 2), searching by name "bob" returns exactly bob's row |
| Scenarios.FindAliceById | src/main/java/com/demo/dao/impl/AbstractGenericDaoImpl.java:163-179 | after creating "alice" (key 1) and "bob" (key 2), searching by `id` = 1 returns exactly alice's row |
| Scenarios.UnknownAttributeSearch | src/main/java/com/demo/dao/impl/AbstractGenericDaoImpl.java:163-179 | with one stored person, a search by the undeclared attribute "nickname" returns that person's row when the guard skips unknown keys, as it is meant to, and fails with `InvalidArgument` under JPA's `Path.get` |

## Left out

- The JPA provider: SQL generation, transactions, flushing at commit, the second-level cache and the p6spy statement logging. The persistence context is the stand-in described above. `persist` and `merge` write their row at once, and a select reads the table in ascending key order.
- Query results are modelled as row snapshots (`Row`), not as managed entity instances.
- Bulk delete leaves managed instances as they are, as a JPA bulk statement does. Any later inconsistency between the table and the identity map is not modelled.
- Equality predicates follow SQL: a null on either side never matches, so a map entry with a null value selects nothing.
- Criteria queries are modelled as conjunctions of equality predicates. The `like` predicate of the person DAO's search by name is not part of this model, and neither is any other predicate the criteria builder can make.
- `readAll(Order...)`, `getNamedQuery`, `getNamedUntypedQuery`, `getTypedQuery`, `getTypedQueryWithParams` and `updateByCriteria` are left out: they build queries from JPQL strings or update statements, which this model does not interpret.
- `getCriteriaBuilder`, `getEntityManager`, `setEntityManager`, `getEntityClass` and `setEntityClass` are plain accessors. Injection is the constructor's parameters, and the default constructor's null entity class is not modelled.
- Logging, and rethrowing `DataAccessException` after logging, are left out. Exceptions become `Err`/`Fail` results.
- Reflection failures (`IllegalAccessException` wrapped in `BeanTechnicalException`) are left out: the model's fields are always accessible.
- Java's `int` and `long` results (counts, offsets, limits) are unbounded here. Overflow past 2^31 rows is not modelled.
- GenericDao.AbstractGenericDao.DeleteById: a read that finds nothing hands null to `delete`, where JPA throws an `IllegalArgumentException`. The model reports `NotFound` instead of modelling that exception.
- `String.trim` works on UTF-16 code units. The model works on Dafny characters with the same `<= U+0020` rule.
- The application's entry point is not part of this model, and neither is the person entity: `Person` in `Scenarios` is only a one-field fixture.
- GenericDao.AbstractGenericDao.FindAllByAttributes follows the intent of the `root.get(s) != null` guard and skips keys that name no attribute. Under JPA, `Path.get` raises an `IllegalArgumentException` for such a key instead. That behaviour is modelled separately by `FindAllByAttributesUnderJpa` (see Findings).
- The model assumes that an entity's declared fields are exactly its persisted attributes. There are no inherited (`@MappedSuperclass`) fields, which Java stores but `getDeclaredFields` never visits and so never sanitises. There are no transient fields. Static fields are stored along with the rest, whereas JPA stores no static field.
- The primary key is held in the instance's `id` and is not one of its fields. A predicate on the attribute `id` compares the row's key. The key's Java type (`Integer` in the application) is modelled as an unbounded integer.
- Null entities are not modelled: every `Entity` parameter is non-null. In the source, `create` and `update` fail on null at `o.getClass()`, and `delete` and `detachEntity` fail on null inside the entity manager.
- Generated keys are not modelled: the caller fixes `Entity.id`, and `persist` keys the row on it. In the application the provider assigns the key of a new `Person`.

## Findings

| source | as written | input that shows it | evidently intended | confidence | as-written member | corrected member |
|---|---|---|---|---|---|---|
| src/main/java/com/demo/dao/impl/AbstractGenericDaoImpl.java:172 | `root.get(s) != null` guards each key of the map, but JPA's `Path.get` never returns null: it raises `IllegalArgumentException` for a name the entity does not declare | a map holding the key "nickname" for an entity declaring only "name" | keys that name no attribute are skipped, and the rest are conjoined as equalities | medium, not executed | GenericDao.AbstractGenericDao.FindAllByAttributesUnderJpa, Scenarios.UnknownAttributeSearch | GenericDao.AbstractGenericDao.FindAllByAttributes |
