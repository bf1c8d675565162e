# SupportApp repository layer, modelled in Dafny

This project models SupportApp's generic data-access repository, `EntityRepository<T>`, and the
`UserService` built on it.

The Entity Framework `DbContext` under the repository becomes an in-memory store held in four
fields of the class `Repository.EntityRepository<D>`:

- `rows`: the committed table, in row order. Ids are unique because `Id` is the primary key.
- `added`: entities staged by `DbSet.Add`, in the order they were added.
- `modified`: entity values staged for update, keyed by id (`_context.Entry`).
- `removed`: ids staged by `DbSet.Remove`.

`Save` (`SaveChanges`) commits the staging:

- the staged additions are appended to the table;
- every row whose id is in `removed` is dropped;
- every row with a staged modification takes the modified values.

This is `Store.Commit`. The reads (`Get`, `GetFirstOrDefault`, `GetById`, `GetAll`, `GetCount`)
see only committed rows.

Other modelling choices:

- An entity is the value `Domain.Entity<D>`: an id, optional audit fields, and the entity's own
  data `D`.
- `AuditableEntity` is an entity whose audit fields are present.
- `User` is `Entity<Person>` restricted to non-auditable values, because `User` derives from
  `BaseEntity` only.
- A nullable argument is an `Option`.
- `ArgumentNullException(paramName)` is a returned `Outcome`. It is raised before the store
  changes, and the parameter names match the C# `nameof`.
- An EF predicate `Expression<Func<T, bool>>` becomes a Dafny function `Entity<D> -> bool`.
- `DateTime.Now` is the parameter `now`.
- `Guid.NewGuid()` producing a fresh id becomes the precondition `IsFreshId`. The id may be in
  neither the table, the staged additions, `modified` nor `removed`.
- The C# code mutates an auditable entity in place before staging it. The model returns the
  stamped value instead (`Insert` returns `stamped`, `DeleteRange` returns `stamped`).

Four behaviours of the code are easy to misread; the model follows the code:

- `GetByIds` does not drop duplicate ids. A repeated input id yields the entity twice
  (`Repository.ByIdsRepeats`).
- `Insert(IList<T>)` goes through `BulkInsertEntities`, which calls `DbSet.Add` directly rather
  than `Insert(T)`. Entities inserted in bulk are therefore not stamped with `Created` or
  `CreatedBy`.
- `GetFirstOrDefault` with no filter raises rather than returning the first row (see Findings).
- `Update` calls only `_context.Entry(entity)`, which stamps nothing. What EF then saves is the
  tracked object's current values, found by change detection at `SaveChanges`. On values, the
  model stages those values in `modified` when `Update` is called. This assumes the passed
  entity is the instance the context tracks (see "Left out").
  - The audit branch of `Delete(IList<T>)` is modelled the same way, followed by its per-entity
    `SaveChanges`.

## Model

| member | source | states |
|---|---|---|
| Domain.StampCreated | SupportApp.DAL/Repository/EntityRepository.cs:136-140 | an auditable entity gets Created = now and CreatedBy = its own id, keeping id, data and last-modified fields; a non-auditable entity is unchanged |
| Domain.StampModified | SupportApp.DAL/Repository/EntityRepository.cs:181-184 | an auditable entity gets LastModified = now and LastModifiedBy = its own id, keeping id, data and created fields; a non-auditable entity is unchanged |
| Store.Commit | SupportApp.DAL/Repository/EntityRepository.cs:226-229 | `SaveChanges` over the table followed by the staged additions: when staged values keep their keys, no surviving row carries an id staged for removal, and there are never more rows than before; which ids survive, in order, is CommitIds, and that survivors take their staged values is CommitContains |
| Store.FindById | SupportApp.DAL/Repository/EntityRepository.cs:115-118 | finds nothing exactly when no row has the id; what it finds is a row with that id |
| Store.FindByIdUnique | SupportApp.DAL/Repository/EntityRepository.cs:115-118 | with unique ids, looking up any stored row's id finds that very row |
| Store.FindByIdEveryRow | SupportApp.DAL/Repository/EntityRepository.cs:124-127 | with unique ids, every row is what a lookup of its id returns |
| Store.Filter | SupportApp.DAL/Repository/EntityRepository.cs:67-68 | `Where`: every row satisfying the predicate is kept and every kept row is one of the input's satisfying it, no more rows than the input; that no row is repeated is FilterCountsOnce |
| Store.FilterCountsOnce | SupportApp.DAL/Repository/EntityRepository.cs:67-68 | filtering repeats no row: each occurs in the result at most as often as in the input |
| Store.FirstMatch | SupportApp.DAL/Repository/EntityRepository.cs:107 | `FirstOrDefault(p)`: none exactly when nothing matches, else the first match in row order |
| Store.FindByIdFilter | SupportApp.DAL/Repository/EntityRepository.cs:272-278 | searching the id-filtered entries for an id in the list finds the same entity as searching the whole table |
| Store.FilterIds | SupportApp.DAL/Repository/EntityRepository.cs:205-206 | the ids of the filtered rows are exactly the ids of the stored rows that satisfy the predicate |
| Store.DistinctCardinality | SupportApp.DAL/Repository/EntityRepository.cs:254-257 | a list of unique ids is as long as the set of its ids |
| Store.CommitIds | SupportApp.DAL/Repository/EntityRepository.cs:226-229 | after SaveChanges the table's ids are the previous ids, in order, minus those staged for removal |
| Store.CommitUnique | SupportApp.DAL/Repository/EntityRepository.cs:226-229 | SaveChanges keeps the primary key unique |
| Store.CommitNothing | SupportApp.DAL/Repository/EntityRepository.cs:226-229 | SaveChanges with nothing staged leaves the table unchanged |
| Store.CommitAppend | SupportApp.DAL/Repository/EntityRepository.cs:226-229 | committing a table split in two is committing each part |
| Store.CommitNewRow | SupportApp.DAL/Repository/EntityRepository.cs:141 | a staged addition with no staged removal or modification is committed as the table's new last row |
| Store.CommitModifiedRow | SupportApp.DAL/Repository/EntityRepository.cs:219 | a stored row with a staged modification reads back as the modified value after SaveChanges |
| Store.CommitRemovesId | SupportApp.DAL/Repository/EntityRepository.cs:34 | an id staged for removal is not found after SaveChanges |
| Store.CommitAgreesAt | SupportApp.DAL/Repository/EntityRepository.cs:226-229 | two sets of staged modifications that agree at an id leave the same row with that id after SaveChanges |
| Store.CommitContains | SupportApp.DAL/Repository/EntityRepository.cs:226-229 | a row not staged for removal survives SaveChanges with its current values |
| Store.CommitTwice | SupportApp.DAL/Repository/EntityRepository.cs:179-188 | committing and then committing only further modifications equals one commit of all the modifications |
| Store.SavedThenNewRows | SupportApp.DAL/Repository/EntityRepository.cs:44-48 | rows with fresh ids appended after a commit keep the primary key unique |
| Store.BatchFound | SupportApp.DAL/Repository/EntityRepository.cs:44-48 | after appending a batch to a table with unique ids, each batch member is what its id looks up |
| Repository.ByIds | SupportApp.DAL/Repository/EntityRepository.cs:275-283 | the result of the sorting loop: no longer than the id list, and made of stored entities whose ids are in the list |
| Repository.StoredIds | SupportApp.DAL/Repository/EntityRepository.cs:276-280 | the listed ids that some stored entity has |
| Repository.ByIdsFollowsIds | SupportApp.DAL/Repository/EntityRepository.cs:272-283 | the j-th entry is the stored entity for the j-th listed id that has one: matches follow the order of the input ids, unmatched ids contribute nothing |
| Repository.ByIdsComplete | SupportApp.DAL/Repository/EntityRepository.cs:276-281 | every listed id that is stored contributes its entity |
| Repository.ByIdsRepeats | SupportApp.DAL/Repository/EntityRepository.cs:276-281 | a duplicated input id yields its entity twice; the loop does not de-duplicate |
| Repository.ByIdsSkipsMissing | SupportApp.DAL/Repository/EntityRepository.cs:278-280 | an id with no stored entity adds nothing |
| Repository.AnyAuditable | SupportApp.DAL/Repository/EntityRepository.cs:177 | `OfType<AuditableEntity>().Any()`: some member is auditable; AnyAuditableKeepsSome ties it to OfType and Any |
| Repository.AnyAuditableKeepsSome | SupportApp.DAL/Repository/EntityRepository.cs:177 | some member is auditable exactly when keeping only the auditable members (`OfType`) leaves a non-empty list (`Any`) |
| Repository.StampedUpdates | SupportApp.DAL/Repository/EntityRepository.cs:179-188 | the stamped values Delete(IList) commits, each under its own id |
| Repository.StampedUpdatesStamped | SupportApp.DAL/Repository/EntityRepository.cs:181-185 | every value Delete(IList) commits is auditable, with LastModified = now and LastModifiedBy = its own id |
| Repository.StampedUpdatesAt | SupportApp.DAL/Repository/EntityRepository.cs:181-186 | every auditable list member is committed as its stamped value |
| Repository.NoAuditableNoUpdates | SupportApp.DAL/Repository/EntityRepository.cs:177 | a list with no auditable member has nothing to stamp |
| Repository.StampedUpdatesKeys | SupportApp.DAL/Repository/EntityRepository.cs:181 | only auditable members are stamped: every id Delete(IList) stamps is the id of an auditable member |
| Repository.UnstampedRowAsSaved | SupportApp.DAL/Repository/EntityRepository.cs:179-188 | after the audit branch, a row whose id no auditable member carries reads back as a plain save of the earlier staging would leave it |
| Repository.NonAuditableMemberAsSaved | SupportApp.DAL/Repository/EntityRepository.cs:179-188 | after the audit branch, a non-auditable member's row is untouched: it reads back as a plain save would leave it |
| Repository.AuditedRowStamped | SupportApp.DAL/Repository/EntityRepository.cs:179-188 | after the audit branch, a stored auditable member reads back with LastModified = now and LastModifiedBy = its id |
| Repository.InsertThenSaveFinds | SupportApp.DAL/Repository/EntityRepository.cs:141 | an entity staged by Add with a fresh id is found, unchanged, after SaveChanges |
| Repository.UpdateThenSaveFinds | SupportApp.DAL/Repository/EntityRepository.cs:217-220 | after Update and SaveChanges a stored entity reads back exactly as passed: Update stamps no audit field |
| Repository.NullFilterRaises | SupportApp.DAL/Repository/EntityRepository.cs:100-108 | on a non-empty table, GetFirstOrDefault without a filter raises ArgumentNullException("predicate"), where the intended result is the first row |
| Repository.EntityRepository.constructor | SupportApp.DAL/Repository/EntityRepository.cs:20-23 | a repository over a table with a unique key starts with nothing staged |
| Repository.EntityRepository.Get | SupportApp.DAL/Repository/EntityRepository.cs:60-74 | no filter returns every row; a filter returns every row satisfying it and only such rows, none repeated (the result's multiset is within the table's), no more rows than the table |
| Repository.EntityRepository.GetFirstOrDefault | SupportApp.DAL/Repository/EntityRepository.cs:100-108 | as written: no filter raises ArgumentNullException("predicate"); with a filter, none exactly when Get finds nothing, else Get's first entity |
| Repository.EntityRepository.GetFirstOrDefaultIntended | SupportApp.DAL/Repository/EntityRepository.cs:100-108 | intended: none exactly when Get(filter) is empty, else its first entity, with or without a filter |
| Repository.EntityRepository.GetById | SupportApp.DAL/Repository/EntityRepository.cs:115-118 | finds nothing exactly when no stored row has the id, and otherwise the one row with that id |
| Repository.EntityRepository.GetAll | SupportApp.DAL/Repository/EntityRepository.cs:124-127 | returns every stored entity once: unique ids, each what GetById returns, and an id is in it exactly when GetById finds it |
| Repository.EntityRepository.GetCount | SupportApp.DAL/Repository/EntityRepository.cs:254-257 | equals the length of GetAll and the number of distinct stored ids |
| Repository.EntityRepository.GetByIds | SupportApp.DAL/Repository/EntityRepository.cs:264-284 | a null or empty id list gives the empty list; otherwise the loop builds ByIds of the table and the ids; the store is not changed |
| Repository.EntityRepository.Save | SupportApp.DAL/Repository/EntityRepository.cs:226-229 | the table becomes the commit of the staged changes, nothing stays staged, and the key stays unique |
| Repository.EntityRepository.Insert | SupportApp.DAL/Repository/EntityRepository.cs:134-142 | returns the entity stamped by StampCreated, stages it as the last addition, and commits nothing |
| Repository.EntityRepository.BulkInsertEntities | SupportApp.DAL/Repository/EntityRepository.cs:42-49 | an empty list changes nothing; otherwise the table becomes the previous commit followed by the entities in list order, unstamped, with nothing staged; every listed entity is then found |
| Repository.EntityRepository.AddAndSave | SupportApp.DAL/Repository/EntityRepository.cs:46-47 | one Add followed by SaveChanges: the previous commit with the entity appended |
| Repository.EntityRepository.BatchFitsAfterSave | SupportApp.DAL/Repository/EntityRepository.cs:44-48 | a fresh batch keeps the key unique after the previous commit, and each member is still fresh |
| Repository.EntityRepository.InsertRange | SupportApp.DAL/Repository/EntityRepository.cs:148-154 | a null list raises ArgumentNullException("entities") and changes nothing; otherwise as BulkInsertEntities |
| Repository.EntityRepository.Delete | SupportApp.DAL/Repository/EntityRepository.cs:160-166 | a null entity raises ArgumentNullException("entity") and changes nothing; otherwise exactly that entity's id is staged for removal |
| Repository.EntityRepository.BulkDeleteEntities | SupportApp.DAL/Repository/EntityRepository.cs:31-35 | stages exactly the listed ids for removal and changes nothing else |
| Repository.EntityRepository.DeleteWhere | SupportApp.DAL/Repository/EntityRepository.cs:200-209 | a null predicate raises ArgumentNullException("predicate") and changes nothing; otherwise stages exactly the ids of the stored rows satisfying it |
| Repository.EntityRepository.Update | SupportApp.DAL/Repository/EntityRepository.cs:217-220 | stages the entity's values unchanged, with no audit stamp, and changes nothing else |
| Repository.EntityRepository.DeleteRange | SupportApp.DAL/Repository/EntityRepository.cs:172-194 | a null list raises ArgumentNullException("entities") and changes nothing; with an auditable member nothing is removed and each auditable member is committed stamped, while non-auditable members are untouched; with none, every member is staged for removal and nothing else changes |
| Repository.EntityRepository.StampEachAuditable | SupportApp.DAL/Repository/EntityRepository.cs:179-188 | the stamping loop: each member is returned stamped by StampModified, and the table becomes one commit of all the stamps |
| Repository.EntityRepository.StampAndSave | SupportApp.DAL/Repository/EntityRepository.cs:181-186 | one stamp, Entry and SaveChanges: the entity's stamped values are committed |
| Repository.EntityRepository.CommittedUnique | SupportApp.DAL/Repository/EntityRepository.cs:226-229 | the committed table has a unique key |
| UserServices.GetGender | SupportApp.BLL/Services/UserService.cs:49-66 | exactly two items, "Male" then "Female", text equal to value; an item is selected exactly when the argument equals its value; at most one is selected, and null or any other string selects none; reads no state |
| UserServices.UserService.constructor | SupportApp.BLL/Services/UserService.cs:16-19 | keeps the repository it is given |
| UserServices.UserService.GetUserById | SupportApp.BLL/Services/UserService.cs:26-30 | over a table of users, returns a `User` that is exactly the repository's GetById for the id, none when the id is not stored |
| UserServices.UserService.InsertUser | SupportApp.BLL/Services/UserService.cs:37-42 | returns the given user itself; the table becomes the previous commit followed by the user, unstamped, with nothing left staged, and GetById finds the user; a table of users stays one |

## Left out

- Entity Framework and SQL Server I/O, connection strings, and the change tracker's internals. The
  store is the four fields described above.
- `async`/`Task`: every operation is synchronous.
- `Include` eager loading, the `orderBy` argument of `Get`, and `Query`'s deferred `IQueryable`.
  These are ORM features with no logic of their own here. The model's row order stands in for the
  database's unspecified order.
- `GetAllPaged`: its behaviour lives in `PagedList<T>`, which is not part of this model.
- `Save`'s returned row count, which EF computes.
- Storage failures and key violations. Fresh ids are a precondition, so a failure in the middle
  of the one-commit-per-entity loops cannot happen in the model.
  - The loops still commit one entity at a time, as `StampEachAuditable` and
    `BulkInsertEntities` show.
- EF's refusal to `Remove` an entity the context does not track. The model stages the id.
- `DbSet.Find`'s lookup of entities that are staged but not yet committed. `GetById` sees
  committed rows only.
- `Insert(T)` and `Update(T)` with a null entity. EF raises in `DbSet.Add` and `Entry`, and the C#
  methods do no check of their own. The model's parameter is not nullable.
- Object identity and aliasing. Entities are values, so an in-place stamp appears as a returned
  value, and a caller's later change to a staged object is not modelled.
- `DateTime.Now` and `Guid.NewGuid()`: a parameter and a precondition, as above.
- Null first and last names of `User`: strings are never null here.
- Dependency-injection registration, migrations, and the MVC `SelectListItem` type. The latter is
  a three-field record here.
- Repository.EntityRepository.Update: the model assumes the passed entity is the instance the
  context already tracks. `_context.Entry(entity)` neither attaches a detached entity nor marks it
  modified, so for an entity the context does not track, such as one rebuilt from a form post, the
  next `SaveChanges` writes nothing. Where the model has a stored row with that id, it commits the
  passed values; `Repository.UpdateThenSaveFinds` states this under the same assumption.
- Repository.EntityRepository.DeleteRange: the audit branch rests on the same assumption. For a
  detached auditable member, the code stamps the object and its `SaveChanges` writes nothing,
  where the model commits the stamp (`Repository.AuditedRowStamped`).
- Repository.EntityRepository.DeleteRange: uses one `now` per call, where the code reads
  `DateTime.Now` again for each auditable member, after the previous member's `SaveChanges`.
- Repository.EntityRepository.InsertRange, Repository.EntityRepository.DeleteRange: list members are
  never null in the model. In the code, a null member makes `BulkInsertEntities` raise from
  `DbSet.Add(null)` after committing the members before it, and the non-audit branch of
  `Delete(IList<T>)` raise from `Remove(null)` after staging the earlier removals. The audit branch
  skips null members, because `OfType` and `is` reject them.
- Repository.EntityRepository.GetByIds: the repository reads nothing for a null or empty id list.
  This is not stated, because a Dafny method can state what it changes but not what it reads. The
  contract gives the empty result and an unchanged store.

## Findings

| source | as written | input that shows it | evidently intended | confidence | as-written member | corrected member |
|---|---|---|---|---|---|---|
| SupportApp.DAL/Repository/EntityRepository.cs:100-108 | `filter` defaults to null and is passed straight to `FirstOrDefaultAsync(filter)`, which raises `ArgumentNullException("predicate")` for a null predicate | `GetFirstOrDefault()` with no filter on a table that has rows | a missing filter matches every row, as in `Get` and `Query`, so the first row is returned | medium, not executed | Repository.EntityRepository.GetFirstOrDefault (exhibited by Repository.NullFilterRaises) | Repository.EntityRepository.GetFirstOrDefaultIntended |
