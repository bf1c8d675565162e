/**
 * EntityRepository<T>: the generic repository over one entity type, with the persistence
 * context it wraps held as fields of the repository (committed rows and staged changes).
 */
module Repository {
  import opened Wrappers
  import opened Domain
  import opened Store

  /** The exception the repository raises itself, with the name of the offending parameter. */
  datatype Error = ArgumentNullException(paramName: string)

  /** How a void repository operation ends: it returns, or it raises before changing anything. */
  datatype Outcome = Ok | Thrown(error: Error)

  // ----- Specification of GetByIds -----

  /** The stored entity with the given id, as a list of zero or one entities. */
  function Lookup<D>(rows: seq<Entity<D>>, id: Guid): seq<Entity<D>> {
    match FindById(rows, id)
    case Some(e) => [e]
    case None => []
  }

  /** For each id in turn, the stored entity with that id if there is one. */
  function ByIds<D>(rows: seq<Entity<D>>, ids: seq<Guid>): (r: seq<Entity<D>>)
    ensures |r| <= |ids|
    ensures forall i | 0 <= i < |r| :: r[i] in rows && r[i].id in ids
  {
    if ids == [] then [] else
      var r := ByIds(rows, ids[..|ids| - 1]) + Lookup(rows, ids[|ids| - 1]);
      assert forall x | x in ids[..|ids| - 1] :: x in ids;
      r
  }

  /** The ids of `ids` that some stored entity carries, in input order and with repetitions kept. */
  function StoredIds<D>(rows: seq<Entity<D>>, ids: seq<Guid>): (r: seq<Guid>)
    ensures forall x :: x in r <==> x in ids && x in Ids(rows)
  {
    if ids == [] then [] else
      var prefix := ids[..|ids| - 1];
      var last := ids[|ids| - 1];
      assert ids == prefix + [last];
      StoredIds(rows, prefix) + (if last in Ids(rows) then [last] else [])
  }

  /**
   * GetByIds's ordering contract: the j-th result is the stored entity for the j-th input id
   * that has one, so ids without a stored entity are skipped and repeated ids repeat.
   */
  lemma {:induction false} ByIdsFollowsIds<D>(rows: seq<Entity<D>>, ids: seq<Guid>)
    ensures |ByIds(rows, ids)| == |StoredIds(rows, ids)|
    ensures forall j | 0 <= j < |ByIds(rows, ids)| :: Some(ByIds(rows, ids)[j]) == FindById(rows, StoredIds(rows, ids)[j])
  {
    if ids != [] {
      ByIdsFollowsIds(rows, ids[..|ids| - 1]);
    }
  }

  /** Every stored entity whose id is asked for is in the result. */
  lemma ByIdsComplete<D>(rows: seq<Entity<D>>, ids: seq<Guid>, id: Guid)
    requires id in ids && id in Ids(rows)
    ensures FindById(rows, id).value in ByIds(rows, ids)
  {
    ByIdsFollowsIds(rows, ids);
    var j :| 0 <= j < |StoredIds(rows, ids)| && StoredIds(rows, ids)[j] == id;
    assert Some(ByIds(rows, ids)[j]) == FindById(rows, id);
  }

  /** An id asked for twice yields its entity twice: the lookup does not de-duplicate. */
  lemma ByIdsRepeats<D>(rows: seq<Entity<D>>, ids: seq<Guid>, id: Guid)
    requires id in Ids(rows)
    ensures ByIds(rows, ids + [id, id]) == ByIds(rows, ids) + [FindById(rows, id).value, FindById(rows, id).value]
  {
    var twice := ids + [id, id];
    assert twice[..|twice| - 1] == ids + [id];
    assert (ids + [id])[..|ids + [id]| - 1] == ids;
  }

  /** An id with no stored entity contributes nothing. */
  lemma ByIdsSkipsMissing<D>(rows: seq<Entity<D>>, ids: seq<Guid>, id: Guid)
    requires id !in Ids(rows)
    ensures ByIds(rows, ids + [id]) == ByIds(rows, ids)
  {
    assert (ids + [id])[..|ids + [id]| - 1] == ids;
  }

  // ----- Specification of Delete(IList) -----

  /** `entities.OfType<AuditableEntity>().Any()`: some member is auditable. */
  predicate AnyAuditable<D>(s: seq<Entity<D>>) {
    exists i | 0 <= i < |s| :: s[i].IsAuditable()
  }

  /** AnyAuditable is `OfType` followed by `Any`: keeping only the auditable members leaves some. */
  lemma AnyAuditableKeepsSome<D>(s: seq<Entity<D>>)
    ensures AnyAuditable(s) <==> Filter(s, (e: Entity<D>) => e.IsAuditable()) != []
  {
    var kept := Filter(s, (e: Entity<D>) => e.IsAuditable());
    assert kept != [] ==> kept[0] in s && kept[0].IsAuditable();
  }

  /** The stamped values Delete(IList) commits, one per auditable member, keyed by id; later members win. */
  function StampedUpdates<D>(s: seq<Entity<D>>, now: DateTime): (r: map<Guid, Entity<D>>)
    ensures KeysMatch(r)
  {
    if s == [] then map[] else
      var last := s[|s| - 1];
      var p := StampedUpdates(s[..|s| - 1], now);
      if last.IsAuditable() then p[last.id := StampModified(last, now)] else p
  }

  /** Every committed stamp says: modified now, by the entity itself. */
  lemma {:induction false} StampedUpdatesStamped<D>(s: seq<Entity<D>>, now: DateTime)
    ensures forall k | k in StampedUpdates(s, now) ::
      && StampedUpdates(s, now)[k].IsAuditable()
      && StampedUpdates(s, now)[k].audit.value.lastModified == Some(now)
      && StampedUpdates(s, now)[k].audit.value.lastModifiedBy == Some(k)
  {
    if s != [] {
      StampedUpdatesStamped(s[..|s| - 1], now);
    }
  }

  /** With unique ids, an auditable member's committed value is that member, stamped. */
  lemma {:induction false} StampedUpdatesAt<D>(s: seq<Entity<D>>, now: DateTime, i: nat)
    requires UniqueIds(s) && i < |s| && s[i].IsAuditable()
    ensures s[i].id in StampedUpdates(s, now)
    ensures StampedUpdates(s, now)[s[i].id] == StampModified(s[i], now)
  {
    var prefix := s[..|s| - 1];
    if i < |s| - 1 {
      UniquePrefix(s, |s| - 1);
      assert prefix[i] == s[i];
      StampedUpdatesAt(prefix, now, i);
      DistinctAt(Ids(s), i, |s| - 1);
    }
  }

  /** No auditable member, no stamped value. */
  lemma {:induction false} NoAuditableNoUpdates<D>(s: seq<Entity<D>>, now: DateTime)
    requires !AnyAuditable(s)
    ensures StampedUpdates(s, now) == map[]
  {
    if s != [] {
      var prefix := s[..|s| - 1];
      assert !AnyAuditable(prefix) by {
        forall j | 0 <= j < |prefix| ensures !prefix[j].IsAuditable() {
          assert prefix[j] == s[j];
        }
      }
      NoAuditableNoUpdates(prefix, now);
      assert !s[|s| - 1].IsAuditable();
    }
  }

  /** The prefix facts the loop of Delete(IList) needs at each step. */
  lemma StepPrefix<D>(s: seq<Entity<D>>, i: nat, now: DateTime)
    requires i < |s|
    ensures s[..i + 1] == s[..i] + [s[i]]
    ensures AnyAuditable(s[..i + 1]) <==> AnyAuditable(s[..i]) || s[i].IsAuditable()
    ensures StampedUpdates(s[..i + 1], now)
         == if s[i].IsAuditable() then StampedUpdates(s[..i], now)[s[i].id := StampModified(s[i], now)]
            else StampedUpdates(s[..i], now)
  {
    assert s[..i + 1] == s[..i] + [s[i]];
    assert s[..i + 1][..i] == s[..i];
    if AnyAuditable(s[..i + 1]) {
      var j :| 0 <= j < i + 1 && s[..i + 1][j].IsAuditable();
      if j < i { assert s[..i][j] == s[j]; }
    }
    if AnyAuditable(s[..i]) {
      var j :| 0 <= j < i && s[..i][j].IsAuditable();
      assert s[..i + 1][j] == s[j];
    }
    if s[i].IsAuditable() {
      assert s[..i + 1][i] == s[i];
    }
  }

  /**
   * The repository, with the context's table for T as its state: `rows` are committed, and
   * `added`, `modified` and `removed` are the changes staged on the context for the next save.
   */
  class EntityRepository<D> {
    /** The committed rows of the table, in row order. */
    var rows: seq<Entity<D>>
    /** Entities staged with `DbSet.Add`, in order. */
    var added: seq<Entity<D>>
    /** Values recorded with `DbContext.Entry`, keyed by id. */
    var modified: map<Guid, Entity<D>>
    /** Ids staged with `DbSet.Remove`. */
    var removed: set<Guid>

    /** The primary key is unique over committed and staged rows; staged values keep their key. */
    ghost predicate Valid()
      reads this
    {
      UniqueIds(rows + added) && KeysMatch(modified)
    }

    /** An id as `Guid.NewGuid` yields it: unknown to the table and to every staged change. */
    ghost predicate IsFreshId(id: Guid)
      reads this
    {
      id !in Ids(rows + added) && id !in removed && id !in modified
    }

    /** A batch of new entities: distinct ids, all fresh. */
    ghost predicate IsFreshBatch(entities: seq<Entity<D>>)
      reads this
    {
      UniqueIds(entities) && forall i | 0 <= i < |entities| :: IsFreshId(entities[i].id)
    }

    /** The rows a save would leave. */
    ghost function Saved(): seq<Entity<D>>
      reads this
    {
      Commit(rows + added, modified, removed)
    }

    /** A repository over a context whose table holds `table` and which has nothing staged. */
    constructor (table: seq<Entity<D>>)
      requires UniqueIds(table)
      ensures Valid()
      ensures rows == table && added == [] && modified == map[] && removed == {}
    {
      rows, added, modified, removed := table, [], map[], {};
      assert table + [] == table;
    }

    // ----- Reads of the committed table -----

    /** `Get(filter)`: the rows satisfying the filter (all rows when it is null), in row order. */
    function Get(filter: Option<Entity<D> -> bool>): (r: seq<Entity<D>>)
      reads this
      ensures |r| <= |rows|
      ensures multiset(r) <= multiset(rows)
      ensures forall i | 0 <= i < |r| :: r[i] in rows && (filter.Some? ==> filter.value(r[i]))
      ensures forall i | 0 <= i < |rows| && (filter.None? || filter.value(rows[i])) :: rows[i] in r
    {
      match filter
      case None => rows
      case Some(p) => FilterCountsOnce(rows, p); Filter(rows, p)
    }

    /**
     * `GetFirstOrDefault(filter)`: the first row of `Get(filter)`, or null. With a null filter
     * the call raises, since Entity Framework's FirstOrDefaultAsync rejects a null predicate.
     */
    function GetFirstOrDefault(filter: Option<Entity<D> -> bool>): (r: Result<Option<Entity<D>>, Error>)
      reads this
      ensures filter.None? ==> r == Failure(ArgumentNullException("predicate"))
      ensures filter.Some? ==> r.Success?
      ensures filter.Some? ==> (r.value.None? <==> Get(filter) == [])
      ensures filter.Some? && r.value.Some? ==> r.value.value == Get(filter)[0]
    {
      match filter
      case None => Failure(ArgumentNullException("predicate"))
      case Some(p) => Success(FirstMatch(rows, p))
    }

    /** GetFirstOrDefault as its optional filter intends: a null filter matches every row. */
    function GetFirstOrDefaultIntended(filter: Option<Entity<D> -> bool>): (r: Option<Entity<D>>)
      reads this
      ensures r.None? <==> Get(filter) == []
      ensures r.Some? ==> r.value == Get(filter)[0]
    {
      match filter
      case None => if rows == [] then None else Some(rows[0])
      case Some(p) => FirstMatch(rows, p)
    }

    /** `GetById(id)`: the row with that id, or null when there is none. */
    function GetById(id: Guid): (r: Option<Entity<D>>)
      reads this
      requires Valid()
      ensures r.None? <==> id !in Ids(rows)
      ensures r.Some? ==> r.value.id == id && r.value in rows
      ensures forall i | 0 <= i < |rows| && rows[i].id == id :: r == Some(rows[i])
    {
      UniquePrefix(rows + added, |rows|);
      assert (rows + added)[..|rows|] == rows;
      FindByIdEveryRow(rows);
      FindById(rows, id)
    }

    /** `GetAll()`: every committed row, each one the row GetById finds for its id. */
    function GetAll(): (r: seq<Entity<D>>)
      reads this
      requires Valid()
      ensures UniqueIds(r)
      ensures forall i | 0 <= i < |r| :: GetById(r[i].id) == Some(r[i])
      ensures forall id :: GetById(id).Some? <==> id in Ids(r)
    {
      UniquePrefix(rows + added, |rows|);
      assert (rows + added)[..|rows|] == rows;
      rows
    }

    /** `GetCount()`: the number of committed rows, which is the number of distinct stored ids. */
    function GetCount(): (n: nat)
      reads this
      requires Valid()
      ensures n == |GetAll()|
      ensures n == |set id | id in Ids(rows)|
    {
      UniquePrefix(rows + added, |rows|);
      assert (rows + added)[..|rows|] == rows;
      DistinctCardinality(Ids(rows));
      |rows|
    }

    /**
     * `GetByIds(ids)`: for a null or empty list, an empty list; otherwise the rows whose id is
     * listed, re-ordered to follow the list.
     */
    method GetByIds(ids: Option<seq<Guid>>) returns (sorted: seq<Entity<D>>)
      ensures ids.None? || ids.value == [] ==> sorted == []
      ensures ids.Some? ==> sorted == ByIds(rows, ids.value)
    {
      if ids.None? || ids.value == [] {
        return [];
      }
      var list := ids.value;
      var listed := (e: Entity<D>) => e.id in list;
      var entries := Filter(rows, listed);
      sorted := [];
      for i := 0 to |list|
        invariant sorted == ByIds(rows, list[..i])
      {
        var id := list[i];
        FindByIdFilter(rows, listed, id);
        var entry := FindById(entries, id);
        assert list[..i + 1][..i] == list[..i];
        if entry.Some? {
          sorted := sorted + [entry.value];
        }
      }
      assert list[..|list|] == list;
    }

    // ----- Staging and saving -----

    /** `Save()`: applies every staged change to the table and clears the staging. */
    method Save()
      requires Valid()
      modifies this
      ensures Valid()
      ensures rows == old(Saved())
      ensures added == [] && modified == map[] && removed == {}
    {
      CommitUnique(rows + added, modified, removed);
      rows := Commit(rows + added, modified, removed);
      added, modified, removed := [], map[], {};
      assert rows + added == rows;
    }

    /** `Insert(entity)`: stamps an auditable entity's creation fields with `now` and its own id, then stages it. */
    method Insert(entity: Entity<D>, now: DateTime) returns (stamped: Entity<D>)
      requires Valid() && IsFreshId(entity.id)
      modifies this
      ensures Valid()
      ensures stamped == StampCreated(entity, now)
      ensures added == old(added) + [stamped]
      ensures rows == old(rows) && modified == old(modified) && removed == old(removed)
    {
      ghost var before := rows + added;
      stamped := StampCreated(entity, now);
      UniqueExtend(before, stamped);
      added := added + [stamped];
      assert rows + added == before + [stamped];
    }

    /** `BulkInsertEntities(entities)`: adds each entity and saves, one entity at a time. */
    method BulkInsertEntities(entities: seq<Entity<D>>)
      requires Valid() && IsFreshBatch(entities)
      modifies this
      ensures Valid()
      ensures entities == [] ==>
        rows == old(rows) && added == old(added) && modified == old(modified) && removed == old(removed)
      ensures entities != [] ==>
        rows == old(Saved()) + entities && added == [] && modified == map[] && removed == {}
      ensures forall i | 0 <= i < |entities| :: GetById(entities[i].id) == Some(entities[i])
    {
      ghost var saved := Saved();
      BatchFitsAfterSave(entities);
      for i := 0 to |entities|
        invariant Valid()
        invariant i == 0 ==>
          rows == old(rows) && added == old(added) && modified == old(modified) && removed == old(removed)
        invariant i > 0 ==>
          rows == saved + entities[..i] && added == [] && modified == map[] && removed == {}
      {
        var entity := entities[i];
        FreshStep(saved, entities, i);
        if i > 0 {
          assert rows + added == rows;
          CommitNothing(rows);
          assert Saved() == rows;
        } else {
          assert Saved() == saved;
        }
        assert IsFreshId(entity.id);
        AddAndSave(entity);
      }
      if entities != [] {
        assert entities[..|entities|] == entities;
        BatchFound(saved, entities);
      }
      CommittedUnique();
    }

    /** A batch of fresh entities can follow the rows a save leaves without breaking the primary key. */
    lemma BatchFitsAfterSave(entities: seq<Entity<D>>)
      requires Valid() && IsFreshBatch(entities)
      ensures UniqueIds(Saved() + entities)
      ensures forall i | 0 <= i < |entities| :: IsFreshId(entities[i].id)
    {
      forall i | 0 <= i < |entities| ensures entities[i].id !in Ids(rows + added) {
        assert IsFreshId(entities[i].id);
      }
      SavedThenNewRows(rows + added, modified, removed, entities);
    }

    /** One step of BulkInsertEntities: `_context.Set<T>().Add(entity)` then `_context.SaveChanges()`. */
    method AddAndSave(entity: Entity<D>)
      requires Valid() && IsFreshId(entity.id)
      modifies this
      ensures Valid()
      ensures rows == old(Saved()) + [entity]
      ensures added == [] && modified == map[] && removed == {}
    {
      UniqueAppend(rows + added, [entity]);
      CommitNewRow(rows + added, modified, removed, entity);
      added := added + [entity];
      assert rows + added == old(rows) + old(added) + [entity];
      Save();
    }

    /** `Insert(entities)`: raises on a null list; otherwise inserts and saves the entities one at a time. */
    method InsertRange(entities: Option<seq<Entity<D>>>) returns (outcome: Outcome)
      requires Valid()
      requires entities.Some? ==> IsFreshBatch(entities.value)
      modifies this
      ensures Valid()
      ensures entities.None? ==> outcome == Thrown(ArgumentNullException("entities")) && unchanged(this)
      ensures entities.Some? ==> outcome == Ok
      ensures entities.Some? && entities.value == [] ==>
        rows == old(rows) && added == old(added) && modified == old(modified) && removed == old(removed)
      ensures entities.Some? && entities.value != [] ==>
        rows == old(Saved()) + entities.value && added == [] && modified == map[] && removed == {}
      ensures entities.Some? ==>
        forall i | 0 <= i < |entities.value| :: GetById(entities.value[i].id) == Some(entities.value[i])
    {
      if entities.None? {
        return Thrown(ArgumentNullException("entities"));
      }
      BulkInsertEntities(entities.value);
      outcome := Ok;
    }

    /** `Delete(entity)`: raises on null; otherwise stages the entity for removal. */
    method Delete(entity: Option<Entity<D>>) returns (outcome: Outcome)
      requires Valid()
      modifies this
      ensures Valid()
      ensures entity.None? ==> outcome == Thrown(ArgumentNullException("entity")) && unchanged(this)
      ensures entity.Some? ==> outcome == Ok && removed == old(removed) + {entity.value.id}
      ensures rows == old(rows) && added == old(added) && modified == old(modified)
    {
      if entity.None? {
        return Thrown(ArgumentNullException("entity"));
      }
      removed := removed + {entity.value.id};    // _context.Set<T>().Remove(entity)
      outcome := Ok;
    }

    /** `BulkDeleteEntities(entities)`: stages every entity for removal. */
    method BulkDeleteEntities(entities: seq<Entity<D>>)
      requires Valid()
      modifies this
      ensures Valid()
      ensures removed == old(removed) + (set id | id in Ids(entities))
      ensures rows == old(rows) && added == old(added) && modified == old(modified)
    {
      for i := 0 to |entities|
        invariant removed == old(removed) + (set id | id in Ids(entities[..i]))
        invariant rows == old(rows) && added == old(added) && modified == old(modified)
      {
        assert entities[..i + 1] == entities[..i] + [entities[i]];
        IdsAppend(entities[..i], [entities[i]]);
        removed := removed + {entities[i].id};    // _context.Set<T>().Remove(entity)
      }
      assert entities[..|entities|] == entities;
    }

    /** `Delete(predicate)`: raises on a null predicate (`condition` here); otherwise stages every committed row satisfying it for removal. */
    method DeleteWhere(condition: Option<Entity<D> -> bool>) returns (outcome: Outcome)
      requires Valid()
      modifies this
      ensures Valid()
      ensures condition.None? ==> outcome == Thrown(ArgumentNullException("predicate")) && unchanged(this)
      ensures condition.Some? ==> outcome == Ok
      ensures condition.Some? ==> forall id ::
        id in removed <==> id in old(removed) || exists i | 0 <= i < |rows| :: rows[i].id == id && condition.value(rows[i])
      ensures rows == old(rows) && added == old(added) && modified == old(modified)
    {
      if condition.None? {
        return Thrown(ArgumentNullException("predicate"));
      }
      var p := condition.value;
      var entities := Filter(rows, p);
      BulkDeleteEntities(entities);
      FilterIds(rows, p);
      outcome := Ok;
    }

    /** `Update(entity)`: records the entity's values for the next save, audit fields as they are. */
    method Update(entity: Entity<D>)
      requires Valid()
      modifies this
      ensures Valid()
      ensures modified == old(modified)[entity.id := entity]
      ensures rows == old(rows) && added == old(added) && removed == old(removed)
    {
      modified := modified[entity.id := entity];    // _context.Entry(entity)
    }

    /**
     * `Delete(entities)`: raises on a null list. When some member is auditable, removes nothing:
     * each auditable member gets LastModified and LastModifiedBy stamped and is saved on its own,
     * the others are left as they are. Otherwise stages every member for removal.
     * `stamped` is the list as the caller sees it afterwards.
     */
    method DeleteRange(entities: Option<seq<Entity<D>>>, now: DateTime) returns (outcome: Outcome, stamped: seq<Entity<D>>)
      requires Valid()
      modifies this
      ensures Valid()
      ensures entities.None? ==>
        outcome == Thrown(ArgumentNullException("entities")) && stamped == [] && unchanged(this)
      ensures entities.Some? ==> outcome == Ok && |stamped| == |entities.value|
      ensures entities.Some? ==>
        forall i | 0 <= i < |stamped| :: stamped[i] == StampModified(entities.value[i], now)
      ensures entities.Some? && AnyAuditable(entities.value) ==>
        && rows == Commit(old(rows) + old(added), old(modified) + StampedUpdates(entities.value, now), old(removed))
        && added == [] && modified == map[] && removed == {}
      ensures entities.Some? && AnyAuditable(entities.value) ==> Ids(rows) == Ids(old(Saved()))
      ensures entities.Some? && !AnyAuditable(entities.value) ==>
        && removed == old(removed) + (set id | id in Ids(entities.value))
        && rows == old(rows) && added == old(added) && modified == old(modified)
        && stamped == entities.value
    {
      if entities.None? {
        return Thrown(ArgumentNullException("entities")), [];
      }
      var list := entities.value;
      outcome := Ok;
      if !AnyAuditable(list) {
        BulkDeleteEntities(list);
        stamped := list;
        return;
      }
      stamped := StampEachAuditable(list, now);
      CommitIds(old(rows) + old(added), old(modified) + StampedUpdates(list, now), old(removed));
      CommitIds(old(rows) + old(added), old(modified), old(removed));
    }

    /**
     * The loop of `Delete(entities)` when some member is auditable: stamps each auditable member and
     * saves it on its own; the first save also commits whatever was staged before.
     */
    method StampEachAuditable(list: seq<Entity<D>>, now: DateTime) returns (stamped: seq<Entity<D>>)
      requires Valid() && AnyAuditable(list)
      modifies this
      ensures Valid()
      ensures |stamped| == |list| && forall j | 0 <= j < |list| :: stamped[j] == StampModified(list[j], now)
      ensures rows == Commit(old(rows) + old(added), old(modified) + StampedUpdates(list, now), old(removed))
      ensures added == [] && modified == map[] && removed == {}
    {
      ghost var before := rows + added;
      stamped := [];
      for i := 0 to |list|
        invariant Valid()
        invariant |stamped| == i && forall j | 0 <= j < i :: stamped[j] == StampModified(list[j], now)
        invariant !AnyAuditable(list[..i]) ==>
          rows == old(rows) && added == old(added) && modified == old(modified) && removed == old(removed)
        invariant AnyAuditable(list[..i]) ==>
          && rows == Commit(before, old(modified) + StampedUpdates(list[..i], now), old(removed))
          && added == [] && modified == map[] && removed == {}
      {
        var entity := list[i];
        if entity.IsAuditable() {
          AuditStep(before, old(modified), old(removed), list, i, now, rows, added, modified, removed);
          var audited := StampAndSave(entity, now);
          stamped := stamped + [audited];
        } else {
          SkipStep(list, i, now);
          stamped := stamped + [entity];
        }
      }
      assert list[..|list|] == list;
    }

    /** One auditable member of `Delete(entities)`: stamp it, record it on the context, save. */
    method StampAndSave(entity: Entity<D>, now: DateTime) returns (audited: Entity<D>)
      requires Valid()
      modifies this
      ensures Valid()
      ensures audited == StampModified(entity, now)
      ensures rows == Commit(old(rows) + old(added), old(modified)[entity.id := audited], old(removed))
      ensures added == [] && modified == map[] && removed == {}
    {
      audited := StampModified(entity, now);     // LastModified = now, LastModifiedBy = entity.Id
      modified := modified[entity.id := audited];    // _context.Entry(entity)
      Save();                                        // _context.SaveChanges()
    }

    /** The committed rows alone keep the primary key. */
    lemma CommittedUnique()
      requires Valid()
      ensures UniqueIds(rows)
    {
      UniquePrefix(rows + added, |rows|);
      assert (rows + added)[..|rows|] == rows;
    }
  }

  /**
   * One step of the bulk insert: the entity to add next is unknown to the rows committed so far,
   * and adding it extends them by one.
   */
  lemma FreshStep<D>(saved: seq<Entity<D>>, entities: seq<Entity<D>>, i: nat)
    requires UniqueIds(saved + entities) && i < |entities|
    ensures saved + entities[..i + 1] == (saved + entities[..i]) + [entities[i]]
    ensures i == 0 ==> saved + entities[..i] == saved
    ensures entities[i].id !in Ids(saved + entities[..i])
  {
    assert entities[..i + 1] == entities[..i] + [entities[i]];
    assert saved + entities[..i + 1] == (saved + entities[..i]) + [entities[i]];
    UniqueWithBatchPrefix(saved, entities, i + 1);
    UniqueSnoc(saved + entities[..i], entities[i]);
  }

  /**
   * One auditable member in the loop of Delete(IList): staging its stamped values on the current
   * state and saving gives the rows the loop invariant promises one step further.
   */
  lemma AuditStep<D>(before: seq<Entity<D>>, m0: map<Guid, Entity<D>>, r0: set<Guid>,
                     list: seq<Entity<D>>, i: nat, now: DateTime,
                     rows: seq<Entity<D>>, added: seq<Entity<D>>, modified: map<Guid, Entity<D>>,
                     removed: set<Guid>)
    requires i < |list| && list[i].IsAuditable()
    requires KeysMatch(m0) && KeysMatch(modified)
    requires !AnyAuditable(list[..i]) ==> rows + added == before && modified == m0 && removed == r0
    requires AnyAuditable(list[..i]) ==>
      rows == Commit(before, m0 + StampedUpdates(list[..i], now), r0) && added == [] && modified == map[] && removed == {}
    ensures AnyAuditable(list[..i + 1])
    ensures Commit(rows + added, modified[list[i].id := StampModified(list[i], now)], removed)
         == Commit(before, m0 + StampedUpdates(list[..i + 1], now), r0)
  {
    StepPrefix(list, i, now);
    var audited := StampModified(list[i], now);
    var su := StampedUpdates(list[..i], now);
    if AnyAuditable(list[..i]) {
      assert rows + added == rows;
      CommitTwice(before, m0 + su, r0, map[][audited.id := audited]);
      assert (m0 + su) + map[][audited.id := audited] == m0 + su[audited.id := audited];
    } else {
      NoAuditableNoUpdates(list[..i], now);
      assert m0[audited.id := audited] == m0 + su[audited.id := audited];
    }
  }

  /** One member that is not auditable in the loop of Delete(IList): nothing to stamp, nothing saved. */
  lemma SkipStep<D>(list: seq<Entity<D>>, i: nat, now: DateTime)
    requires i < |list| && !list[i].IsAuditable()
    ensures AnyAuditable(list[..i + 1]) == AnyAuditable(list[..i])
    ensures StampedUpdates(list[..i + 1], now) == StampedUpdates(list[..i], now)
  {
    StepPrefix(list, i, now);
  }

  // ----- What a save makes of each staged change -----

  /** Insert then Save: the new entity is stored, with the values it was staged with. */
  lemma InsertThenSaveFinds<D>(s: seq<Entity<D>>, modified: map<Guid, Entity<D>>, removed: set<Guid>, e: Entity<D>)
    requires UniqueIds(s + [e]) && KeysMatch(modified) && e.id !in modified && e.id !in removed
    ensures FindById(Commit(s + [e], modified, removed), e.id) == Some(e)
  {
    CommitNewRow(s, modified, removed, e);
    CommitUnique(s + [e], modified, removed);
    FindByIdUnique(Commit(s + [e], modified, removed), e);
  }

  /** Update then Save: a stored row takes exactly the values passed to Update, audit fields included. */
  lemma UpdateThenSaveFinds<D>(s: seq<Entity<D>>, modified: map<Guid, Entity<D>>, removed: set<Guid>, e: Entity<D>)
    requires UniqueIds(s) && KeysMatch(modified) && e.id in Ids(s) && e.id !in removed
    ensures FindById(Commit(s, modified[e.id := e], removed), e.id) == Some(e)
  {
    CommitModifiedRow(s, modified[e.id := e], removed, e.id);
  }

  /**
   * Delete(entities) with an auditable member: every auditable member still stored afterwards is
   * stored stamped, LastModified now and LastModifiedBy its own id.
   */
  lemma AuditedRowStamped<D>(before: seq<Entity<D>>, m0: map<Guid, Entity<D>>, r0: set<Guid>,
                             list: seq<Entity<D>>, now: DateTime, i: nat)
    requires UniqueIds(before) && KeysMatch(m0) && UniqueIds(list)
    requires i < |list| && list[i].IsAuditable()
    requires list[i].id in Ids(Commit(before, m0 + StampedUpdates(list, now), r0))
    ensures FindById(Commit(before, m0 + StampedUpdates(list, now), r0), list[i].id)
            == Some(StampModified(list[i], now))
  {
    var m := m0 + StampedUpdates(list, now);
    CommitIds(before, m, r0);
    StampedUpdatesAt(list, now, i);
    CommitModifiedRow(before, m, r0, list[i].id);
  }

  /** Only auditable members are stamped: every key of StampedUpdates is the id of one. */
  lemma {:induction false} StampedUpdatesKeys<D>(s: seq<Entity<D>>, now: DateTime, k: Guid)
    requires k in StampedUpdates(s, now)
    ensures exists i | 0 <= i < |s| :: s[i].id == k && s[i].IsAuditable()
  {
    var last, pre := s[|s| - 1], s[..|s| - 1];
    if last.IsAuditable() && k == last.id {
      assert s[|s| - 1].id == k && s[|s| - 1].IsAuditable();
    } else {
      StampedUpdatesKeys(pre, now, k);
      var i :| 0 <= i < |pre| && pre[i].id == k && pre[i].IsAuditable();
      assert s[i] == pre[i];
    }
  }

  /**
   * After the audit branch of Delete(IList), a row whose id no auditable member carries is what a
   * plain save of the earlier staging would leave.
   */
  lemma UnstampedRowAsSaved<D>(before: seq<Entity<D>>, m0: map<Guid, Entity<D>>, r0: set<Guid>,
                               list: seq<Entity<D>>, now: DateTime, id: Guid)
    requires KeysMatch(m0)
    requires forall i | 0 <= i < |list| && list[i].IsAuditable() :: list[i].id != id
    ensures FindById(Commit(before, m0 + StampedUpdates(list, now), r0), id) == FindById(Commit(before, m0, r0), id)
  {
    var stamps := StampedUpdates(list, now);
    if id in stamps {
      StampedUpdatesKeys(list, now, id);
      assert false;
    }
    CommitAgreesAt(before, m0 + stamps, m0, r0, id);
  }

  /** After the audit branch, a non-auditable member's row is what a plain save would leave: it is untouched. */
  lemma NonAuditableMemberAsSaved<D>(before: seq<Entity<D>>, m0: map<Guid, Entity<D>>, r0: set<Guid>,
                                     list: seq<Entity<D>>, now: DateTime, j: nat)
    requires KeysMatch(m0) && UniqueIds(list)
    requires j < |list| && !list[j].IsAuditable()
    ensures FindById(Commit(before, m0 + StampedUpdates(list, now), r0), list[j].id)
            == FindById(Commit(before, m0, r0), list[j].id)
  {
    forall i | 0 <= i < |list| && list[i].IsAuditable() ensures list[i].id != list[j].id {
      if i < j {
        DistinctAt(Ids(list), i, j);
      } else {
        DistinctAt(Ids(list), j, i);
      }
    }
    UnstampedRowAsSaved(before, m0, r0, list, now, list[j].id);
  }

  /**
   * GetFirstOrDefault called without a filter, on a table with rows: as written it raises, where
   * the optional filter intends the first row.
   */
  lemma NullFilterRaises<D>(repo: EntityRepository<D>)
    requires repo.rows != []
    ensures repo.GetFirstOrDefault(None) == Failure(ArgumentNullException("predicate"))
    ensures repo.GetFirstOrDefaultIntended(None) == Some(repo.rows[0])
  {
  }
}
