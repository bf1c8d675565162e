/**
 * The persistence context, abstracted: a table is a sequence of entities in row order, and the
 * changes staged on the context are applied to it by `Commit`. The functions here are the
 * specification the repository's methods are proved against.
 */
module Store {
  import opened Wrappers
  import opened Domain

  /** The primary keys of a sequence of entities, in order. */
  function Ids<D>(s: seq<Entity<D>>): (r: seq<Guid>)
    ensures |r| == |s|
    ensures forall i | 0 <= i < |s| :: r[i] == s[i].id
  {
    if s == [] then [] else [s[0].id] + Ids(s[1..])
  }

  /** No value occurs twice. */
  predicate Distinct<X(==)>(xs: seq<X>) {
    xs == [] || (xs[0] !in xs[1..] && Distinct(xs[1..]))
  }

  /** The primary-key constraint: no two rows share an id. */
  predicate UniqueIds<D>(s: seq<Entity<D>>) {
    Distinct(Ids(s))
  }

  /** The ids of `xs` that are not in `r`, in order. */
  function Without(xs: seq<Guid>, r: set<Guid>): (ys: seq<Guid>)
    ensures |ys| <= |xs|
    ensures forall x :: x in ys <==> x in xs && x !in r
  {
    if xs == [] then [] else (if xs[0] in r then [] else [xs[0]]) + Without(xs[1..], r)
  }

  /** The first entity with the given id (`FirstOrDefault(e => e.Id == id)`, `DbSet.Find`). */
  function FindById<D>(s: seq<Entity<D>>, id: Guid): (r: Option<Entity<D>>)
    ensures r.None? <==> id !in Ids(s)
    ensures r.Some? ==> r.value in s && r.value.id == id
  {
    if s == [] then None
    else if s[0].id == id then Some(s[0])
    else FindById(s[1..], id)
  }

  /** The entities satisfying `p`, in order (`Where(p).ToList()`). */
  function Filter<D>(s: seq<Entity<D>>, p: Entity<D> -> bool): (r: seq<Entity<D>>)
    ensures |r| <= |s|
    ensures forall i | 0 <= i < |r| :: r[i] in s && p(r[i])
    ensures forall i | 0 <= i < |s| && p(s[i]) :: s[i] in r
  {
    if s == [] then [] else (if p(s[0]) then [s[0]] else []) + Filter(s[1..], p)
  }

  /** Filtering repeats no entity: each occurs in the result at most as often as in `s`. */
  lemma {:induction false} FilterCountsOnce<D>(s: seq<Entity<D>>, p: Entity<D> -> bool)
    ensures multiset(Filter(s, p)) <= multiset(s)
  {
    if s != [] {
      FilterCountsOnce(s[1..], p);
      assert s == [s[0]] + s[1..];
    }
  }

  /** Staged modifications are keyed by the id of the entity they hold. */
  predicate KeysMatch<D>(modified: map<Guid, Entity<D>>) {
    forall k | k in modified :: modified[k].id == k
  }

  /** The values of `e` the context holds: its staged modification if there is one. */
  function Current<D>(e: Entity<D>, modified: map<Guid, Entity<D>>): Entity<D> {
    if e.id in modified then modified[e.id] else e
  }

  /**
   * `SaveChanges`: every row whose id is staged for removal is dropped and every row with a
   * staged modification takes the modified values; order is kept.
   */
  function Commit<D>(s: seq<Entity<D>>, modified: map<Guid, Entity<D>>, removed: set<Guid>): (r: seq<Entity<D>>)
    ensures |r| <= |s|
    ensures KeysMatch(modified) ==> forall i | 0 <= i < |r| :: r[i].id !in removed
  {
    if s == [] then []
    else (if s[0].id in removed then [] else [Current(s[0], modified)]) + Commit(s[1..], modified, removed)
  }

  // ----- Lemmas about ids -----

  lemma IdsAppend<D>(s: seq<Entity<D>>, t: seq<Entity<D>>)
    ensures Ids(s + t) == Ids(s) + Ids(t)
  {
  }

  /** An id occurs in a table exactly when some row carries it. */
  lemma IdsMember<D>(s: seq<Entity<D>>, id: Guid)
    ensures id in Ids(s) <==> exists e | e in s :: e.id == id
  {
    if id in Ids(s) {
      var i :| 0 <= i < |s| && Ids(s)[i] == id;
      assert s[i] in s;
    }
  }

  lemma DistinctCons<X>(x: X, xs: seq<X>)
    ensures Distinct([x] + xs) <==> x !in xs && Distinct(xs)
  {
    assert ([x] + xs)[0] == x && ([x] + xs)[1..] == xs;
  }

  /** Distinct values differ at any two positions. */
  lemma {:induction false} DistinctAt<X>(xs: seq<X>, i: nat, j: nat)
    requires Distinct(xs) && i < j < |xs|
    ensures xs[i] != xs[j]
  {
    if i > 0 {
      DistinctAt(xs[1..], i - 1, j - 1);
    } else {
      assert xs[j] == xs[1..][j - 1];
    }
  }

  lemma {:induction false} DistinctPrefix<X>(xs: seq<X>, k: nat)
    requires Distinct(xs) && k <= |xs|
    ensures Distinct(xs[..k])
  {
    if k > 0 {
      DistinctPrefix(xs[1..], k - 1);
      assert xs[..k][1..] == xs[1..][..k - 1];
      assert xs[..k][0] == xs[0];
    }
  }

  lemma {:induction false} DistinctAppend<X>(xs: seq<X>, ys: seq<X>)
    requires Distinct(xs) && Distinct(ys)
    requires forall y | y in ys :: y !in xs
    ensures Distinct(xs + ys)
  {
    if xs != [] {
      DistinctAppend(xs[1..], ys);
      assert (xs + ys)[0] == xs[0] && (xs + ys)[1..] == xs[1..] + ys;
    } else {
      assert xs + ys == ys;
    }
  }

  lemma {:induction false} DistinctWithout(xs: seq<Guid>, r: set<Guid>)
    requires Distinct(xs)
    ensures Distinct(Without(xs, r))
  {
    if xs != [] {
      assert xs == [xs[0]] + xs[1..];
      DistinctCons(xs[0], xs[1..]);
      DistinctWithout(xs[1..], r);
      if xs[0] !in r {
        DistinctCons(xs[0], Without(xs[1..], r));
      } else {
        assert Without(xs, r) == Without(xs[1..], r);
      }
    }
  }

  /** Distinct keys: the number of distinct ids is the number of rows. */
  lemma {:induction false} DistinctCardinality(xs: seq<Guid>)
    requires Distinct(xs)
    ensures |set x | x in xs| == |xs|
  {
    if xs != [] {
      assert xs == [xs[0]] + xs[1..];
      DistinctCons(xs[0], xs[1..]);
      DistinctCardinality(xs[1..]);
      assert (set x | x in xs) == {xs[0]} + (set x | x in xs[1..]);
    }
  }

  /** In a table with unique ids, the row carrying an id is the one FindById returns. */
  lemma {:induction false} FindByIdUnique<D>(s: seq<Entity<D>>, e: Entity<D>)
    requires UniqueIds(s) && e in s
    ensures FindById(s, e.id) == Some(e)
  {
    assert s == [s[0]] + s[1..];
    if s[0] != e {
      assert e in s[1..];
      assert UniqueIds(s[1..]) by {
        DistinctCons(s[0].id, Ids(s[1..]));
      }
      FindByIdUnique(s[1..], e);
      IdsMember(s[1..], e.id);
      assert s[0].id != e.id;
    }
  }

  /** Looking an id up after a filter that keeps every row with that id finds the same row. */
  lemma {:induction false} FindByIdFilter<D>(s: seq<Entity<D>>, p: Entity<D> -> bool, id: Guid)
    requires forall e | e in s && e.id == id :: p(e)
    ensures FindById(Filter(s, p), id) == FindById(s, id)
  {
    if s != [] {
      FindByIdFilter(s[1..], p, id);
      if p(s[0]) {
        assert Filter(s, p) == [s[0]] + Filter(s[1..], p);
        assert (Filter(s, p))[1..] == Filter(s[1..], p);
      } else {
        assert Filter(s, p) == Filter(s[1..], p);
      }
    }
  }

  /** The first entity satisfying `p`: the head of `Filter(s, p)`, if any (`FirstOrDefault(p)`). */
  function FirstMatch<D>(s: seq<Entity<D>>, p: Entity<D> -> bool): (r: Option<Entity<D>>)
    ensures r.None? <==> Filter(s, p) == []
    ensures r.Some? ==> r.value == Filter(s, p)[0]
  {
    if s == [] then None
    else if p(s[0]) then Some(s[0])
    else FirstMatch(s[1..], p)
  }

  /** Every prefix of a table with unique ids has unique ids. */
  lemma UniquePrefix<D>(s: seq<Entity<D>>, k: nat)
    requires UniqueIds(s) && k <= |s|
    ensures UniqueIds(s[..k])
  {
    assert Ids(s[..k]) == Ids(s)[..k];
    DistinctPrefix(Ids(s), k);
  }

  /** Two tables with unique ids and no id in common form a table with unique ids. */
  lemma UniqueAppend<D>(s: seq<Entity<D>>, t: seq<Entity<D>>)
    requires UniqueIds(s) && UniqueIds(t)
    requires forall i | 0 <= i < |t| :: t[i].id !in Ids(s)
    ensures UniqueIds(s + t)
  {
    IdsAppend(s, t);
    forall y | y in Ids(t) ensures y !in Ids(s) {
      var i :| 0 <= i < |t| && Ids(t)[i] == y;
    }
    DistinctAppend(Ids(s), Ids(t));
  }

  /** The last row of a table with unique ids carries an id no earlier row carries. */
  lemma UniqueSnoc<D>(s: seq<Entity<D>>, e: Entity<D>)
    requires UniqueIds(s + [e])
    ensures e.id !in Ids(s)
  {
    IdsAppend(s, [e]);
    forall k | 0 <= k < |s| ensures Ids(s)[k] != e.id {
      DistinctAt(Ids(s + [e]), k, |s|);
    }
  }

  /** A row with a fresh id can be appended without breaking the key. */
  lemma UniqueExtend<D>(s: seq<Entity<D>>, e: Entity<D>)
    requires UniqueIds(s) && e.id !in Ids(s)
    ensures UniqueIds(s + [e])
  {
    UniqueAppend(s, [e]);
  }

  /** Every row is what FindById returns for its id, in a table with unique ids. */
  lemma FindByIdEveryRow<D>(s: seq<Entity<D>>)
    requires UniqueIds(s)
    ensures forall i | 0 <= i < |s| :: FindById(s, s[i].id) == Some(s[i])
  {
    forall i | 0 <= i < |s| ensures FindById(s, s[i].id) == Some(s[i]) {
      FindByIdUnique(s, s[i]);
    }
  }

  /** The ids a filter keeps are the ids of the rows satisfying it. */
  lemma FilterIds<D>(s: seq<Entity<D>>, p: Entity<D> -> bool)
    ensures forall id :: id in Ids(Filter(s, p)) <==> exists i | 0 <= i < |s| :: s[i].id == id && p(s[i])
  {
    var f := Filter(s, p);
    forall id ensures id in Ids(f) <==> exists i | 0 <= i < |s| :: s[i].id == id && p(s[i]) {
      if id in Ids(f) {
        var k :| 0 <= k < |f| && Ids(f)[k] == id;
        var i :| 0 <= i < |s| && s[i] == f[k];
      }
      if exists i | 0 <= i < |s| :: s[i].id == id && p(s[i]) {
        var i :| 0 <= i < |s| && s[i].id == id && p(s[i]);
        var k :| 0 <= k < |f| && f[k] == s[i];
        assert Ids(f)[k] == id;
      }
    }
  }

  // ----- Lemmas about Commit -----

  /** Commit keeps exactly the ids not staged for removal, in order, whatever the modifications. */
  lemma {:induction false} CommitIds<D>(s: seq<Entity<D>>, modified: map<Guid, Entity<D>>, removed: set<Guid>)
    requires KeysMatch(modified)
    ensures Ids(Commit(s, modified, removed)) == Without(Ids(s), removed)
  {
    if s != [] {
      CommitIds(s[1..], modified, removed);
      assert Ids(s)[1..] == Ids(s[1..]);
      var h := if s[0].id in removed then [] else [Current(s[0], modified)];
      IdsAppend(h, Commit(s[1..], modified, removed));
    }
  }

  /** Commit keeps the primary-key constraint. */
  lemma CommitUnique<D>(s: seq<Entity<D>>, modified: map<Guid, Entity<D>>, removed: set<Guid>)
    requires KeysMatch(modified) && UniqueIds(s)
    ensures UniqueIds(Commit(s, modified, removed))
  {
    CommitIds(s, modified, removed);
    DistinctWithout(Ids(s), removed);
  }

  lemma {:induction false} CommitAppend<D>(s: seq<Entity<D>>, t: seq<Entity<D>>, modified: map<Guid, Entity<D>>, removed: set<Guid>)
    ensures Commit(s + t, modified, removed) == Commit(s, modified, removed) + Commit(t, modified, removed)
  {
    if s != [] {
      var head := if s[0].id in removed then [] else [Current(s[0], modified)];
      assert (s + t)[0] == s[0] && (s + t)[1..] == s[1..] + t;
      assert Commit(s + t, modified, removed) == head + Commit(s[1..] + t, modified, removed);
      CommitAppend(s[1..], t, modified, removed);
      assert Commit(s, modified, removed) == head + Commit(s[1..], modified, removed);
    } else {
      assert s + t == t;
    }
  }

  /** With nothing staged, a save changes nothing. */
  lemma {:induction false} CommitNothing<D>(s: seq<Entity<D>>)
    ensures Commit(s, map[], {}) == s
  {
    if s != [] {
      CommitNothing(s[1..]);
    }
  }

  /** Two saves in a row, the second with only modifications, equal one save with the later modifications winning. */
  lemma {:induction false} CommitTwice<D>(s: seq<Entity<D>>, m1: map<Guid, Entity<D>>, removed: set<Guid>, m2: map<Guid, Entity<D>>)
    requires KeysMatch(m1)
    ensures Commit(Commit(s, m1, removed), m2, {}) == Commit(s, m1 + m2, removed)
  {
    if s != [] {
      CommitTwice(s[1..], m1, removed, m2);
      var c := Commit(s, m1, removed);
      if s[0].id !in removed {
        assert c == [Current(s[0], m1)] + Commit(s[1..], m1, removed);
        assert c[1..] == Commit(s[1..], m1, removed);
        assert Current(s[0], m1).id == s[0].id;
        assert Current(Current(s[0], m1), m2) == Current(s[0], m1 + m2);
      } else {
        assert c == Commit(s[1..], m1, removed);
      }
    }
  }

  /** A row that is kept and has a staged modification is stored with the modified values after the save. */
  lemma CommitModifiedRow<D>(s: seq<Entity<D>>, modified: map<Guid, Entity<D>>, removed: set<Guid>, id: Guid)
    requires KeysMatch(modified) && UniqueIds(s)
    requires id in Ids(s) && id !in removed && id in modified
    ensures FindById(Commit(s, modified, removed), id) == Some(modified[id])
  {
    CommitUnique(s, modified, removed);
    var i :| 0 <= i < |s| && s[i].id == id;
    CommitContains(s, modified, removed, i);
    FindByIdUnique(Commit(s, modified, removed), Current(s[i], modified));
  }

  /** Looking an id up in a table with one row in front. */
  lemma FindByIdCons<D>(h: Entity<D>, t: seq<Entity<D>>, id: Guid)
    ensures FindById([h] + t, id) == if h.id == id then Some(h) else FindById(t, id)
  {
    assert ([h] + t)[0] == h && ([h] + t)[1..] == t;
  }

  /** One step of Commit: the first row, unless removed, with its staged values, then the rest. */
  lemma CommitCons<D>(s: seq<Entity<D>>, modified: map<Guid, Entity<D>>, removed: set<Guid>)
    requires s != []
    ensures s[0].id in removed ==> Commit(s, modified, removed) == Commit(s[1..], modified, removed)
    ensures s[0].id !in removed ==>
      Commit(s, modified, removed) == [Current(s[0], modified)] + Commit(s[1..], modified, removed)
  {
  }

  /** Two modification maps that agree at `id` leave the same row with that id after a save. */
  lemma {:induction false} CommitAgreesAt<D>(s: seq<Entity<D>>, m1: map<Guid, Entity<D>>, m2: map<Guid, Entity<D>>,
                                            removed: set<Guid>, id: Guid)
    requires KeysMatch(m1) && KeysMatch(m2)
    requires (id in m1 <==> id in m2) && (id in m1 ==> m1[id] == m2[id])
    ensures FindById(Commit(s, m1, removed), id) == FindById(Commit(s, m2, removed), id)
  {
    if s != [] {
      CommitAgreesAt(s[1..], m1, m2, removed, id);
      CommitCons(s, m1, removed);
      CommitCons(s, m2, removed);
      if s[0].id !in removed {
        FindByIdCons(Current(s[0], m1), Commit(s[1..], m1, removed), id);
        FindByIdCons(Current(s[0], m2), Commit(s[1..], m2, removed), id);
      }
    }
  }

  lemma {:induction false} CommitContains<D>(s: seq<Entity<D>>, modified: map<Guid, Entity<D>>, removed: set<Guid>, i: nat)
    requires i < |s| && s[i].id !in removed
    ensures Current(s[i], modified) in Commit(s, modified, removed)
  {
    if i > 0 {
      CommitContains(s[1..], modified, removed, i - 1);
    }
  }

  /** Saving a table with one more new row leaves what the save would leave, plus that row. */
  lemma CommitNewRow<D>(s: seq<Entity<D>>, modified: map<Guid, Entity<D>>, removed: set<Guid>, e: Entity<D>)
    requires e.id !in removed && e.id !in modified
    ensures Commit(s + [e], modified, removed) == Commit(s, modified, removed) + [e]
  {
    CommitAppend(s, [e], modified, removed);
  }

  /** New rows whose ids the table does not hold still fit the primary key after a save. */
  lemma SavedThenNewRows<D>(s: seq<Entity<D>>, modified: map<Guid, Entity<D>>, removed: set<Guid>, t: seq<Entity<D>>)
    requires UniqueIds(s) && KeysMatch(modified) && UniqueIds(t)
    requires forall i | 0 <= i < |t| :: t[i].id !in Ids(s)
    ensures UniqueIds(Commit(s, modified, removed) + t)
  {
    CommitUnique(s, modified, removed);
    CommitIds(s, modified, removed);
    UniqueAppend(Commit(s, modified, removed), t);
  }

  /** A table followed by some of a batch of new rows keeps the primary key. */
  lemma UniqueWithBatchPrefix<D>(s: seq<Entity<D>>, t: seq<Entity<D>>, k: nat)
    requires UniqueIds(s + t) && k <= |t|
    ensures UniqueIds(s + t[..k])
  {
    assert s + t[..k] == (s + t)[..|s| + k];
    UniquePrefix(s + t, |s| + k);
  }

  /** Every row of a batch appended to a table is found by its id. */
  lemma BatchFound<D>(s: seq<Entity<D>>, t: seq<Entity<D>>)
    requires UniqueIds(s + t)
    ensures forall i | 0 <= i < |t| :: FindById(s + t, t[i].id) == Some(t[i])
  {
    FindByIdEveryRow(s + t);
    forall i | 0 <= i < |t| ensures FindById(s + t, t[i].id) == Some(t[i]) {
      assert (s + t)[|s| + i] == t[i];
    }
  }

  /** An id staged for removal is absent after the save. */
  lemma CommitRemovesId<D>(s: seq<Entity<D>>, modified: map<Guid, Entity<D>>, removed: set<Guid>, id: Guid)
    requires KeysMatch(modified) && id in removed
    ensures FindById(Commit(s, modified, removed), id) == None
  {
    CommitIds(s, modified, removed);
  }
}
