/**
 * Statistics: how many cells carry each status, over every project, platform
 * and category of the store, whatever the active filters.
 */
module Statistics {

  import opened StatusAlgebra
  import opened ProjectStore

  ghost function Pick<K>(s: set<K>): K
    requires s != {}
  {
    var k :| k in s; k
  }

  /** The statuses found under every key of `m`, as a multiset (`f` gives those under one value). */
  ghost function SumMap<K, V>(m: map<K, V>, f: V -> multiset<Status>): multiset<Status>
    decreases |m|
  {
    if m == map[] then multiset{}
    else
      var k := Pick(m.Keys);
      assert |m - {k}| < |m| by {
        assert (m - {k}).Keys == m.Keys - {k};
      }
      f(m[k]) + SumMap(m - {k}, f)
  }

  /** The sum does not depend on which key is taken first. */
  lemma {:induction false} SumMapRemove<K, V>(m: map<K, V>, f: V -> multiset<Status>, k: K)
    requires k in m
    ensures SumMap(m, f) == f(m[k]) + SumMap(m - {k}, f)
    decreases |m|
  {
    var j := Pick(m.Keys);
    assert (m - {j}).Keys == m.Keys - {j};
    if j != k {
      assert (m - {k}).Keys == m.Keys - {k};
      SumMapRemove(m - {j}, f, k);
      SumMapRemove(m - {k}, f, j);
      assert m - {j} - {k} == m - {k} - {j};
    }
  }

  function StatusOf(e: Entry): multiset<Status>
  {
    multiset{e.status}
  }

  ghost function TallyCategories(cats: Categories): multiset<Status>
  {
    SumMap(cats, StatusOf)
  }

  ghost function TallyProject(pr: Project): multiset<Status>
  {
    SumMap(pr.platforms, TallyCategories)
  }

  /** The status of every cell of the store, each counted once. */
  ghost function Tally(ps: Projects): multiset<Status>
  {
    SumMap(ps, TallyProject)
  }

  /** Deleting a project takes exactly its cells out of the counts. */
  lemma DeleteTally(ps: Projects, n: string)
    requires n in ps
    ensures Tally(ps - {n}) == Tally(ps) - TallyProject(ps[n])
  {
    SumMapRemove(ps, TallyProject, n);
  }

  lemma SumMapUpdate<K, V>(m: map<K, V>, f: V -> multiset<Status>, k: K, v: V)
    ensures SumMap(m[k := v], f) == f(v) + SumMap(m - {k}, f)
  {
    SumMapRemove(m[k := v], f, k);
    assert m[k := v] - {k} == m - {k};
  }

  /**
   * Changing one existing cell from status `s` to `t` moves one count from `s`
   * to `t`; the other counts are unchanged.
   */
  lemma CellChangeTally(ps: Projects, n: string, p: string, c: string, e: Entry)
    requires n in ps && p in ps[n].platforms && c in ps[n].platforms[p]
    ensures Tally(WithEntry(ps, n, p, c, e))
            == Tally(ps) - multiset{ps[n].platforms[p][c].status} + multiset{e.status}
  {
    var pr := ps[n];
    var cats := pr.platforms[p];
    SumMapRemove(cats, StatusOf, c);
    SumMapUpdate(cats, StatusOf, c, e);
    SumMapRemove(pr.platforms, TallyCategories, p);
    SumMapUpdate(pr.platforms, TallyCategories, p, cats[c := e]);
    SumMapRemove(ps, TallyProject, n);
    SumMapUpdate(ps, TallyProject, n, pr.(platforms := pr.platforms[p := cats[c := e]]));
  }

  ghost predicate CountsAll(counts: map<Status, nat>)
  {
    forall s: Status :: s in counts
  }

  /** The counts of a category map are those of one category plus those of the rest. */
  lemma TallyCategoriesRemove(cats: Categories, c: string)
    requires c in cats
    ensures TallyCategories(cats) == multiset{cats[c].status} + TallyCategories(cats - {c})
  {
    SumMapRemove(cats, StatusOf, c);
  }

  /** One more cell of status `s`: its counter goes up by one, the others stay. */
  function Bump(counts: map<Status, nat>, s: Status): (r: map<Status, nat>)
    requires CountsAll(counts)
    ensures CountsAll(r)
    ensures forall t: Status :: r[t] == counts[t] + multiset{s}[t]
  {
    counts[s := counts[s] + 1]
  }

  /** Adds one to the counter of each category's status. */
  method CountCategories(categories: Categories, counts: map<Status, nat>) returns (result: map<Status, nat>)
    requires CountsAll(counts)
    ensures CountsAll(result)
    ensures forall s: Status :: result[s] == counts[s] + TallyCategories(categories)[s]
  {
    result := counts;
    var rest := categories;
    while rest != map[]
      invariant CountsAll(result)
      invariant forall s: Status :: result[s] + TallyCategories(rest)[s] == counts[s] + TallyCategories(categories)[s]
      decreases |rest|
    {
      var c :| c in rest;
      var status := rest[c].status;
      TallyCategoriesRemove(rest, c);
      result := Bump(result, status);
      rest := rest - {c};
    }
  }

  /** Adds the counts of every platform of one project. */
  method CountProject(pr: Project, counts: map<Status, nat>) returns (result: map<Status, nat>)
    requires CountsAll(counts)
    ensures CountsAll(result)
    ensures forall s: Status :: result[s] == counts[s] + TallyProject(pr)[s]
  {
    result := counts;
    var rest := pr.platforms;
    while rest != map[]
      invariant CountsAll(result)
      invariant forall s: Status :: result[s] + SumMap(rest, TallyCategories)[s] == counts[s] + TallyProject(pr)[s]
      decreases |rest|
    {
      var p :| p in rest;
      SumMapRemove(rest, TallyCategories, p);
      result := CountCategories(rest[p], result);
      rest := rest - {p};
    }
  }

  /**
   * The counters the statistics panel shows: one per status, each the number
   * of cells of the store holding it.
   */
  method CountStatuses(ps: Projects) returns (counts: map<Status, nat>)
    ensures forall s: Status :: s in counts && counts[s] == Tally(ps)[s]
  {
    counts := map[Uploaded := 0, NotUploaded := 0, Pending := 0, Rejected := 0, Disabled := 0];
    forall s: Status ensures s in counts && counts[s] == 0 {
      match s
      case Uploaded =>
      case NotUploaded =>
      case Pending =>
      case Rejected =>
      case Disabled =>
    }
    var rest := ps;
    while rest != map[]
      invariant CountsAll(counts)
      invariant forall s: Status :: counts[s] + Tally(rest)[s] == Tally(ps)[s]
      decreases |rest|
    {
      var n :| n in rest;
      SumMapRemove(rest, TallyProject, n);
      counts := CountProject(rest[n], counts);
      rest := rest - {n};
    }
  }
}
