/**
 * The tracker object: the project store and the platform catalog as fields
 * that the editing operations update in place. Each operation does its work
 * step by step and is proved to leave exactly the state the corresponding
 * function of `ProjectStore`, `Catalogs` or `CsvRows` describes, or to leave
 * the state untouched and report the error that stopped it.
 */
module TrackerApp {

  import opened Results
  import opened Text
  import opened StatusAlgebra
  import opened Catalogs
  import opened ProjectStore
  import opened CsvRows
  import opened Statistics
  import opened MatrixView

  /** `after` is what outcome `r` says, and `err` reports its error if it failed (then nothing changed). */
  ghost predicate Applied<E>(r: Result<Projects, E>, err: Option<E>, before: Projects, after: Projects)
  {
    match r
    case Success(v) => err == None && after == v
    case Failure(e) => err == Some(e) && after == before
  }

  /** The fresh entry maps of the catalog platforms in `selected`, attached one after another. */
  method AttachFresh(cat: Catalog, selected: seq<string>, today: string) returns (platforms: map<string, Categories>)
    requires forall q | q in selected :: q in cat.categories
    ensures platforms == FreshPlatforms(cat, (set q | q in selected), today)
  {
    platforms := map[];
    var i := 0;
    while i < |selected|
      invariant i <= |selected|
      invariant forall q :: q in platforms <==> q in selected[..i]
      invariant forall q | q in platforms :: q in cat.categories && platforms[q] == Fresh(cat.categories[q], today)
    {
      var q := selected[i];
      platforms := platforms[q := Fresh(cat.categories[q], today)];
      assert selected[..i + 1] == selected[..i] + [q];
      i := i + 1;
    }
    assert selected[..i] == selected;
  }

  /**
   * The platforms of an edited project, going through the catalog platforms in
   * order: a ticked one not yet attached is attached fresh, an unticked one
   * that is attached is dropped.
   */
  method DiffPlatforms(cat: Catalog, attached: map<string, Categories>, ticked: set<string>, today: string)
    returns (platforms: map<string, Categories>)
    requires forall q :: q in cat.categories <==> q in cat.order
    ensures platforms == EditPlatforms(cat, attached, ticked, today)
  {
    platforms := attached;
    ghost var done: set<string> := {};
    var k := 0;
    while k < |cat.order|
      invariant k <= |cat.order|
      invariant done <= cat.categories.Keys
      invariant forall j | 0 <= j < k :: cat.order[j] in done
      invariant forall q :: q in platforms <==> (q in attached && (q !in done || q in ticked)) || (q in done && q in ticked)
      invariant forall q | q in platforms :: platforms[q] == if q in attached then attached[q] else Fresh(cat.categories[q], today)
    {
      var q := cat.order[k];
      if q in ticked {
        if q !in platforms {
          platforms := platforms[q := Fresh(cat.categories[q], today)];
        }
      } else if q in platforms {
        platforms := platforms - {q};
      }
      done := done + {q};
      k := k + 1;
    }
    assert done == cat.categories.Keys by {
      forall q | q in cat.categories ensures q in done {
        var j :| 0 <= j < |cat.order| && cat.order[j] == q;
      }
    }
    EditPlatformsPointwise(cat, attached, ticked, today, platforms);
  }

  /** A platform map that keeps, drops and attaches exactly as the edit dialog says is `EditPlatforms`. */
  lemma EditPlatformsPointwise(cat: Catalog, attached: map<string, Categories>, ticked: set<string>, today: string,
                               platforms: map<string, Categories>)
    requires forall q :: q in platforms <==>
               (q in attached && (q !in cat.categories || q in ticked)) || (q in cat.categories && q in ticked)
    requires forall q | q in platforms ::
               platforms[q] == if q in attached then attached[q] else Fresh(cat.categories[q], today)
    ensures platforms == EditPlatforms(cat, attached, ticked, today)
  {
    var edited := EditPlatforms(cat, attached, ticked, today);
    assert forall q :: q in platforms <==> q in edited;
    forall q | q in platforms ensures platforms[q] == edited[q] {
      if q in attached {
        assert q !in FreshPlatforms(cat, ticked - attached.Keys, today);
      }
    }
  }

  lemma UniformSnoc(cats: seq<string>, c: string, e: Entry)
    ensures Uniform(cats + [c], e) == Uniform(cats, e)[c := e]
  {
    assert forall d :: d in cats + [c] <==> d in cats || d == c;
  }

  /** Writes entry `e` into each category of `cats`, one after another. */
  method SetAll(entries: Categories, cats: seq<string>, e: Entry) returns (result: Categories)
    ensures result == entries + Uniform(cats, e)
  {
    result := entries;
    var i := 0;
    while i < |cats|
      invariant i <= |cats|
      invariant result == entries + Uniform(cats[..i], e)
    {
      UniformSnoc(cats[..i], cats[i], e);
      assert cats[..i + 1] == cats[..i] + [cats[i]];
      result := result[cats[i] := e];
      i := i + 1;
    }
    assert cats[..i] == cats;
  }

  /** One imported record, step by step: create the project, then the platform map, then write the cell. */
  method UpsertRow(ps: Projects, r: Row) returns (qs: Projects)
    ensures qs == ImportRow(ps, r)
  {
    qs := ps;
    ghost var base := if r.project in ps then ps[r.project] else Project(r.year, r.month, map[]);
    ghost var cats := if r.platform in base.platforms then base.platforms[r.platform] else map[];
    if r.project !in qs {
      qs := qs[r.project := Project(r.year, r.month, map[])];
    }
    assert qs == ps[r.project := base];
    if r.platform !in qs[r.project].platforms {
      qs := qs[r.project := qs[r.project].(platforms := qs[r.project].platforms[r.platform := map[]])];
    } else {
      assert base.platforms[r.platform := cats] == base.platforms;
    }
    assert qs == ps[r.project := base.(platforms := base.platforms[r.platform := cats])];
    var e := Entry(r.status, r.date);
    qs := WithEntry(qs, r.project, r.platform, r.category, e);
    assert base.platforms[r.platform := cats][r.platform := cats[r.category := e]]
        == base.platforms[r.platform := cats[r.category := e]];
  }

  class Tracker {
    var projects: Projects
    var catalog: Catalog

    ghost predicate Valid()
      reads this
    {
      catalog.Valid()
    }

    /** A tracker over the stored projects with the built-in catalog. */
    constructor (stored: Projects)
      ensures Valid()
      ensures projects == stored && catalog == Default
    {
      projects := stored;
      catalog := Default;
      DefaultValid();
    }

    /** Adds (or replaces) the project named by the stripped `rawName`, attaching the ticked catalog platforms. */
    method AddProject(rawName: string, year: int, month: string, ticked: set<string>, today: string)
      returns (err: Option<StoreError>)
      requires Valid()
      modifies this
      ensures Valid() && catalog == old(catalog)
      ensures Applied(ProjectStore.AddProject(old(projects), catalog, rawName, year, month, ticked, today), err, old(projects), projects)
      ensures Complete(old(projects), catalog) ==> Complete(projects, catalog)
    {
      ghost var before := projects;
      var name := Strip(rawName);
      if name == [] {
        return Some(EmptyName);
      }
      var selected := Filter(catalog.order, ticked);
      if selected == [] {
        assert forall q | q in catalog.order :: q !in ticked;
        return Some(NoPlatformSelected);
      }
      var platforms := AttachFresh(catalog, selected, today);
      assert (set q | q in selected) * catalog.categories.Keys == ticked * catalog.categories.Keys;
      projects := projects[name := Project(year, month, platforms)];
      if Complete(before, catalog) {
        ProjectChangesKeepComplete(before, catalog, rawName, year, month, ticked, today);
      }
      return None;
    }

    /**
     * Saves the edit dialog for the project named by the stripped `rawName`:
     * new year and month, then each catalog platform in order is attached
     * fresh when newly ticked or dropped when unticked.
     */
    method EditProject(rawName: string, year: int, month: string, ticked: set<string>, today: string)
      returns (err: Option<StoreError>)
      requires Valid()
      modifies this
      ensures Valid() && catalog == old(catalog)
      ensures Applied(ProjectStore.EditProject(old(projects), catalog, rawName, year, month, ticked, today), err, old(projects), projects)
      ensures Complete(old(projects), catalog) ==> Complete(projects, catalog)
    {
      ghost var before := projects;
      var name := Strip(rawName);
      if name !in projects {
        return Some(ProjectNotFound);
      }
      var attached := projects[name].platforms;
      var platforms := DiffPlatforms(catalog, attached, ticked, today);
      projects := projects[name := Project(year, month, platforms)];
      if Complete(before, catalog) {
        ProjectChangesKeepComplete(before, catalog, rawName, year, month, ticked, today);
      }
      return None;
    }

    /** Deletes the project named by the stripped `rawName` once the user confirms. */
    method DeleteProject(rawName: string, confirmed: bool) returns (err: Option<StoreError>)
      requires Valid()
      modifies this
      ensures Valid() && catalog == old(catalog)
      ensures Applied(ProjectStore.DeleteProject(old(projects), rawName, confirmed), err, old(projects), projects)
      ensures Complete(old(projects), catalog) ==> Complete(projects, catalog)
    {
      var name := Strip(rawName);
      if name !in projects {
        return Some(ProjectNotFound);
      }
      if confirmed {
        projects := projects - {name};
      }
      return None;
    }

    /** A click on a category cell: the cell takes the next status, dated today. */
    method CycleStatus(n: string, p: string, c: string, today: string) returns (err: Option<StoreError>)
      requires Valid()
      modifies this
      ensures Valid() && catalog == old(catalog)
      ensures Applied(ProjectStore.CycleStatus(old(projects), n, p, c, today), err, old(projects), projects)
      ensures Complete(old(projects), catalog) ==> Complete(projects, catalog)
    {
      if n !in projects {
        return Some(ProjectNotFound);
      }
      if p !in projects[n].platforms {
        return Some(PlatformNotAttached);
      }
      if Complete(projects, catalog) {
        StatusChangesKeepComplete(projects, catalog, n, p, c, NotUploaded, today);
      }
      var next := Next(GetStatus(projects, n, p, c));
      projects := WithEntry(projects, n, p, c, Entry(next, today));
      return None;
    }

    /** The context menu's Disable / Enable: the cell takes status `s`, dated today. */
    method SetStatus(n: string, p: string, c: string, s: Status, today: string) returns (err: Option<StoreError>)
      requires Valid()
      modifies this
      ensures Valid() && catalog == old(catalog)
      ensures Applied(ProjectStore.SetStatus(old(projects), n, p, c, s, today), err, old(projects), projects)
      ensures Complete(old(projects), catalog) ==> Complete(projects, catalog)
    {
      if n !in projects {
        return Some(ProjectNotFound);
      }
      if p !in projects[n].platforms {
        return Some(PlatformNotAttached);
      }
      if Complete(projects, catalog) {
        StatusChangesKeepComplete(projects, catalog, n, p, c, s, today);
      }
      projects := WithEntry(projects, n, p, c, Entry(s, today));
      return None;
    }

    /**
     * A click on a collapsed platform cell: every catalog category of the
     * platform, one after another, takes the successor of the first
     * category's status.
     */
    method CyclePlatformStatus(n: string, p: string, today: string) returns (err: Option<StoreError>)
      requires Valid()
      modifies this
      ensures Valid() && catalog == old(catalog)
      ensures Applied(ProjectStore.CyclePlatformStatus(old(projects), catalog, n, p, today), err, old(projects), projects)
      ensures Complete(old(projects), catalog) ==> Complete(projects, catalog)
    {
      if p !in catalog.categories {
        return Some(UnknownPlatform);
      }
      var cats := catalog.categories[p];
      if cats == [] {
        return Some(NoCategories);
      }
      var next := Next(GetStatus(projects, n, p, cats[0]));
      if n !in projects {
        return Some(ProjectNotFound);
      }
      if p !in projects[n].platforms {
        return Some(PlatformNotAttached);
      }
      if Complete(projects, catalog) {
        StatusChangesKeepComplete(projects, catalog, n, p, cats[0], NotUploaded, today);
      }
      var entries := SetAll(projects[n].platforms[p], cats, Entry(next, today));
      projects := projects[n := projects[n].(platforms := projects[n].platforms[p := entries])];
      return None;
    }

    /** Imports the records in order; each creates what it needs and overwrites its cell. */
    method ImportFromCsv(rows: seq<Row>)
      requires Valid()
      modifies this
      ensures Valid() && catalog == old(catalog)
      ensures projects == ImportRows(old(projects), rows)
    {
      ghost var before := projects;
      var i := 0;
      while i < |rows|
        invariant i <= |rows|
        invariant catalog == old(catalog)
        invariant projects == ImportRows(before, rows[..i])
      {
        projects := UpsertRow(projects, rows[i]);
        assert rows[..i + 1][..i] == rows[..i];
        assert ImportRows(before, rows[..i + 1]) == ImportRow(ImportRows(before, rows[..i]), rows[i]);
        i := i + 1;
      }
      assert rows[..i] == rows;
    }

    /**
     * Export: a record for every stored cell and no other, none twice;
     * importing those records back changes nothing, and importing them into
     * an empty store rebuilds every cell.
     */
    method ExportToCsv() returns (rows: seq<Row>)
      ensures forall r | r in rows :: Agrees(projects, r)
      ensures forall n, p, c | Lookup(projects, n, p, c).Some? :: RowFor(projects, n, p, c) in rows
      ensures NoRepeats(rows)
      ensures ImportRows(projects, rows) == projects
      ensures forall n, p, c :: Lookup(ImportRows(map[], rows), n, p, c) == Lookup(projects, n, p, c)
    {
      rows := ExportRows(projects);
      ImportAgreeingRowsIsIdentity(projects, rows);
      ExportImportRoundTrip(projects, rows);
    }

    /** Adds a platform to the catalog after the name, duplicate, category and colour checks. */
    method SaveNewPlatform(rawName: string, ticked: set<string>, color: string, colorValid: bool)
      returns (err: Option<PlatformError>)
      requires Valid()
      modifies this
      ensures Valid() && projects == old(projects)
      ensures match AddPlatform(old(catalog), rawName, ticked, color, colorValid)
              case Success(c) => err == None && catalog == c
              case Failure(e) => err == Some(e) && catalog == old(catalog)
    {
      var name := Strip(rawName);
      if name == [] {
        return Some(EmptyPlatformName);
      }
      if name in catalog.categories {
        return Some(DuplicatePlatform);
      }
      var selected := Filter(CategoryCodes, ticked);
      if selected == [] {
        assert forall k | k in CategoryCodes :: k !in ticked;
        return Some(NoCategoriesSelected);
      }
      if !colorValid {
        return Some(InvalidColor);
      }
      ExtendKeepsValid(catalog, name, selected, color);
      catalog := Extend(catalog, name, selected, color);
      return None;
    }

    /** The statistics panel: how many cells hold each status. */
    method Statistics() returns (counts: map<Status, nat>)
      ensures forall s: Status :: s in counts && counts[s] == Tally(projects)[s]
    {
      counts := CountStatuses(projects);
    }

    /** The matrix under the current filters. */
    method Matrix(f: Filters) returns (view: Option<seq<YearView>>)
      ensures view.None? <==> exists n | n in projects && Dated(projects[n]) :: MonthNumber(projects[n].month).None?
      ensures view.Some? ==> MatrixView.Matrix(projects, f, view.value)
    {
      view := UpdateMatrix(projects, f);
    }
  }
}
