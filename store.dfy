/**
 * The project store as values: a map from project name to its year, month and
 * per-platform category entries, and the effect of every store operation as a
 * function from the old store to the new one (or to the error that stops it).
 */
module ProjectStore {

  import opened Results
  import opened Text
  import opened StatusAlgebra
  import opened Catalogs

  /** One (project, platform, category) cell: its status and the date it last changed. */
  datatype Entry = Entry(status: Status, date: string)

  type Categories = map<string, Entry>

  /** A project: year and month are fields of their own, next to the platform maps. */
  datatype Project = Project(year: int, month: string, platforms: map<string, Categories>)

  type Projects = map<string, Project>

  datatype StoreError =
    | EmptyName            // the stripped project name is blank
    | NoPlatformSelected   // no catalog platform is ticked
    | ProjectNotFound      // no project of that name
    | PlatformNotAttached  // the project has no entry map for that platform
    | UnknownPlatform      // the platform is not in the catalog
    | NoCategories         // the catalog lists no category for the platform

  function Lookup(ps: Projects, n: string, p: string, c: string): Option<Entry>
  {
    if n in ps && p in ps[n].platforms && c in ps[n].platforms[p] then Some(ps[n].platforms[p][c]) else None
  }

  /**
   * The status of one cell. It never fails: a missing project, platform or
   * category reads as Not Uploaded.
   */
  function GetStatus(ps: Projects, n: string, p: string, c: string): (s: Status)
    ensures n in ps && p in ps[n].platforms && c in ps[n].platforms[p] ==> s == ps[n].platforms[p][c].status
    ensures !(n in ps && p in ps[n].platforms && c in ps[n].platforms[p]) ==> s == NotUploaded
  {
    match Lookup(ps, n, p, c)
    case Some(e) => e.status
    case None => NotUploaded
  }

  /** The same entry for every category in `cats`. */
  function Uniform(cats: seq<string>, e: Entry): (m: Categories)
    ensures m.Keys == set c | c in cats
    ensures forall c | c in m :: m[c] == e
  {
    map c | c in cats :: e
  }

  /** The entries a platform gets when it is attached to a project: every category Not Uploaded, dated today. */
  function Fresh(cats: seq<string>, today: string): Categories
  {
    Uniform(cats, Entry(NotUploaded, today))
  }

  /**
   * Fresh entry maps for the catalog platforms in `selected`: exactly the
   * selected platforms of the catalog list, each with exactly its catalog
   * categories, all Not Uploaded and dated today.
   */
  function FreshPlatforms(cat: Catalog, selected: set<string>, today: string): (m: map<string, Categories>)
    ensures m.Keys == selected * cat.categories.Keys
    ensures cat.Valid() ==> forall q :: q in m <==> q in cat.order && q in selected
    ensures forall q, c | q in m :: (c in m[q] <==> c in cat.categories[q])
    ensures forall q, c | q in m && c in m[q] :: m[q][c] == Entry(NotUploaded, today)
  {
    map q | q in selected && q in cat.categories :: Fresh(cat.categories[q], today)
  }

  /** The store with one cell replaced (the project and platform must exist; the category need not). */
  function WithEntry(ps: Projects, n: string, p: string, c: string, e: Entry): Projects
    requires n in ps && p in ps[n].platforms
  {
    ps[n := ps[n].(platforms := ps[n].platforms[p := ps[n].platforms[p][c := e]])]
  }

  /** `qs` differs from `ps` at most in the cell (n, p, c): same projects, years, months, platforms. */
  ghost predicate OnlyCellChanged(ps: Projects, qs: Projects, n: string, p: string, c: string)
  {
    && qs.Keys == ps.Keys
    && (forall m | m in ps ::
          qs[m].year == ps[m].year && qs[m].month == ps[m].month && qs[m].platforms.Keys == ps[m].platforms.Keys)
    && (forall m, q, d | m != n || q != p || d != c :: Lookup(qs, m, q, d) == Lookup(ps, m, q, d))
  }

  lemma WithEntryEffect(ps: Projects, n: string, p: string, c: string, e: Entry)
    requires n in ps && p in ps[n].platforms
    ensures Lookup(WithEntry(ps, n, p, c, e), n, p, c) == Some(e)
    ensures OnlyCellChanged(ps, WithEntry(ps, n, p, c, e), n, p, c)
  {
  }

  lemma OnlyCellChangedTransitive(ps: Projects, qs: Projects, rs: Projects, n: string, p: string, c: string)
    requires OnlyCellChanged(ps, qs, n, p, c) && OnlyCellChanged(qs, rs, n, p, c)
    ensures OnlyCellChanged(ps, rs, n, p, c)
  {
  }

  // ---------------------------------------------------------------- status changes

  /**
   * Clicking a cell: the cell gets the successor of its current status (a
   * missing category counts as Not Uploaded and is created). Raises when the
   * project or the platform map is missing.
   */
  function CycleStatus(ps: Projects, n: string, p: string, c: string, today: string): (r: Result<Projects, StoreError>)
    ensures n !in ps <==> r == Failure(ProjectNotFound)
    ensures n in ps && p !in ps[n].platforms <==> r == Failure(PlatformNotAttached)
    ensures r.Success? ==> Lookup(r.value, n, p, c) == Some(Entry(Next(GetStatus(ps, n, p, c)), today))
    ensures r.Success? ==> OnlyCellChanged(ps, r.value, n, p, c)
  {
    if n !in ps then Failure(ProjectNotFound)
    else if p !in ps[n].platforms then Failure(PlatformNotAttached)
    else
      WithEntryEffect(ps, n, p, c, Entry(Next(GetStatus(ps, n, p, c)), today));
      Success(WithEntry(ps, n, p, c, Entry(Next(GetStatus(ps, n, p, c)), today)))
  }

  /** `k` clicks on the same cell; any click fails as the first does when the project or platform map is missing. */
  function CycleTimes(ps: Projects, n: string, p: string, c: string, today: string, k: nat)
    : (r: Result<Projects, StoreError>)
    ensures k > 0 && n !in ps ==> r == Failure(ProjectNotFound)
    ensures k > 0 && n in ps && p !in ps[n].platforms ==> r == Failure(PlatformNotAttached)
  {
    if k == 0 then Success(ps)
    else match CycleTimes(ps, n, p, c, today, k - 1)
      case Failure(e) => Failure(e)
      case Success(qs) => CycleStatus(qs, n, p, c, today)
  }

  /** One more click after changes confined to the cell: still confined to it, one step further. */
  lemma CycleStepEffect(ps: Projects, qs: Projects, n: string, p: string, c: string, today: string)
    requires n in ps && p in ps[n].platforms && OnlyCellChanged(ps, qs, n, p, c)
    ensures CycleStatus(qs, n, p, c, today).Success?
    ensures GetStatus(CycleStatus(qs, n, p, c, today).value, n, p, c) == Next(GetStatus(qs, n, p, c))
    ensures OnlyCellChanged(ps, CycleStatus(qs, n, p, c, today).value, n, p, c)
  {
    assert n in qs && p in qs[n].platforms;
    OnlyCellChangedTransitive(ps, qs, CycleStatus(qs, n, p, c, today).value, n, p, c);
  }

  lemma OnlyCellChangedReflexive(ps: Projects, n: string, p: string, c: string)
    ensures OnlyCellChanged(ps, ps, n, p, c)
  {
  }

  lemma {:induction false} CycleTimesEffect(ps: Projects, n: string, p: string, c: string, today: string, k: nat)
    requires n in ps && p in ps[n].platforms
    ensures CycleTimes(ps, n, p, c, today, k).Success?
    ensures GetStatus(CycleTimes(ps, n, p, c, today, k).value, n, p, c) == NextN(GetStatus(ps, n, p, c), k)
    ensures OnlyCellChanged(ps, CycleTimes(ps, n, p, c, today, k).value, n, p, c)
  {
    if k == 0 {
      OnlyCellChangedReflexive(ps, n, p, c);
    } else {
      CycleTimesEffect(ps, n, p, c, today, k - 1);
      var qs := CycleTimes(ps, n, p, c, today, k - 1).value;
      CycleStepEffect(ps, qs, n, p, c, today);
      assert NextN(GetStatus(ps, n, p, c), k) == Next(NextN(GetStatus(ps, n, p, c), k - 1));
    }
  }

  /** Five clicks on a cell bring back its status and change no other cell. */
  lemma CycleFiveTimesRestores(ps: Projects, n: string, p: string, c: string, today: string)
    requires n in ps && p in ps[n].platforms
    ensures CycleTimes(ps, n, p, c, today, 5).Success?
    ensures GetStatus(CycleTimes(ps, n, p, c, today, 5).value, n, p, c) == GetStatus(ps, n, p, c)
    ensures OnlyCellChanged(ps, CycleTimes(ps, n, p, c, today, 5).value, n, p, c)
  {
    CycleTimesEffect(ps, n, p, c, today, 5);
    CycleLengthIsFive(GetStatus(ps, n, p, c), 1);
  }

  /** Disable/Enable from the context menu: the cell gets `s` directly, with no cycling. */
  function SetStatus(ps: Projects, n: string, p: string, c: string, s: Status, today: string): (r: Result<Projects, StoreError>)
    ensures n !in ps <==> r == Failure(ProjectNotFound)
    ensures n in ps && p !in ps[n].platforms <==> r == Failure(PlatformNotAttached)
    ensures r.Success? ==> Lookup(r.value, n, p, c) == Some(Entry(s, today))
    ensures r.Success? ==> OnlyCellChanged(ps, r.value, n, p, c)
  {
    if n !in ps then Failure(ProjectNotFound)
    else if p !in ps[n].platforms then Failure(PlatformNotAttached)
    else
      WithEntryEffect(ps, n, p, c, Entry(s, today));
      Success(WithEntry(ps, n, p, c, Entry(s, today)))
  }

  /** The statuses of a platform's catalog categories, in catalog order, as `get_status` reads them. */
  function PlatformStatuses(ps: Projects, cat: Catalog, n: string, p: string): (r: seq<Status>)
    requires p in cat.categories
    ensures |r| == |cat.categories[p]|
    ensures forall i | 0 <= i < |r| :: r[i] == GetStatus(ps, n, p, cat.categories[p][i])
    ensures forall s :: s in r <==> exists c | c in cat.categories[p] :: GetStatus(ps, n, p, c) == s
    ensures forall c | c in cat.categories[p] :: GetStatus(ps, n, p, c) in r
  {
    seq(|cat.categories[p]|, i requires 0 <= i < |cat.categories[p]| => GetStatus(ps, n, p, cat.categories[p][i]))
  }

  /**
   * What a collapsed platform column shows for a project: Uploaded when every
   * catalog category reads Uploaded, Rejected when any reads Rejected, else
   * Pending when any reads Pending, Disabled when there are categories and all
   * read Disabled, and Not Uploaded otherwise.
   */
  function PlatformRollup(ps: Projects, cat: Catalog, n: string, p: string): (r: Status)
    requires p in cat.categories
    ensures r == Uploaded <==> forall c | c in cat.categories[p] :: GetStatus(ps, n, p, c) == Uploaded
    ensures r == Rejected <==> exists c | c in cat.categories[p] :: GetStatus(ps, n, p, c) == Rejected
    ensures r == Pending <==>
              && (exists c | c in cat.categories[p] :: GetStatus(ps, n, p, c) == Pending)
              && (forall c | c in cat.categories[p] :: GetStatus(ps, n, p, c) != Rejected)
    ensures r == Disabled <==>
              cat.categories[p] != [] && forall c | c in cat.categories[p] :: GetStatus(ps, n, p, c) == Disabled
  {
    Rollup(PlatformStatuses(ps, cat, n, p))
  }

  /**
   * Clicking a collapsed platform cell: every catalog category of the platform
   * gets one and the same status, the successor of the FIRST category's
   * current status (not of the status the collapsed cell shows).
   */
  function CyclePlatformStatus(ps: Projects, cat: Catalog, n: string, p: string, today: string)
    : (r: Result<Projects, StoreError>)
    ensures p !in cat.categories <==> r == Failure(UnknownPlatform)
    ensures p in cat.categories && cat.categories[p] == [] <==> r == Failure(NoCategories)
    ensures p in cat.categories && cat.categories[p] != [] && n !in ps <==> r == Failure(ProjectNotFound)
    ensures p in cat.categories && cat.categories[p] != [] && n in ps && p !in ps[n].platforms
            <==> r == Failure(PlatformNotAttached)
  {
    if p !in cat.categories then Failure(UnknownPlatform)
    else if cat.categories[p] == [] then Failure(NoCategories)
    else if n !in ps then Failure(ProjectNotFound)
    else if p !in ps[n].platforms then Failure(PlatformNotAttached)
    else
      var next := Next(GetStatus(ps, n, p, cat.categories[p][0]));
      Success(ps[n := ps[n].(platforms := ps[n].platforms[p := ps[n].platforms[p] + Uniform(cat.categories[p], Entry(next, today))])])
  }

  /**
   * After a successful platform click every catalog category of the platform
   * holds the successor of the first category's old status; categories outside
   * the catalog list, other platforms and other projects are unchanged.
   */
  lemma PlatformClickCells(ps: Projects, cat: Catalog, n: string, p: string, today: string)
    requires CyclePlatformStatus(ps, cat, n, p, today).Success?
    ensures var qs := CyclePlatformStatus(ps, cat, n, p, today).value;
            var next := Next(GetStatus(ps, n, p, cat.categories[p][0]));
            && (forall c | c in cat.categories[p] :: Lookup(qs, n, p, c) == Some(Entry(next, today)))
            && qs.Keys == ps.Keys
            && (forall m | m in ps ::
                  qs[m].year == ps[m].year && qs[m].month == ps[m].month && qs[m].platforms.Keys == ps[m].platforms.Keys)
            && (forall m, q, d | m != n || q != p || d !in cat.categories[p] :: Lookup(qs, m, q, d) == Lookup(ps, m, q, d))
  {
    var qs := CyclePlatformStatus(ps, cat, n, p, today).value;
    var next := Next(GetStatus(ps, n, p, cat.categories[p][0]));
    var written := ps[n].platforms[p] + Uniform(cat.categories[p], Entry(next, today));
    var pr := ps[n].(platforms := ps[n].platforms[p := written]);
    assert qs == ps[n := pr];
    PutProjectLookup(ps, n, pr);
    OverwriteCategories(ps[n].platforms[p], cat.categories[p], Entry(next, today));
  }

  /**
   * After a successful platform click every catalog category of the platform
   * holds the successor of the first category's old status, so they are all
   * equal and the collapsed cell shows that status; categories outside the
   * catalog list, other platforms and other projects are unchanged.
   */
  lemma CyclePlatformStatusEffect(ps: Projects, cat: Catalog, n: string, p: string, today: string)
    requires CyclePlatformStatus(ps, cat, n, p, today).Success?
    ensures var qs := CyclePlatformStatus(ps, cat, n, p, today).value;
            var next := Next(GetStatus(ps, n, p, cat.categories[p][0]));
            && (forall c | c in cat.categories[p] :: Lookup(qs, n, p, c) == Some(Entry(next, today)))
            && PlatformRollup(qs, cat, n, p) == next
            && qs.Keys == ps.Keys
            && (forall m | m in ps ::
                  qs[m].year == ps[m].year && qs[m].month == ps[m].month && qs[m].platforms.Keys == ps[m].platforms.Keys)
            && (forall m, q, d | m != n || q != p || d !in cat.categories[p] :: Lookup(qs, m, q, d) == Lookup(ps, m, q, d))
  {
    var qs := CyclePlatformStatus(ps, cat, n, p, today).value;
    var next := Next(GetStatus(ps, n, p, cat.categories[p][0]));
    PlatformClickCells(ps, cat, n, p, today);
    UniformPlatformRollup(qs, cat, n, p, Entry(next, today));
  }

  /** Overwriting the categories `cats` with entry `e` sets exactly those and keeps the others. */
  lemma OverwriteCategories(entries: Categories, cats: seq<string>, e: Entry)
    ensures var written := entries + Uniform(cats, e);
            && (forall c | c in cats :: c in written && written[c] == e)
            && (forall c | c !in cats :: (c in written <==> c in entries) && (c in entries ==> written[c] == entries[c]))
  {
  }

  /** When every catalog category of a platform holds the same entry, the collapsed cell shows its status. */
  lemma UniformPlatformRollup(ps: Projects, cat: Catalog, n: string, p: string, e: Entry)
    requires p in cat.categories && cat.categories[p] != []
    requires forall c | c in cat.categories[p] :: Lookup(ps, n, p, c) == Some(e)
    ensures PlatformRollup(ps, cat, n, p) == e.status
  {
    var statuses := PlatformStatuses(ps, cat, n, p);
    forall s | s in statuses
      ensures s == e.status
    {
      var i :| 0 <= i < |statuses| && statuses[i] == s;
      assert cat.categories[p][i] in cat.categories[p];
    }
    RollupUniform(statuses, e.status);
  }

  /**
   * The status a platform click writes need not follow the status the
   * collapsed cell shows: with categories Uploaded and Pending the cell shows
   * Pending, whose successor is Rejected, but the click writes Not Uploaded,
   * the successor of the first category's Uploaded.
   */
  lemma CyclePlatformFollowsFirstCategory(today: string)
    ensures var cat := Catalog(["Pond5"], map["Pond5" := ["AET", "PPT"]], map["Pond5" := "#FFF0F8"]);
            var ps := map["Intro" := Project(2024, "May", map["Pond5" := map["AET" := Entry(Uploaded, today), "PPT" := Entry(Pending, today)]])];
            var r := CyclePlatformStatus(ps, cat, "Intro", "Pond5", today);
            && PlatformRollup(ps, cat, "Intro", "Pond5") == Pending
            && r.Success?
            && Lookup(r.value, "Intro", "Pond5", "AET") == Some(Entry(NotUploaded, today))
            && Next(PlatformRollup(ps, cat, "Intro", "Pond5")) == Rejected
  {
    var cat := Catalog(["Pond5"], map["Pond5" := ["AET", "PPT"]], map["Pond5" := "#FFF0F8"]);
    var ps := map["Intro" := Project(2024, "May", map["Pond5" := map["AET" := Entry(Uploaded, today), "PPT" := Entry(Pending, today)]])];
    var statuses := PlatformStatuses(ps, cat, "Intro", "Pond5");
    assert statuses == [Uploaded, Pending];
  }

  // ---------------------------------------------------------------- adding, editing, deleting

  /**
   * Adding a project. Blank stripped name or no ticked catalog platform: nothing
   * happens. Otherwise the name gets a new record with the given year and month
   * and a fresh entry map for each ticked catalog platform; an existing project
   * of that name is replaced, since there is no duplicate check.
   */
  function AddProject(ps: Projects, cat: Catalog, rawName: string, year: int, month: string,
                      ticked: set<string>, today: string): (r: Result<Projects, StoreError>)
    requires cat.Valid()
    ensures Strip(rawName) == [] <==> r == Failure(EmptyName)
    ensures Strip(rawName) != [] && (forall q | q in cat.order :: q !in ticked) <==> r == Failure(NoPlatformSelected)
  {
    var name := Strip(rawName);
    var selected := Filter(cat.order, ticked);
    assert selected != [] ==> selected[0] in selected;
    if name == [] then Failure(EmptyName)
    else if selected == [] then Failure(NoPlatformSelected)
    else Success(ps[name := Project(year, month, FreshPlatforms(cat, ticked, today))])
  }

  /** A successful add stores the new project under the stripped name. */
  lemma AddProjectValue(ps: Projects, cat: Catalog, rawName: string, year: int, month: string,
                        ticked: set<string>, today: string)
    requires cat.Valid()
    requires AddProject(ps, cat, rawName, year, month, ticked, today).Success?
    ensures AddProject(ps, cat, rawName, year, month, ticked, today).value
            == ps[Strip(rawName) := Project(year, month, FreshPlatforms(cat, ticked, today))]
  {
  }

  /** The cells of a new project on its own: each catalog category of each attached platform, Not Uploaded. */
  lemma FreshProjectCells(cat: Catalog, name: string, year: int, month: string, ticked: set<string>, today: string)
    ensures var one := map[name := Project(year, month, FreshPlatforms(cat, ticked, today))];
            forall q, c | q in one[name].platforms ::
              && (c in cat.categories[q] <==> Lookup(one, name, q, c).Some?)
              && (c in cat.categories[q] ==> Lookup(one, name, q, c) == Some(Entry(NotUploaded, today)))
  {
  }

  /** After storing `pr` under `name`, the cells of `name` are those of `pr`, whatever else the store holds. */
  lemma PutProjectLookup(ps: Projects, name: string, pr: Project)
    ensures forall q, c :: Lookup(ps[name := pr], name, q, c) == Lookup(map[name := pr], name, q, c)
  {
  }

  /**
   * What a successful add leaves: exactly one more or one replaced project,
   * carrying the given year and month and exactly the ticked catalog platforms,
   * each with every catalog category Not Uploaded and dated today, and nothing
   * else; every other project unchanged.
   */
  lemma AddProjectEffect(ps: Projects, cat: Catalog, rawName: string, year: int, month: string,
                         ticked: set<string>, today: string)
    requires cat.Valid()
    requires AddProject(ps, cat, rawName, year, month, ticked, today).Success?
    ensures var qs := AddProject(ps, cat, rawName, year, month, ticked, today).value;
            var name := Strip(rawName);
            && qs.Keys == ps.Keys + {name}
            && qs[name].year == year && qs[name].month == month
            && (forall q :: q in qs[name].platforms <==> q in cat.order && q in ticked)
            && (forall q, c | q in qs[name].platforms ::
                  (c in cat.categories[q] <==> Lookup(qs, name, q, c).Some?)
                  && (c in cat.categories[q] ==> Lookup(qs, name, q, c) == Some(Entry(NotUploaded, today))))
            && (forall m | m in ps && m != name :: qs[m] == ps[m])
  {
    var name := Strip(rawName);
    var added := FreshPlatforms(cat, ticked, today);
    AddProjectValue(ps, cat, rawName, year, month, ticked, today);
    PutProjectLookup(ps, name, Project(year, month, added));
    FreshProjectCells(cat, name, year, month, ticked, today);
  }

  /**
   * The platforms of an edited project: a ticked catalog platform that was
   * attached keeps its entries untouched, a ticked one that was not gets fresh
   * entries, an unticked catalog platform is dropped, and a platform outside
   * the catalog is kept as it was.
   */
  function EditPlatforms(cat: Catalog, attached: map<string, Categories>, ticked: set<string>, today: string)
    : (r: map<string, Categories>)
    ensures forall q | q in cat.categories && q in ticked && q in attached :: q in r && r[q] == attached[q]
    ensures forall q | q in cat.categories && q in ticked && q !in attached :: q in r && r[q] == Fresh(cat.categories[q], today)
    ensures forall q | q in cat.categories && q !in ticked :: q !in r
    ensures forall q | q !in cat.categories :: (q in r <==> q in attached) && (q in attached ==> r[q] == attached[q])
  {
    (map q | q in attached && (q !in cat.categories || q in ticked) :: attached[q])
      + FreshPlatforms(cat, ticked - attached.Keys, today)
  }

  /**
   * Saving the edit dialog: unknown (stripped) name fails and nothing changes;
   * otherwise year and month are overwritten and the platforms diffed against
   * the ticked catalog platforms.
   */
  function EditProject(ps: Projects, cat: Catalog, rawName: string, year: int, month: string,
                       ticked: set<string>, today: string): (r: Result<Projects, StoreError>)
    ensures Strip(rawName) !in ps <==> r == Failure(ProjectNotFound)
    ensures r.Success? ==> r.value.Keys == ps.Keys
  {
    var name := Strip(rawName);
    if name !in ps then Failure(ProjectNotFound)
    else Success(ps[name := Project(year, month, EditPlatforms(cat, ps[name].platforms, ticked, today))])
  }

  /**
   * After a successful edit: the new year and month; a ticked catalog platform
   * that was attached keeps its entries untouched; a ticked one that was not
   * gets fresh Not Uploaded entries; an unticked catalog platform is gone; a
   * platform outside the catalog is kept; every other project is unchanged.
   */
  lemma EditProjectEffect(ps: Projects, cat: Catalog, rawName: string, year: int, month: string,
                          ticked: set<string>, today: string)
    requires EditProject(ps, cat, rawName, year, month, ticked, today).Success?
    ensures var qs := EditProject(ps, cat, rawName, year, month, ticked, today).value;
            var name := Strip(rawName);
            var before := ps[name].platforms;
            var after := qs[name].platforms;
            && qs[name].year == year && qs[name].month == month
            && (forall q | q in cat.categories && q in ticked && q in before :: q in after && after[q] == before[q])
            && (forall q | q in cat.categories && q in ticked && q !in before ::
                  q in after && after[q] == Fresh(cat.categories[q], today))
            && (forall q | q in cat.categories && q !in ticked :: q !in after)
            && (forall q | q !in cat.categories :: (q in after <==> q in before) && (q in before ==> after[q] == before[q]))
            && (forall m | m in ps && m != name :: qs[m] == ps[m])
  {
  }

  /**
   * Unticking a platform and saving, then ticking it again and saving, leaves
   * it with fresh Not Uploaded entries: its earlier statuses are not kept.
   */
  lemma EditDetachThenReattach(ps: Projects, cat: Catalog, rawName: string, year: int, month: string,
                               ticked: set<string>, q: string, today: string)
    requires Strip(rawName) in ps && q in cat.categories
    ensures var once := EditProject(ps, cat, rawName, year, month, ticked - {q}, today);
            && once.Success?
            && var twice := EditProject(once.value, cat, rawName, year, month, ticked + {q}, today);
            && twice.Success?
            && q in twice.value[Strip(rawName)].platforms
            && twice.value[Strip(rawName)].platforms[q] == Fresh(cat.categories[q], today)
  {
    var name := Strip(rawName);
    var once := EditProject(ps, cat, rawName, year, month, ticked - {q}, today).value;
    assert q !in once[name].platforms;
  }

  /** Deleting: unknown (stripped) name fails; otherwise the project is removed when the user confirms. */
  function DeleteProject(ps: Projects, rawName: string, confirmed: bool): (r: Result<Projects, StoreError>)
    ensures Strip(rawName) !in ps <==> r == Failure(ProjectNotFound)
    ensures r.Success? && confirmed ==> r.value == ps - {Strip(rawName)}
    ensures r.Success? && !confirmed ==> r.value == ps
  {
    var name := Strip(rawName);
    if name !in ps then Failure(ProjectNotFound)
    else if confirmed then Success(ps - {name})
    else Success(ps)
  }

  // ---------------------------------------------------------------- the completeness invariant

  /** Every catalog platform attached to a project has an entry for each of its catalog categories. */
  ghost predicate Complete(ps: Projects, cat: Catalog)
  {
    forall n, q, c | n in ps && q in ps[n].platforms && q in cat.categories && c in cat.categories[q] ::
      c in ps[n].platforms[q]
  }

  /** Changing a single cell never removes an entry, so completeness is kept. */
  lemma CellChangeKeepsComplete(ps: Projects, qs: Projects, cat: Catalog, n: string, p: string, c: string)
    requires Complete(ps, cat) && OnlyCellChanged(ps, qs, n, p, c) && Lookup(qs, n, p, c).Some?
    ensures Complete(qs, cat)
  {
    forall m, q, d | m in qs && q in qs[m].platforms && q in cat.categories && d in cat.categories[q]
      ensures d in qs[m].platforms[q]
    {
      if m != n || q != p || d != c {
        assert Lookup(ps, m, q, d).Some?;
      }
    }
  }

  /** A platform click writes every catalog category of the platform and nothing else, so completeness is kept. */
  lemma PlatformClickKeepsComplete(ps: Projects, cat: Catalog, n: string, p: string, today: string)
    requires Complete(ps, cat)
    ensures var r := CyclePlatformStatus(ps, cat, n, p, today); r.Success? ==> Complete(r.value, cat)
  {
    var r := CyclePlatformStatus(ps, cat, n, p, today);
    if r.Success? {
      CyclePlatformStatusEffect(ps, cat, n, p, today);
      forall m, q, d | m in r.value && q in r.value[m].platforms && q in cat.categories && d in cat.categories[q]
        ensures d in r.value[m].platforms[q]
      {
        if m != n || q != p {
          assert Lookup(ps, m, q, d).Some?;
        }
        assert Lookup(r.value, m, q, d).Some?;
      }
    }
  }

  /** Clicking a cell, setting a cell and clicking a collapsed platform all keep completeness. */
  lemma StatusChangesKeepComplete(ps: Projects, cat: Catalog, n: string, p: string, c: string, s: Status, today: string)
    requires Complete(ps, cat)
    ensures var r := CycleStatus(ps, n, p, c, today); r.Success? ==> Complete(r.value, cat)
    ensures var r := SetStatus(ps, n, p, c, s, today); r.Success? ==> Complete(r.value, cat)
    ensures var r := CyclePlatformStatus(ps, cat, n, p, today); r.Success? ==> Complete(r.value, cat)
  {
    var r := CycleStatus(ps, n, p, c, today);
    if r.Success? {
      CellChangeKeepsComplete(ps, r.value, cat, n, p, c);
    }
    var r2 := SetStatus(ps, n, p, c, s, today);
    if r2.Success? {
      CellChangeKeepsComplete(ps, r2.value, cat, n, p, c);
    }
    PlatformClickKeepsComplete(ps, cat, n, p, today);
  }

  /** Storing a project whose platforms are fresh catalog platforms keeps completeness. */
  lemma PutFreshKeepsComplete(ps: Projects, cat: Catalog, name: string, year: int, month: string,
                              ticked: set<string>, today: string)
    requires Complete(ps, cat)
    ensures Complete(ps[name := Project(year, month, FreshPlatforms(cat, ticked, today))], cat)
  {
    var qs := ps[name := Project(year, month, FreshPlatforms(cat, ticked, today))];
    forall m, q, d | m in qs && q in qs[m].platforms && q in cat.categories && d in cat.categories[q]
      ensures d in qs[m].platforms[q]
    {
      if m == name {
        assert qs[m].platforms == FreshPlatforms(cat, ticked, today);
      }
    }
  }

  /** A successful add keeps completeness: the new project gets every catalog category of each ticked platform. */
  lemma AddKeepsComplete(ps: Projects, cat: Catalog, rawName: string, year: int, month: string,
                         ticked: set<string>, today: string)
    requires cat.Valid() && Complete(ps, cat)
    ensures var r := AddProject(ps, cat, rawName, year, month, ticked, today); r.Success? ==> Complete(r.value, cat)
  {
    if AddProject(ps, cat, rawName, year, month, ticked, today).Success? {
      AddProjectValue(ps, cat, rawName, year, month, ticked, today);
      PutFreshKeepsComplete(ps, cat, Strip(rawName), year, month, ticked, today);
    }
  }

  /** A successful edit keeps completeness: a platform is either kept whole or attached fresh. */
  lemma EditKeepsComplete(ps: Projects, cat: Catalog, rawName: string, year: int, month: string,
                          ticked: set<string>, today: string)
    requires Complete(ps, cat)
    ensures var r := EditProject(ps, cat, rawName, year, month, ticked, today); r.Success? ==> Complete(r.value, cat)
  {
    var r := EditProject(ps, cat, rawName, year, month, ticked, today);
    if r.Success? {
      var name := Strip(rawName);
      var before := ps[name].platforms;
      var after := EditPlatforms(cat, before, ticked, today);
      assert r.value == ps[name := Project(year, month, after)];
      forall m, q, d | m in r.value && q in r.value[m].platforms && q in cat.categories && d in cat.categories[q]
        ensures d in r.value[m].platforms[q]
      {
        if m == name {
          if q in before {
            assert after[q] == before[q];
          } else {
            assert after[q] == Fresh(cat.categories[q], today);
          }
        }
      }
    }
  }

  /** Adding, editing and deleting projects keep completeness. */
  lemma ProjectChangesKeepComplete(ps: Projects, cat: Catalog, rawName: string, year: int, month: string,
                                   ticked: set<string>, today: string)
    requires cat.Valid() && Complete(ps, cat)
    ensures var r := AddProject(ps, cat, rawName, year, month, ticked, today); r.Success? ==> Complete(r.value, cat)
    ensures var r := EditProject(ps, cat, rawName, year, month, ticked, today); r.Success? ==> Complete(r.value, cat)
    ensures var r := DeleteProject(ps, rawName, true); r.Success? ==> Complete(r.value, cat)
  {
    AddKeepsComplete(ps, cat, rawName, year, month, ticked, today);
    EditKeepsComplete(ps, cat, rawName, year, month, ticked, today);
  }
}
