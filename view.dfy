/**
 * What the matrix shows: which projects pass the search, platform and status
 * filters; the grouping of projects by year and month; the orders of years,
 * months and names; and the resulting year / month / project tree.
 */
module MatrixView {

  import opened Results
  import opened Text
  import opened StatusAlgebra
  import opened ProjectStore

  // ---------------------------------------------------------------- filters

  datatype PlatformFilter = AllPlatforms | OnlyPlatform(platform: string)

  datatype StatusFilter = AllStatuses | OnlyStatus(status: Status)

  datatype Filters = Filters(search: string, platform: PlatformFilter, status: StatusFilter)

  predicate PlatformPasses(f: PlatformFilter, q: string)
  {
    f.AllPlatforms? || f.platform == q
  }

  /** Some category of some platform admitted by `pf` holds status `s`. */
  ghost predicate HasStatus(pr: Project, pf: PlatformFilter, s: Status)
  {
    exists q, c | q in pr.platforms && c in pr.platforms[q] :: PlatformPasses(pf, q) && pr.platforms[q][c].status == s
  }

  /**
   * A project row is shown exactly when the lower-cased search text occurs in
   * the lower-cased name, the platform filter is off or the project has that
   * platform, and the status filter is off or some category of some platform
   * the platform filter admits has that status.
   */
  ghost predicate Shown(ps: Projects, n: string, f: Filters)
    requires n in ps
  {
    && Contains(Lower(n), Lower(f.search))
    && (f.platform.OnlyPlatform? ==> f.platform.platform in ps[n].platforms)
    && (f.status.OnlyStatus? ==> HasStatus(ps[n], f.platform, f.status.status))
  }

  /** The filter test, scanning platforms and categories until a match is found. */
  method ShouldShowProject(ps: Projects, n: string, f: Filters) returns (show: bool)
    requires n in ps
    ensures show == Shown(ps, n, f)
  {
    if !Contains(Lower(n), Lower(f.search)) {
      return false;
    }
    if f.platform.OnlyPlatform? && f.platform.platform !in ps[n].platforms {
      return false;
    }
    if f.status.OnlyStatus? {
      var target := f.status.status;
      var pr := ps[n];
      var found := false;
      var platforms := pr.platforms.Keys;
      while platforms != {} && !found
        invariant platforms <= pr.platforms.Keys
        invariant found ==> HasStatus(pr, f.platform, target)
        invariant !found ==> forall q, c | q in pr.platforms && q !in platforms && c in pr.platforms[q] && PlatformPasses(f.platform, q) ::
                               pr.platforms[q][c].status != target
        decreases |platforms|
      {
        var q :| q in platforms;
        if PlatformPasses(f.platform, q) {
          var categories := pr.platforms[q].Keys;
          while categories != {} && !found
            invariant categories <= pr.platforms[q].Keys
            invariant found ==> HasStatus(pr, f.platform, target)
            invariant !found ==> forall c | c in pr.platforms[q] && c !in categories :: pr.platforms[q][c].status != target
            decreases |categories|
          {
            var c :| c in categories;
            if GetStatus(ps, n, q, c) == target {
              found := true;
            }
            categories := categories - {c};
          }
        }
        platforms := platforms - {q};
      }
      if !found {
        return false;
      }
    }
    return true;
  }

  // ---------------------------------------------------------------- grouping

  /** Year and month are both set (Python-truthy: a non-zero year and a non-empty month). */
  predicate Dated(pr: Project)
  {
    pr.year != 0 && pr.month != ""
  }

  ghost predicate InGroup(ps: Projects, n: string, y: int, m: string)
  {
    n in ps && Dated(ps[n]) && ps[n].year == y && ps[n].month == m
  }

  /**
   * `months` is the month grouping of year `y`: every member of a month group
   * is a dated project of that year and month, every dated project of year `y`
   * is in the group of its month, and no group is empty.
   */
  ghost predicate GroupOf(ps: Projects, y: int, months: map<string, set<string>>)
  {
    && (forall m, n | m in months && n in months[m] :: InGroup(ps, n, y, m))
    && (forall n | n in ps && Dated(ps[n]) && ps[n].year == y :: ps[n].month in months && n in months[ps[n].month])
    && (forall m | m in months :: months[m] != {})
    && months != map[]
  }

  /** Name `n` is in the group of year `y` and month `m`. */
  ghost predicate Member(g: map<int, map<string, set<string>>>, y: int, m: string, n: string)
  {
    y in g && m in g[y] && n in g[y][m]
  }

  /** Every year of `g` has a month, and every month group has a name. */
  ghost predicate NoEmptyGroups(g: map<int, map<string, set<string>>>)
  {
    && (forall y | y in g :: g[y] != map[])
    && (forall y, m | y in g && m in g[y] :: g[y][m] != {})
  }

  /** `g` with `n` added to the group of year `y` and month `m`, creating the groups as needed. */
  function Insert(g: map<int, map<string, set<string>>>, y: int, m: string, n: string)
    : map<int, map<string, set<string>>>
  {
    var months := if y in g then g[y] else map[];
    var names := if m in months then months[m] else {};
    g[y := months[m := names + {n}]]
  }

  lemma InsertEffect(g: map<int, map<string, set<string>>>, y: int, m: string, n: string)
    ensures var h := Insert(g, y, m, n);
            && (forall y', m', x :: Member(h, y', m', x) <==> Member(g, y', m', x) || (y' == y && m' == m && x == n))
            && (NoEmptyGroups(g) ==> NoEmptyGroups(h))
  {
    var h := Insert(g, y, m, n);
    assert m in h[y];
  }

  /**
   * Projects grouped by year, then month. Every dated project is in the group
   * of its own year and month, every group member is a dated project of that
   * year and month, and there are no empty groups; undated projects are in no
   * group.
   */
  method GroupByYearMonth(ps: Projects) returns (g: map<int, map<string, set<string>>>)
    ensures forall n | n in ps && Dated(ps[n]) :: ps[n].year in g
    ensures forall y | y in g :: GroupOf(ps, y, g[y])
  {
    g := map[];
    var rest := ps.Keys;
    while rest != {}
      invariant rest <= ps.Keys
      invariant forall n | n in ps && n !in rest && Dated(ps[n]) :: Member(g, ps[n].year, ps[n].month, n)
      invariant forall y, m, n :: Member(g, y, m, n) ==> InGroup(ps, n, y, m)
      invariant NoEmptyGroups(g)
      decreases |rest|
    {
      var n :| n in rest;
      var pr := ps[n];
      if pr.year != 0 && pr.month != "" {
        InsertEffect(g, pr.year, pr.month, n);
        g := Insert(g, pr.year, pr.month, n);
      }
      rest := rest - {n};
    }
    forall y | y in g
      ensures GroupOf(ps, y, g[y])
    {
      forall m, n | m in g[y] && n in g[y][m]
        ensures InGroup(ps, n, y, m)
      {
        assert Member(g, y, m, n);
      }
    }
  }

  // ---------------------------------------------------------------- orders

  ghost predicate NoDuplicates<T>(r: seq<T>)
  {
    forall i, j | 0 <= i < j < |r| :: r[i] != r[j]
  }

  /** The elements of `s`, each once, in non-increasing order of `key` (selection of the largest first). */
  method SortDescendingBy<T(==)>(s: set<T>, key: T -> int) returns (r: seq<T>)
    ensures forall x :: x in r <==> x in s
    ensures NoDuplicates(r)
    ensures forall i, j | 0 <= i < j < |r| :: key(r[i]) >= key(r[j])
  {
    r := [];
    var rest := s;
    while rest != {}
      invariant rest <= s
      invariant forall x :: x in r <==> x in s && x !in rest
      invariant NoDuplicates(r)
      invariant forall i, j | 0 <= i < j < |r| :: key(r[i]) >= key(r[j])
      invariant forall i, x | 0 <= i < |r| && x in rest :: key(r[i]) >= key(x)
      decreases |rest|
    {
      var best :| best in rest;
      var todo := rest - {best};
      while todo != {}
        invariant todo <= rest && best in rest && best !in todo
        invariant forall x | x in rest && x !in todo :: key(x) <= key(best)
        decreases |todo|
      {
        var x :| x in todo;
        if key(x) > key(best) {
          best := x;
        }
        todo := todo - {x};
      }
      r := r + [best];
      rest := rest - {best};
    }
  }

  /** Project names in ascending string order, each once (selection of the least first). */
  method SortNames(s: set<string>) returns (r: seq<string>)
    ensures forall x :: x in r <==> x in s
    ensures Ascending(r)
  {
    r := [];
    var rest := s;
    while rest != {}
      invariant rest <= s
      invariant forall x :: x in r <==> x in s && x !in rest
      invariant Ascending(r)
      invariant forall i, x | 0 <= i < |r| && x in rest :: LexLess(r[i], x)
      decreases |rest|
    {
      var least :| least in rest;
      var todo := rest - {least};
      while todo != {}
        invariant todo <= rest && least in rest && least !in todo
        invariant forall x | x in rest && x !in todo && x != least :: LexLess(least, x)
        decreases |todo|
      {
        var x :| x in todo;
        if LexLess(x, least) {
          forall y | y in rest && y !in todo && y != x ensures LexLess(x, y) {
            if y != least {
              LexTransitive(x, least, y);
            }
          }
          least := x;
        } else {
          LexTotal(x, least);
        }
        todo := todo - {x};
      }
      r := r + [least];
      rest := rest - {least};
    }
  }

  /** The month number `strptime(m, '%B')` yields, or 0 where it raises. */
  function MonthKey(m: string): (k: int)
    ensures 0 <= k <= 12
    ensures MonthNumber(m).Some? <==> k != 0
    ensures MonthNumber(m).Some? ==> k == MonthNumber(m).value
  {
    match MonthNumber(m)
    case Some(v) => v
    case None => 0
  }

  /**
   * The months of one year, latest first, or `None` when some month name is not
   * an English month name (the sort key raises and the year is not drawn).
   */
  method SortMonths(months: set<string>) returns (r: Option<seq<string>>)
    ensures r.None? <==> exists m | m in months :: MonthNumber(m).None?
    ensures r.Some? ==> forall m :: m in r.value <==> m in months
    ensures r.Some? ==> NoDuplicates(r.value)
    ensures r.Some? ==> forall i, j | 0 <= i < j < |r.value| :: MonthKey(r.value[i]) >= MonthKey(r.value[j]) > 0
  {
    if exists m | m in months :: MonthNumber(m).None? {
      return None;
    }
    var sorted := SortDescendingBy(months, MonthKey);
    return Some(sorted);
  }

  ghost predicate Ascending(s: seq<string>)
  {
    forall i, j | 0 <= i < j < |s| :: LexLess(s[i], s[j])
  }

  /** The names of `names` that pass the filters, keeping the ascending order of `names`. */
  method VisibleProjects(ps: Projects, f: Filters, names: seq<string>) returns (r: seq<string>)
    requires forall n | n in names :: n in ps
    requires Ascending(names)
    ensures forall n :: n in r <==> n in names && Shown(ps, n, f)
    ensures Ascending(r)
  {
    r := [];
    var k := 0;
    while k < |names|
      invariant k <= |names|
      invariant forall n :: n in r <==> n in names[..k] && Shown(ps, n, f)
      invariant Ascending(r)
      invariant forall i, j | 0 <= i < |r| && k <= j < |names| :: LexLess(r[i], names[j])
    {
      var show := ShouldShowProject(ps, names[k], f);
      if show {
        r := r + [names[k]];
      }
      assert names[..k + 1] == names[..k] + [names[k]];
      k := k + 1;
    }
    assert names[..k] == names;
  }

  datatype MonthView = MonthView(month: string, projects: seq<string>)

  datatype YearView = YearView(year: int, months: seq<MonthView>)

  /** Some dated project belongs to year `y` and month `m`. */
  ghost predicate Occupied(ps: Projects, y: int, m: string)
  {
    exists n :: InGroup(ps, n, y, m)
  }

  /** Year view `v` has a month section headed `m`. */
  ghost predicate HasMonth(v: YearView, m: string)
  {
    exists a :: 0 <= a < |v.months| && v.months[a].month == m
  }

  /** Month section `mv` of year `y` lists exactly the projects of that year and month that pass the filters. */
  ghost predicate Listed(ps: Projects, f: Filters, y: int, mv: MonthView)
  {
    forall n :: n in mv.projects <==> InGroup(ps, n, y, mv.month) && Shown(ps, n, f)
  }

  /**
   * One drawn year: its months are the distinct months of its dated projects,
   * latest first; each month lists, in ascending order, exactly the projects of
   * that year and month that pass the filters.
   */
  ghost predicate YearDrawn(ps: Projects, f: Filters, v: YearView)
  {
    && (forall a, b | 0 <= a < b < |v.months| ::
          v.months[a].month != v.months[b].month && MonthKey(v.months[a].month) >= MonthKey(v.months[b].month))
    && (forall a | 0 <= a < |v.months| :: Occupied(ps, v.year, v.months[a].month))
    && (forall n | n in ps && Dated(ps[n]) && ps[n].year == v.year :: HasMonth(v, ps[n].month))
    && (forall a | 0 <= a < |v.months| :: Listed(ps, f, v.year, v.months[a]))
    && (forall a | 0 <= a < |v.months| :: Ascending(v.months[a].projects))
  }

  /** The month views of year `y`, one per month of `ms`, in the order of `ms`. */
  method BuildMonths(ps: Projects, f: Filters, y: int, months: map<string, set<string>>, ms: seq<string>)
    returns (views: seq<MonthView>)
    requires forall m, n | m in months && n in months[m] :: InGroup(ps, n, y, m)
    requires forall n | n in ps && Dated(ps[n]) && ps[n].year == y :: ps[n].month in months && n in months[ps[n].month]
    requires forall m | m in ms :: m in months
    ensures |views| == |ms|
    ensures forall a | 0 <= a < |ms| :: views[a].month == ms[a]
    ensures forall a | 0 <= a < |ms| :: Listed(ps, f, y, views[a])
    ensures forall a | 0 <= a < |ms| :: Ascending(views[a].projects)
  {
    views := [];
    var k := 0;
    while k < |ms|
      invariant k <= |ms|
      invariant |views| == k
      invariant forall a | 0 <= a < k :: views[a].month == ms[a]
      invariant forall a | 0 <= a < k :: Listed(ps, f, y, views[a])
      invariant forall a | 0 <= a < k :: Ascending(views[a].projects)
    {
      var m := ms[k];
      forall n ensures n in months[m] <==> InGroup(ps, n, y, m) {
        if InGroup(ps, n, y, m) {
          assert n in ps && Dated(ps[n]) && ps[n].year == y && ps[n].month == m;
        }
      }
      var names := SortNames(months[m]);
      var visible := VisibleProjects(ps, f, names);
      assert Listed(ps, f, y, MonthView(m, visible));
      views := views + [MonthView(m, visible)];
      k := k + 1;
    }
  }

  /** Draws year `y` from its month groups, or `None` when a month name does not parse. */
  method BuildYear(ps: Projects, f: Filters, y: int, months: map<string, set<string>>) returns (r: Option<YearView>)
    requires GroupOf(ps, y, months)
    ensures r.None? <==> exists m | m in months :: MonthNumber(m).None?
    ensures r.Some? ==> r.value.year == y && YearDrawn(ps, f, r.value)
  {
    var order := SortMonths(months.Keys);
    if order.None? {
      return None;
    }
    var ms := order.value;
    var views := BuildMonths(ps, f, y, months, ms);
    var v := YearView(y, views);
    assert forall a | 0 <= a < |v.months| :: Listed(ps, f, v.year, v.months[a]);
    assert forall a | 0 <= a < |v.months| :: Ascending(v.months[a].projects);
    forall a | 0 <= a < |v.months| ensures Occupied(ps, v.year, v.months[a].month) {
      assert ms[a] in months;
      var n :| n in months[ms[a]];
      assert InGroup(ps, n, v.year, v.months[a].month);
    }
    forall n | n in ps && Dated(ps[n]) && ps[n].year == v.year ensures HasMonth(v, ps[n].month) {
      assert ps[n].month in ms;
      var a :| 0 <= a < |ms| && ms[a] == ps[n].month;
    }
    return Some(v);
  }

  /** Some dated project belongs to year `y`. */
  ghost predicate YearOccupied(ps: Projects, y: int)
  {
    exists n :: n in ps && Dated(ps[n]) && ps[n].year == y
  }

  ghost predicate HasYear(v: seq<YearView>, y: int)
  {
    exists i :: 0 <= i < |v| && v[i].year == y
  }

  function YearKey(y: int): int
  {
    y
  }

  /** Draws the years of `years`, in that order, or `None` at the first year with an unparseable month. */
  method BuildYears(ps: Projects, f: Filters, g: map<int, map<string, set<string>>>, years: seq<int>)
    returns (r: Option<seq<YearView>>)
    requires forall k | 0 <= k < |years| :: years[k] in g && GroupOf(ps, years[k], g[years[k]])
    ensures r.None? <==> exists k, m | 0 <= k < |years| && m in g[years[k]] :: MonthNumber(m).None?
    ensures r.Some? ==> |r.value| == |years|
    ensures r.Some? ==> forall k | 0 <= k < |years| :: r.value[k].year == years[k]
    ensures r.Some? ==> forall k | 0 <= k < |years| :: YearDrawn(ps, f, r.value[k])
  {
    var views: seq<YearView> := [];
    var i := 0;
    while i < |years|
      invariant i <= |years| && |views| == i
      invariant forall k | 0 <= k < i :: views[k].year == years[k] && YearDrawn(ps, f, views[k])
      invariant forall k, m | 0 <= k < i && m in g[years[k]] :: MonthNumber(m).Some?
    {
      var yv := BuildYear(ps, f, years[i], g[years[i]]);
      if yv.None? {
        return None;
      }
      views := views + [yv.value];
      i := i + 1;
    }
    return Some(views);
  }

  /**
   * The drawn tree `v`: years strictly latest first, each drawn as `YearDrawn`
   * says and each holding a dated project, and every dated project's year present.
   */
  ghost predicate Matrix(ps: Projects, f: Filters, v: seq<YearView>)
  {
    && (forall i, j | 0 <= i < j < |v| :: v[i].year > v[j].year)
    && (forall i | 0 <= i < |v| :: YearDrawn(ps, f, v[i]) && YearOccupied(ps, v[i].year))
    && (forall n | n in ps && Dated(ps[n]) :: HasYear(v, ps[n].year))
  }

  /** Drawing every grouped year, each once, covers every dated project and invents no year. */
  lemma YearsCoverDated(ps: Projects, f: Filters, g: map<int, map<string, set<string>>>, years: seq<int>, views: seq<YearView>)
    requires forall n | n in ps && Dated(ps[n]) :: ps[n].year in g
    requires forall y | y in g :: GroupOf(ps, y, g[y])
    requires forall y :: y in years <==> y in g
    requires |views| == |years|
    requires forall k | 0 <= k < |years| :: views[k].year == years[k]
    requires forall k, m | 0 <= k < |years| && m in g[years[k]] :: MonthNumber(m).Some?
    requires forall i, j | 0 <= i < j < |years| :: years[i] > years[j]
    requires forall k | 0 <= k < |years| :: YearDrawn(ps, f, views[k])
    ensures forall n | n in ps && Dated(ps[n]) :: MonthNumber(ps[n].month).Some?
    ensures Matrix(ps, f, views)
  {
    forall n | n in ps && Dated(ps[n]) ensures MonthNumber(ps[n].month).Some? && HasYear(views, ps[n].year) {
      assert ps[n].year in years;
      var k :| 0 <= k < |years| && years[k] == ps[n].year;
      assert GroupOf(ps, years[k], g[years[k]]);
      assert ps[n].month in g[years[k]];
      assert views[k].year == ps[n].year;
    }
    forall k | 0 <= k < |views| ensures YearOccupied(ps, views[k].year) {
      assert years[k] in g;
      assert GroupOf(ps, years[k], g[years[k]]);
      var m :| m in g[years[k]];
      var n :| n in g[years[k]][m];
      assert InGroup(ps, n, years[k], m);
    }
  }

  /**
   * The matrix tree: one section per year that has a dated project, latest
   * year first, each drawn as `YearDrawn` says; undated projects appear
   * nowhere. `None` when some dated project's month is not an English month
   * name, which stops the redraw.
   */
  method UpdateMatrix(ps: Projects, f: Filters) returns (r: Option<seq<YearView>>)
    ensures r.None? <==> exists n | n in ps && Dated(ps[n]) :: MonthNumber(ps[n].month).None?
    ensures r.Some? ==> Matrix(ps, f, r.value)
  {
    var g := GroupByYearMonth(ps);
    var years := SortDescendingBy(g.Keys, YearKey);
    assert forall i, j | 0 <= i < j < |years| :: years[i] > years[j] by {
      forall i, j | 0 <= i < j < |years| ensures years[i] > years[j] {
        assert YearKey(years[i]) >= YearKey(years[j]) && years[i] != years[j];
      }
    }
    r := BuildYears(ps, f, g, years);
    if r.None? {
      var k, m :| 0 <= k < |years| && m in g[years[k]] && MonthNumber(m).None?;
      assert GroupOf(ps, years[k], g[years[k]]);
      var n :| n in g[years[k]][m];
      assert InGroup(ps, n, years[k], m);
      return;
    }
    YearsCoverDated(ps, f, g, years, r.value);
  }
}
