/**
 * Export and import as lists of records with the CSV columns
 * Project, Year, Month, Platform, Category, Status, Date: export writes one
 * record per stored cell; import upserts the records one after another.
 */
module CsvRows {

  import opened Results
  import opened StatusAlgebra
  import opened Catalogs
  import opened ProjectStore

  datatype Row = Row(project: string, year: int, month: string, platform: string, category: string,
                     status: Status, date: string)

  /** The record export writes for a stored cell. */
  function RowFor(ps: Projects, n: string, p: string, c: string): Row
    requires Lookup(ps, n, p, c).Some?
  {
    var e := ps[n].platforms[p][c];
    Row(n, ps[n].year, ps[n].month, p, c, e.status, e.date)
  }

  /** `r` is exactly what export writes for the cell it names. */
  ghost predicate Agrees(ps: Projects, r: Row)
  {
    Lookup(ps, r.project, r.platform, r.category).Some? && r == RowFor(ps, r.project, r.platform, r.category)
  }

  /**
   * Importing one record: a missing project is created with the record's year
   * and month (an existing one keeps its own), a missing platform map is
   * created, and the cell's status and date are overwritten.
   */
  function ImportRow(ps: Projects, r: Row): (qs: Projects)
    ensures qs.Keys == ps.Keys + {r.project}
    ensures Lookup(qs, r.project, r.platform, r.category) == Some(Entry(r.status, r.date))
    ensures r.project in ps ==> qs[r.project].year == ps[r.project].year && qs[r.project].month == ps[r.project].month
    ensures r.project !in ps ==> qs[r.project].year == r.year && qs[r.project].month == r.month
    ensures r.project !in ps ==> qs[r.project].platforms.Keys == {r.platform}
    ensures forall m | m in ps && m != r.project :: qs[m] == ps[m]
    ensures r.project in ps ==> qs[r.project].platforms.Keys == ps[r.project].platforms.Keys + {r.platform}
    ensures forall m, q, d | m != r.project || q != r.platform || d != r.category ::
              Lookup(qs, m, q, d) == Lookup(ps, m, q, d)
  {
    var base := if r.project in ps then ps[r.project] else Project(r.year, r.month, map[]);
    var cats := if r.platform in base.platforms then base.platforms[r.platform] else map[];
    ps[r.project := base.(platforms := base.platforms[r.platform := cats[r.category := Entry(r.status, r.date)]])]
  }

  /**
   * Importing records in order, each on the store the previous ones left: the
   * projects afterwards are the ones before and the ones the records name.
   */
  function ImportRows(ps: Projects, rows: seq<Row>): (qs: Projects)
    ensures qs.Keys == ps.Keys + (set r | r in rows :: r.project)
  {
    if rows == [] then ps
    else
      assert rows == rows[..|rows| - 1] + [rows[|rows| - 1]];
      ImportRow(ImportRows(ps, rows[..|rows| - 1]), rows[|rows| - 1])
  }

  /**
   * Import can leave a catalog platform without some of its catalog categories:
   * a record for one Adobe Stock category of a new project creates that
   * category only, and PPT and MGT stay missing.
   */
  lemma ImportCanBreakComplete(today: string)
    ensures var rows := [Row("Intro", 2024, "May", "Adobe Stock", "AET", NotUploaded, today)];
            var qs := ImportRows(map[], rows);
            && Complete(map[], Default)
            && !Complete(qs, Default)
            && Lookup(qs, "Intro", "Adobe Stock", "PPT").None?
  {
    var rows := [Row("Intro", 2024, "May", "Adobe Stock", "AET", NotUploaded, today)];
    var qs := ImportRows(map[], rows);
    assert qs == ImportRow(map[], rows[0]);
    assert "PPT" in Default.categories["Adobe Stock"];
    assert "PPT" !in qs["Intro"].platforms["Adobe Stock"];
  }

  /** Importing a record that agrees with the store changes nothing. */
  lemma ImportAgreeingRow(ps: Projects, r: Row)
    requires Agrees(ps, r)
    ensures ImportRow(ps, r) == ps
  {
    var qs := ImportRow(ps, r);
    assert qs[r.project].platforms[r.platform] == ps[r.project].platforms[r.platform];
    assert qs[r.project].platforms == ps[r.project].platforms;
  }

  /** Importing records that all agree with the store leaves the store as it was. */
  lemma {:induction false} ImportAgreeingRowsIsIdentity(ps: Projects, rows: seq<Row>)
    requires forall r | r in rows :: Agrees(ps, r)
    ensures ImportRows(ps, rows) == ps
  {
    if rows != [] {
      var init := rows[..|rows| - 1];
      assert forall r | r in init :: r in rows;
      ImportAgreeingRowsIsIdentity(ps, init);
      ImportAgreeingRow(ps, rows[|rows| - 1]);
    }
  }

  /** Import never changes the year or month of a project that already exists, and never drops a project. */
  lemma {:induction false} ImportKeepsYearMonth(ps: Projects, rows: seq<Row>)
    ensures ps.Keys <= ImportRows(ps, rows).Keys
    ensures forall n | n in ps ::
              ImportRows(ps, rows)[n].year == ps[n].year && ImportRows(ps, rows)[n].month == ps[n].month
  {
    if rows != [] {
      ImportKeepsYearMonth(ps, rows[..|rows| - 1]);
    }
  }

  /** The value a cell has after an import is the one in the LAST record that names it. */
  lemma {:induction false} ImportLastWriteWins(ps: Projects, rows: seq<Row>, i: nat)
    requires i < |rows|
    requires forall j | i < j < |rows| ::
               rows[j].project != rows[i].project || rows[j].platform != rows[i].platform
               || rows[j].category != rows[i].category
    ensures Lookup(ImportRows(ps, rows), rows[i].project, rows[i].platform, rows[i].category)
            == Some(Entry(rows[i].status, rows[i].date))
  {
    if i < |rows| - 1 {
      ImportLastWriteWins(ps, rows[..|rows| - 1], i);
    }
  }

  /** A cell present after an import was present before or is named by some record: nothing is invented. */
  lemma {:induction false} ImportInventsNothing(ps: Projects, rows: seq<Row>, n: string, p: string, c: string)
    requires Lookup(ImportRows(ps, rows), n, p, c).Some?
    ensures Lookup(ps, n, p, c).Some?
            || exists r | r in rows :: r.project == n && r.platform == p && r.category == c
  {
    if rows != [] {
      var last := rows[|rows| - 1];
      if last.project != n || last.platform != p || last.category != c {
        ImportInventsNothing(ps, rows[..|rows| - 1], n, p, c);
        if !Lookup(ps, n, p, c).Some? {
          var r :| r in rows[..|rows| - 1] && r.project == n && r.platform == p && r.category == c;
          assert r in rows;
        }
      } else {
        assert last in rows;
      }
    }
  }

  ghost predicate NoRepeats(rows: seq<Row>)
  {
    forall i, j | 0 <= i < j < |rows| :: rows[i] != rows[j]
  }

  lemma NoRepeatsConcat(a: seq<Row>, b: seq<Row>)
    requires NoRepeats(a) && NoRepeats(b)
    requires forall x, y | x in a && y in b :: x != y
    ensures NoRepeats(a + b)
  {
    forall i, j | 0 <= i < j < |a + b| ensures (a + b)[i] != (a + b)[j] {
      if i < |a| && j >= |a| {
        assert (a + b)[i] in a && (a + b)[j] in b;
      }
    }
  }

  /** The records of one platform of one project. */
  method ExportPlatform(ps: Projects, n: string, p: string) returns (rows: seq<Row>)
    requires n in ps && p in ps[n].platforms
    ensures forall r | r in rows :: Agrees(ps, r) && r.project == n && r.platform == p
    ensures forall c | c in ps[n].platforms[p] :: RowFor(ps, n, p, c) in rows
    ensures NoRepeats(rows)
  {
    rows := [];
    var categories := ps[n].platforms[p].Keys;
    while categories != {}
      invariant categories <= ps[n].platforms[p].Keys
      invariant forall r | r in rows :: Agrees(ps, r) && r.project == n && r.platform == p && r.category !in categories
      invariant forall c | c in ps[n].platforms[p] && c !in categories :: RowFor(ps, n, p, c) in rows
      invariant NoRepeats(rows)
      decreases |categories|
    {
      var c :| c in categories;
      rows := rows + [RowFor(ps, n, p, c)];
      categories := categories - {c};
    }
  }

  /** The records of one project. */
  method ExportProject(ps: Projects, n: string) returns (rows: seq<Row>)
    requires n in ps
    ensures forall r | r in rows :: Agrees(ps, r) && r.project == n
    ensures forall p, c | Lookup(ps, n, p, c).Some? :: RowFor(ps, n, p, c) in rows
    ensures NoRepeats(rows)
  {
    rows := [];
    var platforms := ps[n].platforms.Keys;
    while platforms != {}
      invariant platforms <= ps[n].platforms.Keys
      invariant forall r | r in rows :: Agrees(ps, r) && r.project == n && r.platform !in platforms
      invariant forall p, c | p !in platforms && Lookup(ps, n, p, c).Some? :: RowFor(ps, n, p, c) in rows
      invariant NoRepeats(rows)
      decreases |platforms|
    {
      var p :| p in platforms;
      var chunk := ExportPlatform(ps, n, p);
      NoRepeatsConcat(rows, chunk);
      rows := rows + chunk;
      platforms := platforms - {p};
    }
  }

  /**
   * Export: one record for every stored cell and no other, each carrying the
   * project's year and month and the cell's status and date, with no record
   * written twice.
   */
  method ExportRows(ps: Projects) returns (rows: seq<Row>)
    ensures forall r | r in rows :: Agrees(ps, r)
    ensures forall n, p, c | Lookup(ps, n, p, c).Some? :: RowFor(ps, n, p, c) in rows
    ensures NoRepeats(rows)
  {
    rows := [];
    var names := ps.Keys;
    while names != {}
      invariant names <= ps.Keys
      invariant forall r | r in rows :: Agrees(ps, r) && r.project !in names
      invariant forall n, p, c | n !in names && Lookup(ps, n, p, c).Some? :: RowFor(ps, n, p, c) in rows
      invariant NoRepeats(rows)
      decreases |names|
    {
      var n :| n in names;
      var chunk := ExportProject(ps, n);
      NoRepeatsConcat(rows, chunk);
      rows := rows + chunk;
      names := names - {n};
    }
  }

  /** Every cell of `qs` is a cell of `ps` with the same entry, and every project of `qs` has `ps`'s year and month. */
  ghost predicate SubStore(qs: Projects, ps: Projects)
  {
    && (forall n | n in qs :: n in ps && qs[n].year == ps[n].year && qs[n].month == ps[n].month)
    && (forall n, p, c | Lookup(qs, n, p, c).Some? :: Lookup(qs, n, p, c) == Lookup(ps, n, p, c))
  }

  /** One agreeing record imported into a part of `ps` leaves a part of `ps`. */
  lemma ImportAgreeingRowKeepsSubStore(qs: Projects, ps: Projects, r: Row)
    requires SubStore(qs, ps) && Agrees(ps, r)
    ensures SubStore(ImportRow(qs, r), ps)
  {
    var out := ImportRow(qs, r);
    forall n | n in out ensures n in ps && out[n].year == ps[n].year && out[n].month == ps[n].month {
      if n == r.project && n !in qs {
        assert out[n].year == r.year && out[n].month == r.month;
      }
    }
  }

  /** Importing records that agree with `ps` into a part of `ps` yields a part of `ps` that holds every imported cell. */
  lemma {:induction false} ImportAgreeingKeepsSubStore(qs: Projects, ps: Projects, rows: seq<Row>)
    requires SubStore(qs, ps)
    requires forall r | r in rows :: Agrees(ps, r)
    ensures SubStore(ImportRows(qs, rows), ps)
  {
    if rows != [] {
      var init := rows[..|rows| - 1];
      var last := rows[|rows| - 1];
      assert forall r | r in init :: r in rows;
      ImportAgreeingKeepsSubStore(qs, ps, init);
      var mid := ImportRows(qs, init);
      var out := ImportRow(mid, last);
      assert ImportRows(qs, rows) == out;
      assert last in rows;
      ImportAgreeingRowKeepsSubStore(mid, ps, last);
    }
  }

  /** Importing a record never removes a cell. */
  lemma ImportRowKeepsCell(ps: Projects, r: Row, n: string, p: string, c: string)
    requires Lookup(ps, n, p, c).Some?
    ensures Lookup(ImportRow(ps, r), n, p, c).Some?
  {
  }

  /** After an import every cell some record names is present. */
  lemma {:induction false} ImportCoversRows(qs: Projects, rows: seq<Row>)
    ensures forall r | r in rows :: Lookup(ImportRows(qs, rows), r.project, r.platform, r.category).Some?
  {
    if rows != [] {
      var init := rows[..|rows| - 1];
      var last := rows[|rows| - 1];
      ImportCoversRows(qs, init);
      var mid := ImportRows(qs, init);
      forall r | r in rows ensures Lookup(ImportRow(mid, last), r.project, r.platform, r.category).Some? {
        if r != last {
          var i :| 0 <= i < |rows| && rows[i] == r;
          assert init[i] == r;
          ImportRowKeepsCell(mid, last, r.project, r.platform, r.category);
        }
      }
    }
  }

  /**
   * The export / import round trip: importing into an empty store every record
   * export wrote rebuilds every cell with its status and date, and every
   * project it rebuilds has its original year and month. (A project or a
   * platform with no cell writes no record and so does not come back.)
   */
  lemma ExportImportRoundTrip(ps: Projects, rows: seq<Row>)
    requires forall r | r in rows :: Agrees(ps, r)
    requires forall n, p, c | Lookup(ps, n, p, c).Some? :: RowFor(ps, n, p, c) in rows
    ensures forall n, p, c :: Lookup(ImportRows(map[], rows), n, p, c) == Lookup(ps, n, p, c)
    ensures forall n | n in ImportRows(map[], rows) ::
              n in ps && ImportRows(map[], rows)[n].year == ps[n].year && ImportRows(map[], rows)[n].month == ps[n].month
  {
    ImportAgreeingKeepsSubStore(map[], ps, rows);
    ImportCoversRows(map[], rows);
    forall n, p, c ensures Lookup(ImportRows(map[], rows), n, p, c) == Lookup(ps, n, p, c) {
      if Lookup(ps, n, p, c).Some? {
        var r := RowFor(ps, n, p, c);
        assert r in rows;
        assert Lookup(ImportRows(map[], rows), r.project, r.platform, r.category).Some?;
      }
    }
  }
}
