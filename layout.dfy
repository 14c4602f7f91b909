/**
 * The column layout of one month section of the matrix: each catalog platform,
 * in catalog order, takes one column per category when expanded and a single
 * column when collapsed. The category header row and every project row are
 * laid out with the same running column counter, so each project cell sits
 * under the header of the platform and category it shows.
 */
module MatrixLayout {

  import opened Results
  import opened StatusAlgebra
  import opened Catalogs
  import opened ProjectStore
  import opened MatrixView

  /** A colour written `#RRGGBB` in upper-case hexadecimal. */
  predicate HexColor(color: string)
  {
    |color| == 7 && color[0] == '#' && forall i | 1 <= i < 7 :: color[i] in "0123456789ABCDEF"
  }

  /** Reading a status back from a cell colour, as the legend does. */
  function ColorStatus(color: string): Option<Status>
  {
    if color == "#90EE90" then Some(Uploaded)
    else if color == "#FFB6C1" then Some(NotUploaded)
    else if color == "#FFFFE0" then Some(Pending)
    else if color == "#FA8072" then Some(Rejected)
    else if color == "#D3D3D3" then Some(Disabled)
    else None
  }

  /** The background colour of a cell showing status `s`: a hex colour the legend reads back as `s`. */
  function StatusColor(s: Status): (r: string)
    ensures HexColor(r)
    ensures ColorStatus(r) == Some(s)
  {
    match s
    case Uploaded => "#90EE90"
    case NotUploaded => "#FFB6C1"
    case Pending => "#FFFFE0"
    case Rejected => "#FA8072"
    case Disabled => "#D3D3D3"
  }

  /** Distinct statuses are painted in distinct colours, so a cell's colour names its status. */
  lemma StatusColorInjective(s: Status, t: Status)
    ensures StatusColor(s) == StatusColor(t) <==> s == t
  {
  }

  /**
   * Columns platform `q` occupies: one per category when expanded, one when
   * collapsed (a name without a category list occupies none).
   */
  function Span(cat: Catalog, q: string, collapsed: set<string>): (r: nat)
    ensures q !in cat.categories ==> r == 0
    ensures q in cat.categories && cat.categories[q] != [] ==> 1 <= r <= |cat.categories[q]|
  {
    if q !in cat.categories then 0 else if q in collapsed then 1 else |cat.categories[q]|
  }

  /** The first column of the `k`-th platform: the spans of the platforms before it. */
  function Before(cat: Catalog, collapsed: set<string>, k: nat): nat
    requires k <= |cat.order|
  {
    if k == 0 then 0
    else Before(cat, collapsed, k - 1) + Span(cat, cat.order[k - 1], collapsed)
  }

  /** Number of category columns of the section. */
  function Width(cat: Catalog, collapsed: set<string>): nat
  {
    Before(cat, collapsed, |cat.order|)
  }

  lemma {:induction false} BeforeMonotone(cat: Catalog, collapsed: set<string>, j: nat, k: nat)
    requires j <= k <= |cat.order|
    ensures Before(cat, collapsed, j) <= Before(cat, collapsed, k)
  {
    if j < k {
      BeforeMonotone(cat, collapsed, j, k - 1);
    }
  }

  /** Collapsing more platforms never moves a platform's first column to the right. */
  lemma {:induction false} BeforeCollapseMonotone(cat: Catalog, fewer: set<string>, more: set<string>, k: nat)
    requires fewer <= more && k <= |cat.order|
    requires forall q | q in cat.categories :: cat.categories[q] != []
    ensures Before(cat, more, k) <= Before(cat, fewer, k)
  {
    if k > 0 {
      BeforeCollapseMonotone(cat, fewer, more, k - 1);
      var q := cat.order[k - 1];
      assert Span(cat, q, more) <= Span(cat, q, fewer);
    }
  }

  /**
   * Collapsing more platforms never widens the section, as long as every
   * catalog platform lists at least one category.
   */
  lemma CollapseNarrows(cat: Catalog, fewer: set<string>, more: set<string>)
    requires fewer <= more
    requires forall q | q in cat.categories :: cat.categories[q] != []
    ensures Width(cat, more) <= Width(cat, fewer)
  {
    BeforeCollapseMonotone(cat, fewer, more, |cat.order|);
  }

  /** A column position: slot `slot` of the `platform`-th catalog platform. */
  datatype Column = Column(platform: nat, slot: nat)

  ghost predicate InSpan(cat: Catalog, collapsed: set<string>, c: Column)
  {
    c.platform < |cat.order| && c.slot < Span(cat, cat.order[c.platform], collapsed)
  }

  /** The column `col` positions after the first column of the `k`-th platform. */
  function LocateFrom(cat: Catalog, collapsed: set<string>, col: nat, k: nat): (c: Column)
    requires k < |cat.order|
    requires Before(cat, collapsed, k) + col < Width(cat, collapsed)
    ensures k <= c.platform && InSpan(cat, collapsed, c)
    ensures Before(cat, collapsed, c.platform) + c.slot == Before(cat, collapsed, k) + col
    decreases |cat.order| - k
  {
    var span := Span(cat, cat.order[k], collapsed);
    if col < span then Column(k, col)
    else LocateFrom(cat, collapsed, col - span, k + 1)
  }

  /** The platform and slot that column `col` belongs to. */
  function Locate(cat: Catalog, collapsed: set<string>, col: nat): (c: Column)
    requires col < Width(cat, collapsed)
    ensures InSpan(cat, collapsed, c)
    ensures Before(cat, collapsed, c.platform) + c.slot == col
  {
    LocateFrom(cat, collapsed, col, 0)
  }

  /** Different platform slots never share a column. */
  lemma ColumnUnique(cat: Catalog, collapsed: set<string>, c: Column, d: Column)
    requires InSpan(cat, collapsed, c) && InSpan(cat, collapsed, d)
    requires Before(cat, collapsed, c.platform) + c.slot == Before(cat, collapsed, d.platform) + d.slot
    ensures c == d
  {
    if c.platform < d.platform {
      BeforeMonotone(cat, collapsed, c.platform + 1, d.platform);
    } else if d.platform < c.platform {
      BeforeMonotone(cat, collapsed, d.platform + 1, c.platform);
    }
  }

  /** Slot `i` of the `k`-th platform lies inside the section's width. */
  lemma SlotInWidth(cat: Catalog, collapsed: set<string>, k: nat, i: nat)
    requires InSpan(cat, collapsed, Column(k, i))
    ensures Before(cat, collapsed, k) + i < Width(cat, collapsed)
  {
    assert Before(cat, collapsed, k + 1) == Before(cat, collapsed, k) + Span(cat, cat.order[k], collapsed);
    BeforeMonotone(cat, collapsed, k + 1, |cat.order|);
  }

  /** Slot `i` of the `k`-th platform is at column `Before(k) + i`, and `Locate` finds it there. */
  lemma LocateAt(cat: Catalog, collapsed: set<string>, k: nat, i: nat)
    requires InSpan(cat, collapsed, Column(k, i))
    ensures Before(cat, collapsed, k) + i < Width(cat, collapsed)
    ensures Locate(cat, collapsed, Before(cat, collapsed, k) + i) == Column(k, i)
  {
    SlotInWidth(cat, collapsed, k, i);
    ColumnUnique(cat, collapsed, Locate(cat, collapsed, Before(cat, collapsed, k) + i), Column(k, i));
  }

  /** The category header at column position `c`: the category code, or blank for a collapsed platform. */
  function HeaderLabel(cat: Catalog, collapsed: set<string>, c: Column): string
    requires InSpan(cat, collapsed, c)
  {
    var q := cat.order[c.platform];
    if q in collapsed then "" else cat.categories[q][c.slot]
  }

  /** The category header row: one label per column, for every platform in catalog order. */
  method HeaderRow(cat: Catalog, collapsed: set<string>) returns (labels: seq<string>)
    ensures |labels| == Width(cat, collapsed)
    ensures forall col | 0 <= col < |labels| :: labels[col] == HeaderLabel(cat, collapsed, Locate(cat, collapsed, col))
  {
    labels := [];
    var k := 0;
    while k < |cat.order|
      invariant k <= |cat.order| && |labels| == Before(cat, collapsed, k)
      invariant |labels| <= Width(cat, collapsed)
      invariant forall col | 0 <= col < |labels| :: labels[col] == HeaderLabel(cat, collapsed, Locate(cat, collapsed, col))
    {
      var q := cat.order[k];
      var i := 0;
      while i < Span(cat, q, collapsed)
        invariant i <= Span(cat, q, collapsed) && |labels| == Before(cat, collapsed, k) + i
        invariant |labels| <= Width(cat, collapsed)
        invariant forall col | 0 <= col < |labels| :: labels[col] == HeaderLabel(cat, collapsed, Locate(cat, collapsed, col))
      {
        LocateAt(cat, collapsed, k, i);
        var code := if q in collapsed then "" else cat.categories[q][i];
        labels := labels + [code];
        i := i + 1;
      }
      k := k + 1;
      BeforeMonotone(cat, collapsed, k, |cat.order|);
    }
  }

  /** A cell of a project row: no widget, an unpainted frame, or a frame painted in a status colour. */
  datatype Cell = Gap | Blank | Painted(color: string)

  /** How a status is shown under the status filter: blank when filtered out, painted otherwise. */
  function Shade(f: Filters, s: Status): (r: Cell)
    ensures r != Gap
    ensures r == Blank <==> f.status.OnlyStatus? && f.status.status != s
    ensures r != Blank ==> r == Painted(StatusColor(s))
    ensures r.Painted? ==> ColorStatus(r.color) == Some(s)
  {
    if f.status.OnlyStatus? && f.status.status != s then Blank else Painted(StatusColor(s))
  }

  /** The status a cell at column position `c` stands for: the rollup of a collapsed platform, else its category's status. */
  function CellStatus(ps: Projects, cat: Catalog, n: string, collapsed: set<string>, c: Column): Status
    requires InSpan(cat, collapsed, c)
  {
    var q := cat.order[c.platform];
    if q in collapsed then PlatformRollup(ps, cat, n, q) else GetStatus(ps, n, q, cat.categories[q][c.slot])
  }

  /**
   * The cell of project `n` at column position `c`: nothing exactly where the
   * project lacks the platform or the platform filter hides it; otherwise an
   * unpainted frame exactly when the status filter names another status than
   * the one the cell stands for, and else a frame whose colour reads back as
   * that status.
   */
  function CellAt(ps: Projects, cat: Catalog, n: string, f: Filters, collapsed: set<string>, c: Column): (r: Cell)
    requires InSpan(cat, collapsed, c)
    ensures r == Gap <==>
              var q := cat.order[c.platform];
              n !in ps || q !in ps[n].platforms || !PlatformPasses(f.platform, q)
    ensures r == Blank <==>
              && r != Gap
              && f.status.OnlyStatus? && f.status.status != CellStatus(ps, cat, n, collapsed, c)
    ensures r.Painted? ==> ColorStatus(r.color) == Some(CellStatus(ps, cat, n, collapsed, c))
  {
    var q := cat.order[c.platform];
    if n !in ps || q !in ps[n].platforms || !PlatformPasses(f.platform, q) then Gap
    else Shade(f, CellStatus(ps, cat, n, collapsed, c))
  }

  /** The row of project `n`: one cell per column, so it lines up with `HeaderRow`. */
  method RowCells(ps: Projects, cat: Catalog, n: string, f: Filters, collapsed: set<string>) returns (cells: seq<Cell>)
    requires n in ps
    ensures |cells| == Width(cat, collapsed)
    ensures forall col | 0 <= col < |cells| :: cells[col] == CellAt(ps, cat, n, f, collapsed, Locate(cat, collapsed, col))
  {
    cells := [];
    var k := 0;
    while k < |cat.order|
      invariant k <= |cat.order| && |cells| == Before(cat, collapsed, k)
      invariant |cells| <= Width(cat, collapsed)
      invariant forall col | 0 <= col < |cells| :: cells[col] == CellAt(ps, cat, n, f, collapsed, Locate(cat, collapsed, col))
    {
      var q := cat.order[k];
      var i := 0;
      while i < Span(cat, q, collapsed)
        invariant i <= Span(cat, q, collapsed) && |cells| == Before(cat, collapsed, k) + i
        invariant |cells| <= Width(cat, collapsed)
        invariant forall col | 0 <= col < |cells| :: cells[col] == CellAt(ps, cat, n, f, collapsed, Locate(cat, collapsed, col))
      {
        LocateAt(cat, collapsed, k, i);
        cells := cells + [CellAt(ps, cat, n, f, collapsed, Column(k, i))];
        i := i + 1;
      }
      k := k + 1;
      BeforeMonotone(cat, collapsed, k, |cat.order|);
    }
  }
}
